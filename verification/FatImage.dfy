/** The allocation table as it lies in the sectors of a device, in every FAT copy. */
module FatImage {
  import opened Base
  import opened FatTable
  import opened Geometry
  import opened Device

  predicate ValidImage(g: BPB, img: Image) {
    && g.totSec32 <= |img|
    && forall s :: 0 <= s < |img| ==> |img[s]| == SECTOR_SIZE
  }

  predicate IsFatSector(g: BPB, s: nat) {
    g.resvdSecCnt <= s < FirstDataSector(g)
  }

  /** Everything outside the FAT region is the same in both images. */
  predicate SamePayload(g: BPB, img: Image, img': Image) {
    && |img| == |img'|
    && forall s :: 0 <= s < |img| && !IsFatSector(g, s) ==> img[s] == img'[s]
  }

  function Words(sec: seq<byte>): (r: seq<u32>)
    requires |sec| == SECTOR_SIZE
    ensures |r| == ENTRIES_PER_SECTOR
    ensures forall j :: 0 <= j < ENTRIES_PER_SECTOR ==> r[j] == ReadU32(sec, 4 * j)
  {
    seq(ENTRIES_PER_SECTOR, j requires 0 <= j < ENTRIES_PER_SECTOR => ReadU32(sec, 4 * j))
  }

  function ReadFatWord(sec: seq<byte>, off: nat): nat
    requires off + 4 <= |sec|
  {
    LinkOf(ReadU32(sec, off))
  }

  /** `writeFATClusEntryVal`: the four bytes at `off`, keeping their top four bits. */
  function WriteFatWord(sec: seq<byte>, off: nat, v: nat): (r: seq<byte>)
    requires off + 4 <= |sec|
    ensures |r| == |sec|
  {
    WriteU32(sec, off, Stamp(ReadU32(sec, off), v))
  }

  lemma WriteFatWordSets(sec: seq<byte>, j: nat, v: nat)
    requires |sec| == SECTOR_SIZE && j < ENTRIES_PER_SECTOR
    ensures Words(WriteFatWord(sec, 4 * j, v)) == SetLink(Words(sec), j, v)
  {
  }

  function CopySector(g: BPB, k: nat, i: nat): nat {
    FirstFATSector(g, k) + i
  }

  lemma CopySectorBounds(g: BPB, k: nat, i: nat)
    requires k < g.numFats && i < g.fatSz32
    ensures IsFatSector(g, CopySector(g, k, i))
  {
    RowBound(k, i, g.fatSz32, g.numFats);
  }

  lemma CopySectorInjective(g: BPB, k: nat, i: nat, l: nat, j: nat)
    requires i < g.fatSz32 && j < g.fatSz32
    ensures CopySector(g, k, i) == CopySector(g, l, j) <==> k == l && i == j
  {
    RowColumn(k, i, g.fatSz32);
    RowColumn(l, j, g.fatSz32);
  }

  /** The raw entries of FAT copy `k`. */
  function Table(g: BPB, img: Image, k: nat): (r: seq<u32>)
    requires ValidBPB(g) && ValidImage(g, img) && k < g.numFats
    ensures |r| == ENTRIES_PER_SECTOR * g.fatSz32
  {
    seq(ENTRIES_PER_SECTOR * g.fatSz32, n requires 0 <= n < ENTRIES_PER_SECTOR * g.fatSz32 =>
      CopySectorBounds(g, k, n / ENTRIES_PER_SECTOR);
      Words(img[CopySector(g, k, n / ENTRIES_PER_SECTOR)])[n % ENTRIES_PER_SECTOR])
  }

  function Tables(g: BPB, img: Image): (r: seq<seq<u32>>)
    requires ValidBPB(g) && ValidImage(g, img)
    ensures |r| == g.numFats && forall k :: 0 <= k < |r| ==> |r[k]| == ENTRIES_PER_SECTOR * g.fatSz32
  {
    seq(g.numFats, k requires 0 <= k < g.numFats => Table(g, img, k))
  }

  lemma TableWord(g: BPB, img: Image, k: nat, i: nat, j: nat)
    requires ValidBPB(g) && ValidImage(g, img) && k < g.numFats
    requires i < g.fatSz32 && j < ENTRIES_PER_SECTOR
    ensures CopySector(g, k, i) < |img|
    ensures Table(g, img, k)[ENTRIES_PER_SECTOR * i + j] == Words(img[CopySector(g, k, i)])[j]
  {
    CopySectorBounds(g, k, i);
    assert (ENTRIES_PER_SECTOR * i + j) / ENTRIES_PER_SECTOR == i;
  }

  /** Entry `128 * i + j` of copy `k`: the four bytes at offset `4 * j` of its `i`th sector, low byte first. */
  lemma EntryBytes(g: BPB, img: Image, k: nat, i: nat, j: nat)
    requires ValidBPB(g) && ValidImage(g, img) && k < g.numFats
    requires i < g.fatSz32 && j < 128
    ensures var s := g.resvdSecCnt + k * g.fatSz32 + i;
      && s < |img| && |img[s]| == 512 && 128 * i + j < |Table(g, img, k)|
      && var b: seq<nat> := img[s][4 * j..4 * j + 4];
      Table(g, img, k)[128 * i + j] == b[0] + 256 * b[1] + 65536 * b[2] + 16777216 * b[3]
  {
    hide Table, FirstDataSector, CountOfClusters;
    TableWord(g, img, k, i, j);
  }

  /** Stamping one word of one copy sets that entry of that copy and nothing else on the device. */
  lemma StampSetsEntry(g: BPB, img: Image, k: nat, i: nat, j: nat, v: nat)
    requires ValidBPB(g) && ValidImage(g, img) && k < g.numFats
    requires i < g.fatSz32 && j < ENTRIES_PER_SECTOR
    ensures var s := CopySector(g, k, i);
      && s < |img|
      && var img' := img[s := WriteFatWord(img[s], 4 * j, v)];
      && ValidImage(g, img') && SamePayload(g, img, img')
      && Tables(g, img') == Tables(g, img)[k := SetLink(Table(g, img, k), ENTRIES_PER_SECTOR * i + j, v)]
  {
    CopySectorBounds(g, k, i);
    var s := CopySector(g, k, i);
    var img' := img[s := WriteFatWord(img[s], 4 * j, v)];
    WriteFatWordSets(img[s], j, v);
    forall l | 0 <= l < g.numFats
      ensures Table(g, img', l) ==
              if l == k then SetLink(Table(g, img, k), ENTRIES_PER_SECTOR * i + j, v) else Table(g, img, l)
    {
      StampInTable(g, img, img', k, i, j, v, l);
    }
  }

  lemma StampInTable(g: BPB, img: Image, img': Image, k: nat, i: nat, j: nat, v: nat, l: nat)
    requires ValidBPB(g) && ValidImage(g, img) && ValidImage(g, img') && |img'| == |img|
    requires k < g.numFats && l < g.numFats && i < g.fatSz32 && j < ENTRIES_PER_SECTOR
    requires forall s :: 0 <= s < |img| && s != CopySector(g, k, i) ==> img'[s] == img[s]
    requires CopySector(g, k, i) < |img|
    requires Words(img'[CopySector(g, k, i)]) == SetLink(Words(img[CopySector(g, k, i)]), j, v)
    ensures Table(g, img', l) ==
            if l == k then SetLink(Table(g, img, k), ENTRIES_PER_SECTOR * i + j, v) else Table(g, img, l)
  {
    hide Table, Words, CopySector, CountOfClusters, FirstDataSector, Stamp;
    var n := ENTRIES_PER_SECTOR * i + j;
    TableWord(g, img, k, i, j);
    forall m | 0 <= m < ENTRIES_PER_SECTOR * g.fatSz32
      ensures Table(g, img', l)[m] == if l == k && m == n then Stamp(Table(g, img, k)[n], v) else Table(g, img, l)[m]
    {
      var p, q := m / ENTRIES_PER_SECTOR, m % ENTRIES_PER_SECTOR;
      TableWord(g, img, l, p, q);
      TableWord(g, img', l, p, q);
      CopySectorInjective(g, k, i, l, p);
    }
  }

  /** The tables and the payload determine the image byte for byte. */
  lemma TablesDetermineImage(g: BPB, img: Image, img': Image)
    requires ValidBPB(g) && ValidImage(g, img) && ValidImage(g, img')
    requires SamePayload(g, img, img') && Tables(g, img) == Tables(g, img')
    ensures img == img'
  {
    hide Tables, Table, CountOfClusters, FirstDataSector;
    forall s | 0 <= s < |img| ensures img[s] == img'[s] {
      if IsFatSector(g, s) {
        TablesDetermineSector(g, img, img', s);
      }
    }
  }

  lemma TablesDetermineSector(g: BPB, img: Image, img': Image, s: nat)
    requires ValidBPB(g) && ValidImage(g, img) && ValidImage(g, img') && |img| == |img'|
    requires Tables(g, img) == Tables(g, img') && IsFatSector(g, s) && s < |img|
    ensures img[s] == img'[s]
  {
    hide Tables, IsFatSector, CopySector, FirstDataSector, CountOfClusters, Words;
    var k, i := CopyOf(g, s);
    assert Tables(g, img)[k] == Tables(g, img')[k];
    TablesAt(g, img, k);
    TablesAt(g, img', k);
    hide Table;
    forall j | 0 <= j < ENTRIES_PER_SECTOR ensures Words(img[s])[j] == Words(img'[s])[j] {
      TableWord(g, img, k, i, j);
      TableWord(g, img', k, i, j);
    }
    WordsDetermineSector(img[s], img'[s]);
  }

  /** Every FAT sector belongs to some copy. */
  lemma CopyOf(g: BPB, s: nat) returns (k: nat, i: nat)
    requires g.fatSz32 > 0 && IsFatSector(g, s)
    ensures k < g.numFats && i < g.fatSz32 && CopySector(g, k, i) == s
  {
    var x := s - g.resvdSecCnt;
    ColumnOf(x, g.fatSz32, g.numFats);
    k, i := x / g.fatSz32, x % g.fatSz32;
  }

  lemma TablesAt(g: BPB, img: Image, k: nat)
    requires ValidBPB(g) && ValidImage(g, img) && k < g.numFats
    ensures k < |Tables(g, img)| && Tables(g, img)[k] == Table(g, img, k)
  {
    hide Table, CountOfClusters, FirstDataSector;
  }

  lemma WordsDetermineSector(x: seq<byte>, y: seq<byte>)
    requires |x| == |y| == SECTOR_SIZE && Words(x) == Words(y)
    ensures x == y
  {
    hide ReadU32;
    forall b | 0 <= b < SECTOR_SIZE ensures x[b] == y[b] {
      var j := b / 4;
      assert Words(x)[j] == ReadU32(x, 4 * j) && Words(y)[j] == ReadU32(y, 4 * j);
      WordDeterminesBytes(x, y, 4 * j);
    }
  }

  // ----- the allocator's writes, on every copy -----

  predicate SameLength(ts: seq<seq<u32>>, size: nat) {
    forall k :: 0 <= k < |ts| ==> |ts[k]| == size
  }

  /** Every copy after the writes `ws`. */
  function WrittenAll(ts: seq<seq<u32>>, ws: seq<Write>): (r: seq<seq<u32>>)
    requires forall k :: 0 <= k < |ts| ==> WritesWithin(ws, |ts[k]|)
    ensures |r| == |ts| && forall k :: 0 <= k < |ts| ==> r[k] == Written(ts[k], ws)
  {
    seq(|ts|, k requires 0 <= k < |ts| => Written(ts[k], ws))
  }

  /** `img` is `base` with the writes `ws` made to every FAT copy, and nothing else changed. */
  predicate WroteOn(g: BPB, base: Image, img: Image, ws: seq<Write>)
    requires ValidBPB(g) && ValidImage(g, base) && ValidImage(g, img)
    requires WritesWithin(ws, ENTRIES_PER_SECTOR * g.fatSz32)
  {
    && SamePayload(g, base, img)
    && Tables(g, img) == WrittenAll(Tables(g, base), ws)
  }

  predicate AllAgree(ts: seq<seq<u32>>) {
    forall k, l :: 0 <= k < |ts| && 0 <= l < |ts| ==> ts[k] == ts[l]
  }

  /** Copies that agree before any run of writes agree after it. */
  lemma WritesKeepAgreement(ts: seq<seq<u32>>, ws: seq<Write>)
    requires forall k :: 0 <= k < |ts| ==> WritesWithin(ws, |ts[k]|)
    requires AllAgree(ts)
    ensures AllAgree(WrittenAll(ts, ws))
  {
  }

  /** The first `k` copies have the entry of `n` set to `v`, the others are still as in `ts`. */
  predicate MirroredUpTo(ts: seq<seq<u32>>, us: seq<seq<u32>>, n: nat, v: nat, k: nat) {
    && |us| == |ts|
    && (forall l :: 0 <= l < |ts| ==> n < |ts[l]|)
    && forall l :: 0 <= l < |ts| ==> us[l] == if l < k then SetLink(ts[l], n, v) else ts[l]
  }

  /** `writeFatEntry` on one copy. */
  lemma StampMirrors(g: BPB, img: Image, ts: seq<seq<u32>>, k: nat, i: nat, j: nat, v: nat)
    requires ValidBPB(g) && ValidImage(g, img) && k < g.numFats
    requires i < g.fatSz32 && j < ENTRIES_PER_SECTOR
    requires MirroredUpTo(ts, Tables(g, img), ENTRIES_PER_SECTOR * i + j, v, k)
    ensures var s := CopySector(g, k, i);
      && s < |img| && |img[s]| == SECTOR_SIZE
      && var img' := img[s := WriteFatWord(img[s], 4 * j, v)];
      && ValidImage(g, img') && SamePayload(g, img, img')
      && MirroredUpTo(ts, Tables(g, img'), ENTRIES_PER_SECTOR * i + j, v, k + 1)
  {
    StampSetsEntry(g, img, k, i, j, v);
  }

  lemma SamePayloadReflexive(g: BPB, a: Image)
    ensures SamePayload(g, a, a)
  {
  }

  lemma SamePayloadTransitive(g: BPB, a: Image, b: Image, c: Image)
    requires SamePayload(g, a, b) && SamePayload(g, b, c)
    ensures SamePayload(g, a, c)
  {
  }

  // ----- clearing data clusters -----

  function ClusterOfSector(g: BPB, s: nat): nat
    requires ValidBPB(g) && FirstDataSector(g) <= s
  {
    (s - FirstDataSector(g)) / g.secPerClus + 2
  }

  /** The image with every sector of the clusters `c` zeroed. */
  function Cleared(g: BPB, img: Image, c: seq<nat>): (r: Image)
    requires ValidBPB(g) && ValidImage(g, img)
    ensures |r| == |img|
  {
    seq(|img|, s requires 0 <= s < |img| =>
      if FirstDataSector(g) <= s && ClusterOfSector(g, s) in c then Zeros(SECTOR_SIZE) else img[s])
  }

  /** Of a cluster in `c` every sector is zeroed, of any other cluster and of the FAT region none. */
  lemma ClearedMeans(g: BPB, img: Image, c: seq<nat>, n: nat, s: nat)
    requires ValidBPB(g) && ValidImage(g, img) && 2 <= n && s < |img|
    ensures FirstSectorOfCluster(g, n) <= s < FirstSectorOfCluster(g, n) + g.secPerClus ==>
      Cleared(g, img, c)[s] == if n in c then Zeros(512) else img[s]
    ensures s < g.resvdSecCnt + g.numFats * g.fatSz32 ==> Cleared(g, img, c)[s] == img[s]
  {
    hide CountOfClusters, FirstSectorOfCluster, ClusterOfSector;
    if FirstDataSector(g) <= s {
      SectorsOfCluster(g, n, s);
    }
  }

  /** Clearing data clusters keeps the image valid and every FAT entry of every copy. */
  lemma ClearedKeepsTables(g: BPB, img: Image, c: seq<nat>)
    requires ValidBPB(g) && ValidImage(g, img)
    ensures ValidImage(g, Cleared(g, img, c))
    ensures Tables(g, Cleared(g, img, c)) == Tables(g, img)
  {
    var r := Cleared(g, img, c);
    forall k | 0 <= k < g.numFats ensures Table(g, r, k) == Table(g, img, k) {
      forall n | 0 <= n < ENTRIES_PER_SECTOR * g.fatSz32 ensures Table(g, r, k)[n] == Table(g, img, k)[n] {
        var i, j := n / ENTRIES_PER_SECTOR, n % ENTRIES_PER_SECTOR;
        CopySectorBounds(g, k, i);
      }
    }
  }

  /** `Cleared(g, img, c)` with the first `j` sectors of cluster `n` zeroed as well. */
  function ClearedPart(g: BPB, img: Image, c: seq<nat>, n: nat, j: nat): (r: Image)
    requires ValidBPB(g) && ValidImage(g, img) && 2 <= n
    ensures |r| == |img|
  {
    var fst := FirstSectorOfCluster(g, n);
    seq(|img|, s requires 0 <= s < |img| => if fst <= s < fst + j then Zeros(SECTOR_SIZE) else Cleared(g, img, c)[s])
  }

  lemma ClearedPartStep(g: BPB, img: Image, c: seq<nat>, n: nat, j: nat)
    requires ValidBPB(g) && ValidImage(g, img) && 2 <= n && FirstSectorOfCluster(g, n) + j < |img|
    ensures ClearedPart(g, img, c, n, j)[FirstSectorOfCluster(g, n) + j := Zeros(SECTOR_SIZE)] == ClearedPart(g, img,
      c, n, j + 1)
  {
  }

  lemma ClearedPartStart(g: BPB, img: Image, c: seq<nat>, n: nat)
    requires ValidBPB(g) && ValidImage(g, img) && 2 <= n
    ensures ClearedPart(g, img, c, n, 0) == Cleared(g, img, c)
  {
  }

  lemma ClearedPartEnd(g: BPB, img: Image, c: seq<nat>, n: nat)
    requires ValidBPB(g) && ValidImage(g, img) && 2 <= n
    ensures ClearedPart(g, img, c, n, g.secPerClus) == Cleared(g, img, c + [n])
  {
    hide FirstSectorOfCluster, FirstDataSector, CountOfClusters, ValidImage, ClusterOfSector;
    var a, b := ClearedPart(g, img, c, n, g.secPerClus), Cleared(g, img, c + [n]);
    forall s | 0 <= s < |img| ensures a[s] == b[s] {
      if FirstDataSector(g) <= s {
        SectorsOfCluster(g, n, s);
        assert Cleared(g, img, c)[s] == if ClusterOfSector(g, s) in c then Zeros(SECTOR_SIZE) else img[s];
      } else {
        assert Cleared(g, img, c)[s] == img[s];
      }
    }
  }

  lemma ClearedNone(g: BPB, img: Image)
    requires ValidBPB(g) && ValidImage(g, img)
    ensures Cleared(g, img, []) == img
  {
  }

  lemma SectorsOfCluster(g: BPB, n: nat, s: nat)
    requires ValidBPB(g) && 2 <= n && FirstDataSector(g) <= s
    ensures ClusterOfSector(g, s) == n <==> FirstSectorOfCluster(g, n) <= s < FirstSectorOfCluster(g, n) + g.secPerClus
  {
    hide CountOfClusters, FirstDataSector;
    RowIff(s - FirstDataSector(g), n - 2, g.secPerClus);
  }
}
