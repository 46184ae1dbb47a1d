/** What resizing one file, or writing one of its sectors, does to it and to every other file. */
module FileSteps {
  import opened Base
  import opened FatTable
  import opened FirstFit
  import opened Geometry
  import opened Device
  import opened FatImage
  import opened FatRuns
  import opened FileData

  function Entries(g: BPB, img: Image): (r: seq<u32>)
    requires ValidBPB(g) && ValidImage(g, img)
    ensures |r| == ENTRIES_PER_SECTOR * g.fatSz32
  {
    Tables(g, img)[0]
  }

  predicate Apart(c: seq<nat>, d: seq<nat>) {
    forall x :: x in c ==> x !in d
  }

  lemma ApartSymmetric(c: seq<nat>, d: seq<nat>)
    ensures Apart(c, d) <==> Apart(d, c)
  {
  }

  lemma ApartSum(c: seq<nat>, p: seq<nat>, q: seq<nat>)
    ensures Apart(c, p + q) <==> Apart(c, p) && Apart(c, q)
  {
  }

  /** Free space changes by exactly what chain `d` gains over and loses against chain `c`. */
  predicate Traded(t: seq<u32>, u: seq<u32>, c: seq<nat>, d: seq<nat>) {
    |u| == |t| && forall n :: 0 <= n < |t| ==> TradedAt(t, u, c, d, n)
  }

  predicate TradedAt(t: seq<u32>, u: seq<u32>, c: seq<nat>, d: seq<nat>, n: nat)
    requires n < |t| && n < |u|
  {
    if n in d then Link(u, n) != 0 && (n in c || Link(t, n) == 0)
    else Link(u, n) == if n in c then 0 else Link(t, n)
  }

  /** Giving up clusters of a chain leaves a good hint good. */
  lemma HintSurvives(t: seq<u32>, u: seq<u32>, cnt: nat, hint: nat, c: seq<nat>, d: seq<nat>)
    requires Traded(t, u, c, d) && IsChain(t, c) && d <= c && cnt <= |t| && GoodHint(t, cnt, hint, 2)
    ensures GoodHint(u, cnt, hint, 2)
  {
    hide Link, IsChain;
    forall n | 0 <= n < |t| && Link(t, n) == 0 ensures Link(u, n) == 0 {
      if n in c {
        OwnedIsOccupied(t, c, n);
      }
      assert TradedAt(t, u, c, d, n);
    }
  }

  lemma TradedThrice(t: seq<u32>, u: seq<u32>, w: seq<u32>, c: seq<nat>, d: seq<nat>, e: seq<nat>)
    requires Traded(t, u, c, d) && Traded(u, w, d, e)
    ensures Traded(t, w, c, e)
  {
    hide Link;
    forall n | 0 <= n < |t| ensures TradedAt(t, w, c, e, n) {
      assert TradedAt(t, u, c, d, n) && TradedAt(u, w, d, e, n);
    }
  }

  lemma TurnedIsTraded(t: seq<u32>, u: seq<u32>, c: seq<nat>, d: seq<nat>)
    requires TurnsInto(t, u, |t|, c, d)
    ensures Traded(t, u, c, d)
  {
    forall n | 0 <= n < |t| ensures TradedAt(t, u, c, d, n) {
      if n in d {
        OwnedIsOccupied(u, d, n);
      }
    }
  }

  /**
   * Every other file, whose chain `e` has nothing in common with `c`, keeps its chain and its bytes, and
   * the clusters in `c` but not in `c'`, and no others, have become free.
   */
  ghost predicate OthersKept(g: BPB, a: Image, b: Image, c: seq<nat>, c': seq<nat>)
    requires ValidBPB(g) && ValidImage(g, a) && ValidImage(g, b)
  {
    && Traded(Entries(g, a), Entries(g, b), c, c')
    && forall e: seq<nat> :: IsChain(Entries(g, a), e) && OnVolume(g, e) && Apart(e, c) ==> KeptApart(g, a, b, e, c')
  }

  ghost predicate KeptApart(g: BPB, a: Image, b: Image, e: seq<nat>, c': seq<nat>)
    requires ValidBPB(g) && ValidImage(g, a) && ValidImage(g, b) && OnVolume(g, e)
  {
    IsChain(Entries(g, b), e) && Apart(e, c') && FileBytes(g, b, e) == FileBytes(g, a, e)
  }

  /**
   * What that means: for any other file, with chain `e`, and any cluster `n`, whether it was given up or has nothing to
   * do with either chain.
   */
  lemma OthersKeptMeans(g: BPB, a: Image, b: Image, c: seq<nat>, c': seq<nat>, e: seq<nat>, n: nat)
    requires ValidBPB(g) && ValidImage(g, a) && ValidImage(g, b) && OthersKept(g, a, b, c, c')
    ensures IsChain(Entries(g, a), e) && OnVolume(g, e) && (forall x :: x in e ==> x !in c) ==>
      && IsChain(Entries(g, b), e) && FileBytes(g, b, e) == FileBytes(g, a, e)
      && forall x :: x in e ==> x !in c'
    ensures n < |Entries(g, a)| && n !in c' ==>
      && n < |Entries(g, b)| && Link(Entries(g, b), n) == if n in c then 0 else Link(Entries(g, a), n)
  {
    hide Tables, FileBytes, OnVolume, IsChain, CountOfClusters, FirstDataSector, Link;
    if IsChain(Entries(g, a), e) && OnVolume(g, e) && forall x :: x in e ==> x !in c {
      assert Apart(e, c);
      assert KeptApart(g, a, b, e, c');
    }
    if n < |Entries(g, a)| {
      assert TradedAt(Entries(g, a), Entries(g, b), c, c', n);
    }
  }

  lemma OthersKeptThrice(g: BPB, a: Image, b: Image, d: Image, c: seq<nat>, c': seq<nat>, c'': seq<nat>)
    requires ValidBPB(g) && ValidImage(g, a) && ValidImage(g, b) && ValidImage(g, d)
    requires OthersKept(g, a, b, c, c') && OthersKept(g, b, d, c', c'')
    ensures OthersKept(g, a, d, c, c'')
  {
    hide ValidBPB, ValidImage, Tables, FileBytes, IsChain, Apart, OnVolume, TradedAt;
    TradedThrice(Entries(g, a), Entries(g, b), Entries(g, d), c, c', c'');
    forall e: seq<nat> | IsChain(Entries(g, a), e) && OnVolume(g, e) && Apart(e, c)
      ensures KeptApart(g, a, d, e, c'')
    {
    }
  }

  lemma TradedNothing(t: seq<u32>, c: seq<nat>)
    requires c == [] || IsChain(t, c)
    ensures Traded(t, t, c, c)
  {
    forall n | 0 <= n < |t| ensures TradedAt(t, t, c, c, n) {
      if n in c {
        OwnedIsOccupied(t, c, n);
      }
    }
  }

  lemma OthersKeptBySame(g: BPB, a: Image, c: seq<nat>)
    requires ValidBPB(g) && ValidImage(g, a) && (c == [] || IsChain(Entries(g, a), c))
    ensures OthersKept(g, a, a, c, c)
  {
    TradedNothing(Entries(g, a), c);
  }

  /** A further chain that is kept can be counted among the clusters spoken of. */
  lemma KeepsOneMore(g: BPB, a: Image, b: Image, c: seq<nat>, c': seq<nat>, k: seq<nat>)
    requires ValidBPB(g) && ValidImage(g, a) && ValidImage(g, b) && OthersKept(g, a, b, c, c')
    requires OnVolume(g, k) && (k == [] || IsChain(Entries(g, a), k)) && Apart(k, c)
    ensures OthersKept(g, a, b, c + k, c' + k)
    ensures k != [] ==> KeptApart(g, a, b, k, c')
  {
    hide Tables, FileBytes, OnVolume, IsChain, CountOfClusters, FirstDataSector;
    if k != [] {
      assert KeptApart(g, a, b, k, c');
    }
    TradedMore(Entries(g, a), Entries(g, b), c, c', k);
    forall e: seq<nat> | IsChain(Entries(g, a), e) && OnVolume(g, e) && Apart(e, c + k)
      ensures KeptApart(g, a, b, e, c' + k)
    {
      assert Apart(e, c) by { assert forall x :: x in c ==> x in c + k; }
    }
  }

  lemma TradedMore(t: seq<u32>, u: seq<u32>, c: seq<nat>, d: seq<nat>, k: seq<nat>)
    requires Traded(t, u, c, d) && (k == [] || IsChain(u, k))
    ensures Traded(t, u, c + k, d + k)
  {
    forall n | 0 <= n < |t| ensures TradedAt(t, u, c + k, d + k, n) {
      assert TradedAt(t, u, c, d, n);
      if n in k {
        OwnedIsOccupied(u, k, n);
      }
    }
  }

  ghost predicate SameMembers(c: seq<nat>, d: seq<nat>) {
    forall x :: x in c <==> x in d
  }

  /** Only which clusters are spoken of matters, not their order. */
  lemma SameClustersKept(g: BPB, a: Image, b: Image, c: seq<nat>, c': seq<nat>, d: seq<nat>, d': seq<nat>)
    requires ValidBPB(g) && ValidImage(g, a) && ValidImage(g, b) && OthersKept(g, a, b, c, c')
    requires SameMembers(c, d) && SameMembers(c', d')
    ensures OthersKept(g, a, b, d, d')
  {
    hide Tables, FileBytes, OnVolume, IsChain, CountOfClusters, FirstDataSector;
    forall n | 0 <= n < |Entries(g, a)| ensures TradedAt(Entries(g, a), Entries(g, b), d, d', n) {
      assert TradedAt(Entries(g, a), Entries(g, b), c, c', n);
    }
    forall e: seq<nat> | IsChain(Entries(g, a), e) && OnVolume(g, e) && Apart(e, d)
      ensures KeptApart(g, a, b, e, d')
    {
    }
  }

  /** Table entries outside `c` and `c'`, and the sectors of other clusters, are untouched. */
  lemma KeptByFrame(g: BPB, a: Image, b: Image, c: seq<nat>, c': seq<nat>)
    requires ValidBPB(g) && ValidImage(g, a) && ValidImage(g, b) && |a| == |b|
    requires Traded(Entries(g, a), Entries(g, b), c, c')
    requires forall n :: 0 <= n < |Entries(g, a)| && n !in c && n !in c' ==> Entries(g, b)[n] == Entries(g, a)[n]
    requires forall n :: n in c' && n !in c ==> n < |Entries(g, a)| && Link(Entries(g, a), n) == 0
    requires forall s ::
      FirstDataSector(g) <= s < |a| && ClusterOfSector(g, s) !in c && ClusterOfSector(g, s) !in c' ==> b[s] == a[s]
    ensures OthersKept(g, a, b, c, c')
  {
    hide Traded;
    forall e: seq<nat> | IsChain(Entries(g, a), e) && OnVolume(g, e) && Apart(e, c)
      ensures KeptApart(g, a, b, e, c')
    {
      OneKept(g, a, b, c, c', e);
    }
  }

  lemma OneKept(g: BPB, a: Image, b: Image, c: seq<nat>, c': seq<nat>, e: seq<nat>)
    requires ValidBPB(g) && ValidImage(g, a) && ValidImage(g, b) && |a| == |b|
    requires forall n :: 0 <= n < |Entries(g, a)| && n !in c && n !in c' ==> Entries(g, b)[n] == Entries(g, a)[n]
    requires forall n :: n in c' && n !in c ==> n < |Entries(g, a)| && Link(Entries(g, a), n) == 0
    requires forall s ::
      FirstDataSector(g) <= s < |a| && ClusterOfSector(g, s) !in c && ClusterOfSector(g, s) !in c' ==> b[s] == a[s]
    requires IsChain(Entries(g, a), e) && OnVolume(g, e) && Apart(e, c)
    ensures KeptApart(g, a, b, e, c')
  {
    hide Tables, FileSectors, ClusterOfSector, FirstDataSector, CountOfClusters, FileBytes;
    var t := Entries(g, a);
    forall n | n in e ensures n !in c' {
      OwnedIsOccupied(t, e, n);
    }
    forall i | 0 <= i < |e| ensures t[e[i]] == Entries(g, b)[e[i]] {
      assert e[i] in e;
    }
    forall s | 0 <= s < |a| && s in FileSectors(g, e) ensures a[s] == b[s] {
      SectorInFile(g, e, s);
    }
    FileBytesFrame(g, a, b, e);
  }

  lemma DataSectorsSame(g: BPB, a: Image, b: Image)
    requires ValidBPB(g) && SamePayload(g, a, b)
    ensures forall s :: FirstDataSector(g) <= s < |a| ==> b[s] == a[s]
  {
  }

  lemma CutTable(t: seq<u32>, c: seq<nat>, n: nat)
    requires (c == [] || IsChain(t, c)) && n <= |c| && Reserved(t)
    ensures WritesWithin(ShrinkWrites(c, n), |t|)
    ensures var u := Written(t, ShrinkWrites(c, n));
      && (c[..n] == [] || IsChain(u, c[..n])) && Reserved(u) && Traded(t, u, c, c[..n])
      && forall m :: 0 <= m < |t| && m !in c ==> u[m] == t[m]
  {
    hide Traded;
    ShrinkTurns(t, |t|, c, n);
    TurnedIsTraded(t, Written(t, ShrinkWrites(c, n)), c, c[..n]);
    if c == [] {
      ShrinkNothing(t, n);
    } else {
      ShrinkWritesCut(t, c, n);
    }
  }

  lemma EntriesWritten(g: BPB, a: Image, b: Image, ws: seq<Write>)
    requires ValidBPB(g) && ValidImage(g, a) && ValidImage(g, b)
    requires WritesWithin(ws, ENTRIES_PER_SECTOR * g.fatSz32) && WroteOn(g, a, b, ws)
    ensures Entries(g, b) == Written(Entries(g, a), ws) && SamePayload(g, a, b) && |a| == |b|
  {
  }

  /** After cutting `c` to `n` clusters the file holds a prefix of its bytes. */
  lemma CutFile(g: BPB, a: Image, b: Image, c: seq<nat>, n: nat)
    requires ValidBPB(g) && ValidImage(g, a) && ValidImage(g, b)
    requires (c == [] || IsChain(Entries(g, a), c)) && OnVolume(g, c) && n <= |c| && Reserved(Entries(g, a))
    requires WritesWithin(ShrinkWrites(c, n), ENTRIES_PER_SECTOR * g.fatSz32) && WroteOn(g, a, b, ShrinkWrites(c, n))
    ensures c[..n] == [] || IsChain(Entries(g, b), c[..n])
    ensures Reserved(Entries(g, b)) && OnVolume(g, c[..n])
    ensures OthersKept(g, a, b, c, c[..n])
    ensures FileBytes(g, a, c) == FileBytes(g, b, c[..n]) + FileBytes(g, a, c[n..])
  {
    hide Tables, FileSectors, ClusterOfSector, FirstDataSector, CountOfClusters, FileBytes, ShrinkWrites, Written;
    hide WroteOn, SamePayload, Link, IsChain, Traded, OthersKept, Reserved;
    EntriesWritten(g, a, b, ShrinkWrites(c, n));
    CutTable(Entries(g, a), c, n);
    DataSectorsSame(g, a, b);
    KeptByFrame(g, a, b, c, c[..n]);
    FileBytesAppend(g, a, c[..n], c[n..]);
    assert c == c[..n] + c[n..];
    SamePayloadBytes(g, a, b, c[..n]);
  }

  lemma ShrinkNothing(t: seq<u32>, n: nat)
    requires n == 0
    ensures Written(t, ShrinkWrites([], n)) == t
  {
  }

  lemma SamePayloadBytes(g: BPB, a: Image, b: Image, c: seq<nat>)
    requires ValidBPB(g) && ValidImage(g, a) && ValidImage(g, b) && SamePayload(g, a, b) && OnVolume(g, c)
    ensures FileBytes(g, b, c) == FileBytes(g, a, c)
  {
    hide Tables, FileSectors, ClusterOfSector, FirstDataSector, CountOfClusters, FileBytes, SamePayload;
    DataSectorsSame(g, a, b);
    PayloadLength(g, a, b);
    forall s | 0 <= s < |a| && s in FileSectors(g, c) ensures a[s] == b[s] {
      SectorInFile(g, c, s);
    }
    FileBytesFrame(g, a, b, c);
  }

  lemma PayloadLength(g: BPB, a: Image, b: Image)
    requires SamePayload(g, a, b)
    ensures |a| == |b|
  {
  }

  /** After growing `c` by fresh clusters `d` the file holds its old bytes, then what `d` held or zeros. */
  lemma GrowFile(g: BPB, a: Image, base: Image, b: Image, clear: bool, c: seq<nat>, d: seq<nat>)
    requires ValidBPB(g) && ValidImage(g, a) && ValidImage(g, base) && ValidImage(g, b)
    requires base == if clear then Cleared(g, a, d) else a
    requires (c == [] || IsChain(Entries(g, a), c)) && OnVolume(g, c) && OnVolume(g, d) && OnVolume(g, c + d)
    requires |d| > 0 && Fresh(Entries(g, a), d) && Reserved(Entries(g, a))
    requires WritesWithin(GrowWrites(c, d), ENTRIES_PER_SECTOR * g.fatSz32) && WroteOn(g, base, b, GrowWrites(c, d))
    ensures IsChain(Entries(g, b), c + d) && Reserved(Entries(g, b))
    ensures OthersKept(g, a, b, c, c + d)
    ensures var more := if clear then Zeros(|FileBytes(g, a, d)|) else FileBytes(g, a, d);
      FileBytes(g, b, c + d) == FileBytes(g, a, c) + more
  {
    hide Tables, FileSectors, ClusterOfSector, FirstDataSector, CountOfClusters, FileBytes, GrowWrites, Written;
    hide Cleared, Traded;
    if clear {
      ClearedKeepsTables(g, a, d);
    }
    var t := Entries(g, a);
    FreshApart(t, c, d);
    GrowWritesJoin(t, c, d);
    GrowTrades(t, c, d);
    assert 0 !in c + d && 1 !in c + d by { NoReserved(t, c); }
    GrowKeepsOthers(g, a, b, clear, c, d);
    FileBytesAppend(g, b, c, d);
    SamePayloadBytes(g, base, b, c);
    SamePayloadBytes(g, base, b, d);
    if clear {
      ClearedBytes(g, a, c, d);
    }
  }

  lemma GrowTrades(t: seq<u32>, c: seq<nat>, d: seq<nat>)
    requires (c == [] || IsChain(t, c)) && |d| > 0 && Fresh(t, d)
    ensures WritesWithin(GrowWrites(c, d), |t|) && Traded(t, Written(t, GrowWrites(c, d)), c, c + d)
  {
    hide Traded, Written;
    GrowTurns(t, |t|, c, d);
    TurnedIsTraded(t, Written(t, GrowWrites(c, d)), c, c + d);
  }

  lemma NoReserved(t: seq<u32>, c: seq<nat>)
    requires c == [] || IsChain(t, c)
    ensures 0 !in c && 1 !in c
  {
  }

  lemma FreshApart(t: seq<u32>, c: seq<nat>, d: seq<nat>)
    requires (c == [] || IsChain(t, c)) && Fresh(t, d)
    ensures forall i, j :: 0 <= i < |c| && 0 <= j < |d| ==> c[i] != d[j]
  {
    forall i, j | 0 <= i < |c| && 0 <= j < |d| ensures c[i] != d[j] {
      OwnedIsOccupied(t, c, c[i]);
    }
  }

  lemma GrowKeepsOthers(g: BPB, a: Image, b: Image, clear: bool, c: seq<nat>, d: seq<nat>)
    requires ValidBPB(g) && ValidImage(g, a) && ValidImage(g, b)
    requires Fresh(Entries(g, a), d) && Traded(Entries(g, a), Entries(g, b), c, c + d)
    requires forall m :: 0 <= m < |Entries(g, a)| && m !in c && m !in d ==> Entries(g, b)[m] == Entries(g, a)[m]
    requires SamePayload(g, if clear then Cleared(g, a, d) else a, b)
    ensures OthersKept(g, a, b, c, c + d)
  {
    hide Tables, FirstDataSector, CountOfClusters, FileBytes, IsChain, Traded;
    var base := if clear then Cleared(g, a, d) else a;
    KeptByFrame(g, a, b, c, c + d);
  }

  lemma ClearedBytes(g: BPB, a: Image, c: seq<nat>, d: seq<nat>)
    requires ValidBPB(g) && ValidImage(g, a) && ValidImage(g, Cleared(g, a, d)) && OnVolume(g, c) && OnVolume(g, d)
    requires forall i, j :: 0 <= i < |c| && 0 <= j < |d| ==> c[i] != d[j]
    ensures FileBytes(g, Cleared(g, a, d), c) == FileBytes(g, a, c)
    ensures FileBytes(g, Cleared(g, a, d), d) == Zeros(|FileBytes(g, a, d)|)
  {
    hide FileSectors, ClusterOfSector, FirstDataSector, CountOfClusters;
    var base := Cleared(g, a, d);
    forall s | 0 <= s < |a| && s in FileSectors(g, c) ensures a[s] == base[s] {
      SectorInFile(g, c, s);
    }
    FileBytesFrame(g, a, base, c);
    FileSectorsOn(g, base, d);
    var ss := FileSectors(g, d);
    forall i | 0 <= i < SECTOR_SIZE * |ss| ensures BytesOf(base, ss)[i] == 0 {
      var s := ss[i / SECTOR_SIZE];
      SectorInFile(g, d, s);
    }
  }

  /** Copying `data` into file sector `k` of chain `c`. */
  lemma WriteFileSector(g: BPB, img: Image, c: seq<nat>, k: nat, off: nat, data: seq<byte>)
    requires ValidBPB(g) && ValidImage(g, img) && OnVolume(g, c) && IsChain(Entries(g, img), c)
    requires k < |FileSectors(g, c)| && off + |data| <= SECTOR_SIZE
    ensures var s := FileSectors(g, c)[k];
      && s < |img| && |img[s]| == SECTOR_SIZE
      && var img' := img[s := Splice(img[s], off, data)];
      && ValidImage(g, img') && Tables(g, img') == Tables(g, img) && OthersKept(g, img, img', c, c)
      && FileBytes(g, img', c) == Splice(FileBytes(g, img, c), SECTOR_SIZE * k + off, data)
  {
    hide FileSectors, ClusterOfSector, FirstDataSector, CountOfClusters, IsChain, Traded;
    ChainIsAcyclic(Entries(g, img), c);
    TradedNothing(Entries(g, img), c);
    FileSectorAt(g, c, k);
    FileSectorsOn(g, img, c);
    SectorNoIsBijection(g, c);
    var s := FileSectors(g, c)[k];
    var img' := img[s := Splice(img[s], off, data)];
    SectorWriteSplices(img, FileSectors(g, c), k, off, data);
    DataWriteKeepsTables(g, img, s, img'[s]);
    KeptByFrame(g, img, img', c, c);
  }

  lemma DataWriteKeepsTables(g: BPB, img: Image, s: nat, sec: seq<byte>)
    requires ValidBPB(g) && ValidImage(g, img) && FirstDataSector(g) <= s < |img| && |sec| == SECTOR_SIZE
    ensures ValidImage(g, img[s := sec]) && Tables(g, img[s := sec]) == Tables(g, img)
  {
    hide CountOfClusters;
    var img' := img[s := sec];
    forall k | 0 <= k < g.numFats ensures Table(g, img', k) == Table(g, img, k) {
      forall n | 0 <= n < ENTRIES_PER_SECTOR * g.fatSz32 ensures Table(g, img', k)[n] == Table(g, img, k)[n] {
        var i, j := n / ENTRIES_PER_SECTOR, n % ENTRIES_PER_SECTOR;
        CopySectorBounds(g, k, i);
      }
    }
  }
}
