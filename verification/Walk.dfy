/**
 * Walking the directory entries of a cluster chain sector by sector, as `iterClusChainEntry` does for
 * a file that looks for its own entries in its parent.
 */
module Walk {
  import opened Base
  import opened Geometry
  import opened FileData

  const ENTRIES_IN_SECTOR := 16

  /** Index into the chain, sector within the cluster, byte within the sector. */
  datatype Pos = Pos(chainIndex: nat, secIndex: nat, secOff: nat)

  /** Where entry `m` of a directory lies. */
  function EntryPos(g: BPB, m: nat): Pos
    requires g.secPerClus > 0
  {
    var k := m / ENTRIES_IN_SECTOR;
    Pos(Row(k, g.secPerClus), Col(k, g.secPerClus), 32 * (m % ENTRIES_IN_SECTOR))
  }

  /** Where the walk for the file at entry `m` starts: always in the first cluster. */
  function StartPos(g: BPB, m: nat): Pos
    requires g.bytesPerSec > 0
  {
    Pos(0, m * 32 / g.bytesPerSec, m * 32 % g.bytesPerSec)
  }

  /** The entry lies in the first cluster of its directory. */
  predicate InFirstCluster(g: BPB, m: nat) {
    32 * m < BytesPerClus(g)
  }

  /** The walk starts at entry `m` itself exactly if the entry lies in the first cluster. */
  lemma StartsInFirstClusterIff(g: BPB, m: nat)
    requires ValidBPB(g)
    ensures StartPos(g, m) == EntryPos(g, m) <==> InFirstCluster(g, m)
  {
    var k := m / ENTRIES_IN_SECTOR;
    FirstRow(k, g.secPerClus);
  }

  lemma FirstRow(k: nat, w: nat)
    requires w > 0
    ensures Row(k, w) == 0 && Col(k, w) == k <==> k < w
  {
  }

  /** The device sector that the walk reads at a position of the chain `c`. */
  function SectorAt(g: BPB, c: seq<nat>, p: Pos): nat
    requires p.chainIndex < |c| && c[p.chainIndex] >= 2
  {
    FirstSectorOfCluster(g, c[p.chainIndex]) + p.secIndex
  }

  function EntryCount(g: BPB, c: seq<nat>): nat {
    ENTRIES_IN_SECTOR * Cells(|c|, g.secPerClus)
  }

  /** At the position of entry `m` the walk reads the sector that reading entry `m` through the file reads. */
  lemma WalkMeetsFile(g: BPB, c: seq<nat>, m: nat)
    requires ValidBPB(g) && OnVolume(g, c) && m < EntryCount(g, c)
    ensures EntryPos(g, m).chainIndex < |c| && m / ENTRIES_IN_SECTOR < |FileSectors(g, c)|
    ensures SectorAt(g, c, EntryPos(g, m)) == FileSectors(g, c)[m / ENTRIES_IN_SECTOR]
    ensures EntryPos(g, m).secOff + 32 <= SECTOR_SIZE
    ensures SECTOR_SIZE * (m / ENTRIES_IN_SECTOR) + EntryPos(g, m).secOff == 32 * m
  {
    hide CountOfClusters, FirstSectorOfCluster, FileSectors, Cells, Row, Col;
    FileSectorAt(g, c, m / ENTRIES_IN_SECTOR);
  }

  /**
   * Where the walk that starts for the file at entry `s` stands once it should have come to entry `m`. A
   * walk that starts past the first cluster never comes back into a cluster: see `WalkComesTo`.
   */
  function WalkPos(g: BPB, s: nat, m: nat): Pos
    requires ValidBPB(g)
  {
    if InFirstCluster(g, s) then EntryPos(g, m) else StartPos(g, m)
  }

  /** The cluster of entry `m` lies as far behind the first one on the device as it does in the chain. */
  predicate InStep(g: BPB, c: seq<nat>, m: nat)
    requires g.secPerClus > 0
  {
    var q := EntryPos(g, m).chainIndex;
    q < |c| && c[q] == c[0] + q
  }

  /** The walk over the `n` entries from `s` on, which start in the first cluster or lie in clusters in step. */
  predicate WalkFits(g: BPB, c: seq<nat>, s: nat, n: nat)
    requires ValidBPB(g)
  {
    InFirstCluster(g, s) || forall m :: s <= m < s + n ==> InStep(g, c, m)
  }

  /** What matters of the chain is the part that the entries lie in. */
  lemma FitsShared(g: BPB, c: seq<nat>, d: seq<nat>, s: nat, n: nat, k: nat)
    requires ValidBPB(g) && WalkFits(g, c, s, n) && k <= n && c != [] && d != []
    requires d <= c || c <= d
    requires s + k <= EntryCount(g, d)
    ensures WalkFits(g, d, s, k)
  {
    hide EntryCount, CountOfClusters, FirstDataSector, InFirstCluster, EntryPos;
    assert d[0] == c[0];
    if !InFirstCluster(g, s) {
      forall m | s <= m < s + k ensures InStep(g, d, m) {
        EntryInChain(g, d, m);
        assert InStep(g, c, m);
      }
    }
  }

  lemma EntryInChain(g: BPB, c: seq<nat>, m: nat)
    requires g.secPerClus > 0 && m < EntryCount(g, c)
    ensures EntryPos(g, m).chainIndex < |c|
  {
    CellInGrid(m / ENTRIES_IN_SECTOR, g.secPerClus, |c|);
  }

  /** At entry `m` the walk for the file at entry `s` reads the sector and the bytes that are the entry's own. */
  predicate MeetsEntry(g: BPB, c: seq<nat>, s: nat, m: nat)
    requires ValidBPB(g) && OnVolume(g, c)
  {
    var p := WalkPos(g, s, m);
    && p.chainIndex < |c| && m / ENTRIES_IN_SECTOR < |FileSectors(g, c)|
    && SectorAt(g, c, p) == FileSectors(g, c)[m / ENTRIES_IN_SECTOR]
    && SECTOR_SIZE * (m / ENTRIES_IN_SECTOR) + p.secOff == 32 * m
  }

  /** A walk over a file's own entries reads them, and not others, exactly if it fits the chain. */
  lemma WalkRightIff(g: BPB, c: seq<nat>, s: nat, n: nat)
    requires ValidBPB(g) && OnVolume(g, c) && c != [] && s + n <= EntryCount(g, c)
    ensures (forall m :: s <= m < s + n ==> MeetsEntry(g, c, s, m)) <==> WalkFits(g, c, s, n)
  {
    hide EntryCount, EntryPos, StartPos, MeetsEntry, InStep;
    forall m | s <= m < s + n ensures MeetsEntry(g, c, s, m) <==> InFirstCluster(g, s) || InStep(g, c, m) {
      EntryRightIff(g, c, s, m);
    }
  }

  lemma EntryRightIff(g: BPB, c: seq<nat>, s: nat, m: nat)
    requires ValidBPB(g) && OnVolume(g, c) && c != [] && m < EntryCount(g, c)
    ensures MeetsEntry(g, c, s, m) <==> InFirstCluster(g, s) || InStep(g, c, m)
    ensures EntryPos(g, m).chainIndex < |c| && WalkPos(g, s, m).secOff == EntryPos(g, m).secOff
    ensures EntryPos(g, m).secOff + 32 <= SECTOR_SIZE
    ensures MeetsEntry(g, c, s, m) ==>
      WalkPos(g, s, m).chainIndex < |c| && SectorAt(g, c, WalkPos(g, s, m)) == SectorAt(g, c, EntryPos(g, m))
  {
    hide CountOfClusters, FirstDataSector, FileSectors, Cells, BytesPerClus;
    WalkMeetsFile(g, c, m);
    var k, w := m / ENTRIES_IN_SECTOR, g.secPerClus;
    StartOffset(m);
    var q := EntryPos(g, m).chainIndex;
    DivMod(k, w);
    RowsApart(c[q] - 2, c[0] - 2, q, w);
  }

  /** A volume with one sector per cluster. */
  const SMALL_VOLUME := BPB(SECTOR_SIZE, 1, 32, 1, 1, 133, 2)

  /**
   * Two entries across the second and third of three clusters, the third one not in step: the walk reads
   * the first entry rightly and the second one in a cluster that is not the directory's.
   */
  lemma FragmentedExample()
    ensures var g, c := SMALL_VOLUME, [2, 3, 5];
      && ValidBPB(g) && OnVolume(g, c) && |FileSectors(g, c)| == 3 && EntryCount(g, c) == 48
      && MeetsEntry(g, c, 31, 31) && !MeetsEntry(g, c, 31, 32) && !WalkFits(g, c, 31, 2)
      && WalkPos(g, 31, 32).chainIndex == 0
      && SectorAt(g, c, WalkPos(g, 31, 32)) == FirstSectorOfCluster(g, 4)
      && FirstSectorOfCluster(g, 4) !in FileSectors(g, c)
  {
    var g, c := SMALL_VOLUME, [2, 3, 5];
    assert CountOfClusters(g) == 100;
    EntryRightIff(g, c, 31, 31);
    EntryRightIff(g, c, 31, 32);
    var ss := FileSectors(g, c);
    assert ss == [FirstSectorOfCluster(g, 2), FirstSectorOfCluster(g, 3), FirstSectorOfCluster(g, 5)];
    assert !InStep(g, c, 32);
  }

  lemma StartOffset(m: nat)
    ensures m * 32 / SECTOR_SIZE == m / ENTRIES_IN_SECTOR && m * 32 % SECTOR_SIZE == 32 * (m % ENTRIES_IN_SECTOR)
  {
    assert m * 32 == SECTOR_SIZE * (m / ENTRIES_IN_SECTOR) + 32 * (m % ENTRIES_IN_SECTOR);
  }

  lemma DivMod(k: nat, w: nat)
    requires w > 0
    ensures k == Row(k, w) * w + Col(k, w)
  {
  }

  lemma RowsApart(a: nat, b: nat, q: nat, w: nat)
    requires w > 0
    ensures b * w + q * w == a * w <==> a == b + q
  {
    assert b * w + q * w == (b + q) * w;
    if a < b + q { MulMonotone(a + 1, b + q, w); assert (a + 1) * w == a * w + w; }
    if b + q < a { MulMonotone(b + q + 1, a, w); assert (b + q + 1) * w == (b + q) * w + w; }
  }

  /** One step of the walk over a chain of `clusters` clusters; none at its end. */
  function NextPos(g: BPB, clusters: nat, p: Pos): Option<Pos> {
    if p.secOff + 32 != g.bytesPerSec then Some(p.(secOff := p.secOff + 32))
    else if p.secIndex + 1 != g.secPerClus then Some(Pos(p.chainIndex, p.secIndex + 1, 0))
    else if p.chainIndex + 1 < clusters then Some(Pos(p.chainIndex + 1, 0, 0))
    else None
  }

  /** Moves on by one entry; false at the end of the chain. */
  method IterClusChainEntry(g: BPB, c: seq<nat>, p: Pos) returns (p': Pos, more: bool)
    requires p.secOff < g.bytesPerSec
    ensures (if more then Some(p') else None) == NextPos(g, |c|, p)
  {
    var chainIndex, secIndex, secOff := p.chainIndex, p.secIndex, p.secOff + 32;
    more := true;
    if secOff == g.bytesPerSec {
      secOff := 0;
      secIndex := secIndex + 1;
      if secIndex == g.secPerClus {
        secIndex := 0;
        chainIndex := chainIndex + 1;
        if chainIndex >= |c| {
          more := false;
        }
      }
    }
    p' := Pos(chainIndex, secIndex, secOff);
  }

  /** From entry `m` a walk in the first cluster's manner goes to entry `m + 1`, or ends with the chain. */
  lemma NextInChain(g: BPB, c: seq<nat>, m: nat)
    requires ValidBPB(g) && m < EntryCount(g, c)
    ensures NextPos(g, |c|, EntryPos(g, m)) == if m + 1 < EntryCount(g, c) then Some(EntryPos(g, m + 1)) else None
    ensures EntryPos(g, m).secOff < SECTOR_SIZE
  {
    hide EntryPos, CountOfClusters, FirstDataSector;
    NextEntryPos(g, c, m);
  }

  /** Past the first cluster it counts sectors on and on, and never ends. */
  lemma NextPastFirst(g: BPB, clusters: nat, m: nat)
    requires ValidBPB(g) && !InFirstCluster(g, m)
    ensures NextPos(g, clusters, StartPos(g, m)) == Some(StartPos(g, m + 1)) && StartPos(g, m).secOff < SECTOR_SIZE
  {
    hide CountOfClusters, FirstDataSector;
    StartOffset(m);
    StartOffset(m + 1);
  }

  /** Both together. */
  lemma NextWalkPos(g: BPB, c: seq<nat>, s: nat, m: nat)
    requires ValidBPB(g) && s <= m && (InFirstCluster(g, s) ==> m + 1 < EntryCount(g, c))
    ensures NextPos(g, |c|, WalkPos(g, s, m)) == Some(WalkPos(g, s, m + 1)) && WalkPos(g, s, m).secOff < SECTOR_SIZE
  {
    hide EntryPos, StartPos, EntryCount, NextPos, CountOfClusters, FirstDataSector;
    if InFirstCluster(g, s) {
      NextInChain(g, c, m);
    } else {
      NextPastFirst(g, |c|, m);
    }
  }

  /** `k` steps of the walk for the file at entry `s`. */
  function Walked(g: BPB, clusters: nat, s: nat, k: nat): Option<Pos>
    requires ValidBPB(g)
  {
    if k == 0 then Some(StartPos(g, s))
    else match Walked(g, clusters, s, k - 1)
      case Some(p) => NextPos(g, clusters, p)
      case None => None
  }

  /**
   * The walk comes to the position of each entry in turn and ends with the chain if it starts in the first
   * cluster. Otherwise it never ends.
   */
  lemma {:induction false} WalkComesTo(g: BPB, c: seq<nat>, s: nat, k: nat)
    requires ValidBPB(g) && s < EntryCount(g, c)
    ensures Walked(g, |c|, s, k) ==
      if InFirstCluster(g, s) && s + k >= EntryCount(g, c) then None else Some(WalkPos(g, s, s + k))
  {
    hide EntryPos, StartPos, EntryCount, CountOfClusters, FirstDataSector, NextPos, BytesPerClus;
    if k == 0 {
      StartsInFirstClusterIff(g, s);
    } else {
      WalkComesTo(g, c, s, k - 1);
      if InFirstCluster(g, s) {
        if s + k - 1 < EntryCount(g, c) {
          NextInChain(g, c, s + k - 1);
        }
      } else {
        NextPastFirst(g, |c|, s + k - 1);
      }
    }
  }

  /** How the position of entry `m + 1` follows from that of entry `m`. */
  lemma NextEntryPos(g: BPB, c: seq<nat>, m: nat)
    requires g.secPerClus > 0 && m < EntryCount(g, c)
    ensures var p, w := EntryPos(g, m), g.secPerClus;
      && p.secIndex < w && p.secOff + 32 <= SECTOR_SIZE
      && EntryPos(g, m + 1) ==
           (if p.secOff + 32 < SECTOR_SIZE then p.(secOff := p.secOff + 32)
            else if p.secIndex + 1 < w then Pos(p.chainIndex, p.secIndex + 1, 0)
            else Pos(p.chainIndex + 1, 0, 0))
      && (m + 1 == EntryCount(g, c) <==>
           p.secOff + 32 == SECTOR_SIZE && p.secIndex + 1 == w && p.chainIndex + 1 >= |c|)
  {
    var k, w := m / ENTRIES_IN_SECTOR, g.secPerClus;
    CellInGrid(k, w, |c|);
    if m % ENTRIES_IN_SECTOR + 1 < ENTRIES_IN_SECTOR {
      assert (m + 1) / ENTRIES_IN_SECTOR == k;
    } else {
      NextCell(k, w, |c|);
    }
  }

  lemma NextCell(k: nat, w: nat, n: nat)
    requires w > 0 && k < Cells(n, w)
    ensures var r, j := Row(k, w), Col(k, w);
      && j < w
      && Row(k + 1, w) == (if j + 1 < w then r else r + 1) && Col(k + 1, w) == (if j + 1 < w then j + 1 else 0)
      && (k + 1 == Cells(n, w) <==> j + 1 == w && r + 1 >= n)
  {
    var r, j := k / w, k % w;
    assert k == r * w + j;
    if j + 1 < w {
      RowColumn(r, j + 1, w);
      if k + 1 == n * w {
        RowColumn(n, 0, w);
      }
    } else {
      assert (r + 1) * w == r * w + w;
      RowColumn(r + 1, 0, w);
      RowsApart(n, r + 1, 0, w);
    }
  }
}
