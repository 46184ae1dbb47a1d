/** Where the regions of a FAT32 volume lie, computed from the BIOS parameter block. */
module Geometry {
  import opened Base
  import FatTable

  datatype BPB = BPB(
    bytesPerSec: nat,
    secPerClus: nat,
    resvdSecCnt: nat,
    numFats: nat,
    fatSz32: nat,
    totSec32: nat,
    rootClus: nat)

  const ENTRIES_PER_SECTOR := 128

  function FirstFATSector(g: BPB, k: nat): nat {
    g.resvdSecCnt + k * g.fatSz32
  }

  function FirstDataSector(g: BPB): nat {
    g.resvdSecCnt + g.numFats * g.fatSz32
  }

  function FirstSectorOfCluster(g: BPB, n: nat): (r: nat)
    requires n >= 2
    ensures r >= FirstDataSector(g)
  {
    (n - 2) * g.secPerClus + FirstDataSector(g)
  }

  function CountOfClusters(g: BPB): nat
    requires FirstDataSector(g) <= g.totSec32 && g.secPerClus > 0
  {
    (g.totSec32 - FirstDataSector(g)) / g.secPerClus
  }

  function BytesPerClus(g: BPB): nat {
    g.secPerClus * g.bytesPerSec
  }

  /** What the driver takes for granted about a mounted volume. */
  predicate ValidBPB(g: BPB) {
    && g.bytesPerSec == SECTOR_SIZE
    && g.secPerClus > 0
    && g.numFats > 0
    && FirstDataSector(g) <= g.totSec32
    && g.totSec32 < 0x1_0000_0000
    && CountOfClusters(g) + 2 <= ENTRIES_PER_SECTOR * g.fatSz32
    && CountOfClusters(g) + 2 <= FatTable.EOC_MARK
  }

  predicate OnVolume(g: BPB, c: seq<nat>)
    requires ValidBPB(g)
  {
    forall i :: 0 <= i < |c| ==> 2 <= c[i] < CountOfClusters(g) + 2
  }

  datatype FATPos = FATPos(fatSecNum: nat, fatEntOffset: nat)

  function ClusPosOnFAT(g: BPB, n: nat): FATPos
    requires g.bytesPerSec > 0
  {
    FATPos(g.resvdSecCnt + n * 4 / g.bytesPerSec, n * 4 % g.bytesPerSec)
  }

  /** Entry `j` of the `i`th FAT sector is the entry of cluster `128 * i + j`, and conversely. */
  lemma ScanPosition(g: BPB, i: nat, j: nat)
    requires g.bytesPerSec == SECTOR_SIZE && j < ENTRIES_PER_SECTOR
    ensures ClusPosOnFAT(g, ENTRIES_PER_SECTOR * i + j) == FATPos(FirstFATSector(g, 0) + i, 4 * j)
  {
    assert (ENTRIES_PER_SECTOR * i + j) * 4 == SECTOR_SIZE * i + 4 * j;
  }

  lemma ClusPosInFAT(g: BPB, n: nat)
    requires g.bytesPerSec == SECTOR_SIZE
    ensures ClusPosOnFAT(g, n) == FATPos(g.resvdSecCnt + n / ENTRIES_PER_SECTOR, 4 * (n % ENTRIES_PER_SECTOR))
  {
    ScanPosition(g, n / ENTRIES_PER_SECTOR, n % ENTRIES_PER_SECTOR);
  }

  /** The regions follow each other: the reserved sectors, one FAT copy after the other, the clusters in their order. */
  lemma RegionsFollow(g: BPB, k: nat, n: nat)
    requires n >= 2
    ensures FirstFATSector(g, 0) == g.resvdSecCnt
    ensures FirstFATSector(g, k + 1) == FirstFATSector(g, k) + g.fatSz32
    ensures FirstFATSector(g, g.numFats) == FirstDataSector(g)
    ensures FirstSectorOfCluster(g, 2) == FirstDataSector(g)
    ensures FirstSectorOfCluster(g, n + 1) == FirstSectorOfCluster(g, n) + g.secPerClus
  {
    assert (k + 1) * g.fatSz32 == k * g.fatSz32 + g.fatSz32;
    assert (n - 1) * g.secPerClus == (n - 2) * g.secPerClus + g.secPerClus;
  }

  /** The clusters fill the data region: what is left at its end is too small for one more. */
  lemma ClustersFill(g: BPB)
    requires FirstDataSector(g) <= g.totSec32 && g.secPerClus > 0
    ensures CountOfClusters(g) * g.secPerClus <= g.totSec32 - (g.resvdSecCnt + g.numFats * g.fatSz32)
    ensures g.totSec32 - (g.resvdSecCnt + g.numFats * g.fatSz32) < (CountOfClusters(g) + 1) * g.secPerClus
  {
    var room := g.totSec32 - FirstDataSector(g);
    assert room == room / g.secPerClus * g.secPerClus + room % g.secPerClus;
    assert (CountOfClusters(g) + 1) * g.secPerClus == CountOfClusters(g) * g.secPerClus + g.secPerClus;
  }

  /** A number is that of a cluster if and only if all of its sectors lie inside the volume. */
  lemma IsClusterIff(g: BPB, n: nat)
    requires FirstDataSector(g) <= g.totSec32 && g.secPerClus > 0 && n >= 2
    ensures n < CountOfClusters(g) + 2 <==> FirstSectorOfCluster(g, n) + g.secPerClus <= g.totSec32
  {
    ClustersFill(g);
    assert (n - 1) * g.secPerClus == (n - 2) * g.secPerClus + g.secPerClus;
    if n < CountOfClusters(g) + 2 {
      MulMonotone(n - 1, CountOfClusters(g), g.secPerClus);
    } else {
      MulMonotone(CountOfClusters(g) + 1, n - 1, g.secPerClus);
    }
  }

  /** Sectors of data clusters lie past both FATs and inside the volume. */
  lemma ClusterSectorBounds(g: BPB, n: nat, s: nat)
    requires ValidBPB(g) && 2 <= n < CountOfClusters(g) + 2 && s < g.secPerClus
    ensures FirstDataSector(g) <= FirstSectorOfCluster(g, n) + s < g.totSec32
  {
    IsClusterIff(g, n);
  }

  /** Distinct (cluster, sector) pairs never share a device sector. */
  lemma ClusterSectorsInjective(g: BPB, n: nat, s: nat, m: nat, r: nat)
    requires 2 <= n && 2 <= m && s < g.secPerClus && r < g.secPerClus
    ensures FirstSectorOfCluster(g, n) + s == FirstSectorOfCluster(g, m) + r <==> n == m && s == r
  {
    RowColumn(n - 2, s, g.secPerClus);
    RowColumn(m - 2, r, g.secPerClus);
  }
}
