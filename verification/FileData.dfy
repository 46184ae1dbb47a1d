/** The flat byte array that a cluster chain stores in the sectors of its clusters. */
module FileData {
  import opened Base
  import opened FatTable
  import opened Geometry
  import opened Device
  import opened FatImage

  /** Device sectors of the file sectors 0, 1, 2, ... of chain `c`. */
  function FileSectors(g: BPB, c: seq<nat>): (r: seq<nat>)
    requires ValidBPB(g) && OnVolume(g, c)
    ensures |r| == Cells(|c|, g.secPerClus)
  {
    seq(Cells(|c|, g.secPerClus), j requires 0 <= j < Cells(|c|, g.secPerClus) =>
      CellInGrid(j, g.secPerClus, |c|);
      FirstSectorOfCluster(g, c[Row(j, g.secPerClus)]) + Col(j, g.secPerClus))
  }

  lemma FileSectorAt(g: BPB, c: seq<nat>, j: nat)
    requires ValidBPB(g) && OnVolume(g, c) && j < |FileSectors(g, c)|
    ensures Row(j, g.secPerClus) < |c| && Col(j, g.secPerClus) < g.secPerClus
    ensures FileSectors(g, c)[j] == FirstSectorOfCluster(g, c[Row(j, g.secPerClus)]) + Col(j, g.secPerClus)
    ensures FirstDataSector(g) <= FileSectors(g, c)[j] < g.totSec32
  {
    hide CountOfClusters, FirstDataSector, FirstSectorOfCluster, Cells, Row, Col;
    CellInGrid(j, g.secPerClus, |c|);
    ClusterSectorBounds(g, c[Row(j, g.secPerClus)], Col(j, g.secPerClus));
  }

  /** Two file sectors are the same device sector only if they are the same sector of the same cluster. */
  lemma SectorsApart(g: BPB, c: seq<nat>, d: seq<nat>, i: nat, j: nat)
    requires ValidBPB(g) && OnVolume(g, c) && OnVolume(g, d)
    requires i < |FileSectors(g, c)| && j < |FileSectors(g, d)|
    requires Row(i, g.secPerClus) < |c| && Row(j, g.secPerClus) < |d|
    ensures FileSectors(g, c)[i] == FileSectors(g, d)[j] <==>
            c[Row(i, g.secPerClus)] == d[Row(j, g.secPerClus)] && Col(i, g.secPerClus) == Col(j, g.secPerClus)
  {
    hide CountOfClusters, FirstDataSector, FirstSectorOfCluster, Cells, Row, Col, FileSectors;
    FileSectorAt(g, c, i);
    FileSectorAt(g, d, j);
    ClusterSectorsInjective(g, c[Row(i, g.secPerClus)], Col(i, g.secPerClus), d[Row(j, g.secPerClus)],
      Col(j, g.secPerClus));
  }

  /** `sector_no` maps the file sectors one to one onto the sectors of the file's clusters. */
  lemma SectorNoIsBijection(g: BPB, c: seq<nat>)
    requires ValidBPB(g) && OnVolume(g, c) && Distinct(c)
    ensures Distinct(FileSectors(g, c))
    ensures forall s :: s in FileSectors(g, c) <==>
              FirstDataSector(g) <= s && ClusterOfSector(g, s) in c
  {
    hide CountOfClusters, FirstDataSector, FirstSectorOfCluster, FileSectors, Cells, Row, Col;
    var w, ss := g.secPerClus, FileSectors(g, c);
    forall i, j | 0 <= i < j < |ss| ensures ss[i] != ss[j] {
      FileSectorAt(g, c, i);
      FileSectorAt(g, c, j);
      SectorsApart(g, c, c, i, j);
      CellIsUnique(i, j, w);
    }
    forall s ensures s in ss <==> FirstDataSector(g) <= s && ClusterOfSector(g, s) in c {
      SectorInFile(g, c, s);
    }
  }

  lemma SectorInFile(g: BPB, c: seq<nat>, s: nat)
    requires ValidBPB(g) && OnVolume(g, c)
    ensures s in FileSectors(g, c) <==> FirstDataSector(g) <= s && ClusterOfSector(g, s) in c
  {
    hide CountOfClusters, FirstDataSector, FirstSectorOfCluster, FileSectors, ClusterOfSector, Cells, Row, Col;
    var w, ss := g.secPerClus, FileSectors(g, c);
    if s in ss {
      var j :| 0 <= j < |ss| && ss[j] == s;
      FileSectorAt(g, c, j);
      SectorsOfCluster(g, c[Row(j, w)], s);
    }
    if FirstDataSector(g) <= s && ClusterOfSector(g, s) in c {
      var k :| 0 <= k < |c| && c[k] == ClusterOfSector(g, s);
      SectorsOfCluster(g, c[k], s);
      var j := CellNumber(k, s - FirstSectorOfCluster(g, c[k]), w, |c|);
      FileSectorAt(g, c, j);
    }
  }

  lemma FileSectorsAppend(g: BPB, c: seq<nat>, d: seq<nat>)
    requires ValidBPB(g) && OnVolume(g, c) && OnVolume(g, d)
    ensures OnVolume(g, c + d) && FileSectors(g, c + d) == FileSectors(g, c) + FileSectors(g, d)
  {
    hide CountOfClusters, FirstDataSector, FirstSectorOfCluster, FileSectors, Cells, Row, Col;
    var w, a, b, s := g.secPerClus, FileSectors(g, c), FileSectors(g, d), FileSectors(g, c + d);
    CellsAdd(|c|, |d|, w);
    forall j | 0 <= j < |s| ensures s[j] == (a + b)[j] {
      FileSectorAt(g, c + d, j);
      if j < |a| {
        FileSectorAt(g, c, j);
      } else {
        FileSectorAt(g, d, j - |a|);
        CellShift(|c|, j - |a|, w);
      }
    }
  }

  // ----- bytes -----

  predicate SectorsOn(img: Image, ss: seq<nat>) {
    forall j :: 0 <= j < |ss| ==> ss[j] < |img| && |img[ss[j]]| == SECTOR_SIZE
  }

  function BytesOf(img: Image, ss: seq<nat>): (r: seq<byte>)
    requires SectorsOn(img, ss)
    ensures |r| == SECTOR_SIZE * |ss|
    ensures forall i :: 0 <= i < |r| ==> r[i] == img[ss[i / SECTOR_SIZE]][i % SECTOR_SIZE]
  {
    seq(SECTOR_SIZE * |ss|, i requires 0 <= i < SECTOR_SIZE * |ss| => img[ss[i / SECTOR_SIZE]][i % SECTOR_SIZE])
  }

  lemma BytesAppend(img: Image, a: seq<nat>, b: seq<nat>)
    requires SectorsOn(img, a) && SectorsOn(img, b)
    ensures BytesOf(img, a + b) == BytesOf(img, a) + BytesOf(img, b)
  {
  }

  lemma SectorBytes(img: Image, ss: seq<nat>, k: nat)
    requires SectorsOn(img, ss) && k < |ss|
    ensures BytesOf(img, ss)[SECTOR_SIZE * k..SECTOR_SIZE * (k + 1)] == img[ss[k]]
  {
    var b := BytesOf(img, ss);
    forall i | 0 <= i < SECTOR_SIZE ensures b[SECTOR_SIZE * k + i] == img[ss[k]][i] {
      assert (SECTOR_SIZE * k + i) / SECTOR_SIZE == k && (SECTOR_SIZE * k + i) % SECTOR_SIZE == i;
    }
  }

  /** Copying `data` into one sector of a file splices it into the file's bytes. */
  lemma SectorWriteSplices(img: Image, ss: seq<nat>, k: nat, off: nat, data: seq<byte>)
    requires SectorsOn(img, ss) && Distinct(ss) && k < |ss| && off + |data| <= SECTOR_SIZE
    ensures var img' := img[ss[k] := Splice(img[ss[k]], off, data)];
      SectorsOn(img', ss) && BytesOf(img', ss) == Splice(BytesOf(img, ss), SECTOR_SIZE * k + off, data)
  {
  }

  /** The bytes stored by chain `c`. */
  function FileBytes(g: BPB, img: Image, c: seq<nat>): (r: seq<byte>)
    requires ValidBPB(g) && ValidImage(g, img) && OnVolume(g, c)
    ensures |r| == SECTOR_SIZE * Cells(|c|, g.secPerClus)
  {
    FileSectorsOn(g, img, c);
    BytesOf(img, FileSectors(g, c))
  }

  lemma FileSectorsOn(g: BPB, img: Image, c: seq<nat>)
    requires ValidBPB(g) && ValidImage(g, img) && OnVolume(g, c)
    ensures SectorsOn(img, FileSectors(g, c))
  {
    forall j | 0 <= j < |FileSectors(g, c)| ensures FileSectors(g, c)[j] < g.totSec32 {
      FileSectorAt(g, c, j);
    }
  }

  /** Where the bytes of a file's sector `j` lie: in sector `col` of its `r`th cluster. */
  lemma ByteAddress(g: BPB, img: Image, c: seq<nat>, j: nat, r: nat, col: nat, off: nat)
    requires ValidBPB(g) && ValidImage(g, img) && OnVolume(g, c)
    requires j == r * g.secPerClus + col && r < |c| && col < g.secPerClus && off < 512 && c[r] >= 2
    ensures var s := FirstSectorOfCluster(g, c[r]) + col;
      && s < |img| && off < |img[s]|
      && 512 * j + off < |FileBytes(g, img, c)| && FileBytes(g, img, c)[512 * j + off] == img[s][off]
  {
    hide CountOfClusters, FirstDataSector, FirstSectorOfCluster, Cells, Row, Col, FileSectors, OnVolume;
    CellsIs(r, g.secPerClus);
    var k := CellNumber(r, col, g.secPerClus, |c|);
    FileSectorAt(g, c, j);
    FileSectorsOn(g, img, c);
  }

  lemma CellsIs(n: nat, w: nat)
    ensures Cells(n, w) == n * w
  {
  }

  lemma FileBytesAppend(g: BPB, img: Image, c: seq<nat>, d: seq<nat>)
    requires ValidBPB(g) && ValidImage(g, img) && OnVolume(g, c) && OnVolume(g, d)
    ensures OnVolume(g, c + d) && FileBytes(g, img, c + d) == FileBytes(g, img, c) + FileBytes(g, img, d)
  {
    FileSectorsAppend(g, c, d);
    FileSectorsOn(g, img, c);
    FileSectorsOn(g, img, d);
    BytesAppend(img, FileSectors(g, c), FileSectors(g, d));
  }

  /** Images that agree on the sectors of `c` store the same bytes in it. */
  lemma FileBytesFrame(g: BPB, img: Image, img': Image, c: seq<nat>)
    requires ValidBPB(g) && ValidImage(g, img) && ValidImage(g, img') && OnVolume(g, c) && |img| == |img'|
    requires forall s :: 0 <= s < |img| && s in FileSectors(g, c) ==> img[s] == img'[s]
    ensures FileBytes(g, img', c) == FileBytes(g, img, c)
  {
    FileSectorsOn(g, img, c);
    var ss := FileSectors(g, c);
    forall i | 0 <= i < SECTOR_SIZE * |ss| ensures BytesOf(img, ss)[i] == BytesOf(img', ss)[i] {
      assert ss[i / SECTOR_SIZE] in ss;
    }
  }
}
