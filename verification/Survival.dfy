/** Files and directories that lie apart from what changes survive the change. */
module Survival {
  import opened FatTable
  import opened FirstFit
  import opened Geometry
  import opened Device
  import opened FatImage
  import opened Fat
  import FileData
  import opened FileSteps
  import opened Files
  import opened DirBytes
  import opened Directories

  /** A chain that lies apart from the clusters spoken of survives with its bytes. */
  lemma ChainSurvives(g: BPB, a: Image, b: Image, p: seq<nat>, p': seq<nat>, fst: nat, c: seq<nat>)
    requires ValidBPB(g) && ValidImage(g, a) && ValidImage(g, b) && OthersKept(g, a, b, p, p')
    requires FileChain(Entries(g, a), fst, c) && OnVolume(g, c) && Apart(c, p)
    ensures FileChain(Entries(g, b), fst, c) && Apart(c, p')
    ensures FileData.FileBytes(g, b, c) == FileData.FileBytes(g, a, c)
  {
    hide CountOfClusters, FirstDataSector, Tables, IsChain, OnVolume, Traded, FileData.FileSectors;
    if c == [] {
      assert FileData.FileBytes(g, b, c) == FileData.FileBytes(g, a, c) == [];
    } else {
      assert KeptApart(g, a, b, c, p');
    }
  }

  /** A directory that lies apart keeps its entries. */
  lemma DirSurvives(g: BPB, a: Image, b: Image, p: seq<nat>, p': seq<nat>, q: seq<nat>)
    requires ValidSnap(g, Snap(a, q, 0)) && ValidImage(g, b) && Reserved(Entries(g, b)) && q != []
    requires OthersKept(g, a, b, p, p') && Apart(q, p)
    ensures ValidSnap(g, Snap(b, q, 0)) && LogOf(g, Snap(b, q, 0)) == LogOf(g, Snap(a, q, 0)) && Apart(q, p')
  {
    hide CountOfClusters, FirstDataSector, Tables, OnVolume, OthersKept, FileData.FileSectors, FileData.FileBytes;
    hide Apart, EntriesOf;
    ChainSurvives(g, a, b, p, p', q[0], q);
  }

  /** Two changes, the second of which also frees `c`. */
  lemma ChangedThenFreed(g: BPB, a: Image, b: Image, d: Image, p: seq<nat>, p': seq<nat>, c: seq<nat>)
    requires ValidBPB(g) && ValidImage(g, a) && ValidImage(g, b) && ValidImage(g, d)
    requires OthersKept(g, a, b, p, p') && OthersKept(g, b, d, p' + c, p')
    requires OnVolume(g, c) && (c == [] || IsChain(Entries(g, a), c)) && Apart(c, p)
    ensures OthersKept(g, a, d, p + c, p')
  {
    hide CountOfClusters, FirstDataSector, Tables, IsChain, OnVolume, OthersKept;
    KeepsOneMore(g, a, b, p, p', c);
    OthersKeptThrice(g, a, b, d, p + c, p' + c, p');
  }

  /** A directory's size field means nothing. */
  lemma SizeFieldIgnored(g: BPB, s: Snap)
    requires ValidSnap(g, s)
    ensures ValidSnap(g, s.(sz := 0)) && LogOf(g, s.(sz := 0)) == LogOf(g, s)
  {
  }

  lemma HeadIsUsable(parent: Directory)
    requires parent.Valid()
    ensures parent.file.chain[0] >= 2 && parent.file.fstClus == parent.file.chain[0]
  {
  }

  lemma NoClusters(fat: FAT)
    requires fat.Valid()
    ensures OnVolume(fat.bpb, [])
  {
  }
}
