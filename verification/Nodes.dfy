/** A file's own entries in its parent directory: how `File` of fs.cpp writes its metadata back and destroys itself. */
module Nodes {
  import opened Base
  import opened FatTable
  import opened FirstFit
  import opened Geometry
  import opened Device
  import opened FatImage
  import FileData
  import opened FileSteps
  import opened Files
  import opened LongName
  import opened ShortEntry
  import opened DirBytes
  import opened DirUpdate
  import opened Directories
  import opened Survival
  import opened Walk

  // ----- one entry on the device -----

  /** Entry `m` of the directory `a` is among the `n` from `s` on, over which a walk fits. */
  ghost predicate OnWalk(g: BPB, a: Snap, s: nat, n: nat, m: nat)
    requires ValidSnap(g, a)
  {
    a.chain != [] && WalkFits(g, a.chain, s, n) && s <= m < s + n <= |LogOf(g, a)|
  }

  lemma LogCount(g: BPB, a: Snap)
    requires ValidSnap(g, a)
    ensures |LogOf(g, a)| == EntryCount(g, a.chain)
  {
    hide CountOfClusters, FirstDataSector, Tables, IsChain, Reserved, OnVolume, ValidImage, FileData.FileBytes, Cells;
    var bytes := SnapBytes(g, a);
    EntriesFill(g, |a.chain|);
  }

  /** Where such a walk meets entry `m` of the directory with chain `a.chain`, the device holds that entry. */
  lemma EntryOnDevice(g: BPB, a: Snap, s: nat, n: nat, m: nat)
    requires ValidSnap(g, a) && OnWalk(g, a, s, n, m)
    ensures |LogOf(g, a)| == EntryCount(g, a.chain) && WalkPos(g, s, m).chainIndex < |a.chain|
    ensures var sec, off := SectorAt(g, a.chain, WalkPos(g, s, m)), WalkPos(g, s, m).secOff;
      sec < |a.img| && |a.img[sec]| == SECTOR_SIZE && off + ENTRY_SIZE <= SECTOR_SIZE
      && a.img[sec][off..off + ENTRY_SIZE] == LogOf(g, a)[m]
  {
    hide CountOfClusters, FirstDataSector, FirstSectorOfCluster, Tables, IsChain, FileData.FileSectors, Cells;
    hide FileData.BytesOf, EntryPos, StartPos, InFirstCluster, InStep;
    WalkMeetsFile(g, a.chain, m);
    EntryRightIff(g, a.chain, s, m);
    var ss, k := FileData.FileSectors(g, a.chain), m / ENTRIES_IN_SECTOR;
    FileData.FileSectorsOn(g, a.img, a.chain);
    FileData.SectorBytes(a.img, ss, k);
    var bytes := SnapBytes(g, a);
  }

  /** Writing there changes that entry of the directory and nothing else. */
  lemma EntryPatched(g: BPB, a: Snap, s: nat, n: nat, m: nat, o: nat, data: seq<byte>)
    requires ValidSnap(g, a) && OnWalk(g, a, s, n, m) && o + |data| <= ENTRY_SIZE
    ensures WalkPos(g, s, m).chainIndex < |a.chain|
    ensures var sec, off := SectorAt(g, a.chain, WalkPos(g, s, m)), WalkPos(g, s, m).secOff;
      && sec < |a.img| && |a.img[sec]| == SECTOR_SIZE && off + ENTRY_SIZE <= SECTOR_SIZE
      && var b := a.(img := a.img[sec := Splice(a.img[sec], off + o, data)]);
      && ValidSnap(g, b) && Became(g, a, b, LogOf(g, a)[m := Splice(LogOf(g, a)[m], o, data)])
  {
    hide CountOfClusters, FirstDataSector, FirstSectorOfCluster, Tables, IsChain, FileData.FileSectors, Cells;
    hide FileData.FileBytes, OthersKept, EntriesOf, Splice, EntryPos, StartPos, InFirstCluster, InStep;
    WalkMeetsFile(g, a.chain, m);
    EntryRightIff(g, a.chain, s, m);
    SectorCopied(g, m / ENTRIES_IN_SECTOR, EntryPos(g, m).secOff + o, data, a);
    EntrySpliced(SnapBytes(g, a), m, o, data);
  }

  // ----- giving up a file's clusters -----

  lemma FileFreed(g: BPB, a: Image, b: Image, c: seq<nat>)
    requires ValidBPB(g) && ValidImage(g, a) && ValidImage(g, b) && Reserved(Entries(g, a))
    requires (c == [] || IsChain(Entries(g, a), c)) && OnVolume(g, c)
    requires WritesWithin(ZeroWrites(c), ENTRIES_PER_SECTOR * g.fatSz32) && WroteOn(g, a, b, ZeroWrites(c))
    ensures Reserved(Entries(g, b)) && OthersKept(g, a, b, c, [])
  {
    hide CountOfClusters, FirstDataSector, Tables, IsChain, WroteOn, OthersKept, ZeroWrites;
    assert ShrinkWrites(c, 0) == ZeroWrites(c);
    CutFile(g, a, b, c, 0);
  }

  /** The parent's entries changed, then the file's clusters were given up. */
  lemma MarkedThenFreed(g: BPB, a: Snap, b: Snap, d: Image, c: seq<nat>, log: seq<Entry>)
    requires ValidSnap(g, a) && ValidSnap(g, b) && ValidImage(g, d) && Reserved(Entries(g, d))
    requires a.chain == b.chain != [] && Became(g, a, b, log)
    requires OnVolume(g, c) && (c == [] || IsChain(Entries(g, a.img), c)) && Apart(c, a.chain)
    requires OthersKept(g, b.img, d, c, [])
    ensures ValidSnap(g, b.(img := d)) && LogOf(g, b.(img := d)) == log
    ensures OthersKept(g, a.img, d, a.chain + c, a.chain)
  {
    hide CountOfClusters, FirstDataSector, Tables, IsChain, OthersKept, FileData.FileBytes, Reserved, OnVolume;
    hide EntriesOf;
    var p := a.chain;
    KeepsOneMore(g, a.img, b.img, p, p, c);
    KeepsOneMore(g, b.img, d, c, [], p);
    SameClustersKept(g, b.img, d, c + p, [] + p, p + c, p);
    OthersKeptThrice(g, a.img, b.img, d, p + c, p + c, p);
  }

  /** Writing to one directory and then to the same or another one. */
  lemma TwoDirsWritten(g: BPB, a: Snap, m: Snap, m': Snap, b: Snap, log: seq<Entry>, log': seq<Entry>)
    requires ValidSnap(g, a) && ValidSnap(g, m) && ValidSnap(g, m') && ValidSnap(g, b) && m'.img == m.img
    requires a.chain == m.chain != [] && m'.chain == b.chain != []
    requires Became(g, a, m, log) && Became(g, m', b, log')
    requires m.chain == m'.chain || (Apart(m'.chain, m.chain) && ValidSnap(g, Snap(a.img, b.chain, 0)))
    ensures OthersKept(g, a.img, b.img, a.chain + b.chain, a.chain + b.chain)
  {
    hide CountOfClusters, FirstDataSector, Tables, IsChain, FileData.FileBytes, Reserved, OnVolume, LogOf, OthersKept;
    var p, q := a.chain, b.chain;
    if p == q {
      OthersKeptThrice(g, a.img, m.img, b.img, p, p, p);
      SameClustersKept(g, a.img, b.img, p, p, p + q, p + q);
    } else {
      KeepsOneMore(g, a.img, m.img, p, p, q);
      KeepsOneMore(g, m.img, b.img, q, q, p);
      SameClustersKept(g, m.img, b.img, q + p, q + p, p + q, p + q);
      OthersKeptThrice(g, a.img, m.img, b.img, p + q, p + q, p + q);
    }
  }

  /** Metadata does not change which entries are long. */
  lemma MetaKeepsEnds(log: seq<Entry>, s: nat, n: nat, k: nat, m: Meta, isDir: bool)
    requires EndsAt(log, s, n) && k < |log| && ValidMeta(m)
    ensures EndsAt(MetaWritten(log, k, m, isDir), s, n)
  {
  }

  /** The `n` entries from `s` on are long ones and then a short one. */
  predicate EndsAt(log: seq<Entry>, s: nat, n: nat) {
    n > 0 && s + n <= |log| && forall i :: s <= i < s + n ==> (IsLong(log[i]) <==> i < s + n - 1)
  }

  /** A file together with the place of its entries and the times kept in them. */
  class Node {
    const file: File
    const parentClus: nat
    const entryNum: nat
    var crt: seq<byte>
    var acc: seq<byte>
    var wrt: seq<byte>
    var isDeleted: bool

    constructor (file: File, parentClus: nat, entryNum: nat, crt: seq<byte>, acc: seq<byte>, wrt: seq<byte>)
      ensures this.file == file && this.parentClus == parentClus && this.entryNum == entryNum
      ensures this.crt == crt && this.acc == acc && this.wrt == wrt && !isDeleted
    {
      this.file, this.parentClus, this.entryNum := file, parentClus, entryNum;
      this.crt, this.acc, this.wrt, isDeleted := crt, acc, wrt, false;
    }

    /** `ino() == KRootDirIno`. */
    predicate IsRoot() {
      parentClus == 0 && entryNum == 0
    }

    /** The parent directory, whose chain is `p`. */
    ghost function Parent(p: seq<nat>): Snap
      reads file.fat.device
    {
      Snap(file.fat.device.sectors, p, 0)
    }

    ghost function ParentLog(p: seq<nat>): seq<Entry>
      requires ValidSnap(file.fat.bpb, Parent(p))
      reads file.fat.device
    {
      LogOf(file.fat.bpb, Parent(p))
    }

    /** The file has `n` entries, over which its walk fits the chain `p` of its parent. */
    ghost predicate Placed(p: seq<nat>, n: nat)
      reads file.fat.device
    {
      && ValidSnap(file.fat.bpb, Parent(p)) && p != [] && p[0] == parentClus
      && WalkFits(file.fat.bpb, p, entryNum, n) && EndsAt(ParentLog(p), entryNum, n)
    }

    /** The walk over the file's own entries has reached entry `m`. */
    ghost predicate Walking(pos: Pos, p: seq<nat>, n: nat, m: nat)
      reads file.fat.device
    {
      && ValidSnap(file.fat.bpb, Parent(p)) && OnWalk(file.fat.bpb, Parent(p), entryNum, n, m)
      && pos == WalkPos(file.fat.bpb, entryNum, m)
    }

    lemma WalkStarts(p: seq<nat>, n: nat)
      requires Placed(p, n)
      ensures Walking(StartPos(file.fat.bpb, entryNum), p, n, entryNum)
      ensures FileChain(Entries(file.fat.bpb, file.fat.device.sectors), parentClus, p)
    {
      hide CountOfClusters, FirstDataSector, Tables, IsChain, EntryPos, StartPos, IsLong, LogOf;
      StartsInFirstClusterIff(file.fat.bpb, entryNum);
    }

    /** Whether the entry under the walk is a long one. */
    method IsLongHere(pChain: seq<nat>, pos: Pos, ghost n: nat, ghost m: nat) returns (r: bool)
      requires Walking(pos, pChain, n, m)
      ensures r == IsLong(ParentLog(pChain)[m])
    {
      hide CountOfClusters, FirstDataSector, Tables, IsChain, WalkPos;
      EntryOnDevice(file.fat.bpb, Parent(pChain), entryNum, n, m);
      var secNo := SectorAt(file.fat.bpb, pChain, pos);
      ghost var e := file.fat.device.sectors[secNo][pos.secOff..pos.secOff + ENTRY_SIZE];
      r := file.fat.device.sectors[secNo][pos.secOff + 11] % 0x40 == ATTR_LONG_NAME;
    }

    /** Overwrites part of the entry under the walk. */
    method Patch(pChain: seq<nat>, pos: Pos, o: nat, data: seq<byte>, ghost n: nat, ghost m: nat)
      requires Walking(pos, pChain, n, m) && o + |data| <= ENTRY_SIZE
      modifies file.fat.device
      ensures Walking(pos, pChain, n, m)
      ensures var log := old(ParentLog(pChain));
        Became(file.fat.bpb, old(Parent(pChain)), Parent(pChain), log[m := Splice(log[m], o, data)])
    {
      hide CountOfClusters, FirstDataSector, Tables, IsChain, WalkPos, OthersKept;
      EntryPatched(file.fat.bpb, Parent(pChain), entryNum, n, m, o, data);
      var secNo := SectorAt(file.fat.bpb, pChain, pos);
      file.fat.device.sectors :=
        file.fat.device.sectors[secNo := Splice(file.fat.device.sectors[secNo], pos.secOff + o, data)];
    }

    ghost predicate ValidTimes()
      reads this
    {
      |crt| == 5 && |acc| == 2 && |wrt| == 4
    }

    /** What the file would write into its short entry. */
    ghost function MetaNow(): Meta
      requires file.fstClus < 0x1_0000_0000 && file.fileSz < 0x1_0000_0000
      reads this, file
    {
      Meta(crt, acc, wrt, file.fstClus, file.fileSz)
    }

    ghost predicate MetaFits()
      reads this, file
    {
      ValidTimes() && file.fstClus < 0x1_0000_0000 && file.fileSz < 0x1_0000_0000
    }

    /** The walk goes on to the next entry, which the chain must have. */
    method NextEntry(pChain: seq<nat>, pos: Pos, ghost n: nat, ghost m: nat) returns (pos': Pos, isLong: bool)
      requires Walking(pos, pChain, n, m) && m + 1 < entryNum + n
      ensures Walking(pos', pChain, n, m + 1) && isLong == IsLong(ParentLog(pChain)[m + 1])
    {
      hide CountOfClusters, FirstDataSector, Tables, IsChain, WalkPos, LogOf, IsLong, EntryCount, OnVolume;
      EntryOnDevice(file.fat.bpb, Parent(pChain), entryNum, n, m);
      NextWalkPos(file.fat.bpb, pChain, entryNum, m);
      var more;
      pos', more := IterClusChainEntry(file.fat.bpb, pChain, pos);
      assert more;
      isLong := IsLongHere(pChain, pos', n, m + 1);
    }

    /** Writes the metadata over the short entry under the walk. */
    method WriteMeta(pChain: seq<nat>, pos: Pos, ghost n: nat, ghost m: nat)
      requires MetaFits() && Walking(pos, pChain, n, m)
      modifies file.fat.device
      ensures Walking(pos, pChain, n, m)
      ensures Became(file.fat.bpb, old(Parent(pChain)), Parent(pChain),
                     MetaWritten(old(ParentLog(pChain)), m, MetaNow(), file.isDir))
    {
      hide CountOfClusters, FirstDataSector, Tables, IsChain, WalkPos, LogOf, Became, EntryCount, OnVolume, WithMeta;
      hide ValidImage;
      EntryOnDevice(file.fat.bpb, Parent(pChain), entryNum, n, m);
      var secNo := SectorAt(file.fat.bpb, pChain, pos);
      var e: Entry := file.fat.device.sectors[secNo][pos.secOff..pos.secOff + ENTRY_SIZE];
      var e' := WithMeta(e, Meta(crt, acc, wrt, file.fstClus, file.fileSz), file.isDir);
      assert Splice(e, 0, e') == e';
      Patch(pChain, pos, 0, e', n, m);
    }

    /**
     * Writes the file's metadata into its short entry, found by walking over its long ones. A deleted file
     * and the root directory have none.
     */
    method Sync(ghost p: seq<nat>, ghost n: nat)
      requires MetaFits() && Placed(p, n)
      modifies file.fat.device
      ensures isDeleted || IsRoot() ==> file.fat.device.sectors == old(file.fat.device.sectors)
      ensures !isDeleted && !IsRoot() ==>
        && ValidSnap(file.fat.bpb, Parent(p))
        && Became(file.fat.bpb, old(Parent(p)), Parent(p),
             MetaWritten(old(ParentLog(p)), entryNum + n - 1, MetaNow(), file.isDir))
      ensures !isDeleted && !IsRoot() ==>
        && entryNum + n - 1 < |ParentLog(p)|
        && var e := ParentLog(p)[entryNum + n - 1];
        && ReadU32(e[26..28] + e[20..22], 0) == file.fstClus && (file.isDir || ReadU32(e, 28) == file.fileSz)
        && e[13..18] == crt && e[18..20] == acc && e[22..26] == wrt
    {
      hide CountOfClusters, FirstDataSector, Tables, IsChain, WalkPos, LogOf, Became, WithMeta, WalkFits, IsLong;
      hide OnVolume, Reserved;
      if isDeleted || IsRoot() {
        return;
      }
      WalkStarts(p, n);
      var pChain := file.fat.ReadClusChains(parentClus, p);
      var pos := StartPos(file.fat.bpb, entryNum);
      ghost var m := entryNum;
      var isLong := IsLongHere(pChain, pos, n, m);
      while isLong
        invariant file.fat.device.sectors == old(file.fat.device.sectors)
        invariant Walking(pos, p, n, m) && isLong == IsLong(ParentLog(p)[m])
        decreases entryNum + n - m
      {
        pos, isLong := NextEntry(pChain, pos, n, m);
        m := m + 1;
      }
      WriteMeta(pChain, pos, n, m);
      MetaBytes(old(Parent(p)), Parent(p), m);
    }

    lemma MetaBytes(a: Snap, b: Snap, m: nat)
      requires MetaFits() && ValidSnap(file.fat.bpb, a) && ValidSnap(file.fat.bpb, b) && m < |LogOf(file.fat.bpb, a)|
      requires Became(file.fat.bpb, a, b, MetaWritten(LogOf(file.fat.bpb, a), m, MetaNow(), file.isDir))
      ensures m < |LogOf(file.fat.bpb, b)|
      ensures var e := LogOf(file.fat.bpb, b)[m];
        && ReadU32(e[26..28] + e[20..22], 0) == file.fstClus && (file.isDir || ReadU32(e, 28) == file.fileSz)
        && e[13..18] == crt && e[18..20] == acc && e[22..26] == wrt
    {
      hide WithMeta, LogOf, OthersKept, CountOfClusters, Tables, IsChain;
      MetaLayout(LogOf(file.fat.bpb, a)[m], MetaNow(), file.isDir);
    }

    /** Marks the entry under the walk free, after reading whether it is a long one. */
    method MarkHere(pChain: seq<nat>, pos: Pos, ghost n: nat, ghost m: nat) returns (wasLong: bool)
      requires Walking(pos, pChain, n, m)
      modifies file.fat.device
      ensures Walking(pos, pChain, n, m) && wasLong == IsLong(old(ParentLog(pChain))[m])
      ensures var log := old(ParentLog(pChain));
        Became(file.fat.bpb, old(Parent(pChain)), Parent(pChain), log[m := Freed(log[m])])
    {
      hide CountOfClusters, FirstDataSector, Tables, IsChain, WalkPos, LogOf, Became, IsLong, OnVolume;
      wasLong := IsLongHere(pChain, pos, n, m);
      ghost var e := ParentLog(pChain)[m];
      assert Splice(e, 0, [0xE5]) == Freed(e);
      Patch(pChain, pos, 0, [0xE5], n, m);
    }

    /**
     * Marks the file's own entries in its parent free and gives up its clusters. The root directory and a
     * file that is already deleted are left alone.
     */
    method SelfDestruct(ghost p: seq<nat>, ghost n: nat)
      requires Placed(p, n) && file.ValidChain() && Apart(file.chain, p)
      modifies this`isDeleted, file.fat, file.fat.device
      ensures old(isDeleted) || IsRoot() ==>
        file.fat.device.sectors == old(file.fat.device.sectors) && isDeleted == old(isDeleted)
      ensures !old(isDeleted) && !IsRoot() ==>
        && isDeleted && ValidSnap(file.fat.bpb, Parent(p)) && ParentLog(p) == Marked(old(ParentLog(p)), entryNum, n)
        && OthersKept(file.fat.bpb, old(file.fat.device.sectors), file.fat.device.sectors, p + file.chain, p)
      ensures file.fat.freeCount == old(file.fat.freeCount)
    {
      hide CountOfClusters, FirstDataSector, Tables, IsChain, WalkPos, LogOf, OthersKept, ZeroWrites, WroteOn;
      hide WalkFits, IsLong, OnVolume, Reserved, Marked;
      if isDeleted || IsRoot() {
        return;
      }

      ghost var a, log := Parent(p), ParentLog(p);
      MarkEntries(p, n);
      ghost var b := Parent(p);
      ChainSurvives(file.fat.bpb, a.img, b.img, p, p, file.fstClus, file.chain);
      file.fat.FreeClus(file.fstClus, file.chain);
      FileFreed(file.fat.bpb, b.img, file.fat.device.sectors, file.chain);
      MarkedThenFreed(file.fat.bpb, a, b, file.fat.device.sectors, file.chain, Marked(log, entryNum, n));
      isDeleted := true;
    }

    /** The walk of `SelfDestruct`. */
    method MarkEntries(ghost p: seq<nat>, ghost n: nat)
      requires Placed(p, n)
      modifies file.fat.device
      ensures ValidSnap(file.fat.bpb, Parent(p))
      ensures Became(file.fat.bpb, old(Parent(p)), Parent(p), Marked(old(ParentLog(p)), entryNum, n))
    {
      hide CountOfClusters, FirstDataSector, Tables, IsChain, WalkPos, LogOf, Became, WalkFits, IsLong, OnVolume;
      hide Reserved, Marked, EndsAt, Freed;
      WalkStarts(p, n);
      ghost var a, log := Parent(p), ParentLog(p);
      var pChain := file.fat.ReadClusChains(parentClus, p);
      var pos := StartPos(file.fat.bpb, entryNum);
      ghost var m := entryNum;
      MarkStarts(log, p, n);
      while true
        invariant Walking(pos, p, n, m) && Marking(a, log, p, n, m)
        decreases entryNum + n - m
      {
        ghost var before := Parent(p);
        var wasLong := MarkHere(pChain, pos, n, m);
        MarkingOn(a, before, log, p, n, m);
        if !wasLong {
          break;
        }
        pos, wasLong := NextEntry(pChain, pos, n, m);
        m := m + 1;
      }
    }

    /** The entries below `m` have been marked free. */
    ghost predicate Marking(a: Snap, log: seq<Entry>, p: seq<nat>, n: nat, m: nat)
      reads file.fat.device
    {
      && entryNum <= m <= |log| && EndsAt(log, entryNum, n)
      && ValidSnap(file.fat.bpb, a) && ValidSnap(file.fat.bpb, Parent(p))
      && Became(file.fat.bpb, a, Parent(p), Marked(log, entryNum, m - entryNum))
    }

    lemma MarkStarts(log: seq<Entry>, p: seq<nat>, n: nat)
      requires Placed(p, n) && log == ParentLog(p)
      ensures Marking(Parent(p), log, p, n, entryNum)
    {
      hide CountOfClusters, FirstDataSector, Tables, IsChain, LogOf, Became, Marked, IsLong;
      MarkedNone(log, entryNum);
      BecameItself(file.fat.bpb, Parent(p));
    }

    lemma MarkingOn(a: Snap, before: Snap, log: seq<Entry>, p: seq<nat>, n: nat, m: nat)
      requires entryNum <= m < entryNum + n && EndsAt(log, entryNum, n)
      requires ValidSnap(file.fat.bpb, a) && ValidSnap(file.fat.bpb, before) && ValidSnap(file.fat.bpb, Parent(p))
      requires Became(file.fat.bpb, a, before, Marked(log, entryNum, m - entryNum))
      requires var l := LogOf(file.fat.bpb, before);
        m < |l| && Became(file.fat.bpb, before, Parent(p), l[m := Freed(l[m])])
      ensures Marking(a, log, p, n, m + 1)
      ensures IsLong(LogOf(file.fat.bpb, before)[m]) <==> m < entryNum + n - 1
    {
      hide CountOfClusters, FirstDataSector, Tables, IsChain, OthersKept, Marked, IsLong, Freed;
      var l := Marked(log, entryNum, m - entryNum);
      MarkedMore(log, entryNum, m - entryNum);
      BecameTwice(file.fat.bpb, a, before, Parent(p), l, l[m := Freed(l[m])]);
    }

    /** A live file whose entries can be found from its parent's chain. */
    ghost predicate Live(p: seq<nat>, n: nat)
      reads this, file, file.fat.device
    {
      Placed(p, n) && MetaFits() && !isDeleted && !IsRoot()
    }

    lemma PlacedAfter(a: Image, p: seq<nat>, log: seq<Entry>, q: seq<nat>, n: nat, k: nat, m: Meta, isDir: bool)
      requires ValidSnap(file.fat.bpb, Snap(a, p, 0)) && ValidSnap(file.fat.bpb, Parent(p))
      requires log == LogOf(file.fat.bpb, Snap(a, p, 0)) && k < |log| && ValidMeta(m)
      requires Became(file.fat.bpb, Snap(a, p, 0), Parent(p), MetaWritten(log, k, m, isDir))
      requires ValidSnap(file.fat.bpb, Snap(a, q, 0)) && q != [] && q[0] == parentClus && (p == q || Apart(q, p))
      requires WalkFits(file.fat.bpb, q, entryNum, n) && EndsAt(LogOf(file.fat.bpb, Snap(a, q, 0)), entryNum, n)
      ensures Placed(q, n)
      ensures ParentLog(q) == if p == q then MetaWritten(log, k, m, isDir) else LogOf(file.fat.bpb, Snap(a, q, 0))
    {
      hide CountOfClusters, FirstDataSector, Tables, IsChain, FileData.FileBytes, Reserved, OnVolume, OthersKept;
      hide LogOf, MetaWritten, EndsAt, Apart, ValidImage, WalkFits;
      if p == q {
        MetaKeepsEnds(log, entryNum, n, k, m, isDir);
      } else {
        DirSurvives(file.fat.bpb, a, file.fat.device.sectors, p, p, q);
      }
    }

    /** The first half of `ExchangeMetaData`, in memory. */
    method SwapFields(target: Node)
      requires this != target && file != target.file
      modifies this, target, file, target.file
      ensures file.chain == old(target.file.chain) && target.file.chain == old(file.chain)
      ensures file.fstClus == old(target.file.fstClus) && target.file.fstClus == old(file.fstClus)
      ensures file.fileSz == old(target.file.fileSz) && target.file.fileSz == old(file.fileSz)
      ensures crt == old(target.crt) && acc == old(target.acc) && wrt == old(target.wrt)
      ensures target.crt == old(crt) && target.acc == old(acc) && target.wrt == old(wrt)
      ensures isDeleted == old(isDeleted) && target.isDeleted == old(target.isDeleted)
      ensures file.clusChain == None && target.file.clusChain == None
    {
      file.fileSz, target.file.fileSz := target.file.fileSz, file.fileSz;
      file.fstClus, target.file.fstClus := target.file.fstClus, file.fstClus;
      file.chain, target.file.chain := target.file.chain, file.chain;
      crt, target.crt := target.crt, crt;
      acc, target.acc := target.acc, acc;
      wrt, target.wrt := target.wrt, wrt;
      file.clusChain, target.file.clusChain := None, None;
    }

    /**
     * Swaps size, clusters and times with `target`, then writes both back, this file first. The cached chains
     * are dropped; a sync may have read them again.
     */
    method ExchangeMetaData(target: Node, ghost p: seq<nat>, ghost n: nat, ghost q: seq<nat>, ghost k: nat)
      requires this != target && file != target.file && file.fat == target.file.fat && file.isDir == target.file.isDir
      requires Live(p, n) && target.Live(q, k) && (p == q || Apart(q, p))
      modifies this, target, file, target.file, file.fat.device
      ensures file.chain == old(target.file.chain) && target.file.chain == old(file.chain)
      ensures file.fstClus == old(target.file.fstClus) && target.file.fstClus == old(file.fstClus)
      ensures file.fileSz == old(target.file.fileSz) && target.file.fileSz == old(file.fileSz)
      ensures crt == old(target.crt) && acc == old(target.acc) && wrt == old(target.wrt)
      ensures target.crt == old(crt) && target.acc == old(acc) && target.wrt == old(wrt)
      ensures file.clusChain in {None, Some(file.chain)} && target.file.clusChain in {None, Some(target.file.chain)}
      ensures Live(p, n) && target.Live(q, k)
      ensures MetaNow() == old(target.MetaNow()) && target.MetaNow() == old(MetaNow())
      ensures var l, i, j := old(ParentLog(p)), entryNum + n - 1, target.entryNum + k - 1;
        var l' := MetaWritten(l, i, MetaNow(), file.isDir);
        if p == q then ParentLog(p) == MetaWritten(l', j, target.MetaNow(), file.isDir)
        else ParentLog(p) == l' && ParentLog(q) == MetaWritten(old(ParentLog(q)), j, target.MetaNow(), file.isDir)
      ensures OthersKept(file.fat.bpb, old(file.fat.device.sectors), file.fat.device.sectors, p + q, p + q)
    {
      hide CountOfClusters, FirstDataSector, Tables, IsChain, FileData.FileBytes, Reserved, OnVolume, OthersKept;
      hide LogOf, MetaWritten, Apart, ValidImage, WalkFits, Became;
      ghost var a := file.fat.device.sectors;
      SwapFields(target);
      Sync(p, n);
      ghost var mid := file.fat.device.sectors;
      PlacedAfter(a, p, old(ParentLog(p)), p, n, entryNum + n - 1, MetaNow(), file.isDir);
      target.PlacedAfter(a, p, old(ParentLog(p)), q, k, entryNum + n - 1, MetaNow(), file.isDir);
      target.Sync(q, k);
      target.PlacedAfter(mid, q, LogOf(file.fat.bpb, Snap(mid, q, 0)), q, k, target.entryNum + k - 1,
        target.MetaNow(), file.isDir);
      ApartSymmetric(p, q);
      TwoDirsWritten(file.fat.bpb, Snap(a, p, 0), Snap(mid, p, 0), Snap(mid, q, 0), target.Parent(q),
        MetaWritten(old(ParentLog(p)), entryNum + n - 1, MetaNow(), file.isDir),
        MetaWritten(LogOf(file.fat.bpb, Snap(mid, q, 0)), target.entryNum + k - 1, target.MetaNow(), file.isDir));
      PlacedAfter(mid, q, LogOf(file.fat.bpb, Snap(mid, q, 0)), p, n, target.entryNum + k - 1, target.MetaNow(),
        file.isDir);
    }
  }
}
