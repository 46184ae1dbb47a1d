/** The step sequences of unlink, rmdir and rename in fat32_fuse.cpp. */
module Namespace {
  import opened Base
  import opened FatTable
  import opened FirstFit
  import opened Geometry
  import opened Device
  import opened FatImage
  import opened Fat
  import FileData
  import opened FileSteps
  import opened Files
  import opened LongName
  import opened ShortEntry
  import opened DirLog
  import opened DirBytes
  import opened DirScan
  import opened DirUpdate
  import opened Directories
  import opened Survival
  import MakeDir
  import opened Walk
  import opened Nodes

  datatype Reply = Done | NoEntry | IsADirectory | NotADirectory | NotEmpty | NameInvalid | NoRoomForName | Stopped

  // ----- unlink and rmdir -----

  /** `child` is the handle for the file that `name` is looked up as, whose walk over its entries fits the parent. */
  ghost predicate HandleFor(parent: Directory, name: Name, child: Node)
    requires parent.Valid()
    reads parent.file, parent.file.fat, parent.file.fat.device, child, child.file, child.file.fat, child.file.fat.device
  {
    var x := Lookup(parent.Log(), name);
    && child.file.fat == parent.file.fat && child.file != parent.file
    && (x.Some? ==>
      && child.parentClus == parent.file.chain[0] && child.entryNum == x.value.start
      && WalkFits(parent.file.fat.bpb, parent.file.chain, child.entryNum, |x.value.entries|)
      && !child.isDeleted && child.file.ValidChain() && Apart(child.file.chain, parent.file.chain))
  }

  /** The name's group is gone from the directory, and with it the file's clusters; nothing else has changed. */
  ghost predicate Unlinked(g: BPB, a: Snap, b: Snap, name: Name, c: seq<nat>)
    requires ValidSnap(g, a) && ValidSnap(g, b) && Lookup(LogOf(g, a), name).Some?
  {
    var log, log' := LogOf(g, a), LogOf(g, b);
    var x := Lookup(log, name).value;
    var s, n := x.start, |x.entries|;
    && s + n <= |log| && WellFormed(log')
    && Groups(log, 0) == Groups(log[..s], 0) + ([x] + Groups(log[s + n..], s + n))
    && Groups(log', 0) == Groups(log[..s], 0) + Groups(log[s + n..], s + n)
    && OthersKept(g, a.img, b.img, a.chain + c, b.chain)
  }

  /**
   * What that means: names of other files lead where they did, the removed name leads to the next file that bears it,
   * which where names are distinct is none, and the clusters are free.
   */
  lemma UnlinkedMeans(g: BPB, a: Snap, b: Snap, name: Name, c: seq<nat>, other: Name, n: nat)
    requires ValidSnap(g, a) && ValidSnap(g, b) && Lookup(LogOf(g, a), name).Some? && Unlinked(g, a, b, name, c)
    requires WellFormed(LogOf(g, a))
    ensures var log, log', x := LogOf(g, a), LogOf(g, b), Lookup(LogOf(g, a), name).value;
      && |x.entries| > 0 && x.start + |x.entries| <= |log| && Bears(x.entries, name)
      && (!Bears(x.entries, other) ==> Lookup(log', other) == Lookup(log, other))
      && Lookup(log', name) == FirstBearing(Groups(log[x.start + |x.entries|..], x.start + |x.entries|), name)
    ensures n in c && n !in b.chain && n < |Entries(g, b.img)| ==> Link(Entries(g, b.img), n) == 0
    ensures forall e: seq<nat> :: IsChain(Entries(g, a.img), e) && OnVolume(g, e) && Apart(e, a.chain + c) ==>
      IsChain(Entries(g, b.img), e) && FileData.FileBytes(g, b.img, e) == FileData.FileBytes(g, a.img, e)
  {
    hide CountOfClusters, FirstDataSector, Tables, IsChain, FileData.FileBytes, LogOf, WellFormed, Groups, OnVolume;
    hide Bears, HoldsGroup, Reserved, Link;
    var log, log', x := LogOf(g, a), LogOf(g, b), Lookup(LogOf(g, a), name).value;
    FoundIsHeld(log, name);
    var before, after := Groups(log[..x.start], 0), Groups(log[x.start + |x.entries|..], x.start + |x.entries|);
    DropLookup(log, log', before, x, after, other);
    DropLookup(log, log', before, x, after, name);
    if n in c && n < |Entries(g, b.img)| {
      assert TradedAt(Entries(g, a.img), Entries(g, b.img), a.chain + c, b.chain, n);
    }
    forall e: seq<nat> | IsChain(Entries(g, a.img), e) && OnVolume(g, e) && Apart(e, a.chain + c)
      ensures KeptApart(g, a.img, b.img, e, b.chain)
    {
    }
  }

  /** A file whose entries have been deleted destroys itself: its first entry is marked free once more. */
  method DestroyChild(parent: Directory, child: Node)
    requires parent.Valid() && child.file.fat == parent.file.fat && child.file != parent.file
    requires child.entryNum < |parent.Log()| && !IsLong(parent.Log()[child.entryNum])
    requires child.parentClus == parent.file.chain[0]
    requires WalkFits(parent.file.fat.bpb, parent.file.chain, child.entryNum, 1)
    requires !child.isDeleted && child.file.ValidChain() && Apart(child.file.chain, parent.file.chain)
    modifies parent.file.fat, parent.file.fat.device, child`isDeleted
    ensures parent.Valid() && child.isDeleted && parent.Log() == Marked(old(parent.Log()), child.entryNum, 1)
    ensures OthersKept(parent.file.fat.bpb, old(parent.file.fat.device.sectors), parent.file.fat.device.sectors,
                       parent.file.chain + child.file.chain, parent.file.chain)
  {
    hide CountOfClusters, FirstDataSector, Tables, IsChain, OthersKept, LogOf, WellFormed, Groups, WalkFits;
    hide BytesPerClus, IsLong, OnVolume, Reserved, Marked, Capacity, Apart, Cells, ValidImage;
    HeadIsUsable(parent);
    SizeFieldIgnored(parent.file.fat.bpb, parent.file.Now());
    child.SelfDestruct(parent.file.chain, 1);
    SizeFieldIgnored(parent.file.fat.bpb, parent.file.Now());
  }

  /** Deleting a name and marking its first entry free once more drops its group. */
  lemma NameDropped(log: seq<Entry>, name: Name, log': seq<Entry>)
    requires WellFormed(log) && Lookup(log, name).Some?
    requires var x := Lookup(log, name).value;
      |x.entries| > 0 && x.start + |x.entries| <= |log| && Removed(log, x.start, |x.entries|, log')
    ensures var x := Lookup(log, name).value;
      var s, n := x.start, |x.entries|;
      && s < |log'| && !IsLong(log'[s]) && WellFormed(Marked(log', s, 1))
      && Groups(log, 0) == Groups(log[..s], 0) + ([x] + Groups(log[s + n..], s + n))
      && Groups(Marked(log', s, 1), 0) == Groups(log[..s], 0) + Groups(log[s + n..], s + n)
  {
    hide *;
    var x := Lookup(log, name).value;
    FoundIsHeld(log, name);
    RemoveDropsGroup(log, x.start, x.entries, log');
    MarkAfterRemove(log, x.start, x.entries, log');
  }

  lemma CutIsPrefix(g: BPB, log: seq<Entry>, s: nat, n: nat, c: seq<nat>, c': seq<nat>)
    requires ValidBPB(g) && s + n <= |log| && CutBehind(g, log, s, n, c, c')
    ensures c' <= c
  {
  }

  lemma WalkStillFits(parent: Directory, s: nat, n: nat, c: seq<nat>)
    requires parent.Valid() && s < |parent.Log()| && n > 0 && parent.file.chain <= c
    requires WalkFits(parent.file.fat.bpb, c, s, n)
    ensures WalkFits(parent.file.fat.bpb, parent.file.chain, s, 1)
  {
    hide CountOfClusters, FirstDataSector, Tables, IsChain, OnVolume, Reserved, WalkFits, ValidImage;
    hide FileData.FileBytes, EntriesOf;
    LogCount(parent.file.fat.bpb, parent.file.Now());
    FitsShared(parent.file.fat.bpb, c, parent.file.chain, s, n, 1);
  }

  /** `delFile` followed by `selfDestruct`, as both unlink and rmdir end. */
  method RemoveChild(parent: Directory, name: Name, child: Node)
    requires parent.Valid() && WellFormed(parent.Log()) && Lookup(parent.Log(), name).Some?
    requires HandleFor(parent, name, child)
    modifies parent.file, parent.file.fat, parent.file.fat.device, child`isDeleted
    ensures parent.Valid() && child.isDeleted
    ensures Unlinked(parent.file.fat.bpb, old(parent.file.Now()), parent.file.Now(), name, old(child.file.chain))
  {
    hide CountOfClusters, FirstDataSector, Tables, IsChain, OthersKept, LogOf, WellFormed, Groups, Removed;
    hide ValidGroup, WalkFits, BytesPerClus, IsLong, OnVolume, Reserved, Marked, Capacity, Apart, HoldsGroup, Cells;
    hide ValidImage, Lookup, CutBehind, FileData.FileBytes;
    ghost var g, a, log, c := parent.file.fat.bpb, parent.file.Now(), parent.Log(), child.file.chain;
    var ok, failed := parent.DelFile(name);
    assert ok && !failed;
    ghost var b := parent.file.Now();
    NameDropped(log, name, parent.Log());
    CutIsPrefix(g, log, child.entryNum, |Lookup(log, name).value.entries|, a.chain, b.chain);
    WalkStillFits(parent, child.entryNum, |Lookup(log, name).value.entries|, a.chain);
    ChainSurvives(g, a.img, b.img, a.chain, b.chain, child.file.fstClus, c);
    DestroyChild(parent, child);
    ChangedThenFreed(g, a.img, b.img, parent.file.fat.device.sectors, a.chain, b.chain, c);
  }

  /** Removes a plain file by name. */
  method Unlink(parent: Directory, name: Name, child: Node) returns (r: Reply)
    requires parent.Valid() && WellFormed(parent.Log()) && HandleFor(parent, name, child)
    modifies parent.file, parent.file.fat, parent.file.fat.device, child`isDeleted
    ensures var found := old(Lookup(parent.Log(), name)).Some?;
      r == if !found then NoEntry else if child.file.isDir then IsADirectory else Done
    ensures parent.Valid() && child.isDeleted == (r == Done || old(child.isDeleted))
    ensures r != Done ==> parent.file.Now() == old(parent.file.Now())
    ensures r == Done ==>
      Unlinked(parent.file.fat.bpb, old(parent.file.Now()), parent.file.Now(), name, old(child.file.chain))
  {
    hide CountOfClusters, FirstDataSector, Tables, IsChain, OthersKept, LogOf, WellFormed, Groups, Removed;
    hide ValidGroup, WalkFits, BytesPerClus, OnVolume, Reserved, Capacity, Apart, Cells, ValidImage, Lookup, Unlinked;
    var range, failed := parent.LookupFileInner(name);
    assert !failed;
    if range.None? {
      return NoEntry;
    }
    if child.file.isDir {
      return IsADirectory;
    }
    RemoveChild(parent, name, child);
    r := Done;
  }

  /** The entries of the directory `f` after those for itself and its parent. */
  ghost predicate IsSubDir(f: File)
    reads f, f.fat, f.fat.device
  {
    && f.isDir && f.Valid() && f.chain != [] && Capacity(f.fat.bpb, |f.chain|) < 0x1_0000_0000
    && |LogOf(f.fat.bpb, f.Now())| >= 2 && WellFormed(LogOf(f.fat.bpb, f.Now())[2..])
  }

  /** Removes a directory by name, if it holds no files. */
  method Rmdir(parent: Directory, name: Name, child: Node) returns (r: Reply)
    requires parent.Valid() && WellFormed(parent.Log()) && HandleFor(parent, name, child)
    requires child.file.isDir ==> IsSubDir(child.file)
    modifies parent.file, child.file`clusChain, parent.file.fat, parent.file.fat.device, child`isDeleted
    ensures var found := old(Lookup(parent.Log(), name)).Some?;
      r == if !found then NoEntry else if !child.file.isDir then NotADirectory
           else if Groups(old(LogOf(child.file.fat.bpb, child.file.Now())[2..]), 2) != [] then NotEmpty else Done
    ensures parent.Valid() && child.isDeleted == (r == Done || old(child.isDeleted))
    ensures r != Done ==> parent.file.Now() == old(parent.file.Now())
    ensures r == Done ==>
      Unlinked(parent.file.fat.bpb, old(parent.file.Now()), parent.file.Now(), name, old(child.file.chain))
  {
    hide CountOfClusters, FirstDataSector, Tables, IsChain, OthersKept, LogOf, WellFormed, Groups, Removed;
    hide ValidGroup, WalkFits, BytesPerClus, OnVolume, Reserved, Capacity, Apart, Cells, ValidImage, Lookup, Unlinked;
    var range, failed := parent.LookupFileInner(name);
    assert !failed;
    if range.None? {
      return NoEntry;
    }
    if !child.file.isDir {
      return NotADirectory;
    }
    var subDir := new Directory(child.file);
    var empty := subDir.IsEmptyDir(false);
    if !empty {
      return NotEmpty;
    }
    RemoveChild(parent, name, child);
    r := Done;
  }

  // ----- rename -----

  /**
   * The clusters of four chains: two directories, the same one or apart, and two files apart from them and
   * each other.
   */
  ghost predicate FourApart(p: seq<nat>, q: seq<nat>, c: seq<nat>, d: seq<nat>) {
    && (p == q || Apart(q, p))
    && Apart(c, p) && Apart(c, q) && Apart(d, p) && Apart(d, q) && Apart(c, d)
  }

  /** Entries written in the directories `q` and `p`, then those of `p` again and `d` freed: `c` stays. */
  lemma ExchangedThenFreed(g: BPB, a: Image, b: Image, e: Image, p: seq<nat>, q: seq<nat>, c: seq<nat>, d: seq<nat>)
    requires ValidBPB(g) && ValidImage(g, a) && ValidImage(g, b) && ValidImage(g, e)
    requires OthersKept(g, a, b, q + p, q + p) && OthersKept(g, b, e, p + d, p) && FourApart(p, q, c, d)
    requires OnVolume(g, q) && OnVolume(g, c) && OnVolume(g, d)
    requires q == [] || IsChain(Entries(g, b), q)
    requires (c == [] || IsChain(Entries(g, a), c)) && (d == [] || IsChain(Entries(g, a), d))
    requires c == [] || IsChain(Entries(g, b), c)
    ensures OthersKept(g, a, e, p + q + c + d, p + q + c)
  {
    hide CountOfClusters, FirstDataSector, Tables, IsChain, OnVolume, OthersKept, ValidImage;
    KeepsOneMore(g, a, b, q + p, q + p, c);
    KeepsOneMore(g, a, b, q + p + c, q + p + c, d);
    SameClustersKept(g, a, b, q + p + c + d, q + p + c + d, p + q + c + d, p + q + c + d);
    if p == q {
      KeepsOneMore(g, b, e, p + d, p, c);
      SameClustersKept(g, b, e, p + d + c, p + c, p + q + c + d, p + q + c);
    } else {
      KeepsOneMore(g, b, e, p + d, p, q);
      KeepsOneMore(g, b, e, p + d + q, p + q, c);
      SameClustersKept(g, b, e, p + d + q + c, p + q + c, p + q + c + d, p + q + c);
    }
    OthersKeptThrice(g, a, b, e, p + q + c + d, p + q + c + d, p + q + c);
  }

  /** `new_file->exchangeMetaData(old_file); old_file->selfDestruct()`, as every rename ends. */
  method MoveOnto(source: Node, target: Node, ghost p: seq<nat>, ghost n: nat, ghost q: seq<nat>, ghost k: nat)
    requires source != target && source.file != target.file && source.file.fat == target.file.fat
    requires source.file.isDir == target.file.isDir && source.Live(p, n) && target.Live(q, k)
    requires source.file.ValidChain() && target.file.ValidChain()
    requires FourApart(p, q, source.file.chain, target.file.chain)
    modifies source, target, source.file, target.file, source.file.fat, source.file.fat.device
    ensures source.isDeleted && target.MetaFits() && !target.isDeleted && target.file.ValidChain()
    ensures ValidSnap(source.file.fat.bpb, source.Parent(p)) && ValidSnap(target.file.fat.bpb, target.Parent(q))
    ensures target.file.chain == old(source.file.chain) && target.MetaNow() == old(source.MetaNow())
    ensures FileData.FileBytes(target.file.fat.bpb, target.file.fat.device.sectors, target.file.chain) ==
            old(FileData.FileBytes(source.file.fat.bpb, source.file.fat.device.sectors, source.file.chain))
    ensures Moved(old(source.ParentLog(p)), source.ParentLog(p), old(target.ParentLog(q)), target.ParentLog(q), p == q,
                  source.entryNum, n, target.entryNum + k - 1, old(source.MetaNow()), old(target.MetaNow()),
                    source.file.isDir)
    ensures OthersKept(source.file.fat.bpb, old(source.file.fat.device.sectors), source.file.fat.device.sectors,
                       p + q + old(source.file.chain) + old(target.file.chain), p + q + target.file.chain)
  {
    hide CountOfClusters, FirstDataSector, Tables, IsChain, OthersKept, LogOf, MetaWritten, Marked;
    hide FileData.FileBytes, WalkFits, BytesPerClus, OnVolume, Reserved, Capacity, Apart, Cells, ValidImage;
    ghost var g, a, c, d := source.file.fat.bpb, source.file.fat.device.sectors, source.file.chain, target.file.chain;
    ApartSymmetric(p, q);
    target.ExchangeMetaData(source, q, k, p, n);
    ghost var b := source.file.fat.device.sectors;
    ApartSum(c, q, p);
    ApartSum(d, q, p);
    ChainSurvives(g, a, b, q + p, q + p, target.file.fstClus, c);
    ChainSurvives(g, a, b, q + p, q + p, source.file.fstClus, d);
    source.SelfDestruct(p, n);
    ghost var e := source.file.fat.device.sectors;
    ApartSum(c, p, d);
    ChainSurvives(g, b, e, p + d, p, target.file.fstClus, c);
    if p != q {
      ApartSum(q, p, d);
      ApartSymmetric(q, d);
      DirSurvives(g, b, e, p + d, p, q);
    }
    ExchangedThenFreed(g, a, b, e, p, q, c, d);
  }

  /** Renames over an existing file of the same kind; an existing directory must hold no files. */
  method RenameOver(source: Node, target: Node, ghost p: seq<nat>, ghost n: nat, ghost q: seq<nat>, ghost k: nat)
    returns (r: Reply)
    requires source != target && source.file != target.file && source.file.fat == target.file.fat
    requires source.file.isDir == target.file.isDir && source.Live(p, n) && target.Live(q, k)
    requires source.file.ValidChain() && target.file.ValidChain()
    requires FourApart(p, q, source.file.chain, target.file.chain)
    requires target.file.isDir ==> IsSubDir(target.file)
    modifies source, target, source.file, target.file, source.file.fat, source.file.fat.device
    ensures r == if target.file.isDir && Groups(old(LogOf(target.file.fat.bpb, target.file.Now()))[2..], 2) != []
      then NotEmpty else Done
    ensures r == NotEmpty ==> source.file.fat.device.sectors == old(source.file.fat.device.sectors) && !source.isDeleted
    ensures r == Done ==>
      && source.isDeleted && target.MetaFits() && target.file.ValidChain()
      && ValidSnap(source.file.fat.bpb, source.Parent(p)) && ValidSnap(target.file.fat.bpb, target.Parent(q))
      && target.file.chain == old(source.file.chain) && target.MetaNow() == old(source.MetaNow())
      && FileData.FileBytes(target.file.fat.bpb, target.file.fat.device.sectors, target.file.chain) ==
         old(FileData.FileBytes(source.file.fat.bpb, source.file.fat.device.sectors, source.file.chain))
      && Moved(old(source.ParentLog(p)), source.ParentLog(p), old(target.ParentLog(q)), target.ParentLog(q), p == q,
           source.entryNum, n, target.entryNum + k - 1, old(source.MetaNow()), old(target.MetaNow()), source.file.isDir)
      && OthersKept(source.file.fat.bpb, old(source.file.fat.device.sectors), source.file.fat.device.sectors,
           p + q + old(source.file.chain) + old(target.file.chain), p + q + target.file.chain)
  {
    hide CountOfClusters, FirstDataSector, Tables, IsChain, OthersKept, LogOf, FileData.FileBytes, WellFormed, Groups;
    hide WalkFits, BytesPerClus, OnVolume, Reserved, Capacity, Apart, Cells, ValidImage, Moved;
    if target.file.isDir {
      var dir := new Directory(target.file);
      var empty := dir.IsEmptyDir(false);
      if !empty {
        return NotEmpty;
      }
    }
    MoveOnto(source, target, p, n, q, k);
    r := Done;
  }

  /**
   * The same two calls when both names lead to the same file: exchanging changes nothing, so the file
   * destroys itself, entries and clusters.
   */
  method MoveOntoItself(file: Node, ghost p: seq<nat>, ghost n: nat)
    requires file.Live(p, n) && file.file.ValidChain() && Apart(file.file.chain, p)
    modifies file, file.file, file.file.fat, file.file.fat.device
    ensures file.isDeleted && ValidSnap(file.file.fat.bpb, file.Parent(p))
    ensures var l, i, m := old(file.ParentLog(p)), file.entryNum + n - 1, old(file.MetaNow());
      file.ParentLog(p) ==
      Marked(MetaWritten(MetaWritten(l, i, m, file.file.isDir), i, m, file.file.isDir), file.entryNum, n)
    ensures OthersKept(file.file.fat.bpb, old(file.file.fat.device.sectors), file.file.fat.device.sectors,
                       p + old(file.file.chain), p)
  {
    hide CountOfClusters, FirstDataSector, Tables, IsChain, OthersKept, LogOf, MetaWritten, Marked;
    hide FileData.FileBytes, WalkFits, BytesPerClus, OnVolume, Reserved, Capacity, Apart, Cells, ValidImage;
    ghost var g, a, c, l := file.file.fat.bpb, file.file.fat.device.sectors, file.file.chain, file.ParentLog(p);
    ghost var i, m, isDir := file.entryNum + n - 1, file.MetaNow(), file.file.isDir;
    file.file.clusChain := None;
    file.Sync(p, n);
    ghost var b := file.file.fat.device.sectors;
    file.PlacedAfter(a, p, l, p, n, i, m, isDir);
    file.Sync(p, n);
    ghost var e := file.file.fat.device.sectors;
    file.PlacedAfter(b, p, MetaWritten(l, i, m, isDir), p, n, i, m, isDir);
    OthersKeptThrice(g, a, b, e, p, p, p);
    ChainSurvives(g, a, e, p, p, file.file.fstClus, c);
    file.SelfDestruct(p, n);
    ChangedThenFreed(g, a, e, file.file.fat.device.sectors, p, p, c);
  }

  // ----- rename to a new name -----

  /**
   * The walk over `n` entries made in the lowest room of a directory with entries `log` would fit its new
   * chain `c`.
   */
  ghost predicate RoomFits(g: BPB, log: seq<Entry>, c: seq<nat>, n: nat)
    requires ValidBPB(g)
  {
    forall z: nat, s: nat :: FirstRun(log + EndEntries(z), s, n) ==> WalkFits(g, c, s, n)
  }

  lemma NewGroupEnds(log: seq<Entry>, log': seq<Entry>, range: DirEntryRange, utf16: seq<byte>, stem: seq<byte>,
                     isDir: bool, stamp: seq<byte>)
    requires |utf16| > 0 && Even(|utf16|) && |stamp| == 5 && CreatedAt(log, log', range, utf16, stem, isDir, stamp)
    ensures EndsAt(log', range.start, range.count)
  {
    hide FirstRun, Inserted, IsLong, IsNewGroup;
    var s, n := range.start, range.count;
    var g := log'[s..s + n];
    NewGroupShape(g, utf16, stem, isDir, stamp);
    forall i | s <= i < s + n ensures IsLong(log'[i]) <==> i < s + n - 1 {
      assert log'[i] == g[i - s];
    }
  }

  /** Creating a file leaves live entries where they are. */
  lemma LiveStay(log: seq<Entry>, log': seq<Entry>, range: DirEntryRange, utf16: seq<byte>, stem: seq<byte>,
                 isDir: bool, stamp: seq<byte>, i: nat)
    requires |utf16| > 0 && Even(|utf16|) && |stamp| == 5 && CreatedAt(log, log', range, utf16, stem, isDir, stamp)
    requires i < |log| && !IsEmpty(log[i])
    ensures log'[i] == log[i] && !(range.start <= i < range.start + range.count)
  {
    hide IsNewGroup, IsEmpty;
    var s, n := range.start, range.count;
    if s <= i < s + n {
      LiveBreaksRun(log + EndEntries(|log'| - |log|), s, n, i);
    }
  }

  lemma CreatedFits(g: BPB, log: seq<Entry>, log': seq<Entry>, c: seq<nat>, range: DirEntryRange,
                    utf16: seq<byte>, stem: seq<byte>, isDir: bool, stamp: seq<byte>)
    requires |utf16| > 0 && Even(|utf16|) && |stamp| == 5 && CreatedAt(log, log', range, utf16, stem, isDir, stamp)
    requires ValidBPB(g) && RoomFits(g, log, c, range.count)
    ensures WalkFits(g, c, range.start, range.count)
  {
    hide WalkFits, FirstRun, IsNewGroup, CountOfClusters, FirstDataSector;
  }

  /** The `n` entries from `s` on are live. */
  predicate LiveFrom(log: seq<Entry>, s: nat, n: nat) {
    s + n <= |log| && forall i :: s <= i < s + n ==> !IsEmpty(log[i])
  }

  lemma EndsStay(log: seq<Entry>, log': seq<Entry>, range: DirEntryRange, utf16: seq<byte>, stem: seq<byte>,
                 isDir: bool, stamp: seq<byte>, s: nat, n: nat)
    requires |utf16| > 0 && Even(|utf16|) && |stamp| == 5 && CreatedAt(log, log', range, utf16, stem, isDir, stamp)
    requires EndsAt(log, s, n) && LiveFrom(log, s, n)
    ensures EndsAt(log', s, n) && |log| <= |log'|
  {
    hide CreatedAt, IsEmpty, IsLong;
    Longer(log, log', range, utf16, stem, isDir, stamp);
    forall i | s <= i < s + n ensures log'[i] == log[i] {
      LiveStay(log, log', range, utf16, stem, isDir, stamp, i);
    }
  }

  lemma Longer(log: seq<Entry>, log': seq<Entry>, range: DirEntryRange, utf16: seq<byte>, stem: seq<byte>,
               isDir: bool, stamp: seq<byte>)
    requires |utf16| > 0 && Even(|utf16|) && |stamp| == 5 && CreatedAt(log, log', range, utf16, stem, isDir, stamp)
    ensures |log| <= |log'| && range.start + range.count <= |log'|
  {
  }

  /** Where the source's directory is after the target's, with chain `q`, has grown to `q'`. */
  ghost function DirAfter(p: seq<nat>, q: seq<nat>, q': seq<nat>): seq<nat> {
    if p == q then q' else p
  }

  /** The source as it was in the state `a` of the new parent, before its new entries were made. */
  ghost predicate SourceIn(source: Node, a: Snap, p: seq<nat>, n: nat)
    reads source, source.file
  {
    var g, c := source.file.fat.bpb, source.file.chain;
    && source.MetaFits() && !source.isDeleted && !source.IsRoot()
    && ValidSnap(g, a) && ValidSnap(g, Snap(a.img, p, 0)) && p != [] && p[0] == source.parentClus
    && WalkFits(g, p, source.entryNum, n) && a.chain != []
    && EndsAt(LogOf(g, Snap(a.img, p, 0)), source.entryNum, n)
      && LiveFrom(LogOf(g, Snap(a.img, p, 0)), source.entryNum, n)
    && FileChain(Entries(g, a.img), source.file.fstClus, c) && OnVolume(g, c)
    && (p == a.chain || Apart(p, a.chain)) && Apart(c, p) && Apart(c, a.chain)
  }

  /** The new parent got new entries at `range`, and the new file the clusters `d`. */
  ghost predicate Prepared(g: BPB, a: Snap, b: Snap, d: seq<nat>, range: DirEntryRange,
                           utf16: seq<byte>, stem: seq<byte>, isDir: bool, stamp: seq<byte>)
    requires ValidSnap(g, a) && ValidSnap(g, b) && |utf16| > 0 && Even(|utf16|) && |stamp| == 5
  {
    && a.chain != [] && b.chain != [] && a.chain <= b.chain
    && OthersKept(g, a.img, b.img, a.chain, b.chain + d)
    && CreatedAt(LogOf(g, a), LogOf(g, b), range, utf16, stem, isDir, stamp)
  }

  /** A source with live entries stays in place meanwhile. */
  lemma SourceStays(source: Node, a: Snap, b: Snap, p: seq<nat>, n: nat, d: seq<nat>, range: DirEntryRange,
                    utf16: seq<byte>, stem: seq<byte>, isDir: bool, stamp: seq<byte>)
    requires |utf16| > 0 && Even(|utf16|) && |stamp| == 5 && SourceIn(source, a, p, n)
    requires ValidSnap(source.file.fat.bpb, b) && b.img == source.file.fat.device.sectors
    requires Prepared(source.file.fat.bpb, a, b, d, range, utf16, stem, isDir, stamp)
      && (p == a.chain ==> Apart(b.chain, d))
    ensures var g, p' := source.file.fat.bpb, DirAfter(p, a.chain, b.chain);
      && source.Placed(p', n) && (p' == b.chain || Apart(p', b.chain)) && (p' == b.chain <==> p == a.chain)
        && Apart(p', d)
      && source.ParentLog(p') == if p == a.chain then LogOf(g, b) else LogOf(g, Snap(a.img, p, 0))
  {
    hide CountOfClusters, FirstDataSector, Tables, OthersKept, LogOf, CreatedAt, EndsAt, IsEmpty, WalkFits, Apart;
    hide ValidImage;
    var g := source.file.fat.bpb;
    if p == a.chain {
      SizeFieldIgnored(g, a);
      SizeFieldIgnored(g, b);
      EndsStay(LogOf(g, a), LogOf(g, b), range, utf16, stem, isDir, stamp, source.entryNum, n);
      EndsWithin(LogOf(g, b), source.entryNum, n);
      LogCount(g, b);
      FitsShared(g, a.chain, b.chain, source.entryNum, n, n);
    } else {
      DirSurvives(g, a.img, b.img, a.chain, b.chain + d, p);
      ApartSum(p, b.chain, d);
      ApartDiffer(p, b.chain);
    }
  }

  lemma EndsWithin(log: seq<Entry>, s: nat, n: nat)
    requires EndsAt(log, s, n)
    ensures n > 0 && s + n <= |log|
  {
  }

  lemma ApartDiffer(p: seq<nat>, q: seq<nat>)
    requires p != [] && Apart(p, q)
    ensures p != q
  {
    assert p[0] in p;
  }

  lemma PreparedThenMoved(g: BPB, a: Image, b: Image, e: Image, p: seq<nat>, q: seq<nat>, q': seq<nat>, c: seq<nat>,
                          d: seq<nat>)
    requires ValidBPB(g) && ValidImage(g, a) && ValidImage(g, b) && ValidImage(g, e)
    requires OthersKept(g, a, b, q, q' + d)
      && var p' := DirAfter(p, q, q'); OthersKept(g, b, e, p' + q' + c + d, p' + q' + c)
    requires OnVolume(g, p) && OnVolume(g, c) && (p == [] || IsChain(Entries(g, a), p))
      && (c == [] || IsChain(Entries(g, a), c))
    requires (p == q || Apart(p, q)) && Apart(c, p) && Apart(c, q)
    ensures var p' := DirAfter(p, q, q'); OthersKept(g, a, e, p + q + c, p' + q' + c)
  {
    hide CountOfClusters, FirstDataSector, Tables, IsChain, OnVolume, OthersKept, ValidImage;
    var p' := DirAfter(p, q, q');
    if p == q {
      SameClustersKept(g, a, b, q, q' + d, p + q, p' + q' + d);
    } else {
      KeepsOneMore(g, a, b, q, q' + d, p);
      SameClustersKept(g, a, b, q + p, q' + d + p, p + q, p' + q' + d);
    }
    KeepsOneMore(g, a, b, p + q, p' + q' + d, c);
    SameClustersKept(g, a, b, p + q + c, p' + q' + d + c, p + q + c, p' + q' + c + d);
    OthersKeptThrice(g, a, b, e, p + q + c, p' + q' + c + d, p' + q' + c);
  }

  /** What holds between the creation of the new entries and the exchange. */
  ghost predicate ReadyToMove(newParent: Directory, source: Node, target: Node, p: seq<nat>, n: nat, k: nat)
    reads newParent.file, newParent.file.fat, newParent.file.fat.device, source, source.file, target, target.file
    reads source.file.fat, source.file.fat.device, target.file.fat, target.file.fat.device
  {
    && newParent.Valid() && source.file.fat == target.file.fat == newParent.file.fat
    && source != target && source.file != target.file && newParent.file != source.file && newParent.file != target.file
    && source.Live(p, n) && target.Live(newParent.file.chain, k)
    && source.file.ValidChain() && target.file.ValidChain() && source.file.isDir == target.file.isDir
    && FourApart(p, newParent.file.chain, source.file.chain, target.file.chain)
  }

  /** `MoveOnto` for a target in `newParent`. */
  method MoveWithin(newParent: Directory, source: Node, target: Node, ghost p: seq<nat>, ghost n: nat, ghost k: nat)
    requires ReadyToMove(newParent, source, target, p, n, k)
    modifies source, target, source.file, target.file, newParent.file.fat, newParent.file.fat.device
    ensures newParent.Valid() && source.isDeleted && target.MetaFits() && target.file.ValidChain()
    ensures ValidSnap(newParent.file.fat.bpb, source.Parent(p))
    ensures target.file.chain == old(source.file.chain) && target.MetaNow() == old(source.MetaNow())
    ensures FileData.FileBytes(target.file.fat.bpb, target.file.fat.device.sectors, target.file.chain) ==
            old(FileData.FileBytes(source.file.fat.bpb, source.file.fat.device.sectors, source.file.chain))
    ensures Moved(old(source.ParentLog(p)), source.ParentLog(p), old(newParent.Log()), newParent.Log(),
      p == newParent.file.chain, source.entryNum, n, target.entryNum + k - 1, old(source.MetaNow()),
                  old(target.MetaNow()), source.file.isDir)
    ensures var q := newParent.file.chain;
      OthersKept(newParent.file.fat.bpb, old(newParent.file.fat.device.sectors), newParent.file.fat.device.sectors,
                 p + q + old(source.file.chain) + old(target.file.chain), p + q + target.file.chain)
  {
    hide CountOfClusters, FirstDataSector, Tables, IsChain, OthersKept, LogOf, MetaWritten, Marked;
    hide FileData.FileBytes, WalkFits, BytesPerClus, OnVolume, Reserved, Capacity, Apart, Cells, ValidImage, Moved;
    SizeFieldIgnored(newParent.file.fat.bpb, newParent.file.Now());
    MoveOnto(source, target, p, n, newParent.file.chain, k);
    SizeFieldIgnored(newParent.file.fat.bpb, newParent.file.Now());
  }

  /**
   * From the state `a` of the new parent to `b`: the directory first got a new group at `range`, which made
   * its entries `mid`; then the group got the source's metadata, the source's own group, `n` entries at `s`
   * of the directory with chain `p` and entries `l`, was marked free, and nothing but the clusters of the
   * directories changed hands. The source's chain `c` keeps its bytes.
   */
  ghost predicate RenamedToNew(g: BPB, a: Snap, b: Snap, p: seq<nat>, l: seq<Entry>, s: nat, n: nat, c: seq<nat>,
                               mid: seq<Entry>, range: DirEntryRange, utf16: seq<byte>, stem: seq<byte>, isDir: bool,
                               stamp: seq<byte>, source: Meta, placeholder: Meta)
    requires ValidSnap(g, a) && ValidSnap(g, b) && |utf16| > 0 && Even(|utf16|) && |stamp| == 5
    requires ValidMeta(source) && ValidMeta(placeholder)
  {
    var p', same := DirAfter(p, a.chain, b.chain), p == a.chain;
    && OnVolume(g, c) && FileData.FileBytes(g, b.img, c) == FileData.FileBytes(g, a.img, c)
    && OthersKept(g, a.img, b.img, p + a.chain + c, p' + b.chain + c)
    && Apart(c, p') && Apart(c, b.chain) && (same || Apart(b.chain, p'))
    && ValidSnap(g, Snap(b.img, p', 0)) && CreatedAt(LogOf(g, a), mid, range, utf16, stem, isDir, stamp)
    && range.count > 0 && range.start + range.count <= |mid| && n > 0 && s + n <= |l| <= |if same then mid else l|
    && Moved(if same then mid else l, LogOf(g, Snap(b.img, p', 0)), mid, LogOf(g, b), same, s, n,
      range.start + range.count - 1, source, placeholder, isDir)
  }

  /** The source is where it was in `a`; the target has its entries at `range`, and the clusters it was made with. */
  ghost predicate Staged(newParent: Directory, range: DirEntryRange, utf16: seq<byte>, stem: seq<byte>,
                         stamp: seq<byte>, source: Node, target: Node, p: seq<nat>, n: nat, a: Snap)
    requires |utf16| > 0 && Even(|utf16|) && |stamp| == 5
    reads newParent.file, newParent.file.fat, newParent.file.fat.device, source, source.file, target, target.file
    reads source.file.fat, source.file.fat.device, target.file.fat, target.file.fat.device
  {
    && source.file.fat == target.file.fat == newParent.file.fat && source.file.isDir == target.file.isDir
    && source != target && source.file != target.file && newParent.file != source.file && newParent.file != target.file
    && newParent.Valid() && SourceIn(source, a, p, n)
    && Prepared(newParent.file.fat.bpb, a, newParent.file.Now(), target.file.chain, range, utf16, stem,
      source.file.isDir, stamp)
    && target.Live(newParent.file.chain, range.count) && target.file.ValidChain() && target.entryNum == range.start
    && Apart(target.file.chain, newParent.file.chain) && Apart(source.file.chain, target.file.chain)
  }

  /** The target has taken over the source's chain `c` and metadata `m`; the source is gone. */
  ghost predicate Arrived(newParent: Directory, source: Node, target: Node, a: Snap, p: seq<nat>, n: nat, c: seq<nat>,
                          m: Meta, placeholder: Meta, mid: seq<Entry>, range: DirEntryRange,
                          utf16: seq<byte>, stem: seq<byte>, stamp: seq<byte>)
    requires |utf16| > 0 && Even(|utf16|) && |stamp| == 5
    reads newParent.file, newParent.file.fat, newParent.file.fat.device, source, target, target.file
    reads target.file.fat, target.file.fat.device
  {
    var g := newParent.file.fat.bpb;
    && newParent.Valid() && source.isDeleted && target.file.isDir == source.file.isDir
      && target.file.fat == newParent.file.fat
    && target.file.ValidChain() && target.file.chain == c && target.entryNum == range.start
    && target.MetaFits() && target.MetaNow() == m && ValidMeta(placeholder)
    && ValidSnap(g, a) && ValidSnap(g, Snap(a.img, p, 0))
    && RenamedToNew(g, a, newParent.file.Now(), p, LogOf(g, Snap(a.img, p, 0)), source.entryNum, n, c, mid, range,
         utf16, stem, target.file.isDir, stamp, m, placeholder)
  }

  lemma FourFit(p: seq<nat>, q: seq<nat>, c: seq<nat>, d: seq<nat>)
    requires (p == q || Apart(p, q)) && Apart(c, p) && Apart(c, q) && Apart(p, d) && Apart(d, q) && Apart(c, d)
    ensures FourApart(p, q, c, d)
  {
  }

  /** The new entries are there: the source moves to them. */
  method MoveToCreated(newParent: Directory, range: DirEntryRange, utf16: seq<byte>, stem: seq<byte>, stamp: seq<byte>,
                       source: Node, target: Node, ghost p: seq<nat>, ghost n: nat, ghost a: Snap)
    requires |utf16| > 0 && Even(|utf16|) && |stamp| == 5
    requires Staged(newParent, range, utf16, stem, stamp, source, target, p, n, a)
    modifies source, source.file, target, target.file, newParent.file.fat, newParent.file.fat.device
    ensures Arrived(newParent, source, target, a, p, n, old(source.file.chain), old(source.MetaNow()),
      old(target.MetaNow()), old(newParent.Log()), range, utf16, stem, stamp)
  {
    hide CountOfClusters, FirstDataSector, Tables, IsChain, OthersKept, LogOf, MetaWritten, Marked;
    hide FileData.FileBytes, WalkFits, BytesPerClus, OnVolume, Reserved, Capacity, Apart, Cells, ValidImage;
    hide CreatedAt, Moved;
    ghost var g, b, q, c, d := newParent.file.fat.bpb, newParent.file.Now(), a.chain, source.file.chain,
      target.file.chain;
    ghost var p', mid, isDir := DirAfter(p, q, b.chain), newParent.Log(), source.file.isDir;
    Longer(LogOf(g, a), mid, range, utf16, stem, isDir, stamp);
    SizeFieldIgnored(g, a);
    ApartSymmetric(d, b.chain);
    SourceStays(source, a, b, p, n, d, range, utf16, stem, isDir, stamp);
    ChainSurvives(g, a.img, b.img, q, b.chain + d, source.file.fstClus, c);
    ApartSum(c, b.chain, d);
    FourFit(p', b.chain, c, d);
    MoveWithin(newParent, source, target, p', n, range.count);
    PreparedThenMoved(g, a.img, b.img, newParent.file.fat.device.sectors, p, q, b.chain, c, d);
  }

  /** The file object for entries that have just been made. */
  method NodeFor(newParent: Directory, file: File, range: DirEntryRange, ghost log: seq<Entry>,
                 utf16: seq<byte>, stem: seq<byte>, stamp: seq<byte>)
    returns (target: Node)
    requires newParent.Valid() && file.fat == newParent.file.fat && |utf16| > 0 && Even(|utf16|) && |stamp| == 5
    requires CreatedAt(log, newParent.Log(), range, utf16, stem, file.isDir, stamp)
    requires RoomFits(newParent.file.fat.bpb, log, newParent.file.chain, range.count)
    requires file.fstClus < 0x1_0000_0000 && file.fileSz < 0x1_0000_0000
    ensures fresh(target) && target.file == file && target.entryNum == range.start
    ensures target.Live(newParent.file.chain, range.count)
    ensures target.MetaNow() == Meta(stamp, stamp[3..], stamp[1..], file.fstClus, file.fileSz)
  {
    hide CountOfClusters, FirstDataSector, Tables, OthersKept, LogOf, WalkFits, Reserved, Capacity, Cells, CreatedAt;
    hide RoomFits, ValidImage, OnVolume, EndsAt;
    CreatedFits(newParent.file.fat.bpb, log, newParent.Log(), newParent.file.chain, range, utf16, stem, file.isDir,
      stamp);
    NewGroupEnds(log, newParent.Log(), range, utf16, stem, file.isDir, stamp);
    SizeFieldIgnored(newParent.file.fat.bpb, newParent.file.Now());
    target := new Node(file, newParent.file.fstClus, range.start, stamp, stamp[3..], stamp[1..]);
  }

  /** What a rename to a new name demands of the source, before anything happens. */
  ghost predicate CanMoveTo(newParent: Directory, source: Node, p: seq<nat>, n: nat)
    reads newParent.file, newParent.file.fat, newParent.file.fat.device, source, source.file, source.file.fat,
      source.file.fat.device
  {
    && newParent.Valid() && source.file.fat == newParent.file.fat && source.file != newParent.file
    && source.file.ValidChain() && SourceIn(source, newParent.file.Now(), p, n)
  }

  /**
   * What a rename to a valid new name answers. For a directory a placeholder is made, and if there is no
   * cluster for it, a name that cannot be found again stops the process.
   */
  ghost function NewNameReply(d: Directory, isDir: bool, utf16: seq<byte>, stem: seq<byte>): Reply
    requires d.Valid() && |utf16| > 0 && Even(|utf16|)
    reads d.file, d.file.fat, d.file.fat.device
  {
    var n := LongEntryCount(utf16) + 1;
    var t := if isDir then MakeDir.MakeDirOutcome(d, n) else d.CreateOutcome(n);
    match t
    case Resized => Done
    case Aborted => Stopped
    case NoRoom =>
      if d.CreateOutcome(n) == NoRoom || (Creatable(utf16, stem) && NoTerminator(utf16)) then NoRoomForName else Stopped
  }

  /**
   * The replies to a rename to a new name, from what the allocator has: for a plain file the clusters for its entries
   * must be there, for a directory one more. No room is reported only if the count says so, and for a directory whose
   * entries have been made only if its name can be found again.
   */
  lemma NewNameReplyIff(d: Directory, isDir: bool, utf16: seq<byte>, stem: seq<byte>)
    requires d.Valid() && d.HintFine() && |utf16| > 0 && Even(|utf16|)
    ensures var fat, k := d.file.fat, d.ClustersNeeded(LongEntryCount(utf16) + 1);
      var avail, cs := fat.Avail(), |Candidates(fat.Entries(), fat.Clusters(), fat.freeCount)|;
      var r, fits := NewNameReply(d, isDir, utf16, stem), Creatable(utf16, stem) && NoTerminator(utf16);
      && r in {Done, NoRoomForName, Stopped}
      && (r == Done <==> if isDir then k < avail && k < cs else k <= avail && k <= cs)
      && (r == NoRoomForName <==> k > avail || (isDir && k == avail <= cs && fits))
  {
    hide MakeDir.MakeDirOutcome, Directory.CreateOutcome, Directory.ClustersNeeded, Candidates, GoodHint, FreeUpTo;
    hide Creatable, NoTerminator;
    d.CreateOutcomeIff(LongEntryCount(utf16) + 1);
    MakeDir.MakeDirOutcomeIff(d, LongEntryCount(utf16) + 1);
  }

  /**
   * With a count that is not above the truth, no rename to a new name stops the process, unless it is one of a
   * directory to a name that cannot be found again. With the true count it succeeds exactly if the scanned range
   * has the clusters.
   */
  lemma HonestCountNeverStops(d: Directory, isDir: bool, utf16: seq<byte>, stem: seq<byte>)
    requires d.Valid() && d.HintFine() && |utf16| > 0 && Even(|utf16|)
    requires d.file.fat.Avail() <= |FreeUpTo(d.file.fat.Entries(), d.file.fat.Clusters())|
    ensures !isDir || (Creatable(utf16, stem) && NoTerminator(utf16)) ==> NewNameReply(d, isDir, utf16, stem) != Stopped
    ensures NewNameReply(d, isDir, utf16, stem) == Done <==>
            d.ClustersNeeded(LongEntryCount(utf16) + 1) + (if isDir then 1 else 0) <= d.file.fat.Avail()
  {
    hide Directory.ClustersNeeded, Candidates, GoodHint, FreeUpTo, Creatable, NoTerminator, NewNameReply;
    var fat := d.file.fat;
    GoodForAny(fat.Entries(), fat.Clusters(), fat.freeCount);
    CandidatesAreFresh(fat.Entries(), fat.Clusters(), fat.freeCount);
    NewNameReplyIff(d, isDir, utf16, stem);
  }

  /** For a plain file only its entries are made. */
  lemma PlainReply(d: Directory, utf16: seq<byte>, stem: seq<byte>)
    requires d.Valid() && |utf16| > 0 && Even(|utf16|)
    ensures var outcome := d.CreateOutcome(LongEntryCount(utf16) + 1);
      NewNameReply(d, false, utf16, stem) ==
      if outcome == Resized then Done else if outcome == NoRoom then NoRoomForName else Stopped
  {
    hide Directory.CreateOutcome, MakeDir.MakeDirOutcome, Creatable, NoTerminator;
  }

  /** The entries of a new plain file are there, and the file is empty: the source moves to them. */
  method MoveToNewFile(newParent: Directory, range: DirEntryRange, utf16: seq<byte>, stem: seq<byte>,
                       stamp: seq<byte>, source: Node, ghost p: seq<nat>, ghost n: nat, ghost a: Snap)
    returns (target: Node)
    requires |utf16| > 0 && Even(|utf16|) && |stamp| == 5
    requires newParent.Since(a) && a.chain != [] && a.chain <= newParent.file.chain
    requires CreatedAt(LogOf(newParent.file.fat.bpb, a), newParent.Log(), range, utf16, stem, false, stamp)
    requires RoomFits(newParent.file.fat.bpb, LogOf(newParent.file.fat.bpb, a), newParent.file.chain, range.count)
    requires source.file.fat == newParent.file.fat && source.file != newParent.file && !source.file.isDir
    requires SourceIn(source, a, p, n)
    modifies source, source.file, newParent.file.fat, newParent.file.fat.device
    ensures target.entryNum == range.start
    ensures Arrived(newParent, source, target, a, p, n, old(source.file.chain), old(source.MetaNow()),
      Meta(stamp, stamp[3..], stamp[1..], 0, 0), old(newParent.Log()), range, utf16, stem, stamp)
  {
    hide CountOfClusters, FirstDataSector, Tables, IsChain, OthersKept, LogOf, FileData.FileBytes, SourceIn, WalkFits;
    hide BytesPerClus, OnVolume, Reserved, Capacity, Apart, Cells, ValidImage, CreatedAt, RoomFits, GoodHint;
    hide RenamedToNew;
    NoClusters(newParent.file.fat);
    var file := new File(newParent.file.fat, false, 0, 0, []);
    target := NodeFor(newParent, file, range, LogOf(newParent.file.fat.bpb, a), utf16, stem, stamp);
    NothingApart(newParent.file.chain, source.file.chain);
    SamePrepared(newParent, a, range, utf16, stem, stamp);
    MoveToCreated(newParent, range, utf16, stem, stamp, source, target, p, n, a);
  }

  /**
   * Renames a plain file to a name that does not exist: creates it empty, exchanges metadata, and lets the
   * old one destroy itself. `mid` are the entries of the new parent in between.
   */
  method RenameFileToNew(newParent: Directory, nameIsValid: bool, utf16: seq<byte>, stem: seq<byte>, stamp: seq<byte>,
                         source: Node, ghost p: seq<nat>, ghost n: nat)
    returns (r: Reply, target: Node?, ghost mid: seq<Entry>)
    requires CanMoveTo(newParent, source, p, n) && !source.file.isDir && newParent.HintFine()
    requires |utf16| > 0 && Even(|utf16|) && |stamp| == 5
    requires ENTRY_SIZE * (|newParent.Log()| + LongEntryCount(utf16) + 1) + BytesPerClus(newParent.file.fat.bpb)
      < 0x1_0000_0000
    requires var n := LongEntryCount(utf16) + 1;
      RoomFits(newParent.file.fat.bpb, newParent.Log(), newParent.ChainFor(n), n)
    modifies source, source.file, newParent.file, newParent.file.fat, newParent.file.fat.device
    ensures r == if !nameIsValid then NameInvalid else old(NewNameReply(newParent, false, utf16, stem))
    ensures nameIsValid ==>
      var outcome := old(newParent.CreateOutcome(LongEntryCount(utf16) + 1));
      && (r == Done <==> outcome == Resized) && (r == NoRoomForName <==> outcome == NoRoom)
      && (r == Stopped <==> outcome == Aborted)
    ensures r == NameInvalid || r == NoRoomForName ==>
      newParent.Valid() && newParent.file.Now() == old(newParent.file.Now())
    ensures r == Done <==> target != null
    ensures r == Done ==>
      Arrived(newParent, source, target, old(newParent.file.Now()), p, n, old(source.file.chain), old(source.MetaNow()),
        Meta(stamp, stamp[3..], stamp[1..], 0, 0), mid, DirEntryRange(target.entryNum, LongEntryCount(utf16) + 1),
          utf16, stem, stamp)
  {
    hide Directory.CreateOutcome, Directory.ChainFor, RoomNeeded, NewNameReply;
    hide CountOfClusters, FirstDataSector, Tables, IsChain, OthersKept, LogOf, FileData.FileBytes, SourceIn, WalkFits;
    hide BytesPerClus, OnVolume, Reserved, Capacity, Apart, Cells, ValidImage, CreatedAt, RoomFits, GoodHint;
    hide RenamedToNew, Arrived;
    mid, target := [], null;
    if !nameIsValid {
      return NameInvalid, null, mid;
    }

    PlainReply(newParent, utf16, stem);
    ghost var a := newParent.file.Now();
    newParent.ChainForExtends(LongEntryCount(utf16) + 1);
    var created := newParent.CrtFileInner(utf16, stem, false, stamp);
    if created.DirectoryFull? {
      return NoRoomForName, null, mid;
    }
    if created.CreateCrashed? {
      return Stopped, null, mid;
    }
    mid := newParent.Log();
    target := MoveToNewFile(newParent, created.range, utf16, stem, stamp, source, p, n, a);
    r := Done;
  }

  lemma NothingApart(q: seq<nat>, c: seq<nat>)
    ensures Apart([], q) && Apart(c, [])
  {
  }

  lemma SamePrepared(newParent: Directory, a: Snap, range: DirEntryRange, utf16: seq<byte>, stem: seq<byte>,
                     stamp: seq<byte>)
    requires newParent.Since(a) && a.chain != [] && a.chain <= newParent.file.chain && |utf16| > 0 && Even(|utf16|)
    requires |stamp| == 5
    requires CreatedAt(LogOf(newParent.file.fat.bpb, a), newParent.Log(), range, utf16, stem, false, stamp)
    ensures Prepared(newParent.file.fat.bpb, a, newParent.file.Now(), [], range, utf16, stem, false, stamp)
  {
    hide OthersKept, LogOf, CreatedAt;
    assert newParent.file.chain + [] == newParent.file.chain;
  }

  /** Renames a directory to a name that does not exist; the placeholder's one cluster is given back. */
  method RenameDirToNew(newParent: Directory, nameIsValid: bool, name: Name, stem: seq<byte>, stamp: seq<byte>,
                        parentStamp: seq<byte>, source: Node, ghost p: seq<nat>, ghost n: nat)
    returns (r: Reply, target: Node?, ghost mid: seq<Entry>, ghost placeholder: Meta)
    requires CanMoveTo(newParent, source, p, n) && source.file.isDir && newParent.HintFine()
    requires WellFormed(newParent.Log()) && |name.utf16| > 0 && Even(|name.utf16|) && |stamp| == 5 && |parentStamp| == 5
    requires Lookup(newParent.Log(), name) == None
    requires ENTRY_SIZE * (|newParent.Log()| + LongEntryCount(name.utf16) + 1) + BytesPerClus(newParent.file.fat.bpb)
      < 0x1_0000_0000
    requires var n := LongEntryCount(name.utf16) + 1;
      RoomFits(newParent.file.fat.bpb, newParent.Log(), newParent.ChainFor(n), n)
    modifies source, source.file, newParent.file, newParent.file.fat, newParent.file.fat.device
    ensures r == if !nameIsValid then NameInvalid else old(NewNameReply(newParent, true, name.utf16, stem))
    ensures nameIsValid ==>
      var n := LongEntryCount(name.utf16) + 1;
      var entries, both := old(newParent.CreateOutcome(n)), old(MakeDir.MakeDirOutcome(newParent, n));
      && (r == Done <==> both == Resized)
      && (r == NoRoomForName <==>
           both == NoRoom && (entries == NoRoom || (Creatable(name.utf16, stem) && NoTerminator(name.utf16))))
    ensures r == Done <==> target != null
    ensures r == NameInvalid ==> newParent.Valid() && newParent.file.Now() == old(newParent.file.Now())
    ensures r == NoRoomForName ==>
      && newParent.Valid() && WellFormed(newParent.Log())
        && Groups(newParent.Log(), 0) == Groups(old(newParent.Log()), 0)
      && OthersKept(newParent.file.fat.bpb, old(newParent.file.fat.device.sectors), newParent.file.fat.device.sectors,
           old(newParent.file.chain), newParent.file.chain)
    ensures r == Done ==>
      && placeholder.size == 0
      && Arrived(newParent, source, target, old(newParent.file.Now()), p, n, old(source.file.chain),
        old(source.MetaNow()), placeholder, mid, DirEntryRange(target.entryNum, LongEntryCount(name.utf16) + 1),
           name.utf16, stem, stamp)
  {
    hide MakeDir.MakeDirOutcome, Directory.CreateOutcome, Directory.ChainFor, RoomNeeded;
    hide CountOfClusters, FirstDataSector, Tables, IsChain, OthersKept, LogOf, FileData.FileBytes, SourceIn;
    hide WellFormed, Groups, WalkFits, BytesPerClus, OnVolume, Reserved, Capacity, Apart, Cells, ValidImage;
    hide CreatedAt, RoomFits, GoodHint, RenamedToNew, NoTerminator, Creatable, Lookup;
    mid, target, placeholder := [], null, Meta([], [], [], 0, 0);
    if !nameIsValid {
      return NameInvalid, null, mid, placeholder;
    }

    ghost var g, a := newParent.file.fat.bpb, newParent.file.Now();
    newParent.ChainForExtends(LongEntryCount(name.utf16) + 1);
    var created, child := MakeDir.CrtDir(newParent, name, stem, stamp, parentStamp);
    if created.DirectoryFull? {
      return NoRoomForName, null, mid, placeholder;
    }
    if created.CreateCrashed? {
      return Stopped, null, mid, placeholder;
    }
    mid := newParent.Log();
    MakeDir.ChainFits(g, child.file.chain);
    target := NodeFor(newParent, child.file, created.range, LogOf(g, a), name.utf16, stem, stamp);
    placeholder := target.MetaNow();
    PlaceholderApart(newParent, source, child.file.chain, p, n, a);
    MoveToCreated(newParent, created.range, name.utf16, stem, stamp, source, target, p, n, a);
    r := Done;
  }

  lemma PlaceholderApart(newParent: Directory, source: Node, d: seq<nat>, p: seq<nat>, n: nat, a: Snap)
    requires newParent.Valid() && source.file.fat == newParent.file.fat && SourceIn(source, a, p, n)
    requires OthersKept(newParent.file.fat.bpb, a.img, newParent.file.fat.device.sectors, a.chain,
      newParent.file.chain + d)
    requires Apart(newParent.file.chain, d)
    ensures Apart(source.file.chain, d) && Apart(d, newParent.file.chain)
  {
    hide CountOfClusters, FirstDataSector, Tables, IsChain, OthersKept, LogOf, FileData.FileBytes, OnVolume, Apart;
    ChainSurvives(newParent.file.fat.bpb, a.img, newParent.file.fat.device.sectors, a.chain, newParent.file.chain + d,
      source.file.fstClus, source.file.chain);
    ApartSum(source.file.chain, newParent.file.chain, d);
    ApartSymmetric(newParent.file.chain, d);
  }
}
