/** `Directory::crtDir` of fs.cpp: a directory is created as an entry, a cleared cluster and two entries in it. */
module MakeDir {
  import opened Base
  import opened FatTable
  import opened FirstFit
  import opened Geometry
  import opened Device
  import opened FatImage
  import opened Fat
  import FatRuns
  import FileData
  import opened FileSteps
  import opened Files
  import opened LongName
  import opened ShortName
  import opened ShortEntry
  import opened DirLog
  import opened DirBytes
  import opened DirScan
  import opened NewNames
  import opened Directories
  import opened Survival

  function DotName(dots: nat): (b: BasisName)
    requires dots <= 8
    ensures ValidBasis(b)
  {
    BasisName(seq(dots, _ => DOT) + Spaces(8 - dots), Spaces(3))
  }

  /** The entry `.` or `..` in a new directory: a short one that leads to the cluster `clus`. */
  predicate IsDotEntry(e: Entry, dots: nat, clus: u32, stamp: seq<byte>)
    requires dots <= 8 && |stamp| == 5
  {
    && BasisOf(e) == DotName(dots) && Attr(e) == ATTR_DIRECTORY && e[12] == 0
    && MetaOf(e) == Meta(stamp, stamp[3..], stamp[1..], clus, 0)
  }

  /** `mkDotShortDirEntry` and `mkDotDotShortDirEntry`. */
  method MkDotEntry(dots: nat, clus: u32, stamp: seq<byte>) returns (e: Entry)
    requires dots <= 8 && |stamp| == 5
    ensures IsDotEntry(e, dots, clus, stamp)
  {
    hide MetaOf, BasisOf, WithMeta;
    var short := MkShortDirEntry(DotName(dots), true, stamp);
    var m := Meta(stamp, stamp[3..], stamp[1..], clus, 0);
    e := WithMeta(short, m, true);
    MetaRoundTrip(short, m, true);
  }

  /** The bytes of such an entry: one dot or two and then spaces, marked as a directory, without a size. */
  lemma DotEntryLayout(e: Entry, clus: u32, stamp: seq<byte>)
    requires |stamp| == 5
    ensures IsDotEntry(e, 1, clus, stamp) ==>
      e[..13] == [0x2E, 0x20, 0x20, 0x20, 0x20, 0x20, 0x20, 0x20, 0x20, 0x20, 0x20, 0x10, 0x00]
    ensures IsDotEntry(e, 2, clus, stamp) ==>
      e[..13] == [0x2E, 0x2E, 0x20, 0x20, 0x20, 0x20, 0x20, 0x20, 0x20, 0x20, 0x20, 0x10, 0x00]
    ensures IsDotEntry(e, 1, clus, stamp) || IsDotEntry(e, 2, clus, stamp) ==>
      && e[13..20] == stamp + stamp[3..5] && e[22..26] == stamp[1..5]
      && ReadU32(e[26..28] + e[20..22], 0) == clus && ReadU32(e, 28) == 0
  {
    NameBytes(e);
    assert e[13..20] == e[13..18] + e[18..20];
  }

  lemma NameBytes(e: Entry)
    ensures e[..13] == BasisOf(e).primary + BasisOf(e).extension + [Attr(e), e[12]]
  {
  }

  /** `.` and `..` in front of terminators: a directory without files. */
  lemma NewDirIsEmpty(dot: Entry, dotDot: Entry, clus: u32, parent: u32, stamp: seq<byte>, z: nat)
    requires |stamp| == 5 && IsDotEntry(dot, 1, clus, stamp) && IsDotEntry(dotDot, 2, parent, stamp)
    ensures var log := [dot, dotDot] + EndEntries(z);
      && WellFormed(log) && WellFormed(log[2..]) && Groups(log[2..], 2) == []
      && Groups(log, 0) == [Group(0, [dot]), Group(1, [dotDot])]
  {
    hide WellFormed, Groups, ValidGroup;
    var log := [dot, dotDot] + EndEntries(z);
    DotIsGroup(dot, 1, clus, stamp);
    DotIsGroup(dotDot, 2, parent, stamp);
    assert log[2..] == EndEntries(z) && log == [dot] + ([dotDot] + EndEntries(z));
    FreeIsWellFormed(log[2..], 2);
    OneGroup([dotDot], log[2..], 1);
    OneGroup([dot], [dotDot] + log[2..], 0);
  }

  lemma DotIsGroup(e: Entry, dots: nat, clus: u32, stamp: seq<byte>)
    requires 1 <= dots <= 8 && |stamp| == 5 && IsDotEntry(e, dots, clus, stamp)
    ensures ValidGroup([e])
  {
  }

  /** A directory that has just been given its first cluster holds terminators only. */
  lemma FirstCluster(g: BPB, a: Snap, b: Snap)
    requires ValidSnap(g, a) && ValidSnap(g, b) && a.chain == [] && TruncatedTo(g, true, BytesPerClus(g), a, b)
    ensures |b.chain| == 1 && b.sz == a.sz && LogOf(g, b) == EndEntries(|LogOf(g, b)|) && |LogOf(g, b)| >= 2
    ensures Capacity(g, 1) == BytesPerClus(g) && OthersKept(g, a.img, b.img, [], b.chain)
  {
    hide OthersKept, IsChain, Reserved, ValidImage, CountOfClusters, Tables, EntriesOf;
    OneCluster(g);
    CapacityIsProduct(g, 1);
    var x, y := SnapBytes(g, a), SnapBytes(g, b);
    EntriesOfZeros([], 16 * g.secPerClus);
  }

  lemma OneCluster(g: BPB)
    requires ValidBPB(g)
    ensures BytesPerClus(g) > 0 && ClustersFor(g, BytesPerClus(g)) == 1
  {
    hide BytesPerClus;
    SomeBytes(g);
  }

  lemma SomeBytes(g: BPB)
    requires ValidBPB(g)
    ensures BytesPerClus(g) > 0
  {
  }

  /** The parent after a change to what lies apart from it. */
  lemma ParentSurvives(parent: Directory, a: Image, p: seq<nat>, p': seq<nat>)
    requires var g, q, img := parent.file.fat.bpb, parent.file.chain, parent.file.fat.device.sectors;
      && q != [] && ValidSnap(g, Snap(a, q, parent.file.fileSz)) && ValidImage(g, img) && Reserved(Entries(g, img))
      && OthersKept(g, a, img, p, p') && Apart(q, p)
    ensures ValidSnap(parent.file.fat.bpb, parent.file.Now()) && Apart(parent.file.chain, p')
    ensures LogOf(parent.file.fat.bpb, parent.file.Now()) ==
            LogOf(parent.file.fat.bpb, Snap(a, parent.file.chain, parent.file.fileSz))
  {
    hide CountOfClusters, FirstDataSector, Tables, OnVolume, OthersKept, FileData.FileBytes, Apart, EntriesOf;
    DirSurvives(parent.file.fat.bpb, a, parent.file.fat.device.sectors, p, p', parent.file.chain);
  }

  /** Writes the first two entries of the directory `child`. */
  method WriteDots(parent: Directory, child: Directory, stamp: seq<byte>)
    requires parent.Valid() && child.Valid() && child.file.fat == parent.file.fat && child.file != parent.file
    requires |stamp| == 5
    requires |child.Log()| >= 2 && Apart(parent.file.chain, child.file.chain) && parent.file.fat.freeCount == NO_HINT
    requires child.file.chain[0] < 0x1_0000_0000 && parent.file.chain[0] < 0x1_0000_0000
    modifies child.file, parent.file.fat, parent.file.fat.device
    ensures parent.Valid() && parent.Log() == old(parent.Log())
    ensures child.Valid() && child.file.chain == old(child.file.chain) && |child.Log()| == |old(child.Log())|
    ensures IsDotEntry(child.Log()[0], 1, child.file.chain[0], stamp)
    ensures IsDotEntry(child.Log()[1], 2, parent.file.chain[0], stamp)
    ensures child.Log() == child.Log()[..2] + old(child.Log())[2..] && child.file.fileSz == old(child.file.fileSz)
    ensures Apart(parent.file.chain, child.file.chain)
    ensures OthersKept(parent.file.fat.bpb, old(parent.file.fat.device.sectors), parent.file.fat.device.sectors,
                       child.file.chain, child.file.chain)
  {
    hide CountOfClusters, FirstDataSector, Tables, IsChain, OthersKept, LogOf, FileData.FileBytes, OnVolume;
    hide BytesPerClus, Reserved, Capacity, Cells, ValidImage, IsDotEntry;
    ghost var b := child.file.Now();
    var dot := MkDotEntry(1, child.file.fstClus, stamp);
    var dotDot := MkDotEntry(2, parent.file.fstClus, stamp);
    child.SinceNow();
    child.WriteSince(0, dot, b);
    child.WriteSince(1, dotDot, b);
    ParentSurvives(parent, b.img, child.file.chain, child.file.chain);
  }

  /** What the allocator answers to a request for one cluster. */
  ghost function OneMore(fat: FAT): ResizeResult
    requires fat.Valid()
    reads fat, fat.device
  {
    if fat.Avail() < 1 then NoRoom
    else if Candidates(fat.Entries(), fat.Clusters(), fat.freeCount) == [] then Aborted
    else Resized
  }

  lemma OneMoreIs(f: File)
    requires f.ValidChain() && f.chain == [] && BytesPerClus(f.fat.bpb) > 0
    requires ClustersFor(f.fat.bpb, BytesPerClus(f.fat.bpb)) == 1
    requires GoodHint(f.fat.Entries(), f.fat.Clusters(), f.fat.freeCount, 2)
    ensures f.TruncateOutcome(BytesPerClus(f.fat.bpb)) == OneMore(f.fat)
  {
    hide CountOfClusters, FirstDataSector, Tables, ValidImage, ClustersFor, BytesPerClus, GoodHint, Collected;
    hide Candidates;
    GoodForAny(f.fat.Entries(), f.fat.Clusters(), f.fat.freeCount);
    OutcomeIsFirstFit(f.fat.Entries(), f.fat.Clusters(), f.fat.freeCount, f.fat.Avail(), 1);
  }

  /** Gives a directory without clusters its first one, with the entries for itself and its parent. */
  method FillDir(parent: Directory, child: Directory, stamp: seq<byte>) returns (r: ResizeResult)
    requires parent.Valid() && child.file.fat == parent.file.fat && child.file != parent.file && |stamp| == 5
    requires child.file.isDir && child.file.Valid() && child.file.chain == [] && parent.HintFine()
    modifies child.file, parent.file.fat, parent.file.fat.device
    ensures r == old(OneMore(parent.file.fat))
    ensures r != Aborted ==> parent.Valid() && parent.Log() == old(parent.Log())
    ensures r == NoRoom ==> parent.file.fat.device.sectors == old(parent.file.fat.device.sectors)
    ensures r == Resized ==>
      && child.Valid() && |child.file.chain| == 1 && |child.Log()| >= 2 && child.file.fileSz == old(child.file.fileSz)
      && Apart(parent.file.chain, child.file.chain)
      && IsDotEntry(child.Log()[0], 1, child.file.chain[0], stamp)
        && IsDotEntry(child.Log()[1], 2, parent.file.chain[0], stamp)
      && child.Log() == child.Log()[..2] + EndEntries(|child.Log()| - 2)
      && OthersKept(parent.file.fat.bpb, old(parent.file.fat.device.sectors), parent.file.fat.device.sectors,
           parent.file.chain, parent.file.chain + child.file.chain)
  {
    hide CountOfClusters, FirstDataSector, Tables, IsChain, OthersKept, LogOf, FileData.FileBytes, TruncatedTo;
    hide OnVolume, BytesPerClus, Reserved, Cells, ValidImage, ClustersFor, AllocOutcome, IsDotEntry, EndEntries;
    ghost var g, a, p := parent.file.fat.bpb, child.file.Now(), parent.file.chain;
    OneCluster(g);
    OneMoreIs(child.file);
    GoodForAny(parent.file.fat.Entries(), CountOfClusters(g), parent.file.fat.freeCount);
    r := child.file.Truncate(BytesPerClus(child.file.fat.bpb));
    if r == Resized {
      ghost var b := child.file.Now();
      FirstCluster(g, a, b);
      ParentSurvives(parent, a.img, [], b.chain);
      CapacityMonotone(g, 1, |p|);
      ChainFits(g, b.chain);
      ChainFits(g, p);
      ghost var z := |child.Log()|;
      EndTail(z);
      WriteDots(parent, child, stamp);
      FilledKept(g, a.img, b.img, parent.file.fat.device.sectors, p, b.chain);
    }
  }

  lemma EndTail(z: nat)
    requires z >= 2
    ensures EndEntries(z)[2..] == EndEntries(z - 2)
  {
  }

  lemma ChainFits(g: BPB, c: seq<nat>)
    requires ValidBPB(g) && OnVolume(g, c) && c != []
    ensures c[0] < 0x1_0000_0000
  {
  }

  lemma FilledKept(g: BPB, a: Image, b: Image, e: Image, p: seq<nat>, d: seq<nat>)
    requires ValidBPB(g) && ValidImage(g, a) && ValidImage(g, b) && ValidImage(g, e)
    requires OthersKept(g, a, b, [], d) && OthersKept(g, b, e, d, d)
    requires OnVolume(g, p) && IsChain(Entries(g, a), p) && IsChain(Entries(g, b), p) && Apart(p, d)
    ensures OthersKept(g, a, e, p, p + d)
  {
    hide CountOfClusters, FirstDataSector, Tables, IsChain, OnVolume, OthersKept, ValidImage;
    KeepsOneMore(g, a, b, [], d, p);
    KeepsOneMore(g, b, e, d, d, p);
    SameClustersKept(g, a, b, [] + p, d + p, p, p + d);
    SameClustersKept(g, b, e, d + p, d + p, p + d, p + d);
    OthersKeptThrice(g, a, b, e, p, p + d, p + d);
  }

  /** Deleting new entries again leaves the groups there were before. */
  lemma CleanedUp(log: seq<Entry>, log': seq<Entry>, range: DirEntryRange, utf16: seq<byte>, stem: seq<byte>,
                  stamp: seq<byte>)
    requires |utf16| > 0 && Even(|utf16|) && |stamp| == 5 && Creatable(utf16, stem)
    requires WellFormed(log) && CreatedAt(log, log', range, utf16, stem, true, stamp)
    ensures range.count > 0 && range.start + range.count <= |log'|
    ensures forall log'' | Removed(log', range.start, range.count, log'') ::
      WellFormed(log'') && Groups(log'', 0) == Groups(log, 0)
  {
    hide WellFormed, Groups, Bears, ValidGroup, FirstRun, Creatable, IsNewGroup, Removed;
    var s, n := range.start, range.count;
    var g, z := log'[s..s + n], EndEntries(|log'| - |log|);
    NewGroupValidIff(g, utf16, stem, true, stamp);
    NewGroupShape(g, utf16, stem, true, stamp);
    GrowthKeepsGroups(log, z, 0);
    forall log'' | Removed(log', s, n, log'') ensures WellFormed(log'') && Groups(log'', 0) == Groups(log, 0) {
      CreateThenDelete(log + z, s, g, log'');
    }
  }

  // ----- what the allocator has left -----

  /** A chain `c` grown by the first `k` candidates leaves the others. */
  lemma LeftAfterGrowth(t: seq<u32>, u: seq<u32>, cnt: nat, hint: nat, c: seq<nat>, d: seq<nat>)
    requires Reserved(t) && |u| == |t| && cnt <= |t| && cnt <= EOC_MARK && GoodHint(t, cnt, hint, 2)
    requires (c == [] || IsChain(t, c)) && Traded(t, u, c, c + d)
    requires d != [] && d <= Candidates(t, cnt, hint)
    ensures |Candidates(u, cnt, NO_HINT)| == |FreeUpTo(u, cnt)| == |Candidates(t, cnt, hint)| - |d|
  {
    hide Link, IsChain, FreeUpTo, Reserved, GoodHint;
    GoodForAny(t, cnt, hint);
    forall n | 0 <= n < cnt
      ensures if n in d then Link(u, n) != 0 else (Link(u, n) == 0 <==> Link(t, n) == 0)
    {
      assert TradedAt(t, u, c, c + d, n);
      if n in c {
        FatRuns.OwnedIsOccupied(t, c, n);
      }
    }
    assert Candidates(t, cnt, hint)[..|d|] == d;
    TakingCandidates(t, u, cnt, hint, |d|);
  }

  lemma LeftAsWas(t: seq<u32>, u: seq<u32>, cnt: nat, hint: nat, c: seq<nat>)
    requires |u| == |t| && cnt <= |t| && (c == [] || IsChain(t, c)) && Traded(t, u, c, c)
    ensures Candidates(u, cnt, hint) == Candidates(t, cnt, hint) && |FreeUpTo(u, cnt)| == |FreeUpTo(t, cnt)|
  {
    hide Link, IsChain, FreeUpTo, Candidates;
    forall n | 0 <= n < cnt ensures Link(u, n) == 0 <==> Link(t, n) == 0 {
      assert TradedAt(t, u, c, c, n);
      if n in c {
        FatRuns.OwnedIsOccupied(t, c, n);
      }
    }
    SameFreeSameCandidates(t, u, cnt, hint);
  }

  /**
   * What `crtDir` answers when the new directory needs `n` entries: these are made first, and then one
   * cluster is asked for, which `Aborted` says ends in the allocator's failed assertion.
   */
  ghost function MakeDirOutcome(parent: Directory, n: nat): ResizeResult
    requires parent.Valid()
    reads parent.file, parent.file.fat, parent.file.fat.device
  {
    var t := parent.CreateOutcome(n);
    if t != Resized then t
    else
      var fat, k := parent.file.fat, |parent.ChainFor(n)| - |parent.file.chain|;
      if fat.Avail() < k + 1 then NoRoom
      else if |Candidates(fat.Entries(), fat.Clusters(), fat.freeCount)| < k + 1 then Aborted
      else Resized
  }

  /** A directory takes one more cluster than its entries: all answers, from the three numbers they depend on. */
  lemma MakeDirOutcomeIff(parent: Directory, n: nat)
    requires parent.Valid() && parent.HintFine()
    ensures var fat, k := parent.file.fat, parent.ClustersNeeded(n);
      var avail, cs := fat.Avail(), |Candidates(fat.Entries(), fat.Clusters(), fat.freeCount)|;
      && (MakeDirOutcome(parent, n) == Resized <==> k + 1 <= avail && k + 1 <= cs)
      && (MakeDirOutcome(parent, n) == NoRoom <==> k > avail || (k == avail && k <= cs))
      && (MakeDirOutcome(parent, n) == Aborted <==> cs < k <= avail || cs == k < avail)
  {
    hide Directory.CreateOutcome, Directory.ChainFor, Directory.ClustersNeeded, Candidates, GoodHint, FreeUpTo;
    parent.CreateOutcomeIff(n);
  }

  /** While the count is not above the truth, the allocator's assertion cannot fail. */
  lemma HonestCountNeverAborts(parent: Directory, n: nat)
    requires parent.Valid() && parent.HintFine()
    requires parent.file.fat.Avail() <= |FreeUpTo(parent.file.fat.Entries(), parent.file.fat.Clusters())|
    ensures parent.CreateOutcome(n) != Aborted && MakeDirOutcome(parent, n) != Aborted
  {
    hide CountOfClusters, FirstDataSector, Tables, ValidImage, ClustersFor, BytesPerClus, Collected, Candidates;
    hide LogOf, RoomNeeded, IsChain, FileChain, OnVolume, Cells;
    var fat, need := parent.file.fat, RoomNeeded(parent.Log(), n);
    GoodForAny(fat.Entries(), fat.Clusters(), fat.freeCount);
    CandidatesAreFresh(fat.Entries(), fat.Clusters(), fat.freeCount);
    SomeBytes(fat.bpb);
    if need > 0 {
      var k := ClustersFor(fat.bpb, ENTRY_SIZE * (|parent.Log()| + need)) - |parent.file.chain|;
      if k > 0 {
        AllocIsFirstFit(fat.Entries(), fat.Clusters(), fat.freeCount, fat.Avail(), k);
      }
    }
  }

  /** The request for one more cluster, once the entries have been made. */
  lemma SecondRequest(parent: Directory, a: Snap, k: nat, t: seq<u32>, cnt: nat, hint: nat, memo: Option<u32>,
                      avail: nat)
    requires parent.Since(a) && a.chain != [] && IsChain(Entries(parent.file.fat.bpb, a.img), a.chain)
    requires t == Entries(parent.file.fat.bpb, a.img) && cnt == parent.file.fat.Clusters() && Reserved(t)
    requires cnt <= |t| && GoodHint(t, cnt, hint, 2) && avail == if memo.Some? then memo.value else |FreeUpTo(t, cnt)|
    requires parent.file.Booked(hint, memo, avail, |a.chain|) && |parent.file.chain| == |a.chain| + k
    requires if k == 0 then parent.file.chain == a.chain else
      && AllocOutcome(t, cnt, hint, avail, k).Got?
      && parent.file.chain == a.chain + AllocOutcome(t, cnt, hint, avail, k).chain
    ensures OneMore(parent.file.fat) ==
      if avail < k + 1 then NoRoom else if |Candidates(t, cnt, hint)| < k + 1 then Aborted else Resized
  {
    hide CountOfClusters, FirstDataSector, ValidImage, Tables, IsChain, LogOf, FileData.FileBytes, OnVolume, Reserved;
    hide Cells, FreeUpTo, Candidates, AllocOutcome, GoodHint, Traded, FileChain;
    var u, c := parent.file.fat.Entries(), a.chain;
    if k == 0 {
      ShiftedNone(memo);
      LeftAsWas(t, u, cnt, hint, c);
    } else {
      GoodForAny(t, cnt, hint);
      OutcomeIsFirstFit(t, cnt, hint, avail, k);
      LeftAfterGrowth(t, u, cnt, hint, c, AllocOutcome(t, cnt, hint, avail, k).chain);
    }
  }

  /**
   * Creates a directory. If there is no cluster for it, its entries are deleted again, which the source checks:
   * that check fails exactly if the name is one that cannot be found again.
   */
  method CrtDir(parent: Directory, name: Name, stem: seq<byte>, stamp: seq<byte>, parentStamp: seq<byte>)
    returns (r: CreateResult, child: Directory?)
    requires parent.Valid() && WellFormed(parent.Log()) && parent.HintFine()
    requires |name.utf16| > 0 && Even(|name.utf16|) && |stamp| == 5 && |parentStamp| == 5
    requires Lookup(parent.Log(), name) == None
    requires ENTRY_SIZE * (|parent.Log()| + LongEntryCount(name.utf16) + 1) + BytesPerClus(parent.file.fat.bpb)
      < 0x1_0000_0000
    modifies parent.file, parent.file.fat, parent.file.fat.device
    ensures r.Created? <==> child != null
    ensures var n := LongEntryCount(name.utf16) + 1;
      var first, both := old(parent.CreateOutcome(n)), old(MakeDirOutcome(parent, n));
      && (r.Created? <==> both == Resized)
      && (r.DirectoryFull? <==>
           both == NoRoom && (first == NoRoom || (Creatable(name.utf16, stem) && NoTerminator(name.utf16))))
      && (first == NoRoom ==> parent.Valid() && parent.file.Now() == old(parent.file.Now()))
    ensures r.Created? ==>
      && parent.Valid()
      && fresh(child) && fresh(child.file) && child.file.fat == parent.file.fat && child.Valid()
        && child.file.fileSz == 0
      && Apart(parent.file.chain, child.file.chain)
      && parent.file.chain == old(parent.ChainFor(LongEntryCount(name.utf16) + 1))
      && CreatedAt(old(parent.Log()), parent.Log(), r.range, name.utf16, stem, true, stamp)
      && r.range.count == LongEntryCount(name.utf16) + 1
      && (Creatable(name.utf16, stem) && NoTerminator(name.utf16) ==>
           WellFormed(parent.Log()) && RangeOf(Lookup(parent.Log(), name)) == Some(r.range))
      && |child.file.chain| == 1 && |child.Log()| >= 2
        && child.Log() == child.Log()[..2] + EndEntries(|child.Log()| - 2)
      && IsDotEntry(child.Log()[0], 1, child.file.chain[0], parentStamp)
      && IsDotEntry(child.Log()[1], 2, parent.file.chain[0], parentStamp)
      && OthersKept(parent.file.fat.bpb, old(parent.file.fat.device.sectors), parent.file.fat.device.sectors,
           old(parent.file.chain), parent.file.chain + child.file.chain)
    ensures r.DirectoryFull? ==>
      && parent.Valid() && WellFormed(parent.Log()) && Groups(parent.Log(), 0) == Groups(old(parent.Log()), 0)
      && OthersKept(parent.file.fat.bpb, old(parent.file.fat.device.sectors), parent.file.fat.device.sectors,
           old(parent.file.chain), parent.file.chain)
  {
    hide CountOfClusters, FirstDataSector, Tables, IsChain, OthersKept, LogOf, FileData.FileBytes, OnVolume;
    hide WellFormed, Groups, BytesPerClus, Reserved, Cells, ValidImage, IsDotEntry, EndEntries, CreatedAt, Creatable;
    hide NoTerminator, Removed, Lookup, Search, OneMore;
    ghost var g, a, log := parent.file.fat.bpb, parent.file.Now(), parent.Log();
    child := null;
    OthersKeptBySame(g, a.img, a.chain);
    r := MakeEntries(parent, name, stem, stamp);
    if !r.Created? {
      return;
    }
    ghost var b := parent.file.Now();
    NoClusters(parent.file.fat);
    var file := new File(parent.file.fat, true, 0, 0, []);
    var dir := new Directory(file);
    var t := FillDir(parent, dir, parentStamp);
    if t == Aborted {
      return CreateCrashed, null;
    }
    if t == NoRoom {
      var ok, failed := parent.DelFile(name);
      if failed || !ok {
        return CreateCrashed, null;
      }
      OthersKeptThrice(g, a.img, b.img, parent.file.fat.device.sectors, a.chain, b.chain, parent.file.chain);
      return DirectoryFull, null;
    }
    OthersKeptThrice(g, a.img, b.img, parent.file.fat.device.sectors, a.chain, b.chain, b.chain + dir.file.chain);
    child := dir;
  }

  /** The first half of `CrtDir`: the entries, and what is then known of the name and of the allocator. */
  method MakeEntries(parent: Directory, name: Name, stem: seq<byte>, stamp: seq<byte>) returns (r: CreateResult)
    requires parent.Valid() && WellFormed(parent.Log()) && parent.HintFine()
    requires |name.utf16| > 0 && Even(|name.utf16|) && |stamp| == 5 && Lookup(parent.Log(), name) == None
    requires ENTRY_SIZE * (|parent.Log()| + LongEntryCount(name.utf16) + 1) + BytesPerClus(parent.file.fat.bpb)
      < 0x1_0000_0000
    modifies parent.file, parent.file.fat, parent.file.fat.device
    ensures var n := LongEntryCount(name.utf16) + 1;
      var first, both := old(parent.CreateOutcome(n)), old(MakeDirOutcome(parent, n));
      && (r.Created? <==> first == Resized) && (r.DirectoryFull? <==> first == NoRoom)
      && (r.DirectoryFull? ==> parent.Valid() && parent.file.Now() == old(parent.file.Now()))
      && (r.Created? ==>
           && parent.Since(old(parent.file.Now())) && parent.HintFine()
           && OneMore(parent.file.fat) == both && parent.file.chain == old(parent.ChainFor(n)))
    ensures r.Created? ==>
      && CreatedAt(old(parent.Log()), parent.Log(), r.range, name.utf16, stem, true, stamp)
      && r.range.count == LongEntryCount(name.utf16) + 1 && r.range.start + r.range.count <= |parent.Log()|
      && (Search(parent.Log(), name).Found? <==> Creatable(name.utf16, stem) && NoTerminator(name.utf16))
      && (Creatable(name.utf16, stem) && NoTerminator(name.utf16) ==>
           && WellFormed(parent.Log()) && Search(parent.Log(), name) == Found(r.range)
           && RangeOf(Lookup(parent.Log(), name)) == Some(r.range)
           && forall log'' | Removed(parent.Log(), r.range.start, r.range.count, log'') ::
                WellFormed(log'') && Groups(log'', 0) == Groups(old(parent.Log()), 0))
  {
    hide CountOfClusters, FirstDataSector, Tables, IsChain, OthersKept, LogOf, FileData.FileBytes, OnVolume;
    hide WellFormed, Groups, BytesPerClus, Reserved, Cells, ValidImage, EndEntries, CreatedAt, Creatable;
    hide NoTerminator, Removed, Lookup, Search, OneMore, AllocOutcome, Candidates, FreeUpTo, RoomNeeded, ClustersFor;
    hide Directory.ChainFor, Directory.CreateOutcome;
    ghost var a, log, fat, n := parent.file.Now(), parent.Log(), parent.file.fat, LongEntryCount(name.utf16) + 1;
    ghost var t, hint, memo, avail := fat.Entries(), fat.freeCount, fat.availClusCnt, fat.Avail();
    ghost var c := parent.ChainFor(n);
    parent.ChainForExtends(n);
    r := parent.CrtFileInner(name.utf16, stem, true, stamp);
    if r.Created? {
      CreatedParts(log, parent.Log(), r.range, name.utf16, stem, true, stamp);
      SecondRequest(parent, a, |c| - |a.chain|, t, fat.Clusters(), hint, memo, avail);
      CreatedFoundIff(log, parent.Log(), r.range, name, stem, true, stamp);
      if Creatable(name.utf16, stem) && NoTerminator(name.utf16) {
        CreatedIsFound(log, parent.Log(), r.range, name, stem, true, stamp);
        CleanedUp(log, parent.Log(), r.range, name.utf16, stem, stamp);
      }
    }
  }
}
