/** Class `Directory` of fs.cpp: a file whose bytes are directory entries. */
module Directories {
  import opened Base
  import opened FatTable
  import opened FirstFit
  import opened Geometry
  import opened FatImage
  import opened Fat
  import FatRuns
  import FileData
  import opened FileSteps
  import opened Files
  import opened LongName
  import opened ShortName
  import opened DirLog
  import opened ShortEntry
  import opened DirBytes
  import opened DirScan

  ghost function LogOf(g: BPB, s: Snap): seq<Entry>
    requires ValidSnap(g, s)
  {
    EntriesOf(SnapBytes(g, s))
  }

  /** Only the directory itself changed: its entries became `log`. */
  ghost predicate Became(g: BPB, a: Snap, b: Snap, log: seq<Entry>)
    requires ValidSnap(g, a) && ValidSnap(g, b)
  {
    && LogOf(g, b) == log && b.sz == a.sz && FatRuns.HeadOf(b.chain) == FatRuns.HeadOf(a.chain)
    && OthersKept(g, a.img, b.img, a.chain, b.chain)
  }

  lemma BecameTwice(g: BPB, a: Snap, b: Snap, c: Snap, mid: seq<Entry>, log: seq<Entry>)
    requires ValidSnap(g, a) && ValidSnap(g, b) && ValidSnap(g, c)
    requires Became(g, a, b, mid) && Became(g, b, c, log)
    ensures Became(g, a, c, log)
  {
    hide OthersKept, LogOf, IsChain, Reserved, ValidImage, CountOfClusters, Tables;
    OthersKeptThrice(g, a.img, b.img, c.img, a.chain, b.chain, c.chain);
  }

  lemma BecameItself(g: BPB, a: Snap)
    requires ValidSnap(g, a)
    ensures Became(g, a, a, LogOf(g, a))
  {
    hide OthersKept, LogOf, ValidImage, CountOfClusters, Tables;
    OthersKeptBySame(g, a.img, a.chain);
  }

  /** Overwriting the 32 bytes of entry `n` replaces that entry. */
  lemma EntryWritten(g: BPB, n: nat, e: Entry, a: Snap, b: Snap)
    requires ValidSnap(g, a) && ValidSnap(g, b) && Overwritten(g, true, ENTRY_SIZE * n, e, a, b)
    requires n < |LogOf(g, a)|
    ensures Became(g, a, b, LogOf(g, a)[n := e]) && b.chain == a.chain
  {
    hide OthersKept, IsChain, Reserved, ValidImage, CountOfClusters, Tables, FileData.FileBytes, Cells, SnapBytes;
    EntryReplaced(SnapBytes(g, a), SnapBytes(g, b), n, e);
  }

  /** Clusters hold whole entries. */
  lemma EntriesFill(g: BPB, n: nat)
    ensures ENTRY_SIZE * (Capacity(g, n) / ENTRY_SIZE) == Capacity(g, n)
  {
    hide Cells;
    RowColumn(16 * Cells(n, g.secPerClus), 0, ENTRY_SIZE);
  }

  /**
   * The directory with chain `c`, entries `log` and nothing live after the `n` at `s` has been cut to the
   * clusters that hold its first `s + 1` entries; with something live there it has not been cut.
   */
  predicate CutBehind(g: BPB, log: seq<Entry>, s: nat, n: nat, c: seq<nat>, c': seq<nat>)
    requires ValidBPB(g) && s + n <= |log|
  {
    if AllEmpty(log[s + n..]) then
      c' <= c && BytesPerClus(g) > 0 && |c'| == ClustersFor(g, ENTRY_SIZE * (s + 1))
    else
      c' == c
  }

  /** Of a directory that is cut, exactly the clusters up to the one with entry `s` stay. */
  lemma CutBehindMeans(g: BPB, log: seq<Entry>, s: nat, n: nat, c: seq<nat>, c': seq<nat>)
    requires ValidBPB(g) && s + n <= |log| && CutBehind(g, log, s, n, c, c')
    ensures c' <= c && (!AllEmpty(log[s + n..]) ==> c' == c)
    ensures AllEmpty(log[s + n..]) ==>
      c' != [] && (|c'| - 1) * (512 * g.secPerClus) <= 32 * s < |c'| * (512 * g.secPerClus)
  {
    hide AllEmpty;
    if AllEmpty(log[s + n..]) {
      var len := ENTRY_SIZE * (s + 1);
      ClustersForIsLeast(g, len);
      CapacityIsProduct(g, |c'|);
      CapacityIsProduct(g, |c'| - 1);
      WholeEntries(s, |c'| * g.secPerClus);
      WholeEntries(s, (|c'| - 1) * g.secPerClus);
    }
  }

  lemma WholeEntries(s: nat, k: nat)
    ensures 32 * s < 512 * k <==> 32 * (s + 1) <= 512 * k
  {
  }

  datatype CreateResult = Created(range: DirEntryRange) | DirectoryFull | CreateCrashed

  class Directory {
    const file: File

    constructor (file: File)
      ensures this.file == file
    {
      this.file := file;
    }

    /** A directory has clusters, and its size fits 32 bits. */
    ghost predicate Valid()
      reads file, file.fat, file.fat.device
    {
      file.isDir && file.Valid() && file.chain != [] && Capacity(file.fat.bpb, |file.chain|) < 0x1_0000_0000
    }

    ghost function Log(): seq<Entry>
      requires Valid()
      reads file, file.fat, file.fat.device
    {
      LogOf(file.fat.bpb, file.Now())
    }

    lemma LogBounds()
      requires Valid()
      ensures ENTRY_SIZE * |Log()| == |file.Bytes()| == file.Size() < 0x1_0000_0000
      ensures Log() == EntriesOf(file.Bytes()) && file.Contents() == file.Bytes()
    {
      hide CountOfClusters, FirstDataSector, Tables, IsChain, Cells, Reserved, FileData.FileBytes, EntriesOf;
      hide ValidImage;
      EntriesFill(file.fat.bpb, |file.chain|);
    }

    method ReadDirEntry(n: nat) returns (r: Option<Entry>)
      requires Valid() && n <= |Log()|
      modifies file`clusChain
      ensures Valid() && Log() == old(Log())
      ensures r == if n < |Log()| then Some(Log()[n]) else None
    {
      hide CountOfClusters, FirstDataSector, Tables, IsChain, Cells, Reserved;
      LogBounds();
      var buf := file.Read(ENTRY_SIZE, ENTRY_SIZE * n);
      r := if |buf| == ENTRY_SIZE then Some(buf) else None;
    }

    method WriteDirEntry(n: nat, e: Entry)
      requires Valid() && n < |Log()|
      modifies file, file.fat, file.fat.device
      ensures Valid() && file.chain == old(file.chain)
      ensures file.fat.freeCount == old(file.fat.freeCount) && file.fat.availClusCnt == old(file.fat.availClusCnt)
      ensures Became(file.fat.bpb, old(file.Now()), file.Now(), old(Log())[n := e])
    {
      hide CountOfClusters, FirstDataSector, Tables, IsChain, Cells, Reserved, Overwritten, Became, GoodHint;
      hide ClustersFor;
      ghost var a, len := file.Now(), ENTRY_SIZE * n + ENTRY_SIZE;
      ClustersForIsLeast(file.fat.bpb, len);
      ShiftedNone(file.fat.availClusCnt);
      var r := file.Write(e, ENTRY_SIZE * n);
      EntryWritten(file.fat.bpb, n, e, a, file.Now());
    }

    // ----- scans -----

    /**
     * Finds the entries of a name; `failed` reports a failed check of the checksums. In a well-formed directory
     * no check can fail, and the answer is the map's.
     */
    method LookupFileInner(name: Name) returns (r: Option<DirEntryRange>, failed: bool)
      requires Valid()
      modifies file`clusChain
      ensures Valid() && Log() == old(Log())
      ensures failed ==> r == None && Search(Log(), name) == CheckFails
      ensures !failed ==> Search(Log(), name) == match r case None => Absent case Some(x) => Found(x)
      ensures WellFormed(Log()) ==> !failed && r == RangeOf(Lookup(Log(), name))
    {
      hide OnVolume, ValidImage, ValidBPB, FileChain, WellFormed, Lookup, LogOf, Capacity, BytesPerClus;
      hide CountOfClusters, FirstDataSector, Tables, IsChain, Cells, Reserved, SearchFrom, JoinLong, IsEmpty;
      hide IsLastEmpty, IsLong, NameRead, IsValidLong, StoredSum;
      ghost var log := Log();
      MapAnswers(log, name);
      var cur: nat, start: nat, count: nat, chkSum: byte := 0, 0, 0, 0;
      var readName: seq<byte> := [];
      r, failed := None, false;
      JoinNothing(log, 0);
      var result := ReadDirEntry(cur);
      while result.Some?
        invariant Valid() && Log() == log && count <= cur <= |log|
        invariant Search(log, name) == SearchFrom(log, name, cur, count) && readName == JoinLong(log[cur - count..cur])
        invariant result == if cur < |log| then Some(log[cur]) else None
        invariant count > 0 ==> start == cur - count && chkSum == ChkSumOf(log[start])
        decreases |log| - cur
      {
        var e := result.value;
        SearchStep(log, name, cur, count);
        if IsLastEmpty(e) {
          return;
        }
        if IsEmpty(e) {
          count, readName := 0, [];
        } else {
          if count == 0 {
            start, chkSum := cur, ChkSumOf(e);
          }
          var found;
          count, readName, found, failed := SearchLive(log, name, cur, count, e, chkSum, readName);
          if failed {
            return;
          }
          if found {
            r := Some(DirEntryRange(start, count));
            return;
          }
        }
        JoinNothing(log, cur + 1);
        cur := cur + 1;
        result := ReadDirEntry(cur);
      }
      SearchDone(log, name, count);
    }

    lemma MapAnswers(log: seq<Entry>, name: Name)
      ensures WellFormed(log) ==> Search(log, name) == ResultOf(Lookup(log, name))
    {
      if WellFormed(log) {
        SearchOfWellFormed(log, name);
      }
    }

    /** The part of the search that looks at a live entry. */
    method SearchLive(ghost log: seq<Entry>, name: Name, cur: nat, count: nat, e: Entry, chkSum: byte,
                      readName: seq<byte>)
      returns (count': nat, readName': seq<byte>, found: bool, failed: bool)
      requires count <= cur < |log| && e == log[cur] && !IsEmpty(e)
      requires readName == JoinLong(log[cur - count..cur]) && chkSum == ChkSumOf(log[cur - count])
      ensures failed ==> SearchFrom(log, name, cur, count) == CheckFails
      ensures !failed && found ==>
        count' == count + 1 && SearchFrom(log, name, cur, count) == Found(DirEntryRange(cur - count, count + 1))
      ensures !failed && !found ==>
        && (count' == 0 || count' == count + 1) && readName' == JoinLong(log[cur + 1 - count'..cur + 1])
        && SearchFrom(log, name, cur, count) == SearchFrom(log, name, cur + 1, count')
    {
      hide JoinLong, SearchFrom, IsValidLong, StoredSum, BasisOf, DottedName, BasisFromShort, Sum, UnitsFrom;
      SearchStep(log, name, cur, count);
      LastIsFree(e);
      count', readName', found, failed := count + 1, readName, false, false;
      if IsLong(e) {
        if !IsValidLong(e, chkSum) {
          failed := true;
          return;
        }
        var piece := ReadLongEntryName(e);
        JoinMore(log, cur - count, cur);
        readName' := piece + readName;
      } else {
        var shortName := ReadShortEntryName(e);
        if count > 0 {
          var basis := GenBasisNameFromShort(shortName);
          var sum := ChkSum(basis);
          SumStored(e);
          if sum != chkSum {
            failed := true;
            return;
          }
        }
        found := if count > 0 then readName == name.utf16 else shortName == name.gbk;
        if !found {
          JoinNothing(log, cur + 1);
          count', readName' := 0, [];
        }
      }
    }

    lemma SumStored(e: Entry)
      ensures StoredSum(e) == Sum(BytesOf(BasisFromShort(DottedName(BasisOf(e)))))
    {
    }

    /** Whether no live entry follows entry `n`; a negative `n` asks about the whole directory. */
    method IsLstNonEmptyEntry(n: int) returns (r: bool)
      requires Valid() && n < |Log()|
      modifies file`clusChain
      ensures Valid() && Log() == old(Log()) && r == NothingLive(Log()[if n < 0 then 0 else n + 1..])
    {
      hide CountOfClusters, FirstDataSector, Tables, IsChain, Cells, Reserved, NothingLive, LogOf, Capacity;
      ghost var log := Log();
      var i: nat := if n < 0 then 0 else n + 1;
      ghost var first := i;
      var result := ReadDirEntry(i);
      while result.Some?
        invariant Valid() && Log() == log && first <= i <= |log|
        invariant result == if i < |log| then Some(log[i]) else None
        invariant NothingLive(log[first..]) == NothingLive(log[i..])
        decreases |log| - i
      {
        LiveFrom(log, i);
        if !IsEmpty(result.value) {
          return false;
        }
        if IsLastEmpty(result.value) {
          return true;
        }
        i := i + 1;
        result := ReadDirEntry(i);
      }
      LiveFrom(log, i);
      r := true;
    }

    lemma LiveFrom(log: seq<Entry>, i: nat)
      requires i <= |log|
      ensures NothingLive(log[i..]) <==>
              i == |log| || IsLastEmpty(log[i]) || (IsEmpty(log[i]) && NothingLive(log[i + 1..]))
    {
    }

    /**
     * Whether there are no files; a directory other than the root starts with two entries for itself and
     * its parent.
     */
    method IsEmptyDir(isRoot: bool) returns (r: bool)
      requires Valid() && (isRoot || |Log()| >= 2) && WellFormed(Log()[if isRoot then 0 else 2..])
      modifies file`clusChain
      ensures Valid() && Log() == old(Log())
      ensures r <==> Groups(Log()[if isRoot then 0 else 2..], if isRoot then 0 else 2) == []
    {
      hide WellFormed, Groups, NothingLive;
      NothingLiveIff(Log()[if isRoot then 0 else 2..], if isRoot then 0 else 2);
      if isRoot {
        r := IsLstNonEmptyEntry(-1);
      } else {
        r := IsLstNonEmptyEntry(1);
      }
    }

    // ----- listing -----

    /**
     * The next file at or after entry `off`, and the entry after it. Skipping free entries passes over
     * terminators too.
     */
    method LookupFileByIndex(off: nat) returns (r: Option<Listed>, off': nat)
      requires Valid() && off <= |Log()| && WellFormed(Log()[off..])
      modifies file`clusChain
      ensures Valid() && Log() == old(Log()) && off <= off' <= |Log()| && WellFormed(Log()[off'..])
      ensures var gs := Groups(Log()[off..], off);
        if gs == [] then r == None
        else
          && r == Some(ListingOf(gs[0])) && off' == gs[0].start + |gs[0].entries| > off
          && Groups(Log()[off'..], off') == gs[1..]
    {
      hide OnVolume, ValidImage, ValidBPB, FileChain, WellFormed, Groups, GroupLen, ValidGroup, LogOf, Capacity;
      hide StoredSum, IsValidLong, ListingOf, CountOfClusters, FirstDataSector, Tables, IsChain, Cells, Reserved;
      ghost var log := Log();
      off' := off;
      var result := ReadDirEntry(off');
      while result.Some? && IsEmpty(result.value)
        invariant Valid() && Log() == log && off <= off' <= |log| && WellFormed(log[off'..])
        invariant Groups(log[off'..], off') == Groups(log[off..], off)
        invariant result == if off' < |log| then Some(log[off']) else None
        decreases |log| - off'
      {
        PassFree(log, off');
        off' := off' + 1;
        result := ReadDirEntry(off');
      }
      if result.None? || IsLastEmpty(result.value) {
        NoMoreGroups(log, off');
        return None, off';
      }
      GroupAt(log, off');
      ghost var k := GroupLen(log[off'..]);
      var listed;
      listed, off' := ReadGroup(off', k);
      r := Some(listed);
    }

    lemma NoMoreGroups(log: seq<Entry>, off: nat)
      requires off <= |log| && (off < |log| ==> IsLastEmpty(log[off]))
      ensures Groups(log[off..], off) == []
    {
    }

    /** Reads the `k` entries of the group at `start` up to its short entry; the checksum checks hold. */
    method ReadGroup(start: nat, ghost k: nat) returns (listed: Listed, off: nat)
      requires Valid() && k > 0 && start + k <= |Log()| && IsGroupAt(Log(), start, k)
      modifies file`clusChain
      ensures Valid() && Log() == old(Log()) && off == start + k
      ensures listed == ListingOf(Group(start, Log()[start..start + k]))
    {
      hide OnVolume, ValidImage, ValidBPB, FileChain, LogOf, Capacity, StoredSum, IsValidLong, BasisOf, DottedName;
      hide IsEmpty, UnitsFrom, BasisFromShort, JoinLong, CountOfClusters, FirstDataSector, Tables, IsChain, Cells;
      hide Reserved;
      ghost var log := Log();
      var longs: seq<Entry> := [];
      off := start;
      var result := ReadDirEntry(off);
      while IsLong(result.value)
        invariant Valid() && Log() == log && start <= off < start + k
        invariant result == Some(log[off])
        invariant longs == log[start..off]
        decreases start + k - off
      {
        longs := longs + [result.value];
        off := off + 1;
        result := ReadDirEntry(off);
      }
      off := off + 1;
      GroupSplits(log, start, k);
      listed := ListGroup(start, longs, result.value);
    }

    /** The name of a group, checking its long entries against its short one. */
    method ListGroup(start: nat, longs: seq<Entry>, short: Entry) returns (listed: Listed)
      requires forall i :: 0 <= i < |longs| ==> IsValidLong(longs[i], StoredSum(short))
      ensures listed == ListingOf(Group(start, longs + [short]))
    {
      hide StoredSum, IsValidLong, BasisOf, DottedName, UnitsFrom, BasisFromShort, Sum;
      var shortName := ReadShortEntryName(short);
      assert (longs + [short])[..|longs|] == longs;
      if longs == [] {
        return Listed(start, 1, true, shortName);
      }
      var basis := GenBasisNameFromShort(shortName);
      var chkSum := ChkSum(basis);
      SumStored(short);
      var name: seq<byte>, i: nat := [], |longs|;
      assert longs[..i] == longs;
      while i > 0
        invariant i <= |longs| && JoinLong(longs) == name + JoinLong(longs[..i])
        decreases i
      {
        i := i - 1;
        assert IsValidLong(longs[i], chkSum);
        assert longs[..i + 1][..i] == longs[..i];
        var piece := ReadLongEntryName(longs[i]);
        name := name + piece;
      }
      listed := Listed(start, |longs| + 1, false, name);
    }

    /** Repeats `LookupFileByIndex` until there is no next file, as a full directory read does. */
    method ListAll() returns (r: seq<Listed>)
      requires Valid() && WellFormed(Log())
      modifies file`clusChain
      ensures Valid() && Log() == old(Log())
      ensures r == Listing(Log())
    {
      hide WellFormed, Groups, LogOf, Capacity, ListingOf, CountOfClusters, FirstDataSector, Tables, IsChain, Cells;
      hide Reserved;
      ghost var log, gs := Log(), Groups(Log(), 0);
      r := [];
      var next, off := LookupFileByIndex(0);
      while next.Some?
        invariant Valid() && Log() == log && off <= |log| && WellFormed(log[off..]) && |r| <= |gs|
        invariant forall i :: 0 <= i < |r| ==> r[i] == ListingOf(gs[i])
        invariant if next.None? then |r| == |gs|
          else |r| < |gs| && next == Some(ListingOf(gs[|r|])) && Groups(log[off..], off) == gs[|r| + 1..]
        decreases |gs| - |r|
      {
        r := r + [next.value];
        next, off := LookupFileByIndex(off);
      }
    }

    // ----- creating -----

    /** A hint, if there is one, is good for any number of clusters. */
    ghost predicate HintFine()
      requires Valid()
      reads file, file.fat, file.fat.device
    {
      GoodHint(file.fat.Entries(), CountOfClusters(file.fat.bpb), file.fat.freeCount, 2)
    }

    /** Makes room for `m` more entries. */
    method Grow(m: nat) returns (r: ResizeResult)
      requires Valid() && HintFine() && m > 0
      requires ENTRY_SIZE * (|Log()| + m) + BytesPerClus(file.fat.bpb) < 0x1_0000_0000
      modifies file, file.fat, file.fat.device
      ensures r == old(file.TruncateOutcome(ENTRY_SIZE * (|Log()| + m)))
      ensures r != Aborted ==>
        file.fat.freeCount == NO_HINT || (file.fat.freeCount == old(file.fat.freeCount)
          && file.chain <= old(file.chain))
      ensures r == NoRoom ==> Valid() && file.Now() == old(file.Now())
      ensures r == Resized ==>
        && file.chain == old(file.ChainAfter(ENTRY_SIZE * (|Log()| + m)))
        && file.Booked(old(file.fat.freeCount), old(file.fat.availClusCnt), old(file.fat.Avail()), |old(file.chain)|)
        && Since(old(file.Now())) && |old(Log())| + m <= |Log()|
        && Log() == old(Log()) + EndEntries(|Log()| - |old(Log())|)
    {
      hide LogOf, Capacity, BytesPerClus, OthersKept, ClustersFor, TruncatedTo, GoodHint, CountOfClusters;
      hide FirstDataSector, Tables, IsChain, Cells, Reserved;
      ghost var a, len := file.Now(), ENTRY_SIZE * (|Log()| + m);
      LogBounds();
      GoodForAny(file.fat.Entries(), CountOfClusters(file.fat.bpb), file.fat.freeCount);
      var sz := file.FileSize();
      r := file.Truncate(sz + ENTRY_SIZE * m);
      if r == Resized {
        GrownLog(file.fat.bpb, len, a, file.Now());
      }
    }

    /** Whether there is, or can be made, room for `n` entries in a row. */
    ghost function CreateOutcome(n: nat): ResizeResult
      requires Valid()
      reads file, file.fat, file.fat.device
    {
      var need := RoomNeeded(Log(), n);
      if need == 0 then Resized else file.TruncateOutcome(ENTRY_SIZE * (|Log()| + need))
    }

    /** The chain of a directory in which such room has been found or made. */
    ghost function ChainFor(n: nat): seq<nat>
      requires Valid()
      reads file, file.fat, file.fat.device
    {
      var need := RoomNeeded(Log(), n);
      if need == 0 then file.chain else file.ChainAfter(ENTRY_SIZE * (|Log()| + need))
    }

    /** How many clusters a directory must gain before it has room for `n` entries in a row. */
    ghost function ClustersNeeded(n: nat): nat
      requires Valid()
      reads file, file.fat, file.fat.device
    {
      ClustersForIsLeast(file.fat.bpb, 0);
      var need, has := RoomNeeded(Log(), n), |file.chain|;
      if need == 0 then 0 else Max(ClustersFor(file.fat.bpb, ENTRY_SIZE * (|Log()| + need)), has) - has
    }

    /** What a create answers depends on the clusters it needs, the memoised count, and what the scan comes to. */
    lemma CreateOutcomeIff(n: nat)
      requires Valid() && HintFine()
      ensures var k, avail := ClustersNeeded(n), file.fat.Avail();
        var cs := Candidates(file.fat.Entries(), file.fat.Clusters(), file.fat.freeCount);
        && (CreateOutcome(n) == Resized <==> k <= avail && k <= |cs|)
        && (CreateOutcome(n) == NoRoom <==> k > avail)
        && (CreateOutcome(n) == Aborted <==> |cs| < k <= avail)
        && (CreateOutcome(n) == Resized ==> ChainFor(n) == file.chain + cs[..k])
        && (k == 0 <==> RoomNeeded(Log(), n) == 0)
    {
      hide LogOf, CountOfClusters, FirstDataSector, Tables, IsChain, Reserved, Collected, OnVolume, ValidImage;
      hide FileChain, RoomNeeded, ClustersFor, Cells, Candidates, GoodHint, AllocOutcome;
      var need := RoomNeeded(Log(), n);
      if need > 0 {
        var len := ENTRY_SIZE * (|Log()| + need);
        LogBounds();
        ClustersForIsLeast(file.fat.bpb, len);
        CapacityMonotone(file.fat.bpb, ClustersFor(file.fat.bpb, len), |file.chain|);
        GoodForAny(file.fat.Entries(), CountOfClusters(file.fat.bpb), file.fat.freeCount);
        file.TruncateOutcomeIff(len);
      }
    }

    lemma ChainForExtends(n: nat)
      requires Valid()
      ensures file.chain <= ChainFor(n)
      ensures var k := |ChainFor(n)| - |file.chain|;
        var r := AllocOutcome(file.fat.Entries(), file.fat.Clusters(), file.fat.freeCount, file.fat.Avail(), k);
        k > 0 ==> r.Got? && ChainFor(n) == file.chain + r.chain
    {
      hide LogOf, CountOfClusters, FirstDataSector, Tables, IsChain, Reserved, Collected, OnVolume, ValidImage;
      hide FileChain, RoomNeeded, ClustersFor, Cells;
      var need := RoomNeeded(Log(), n);
      if need > 0 {
        var len := ENTRY_SIZE * (|Log()| + need);
        LogBounds();
        ClustersForIsLeast(file.fat.bpb, len);
        CapacityMonotone(file.fat.bpb, ClustersFor(file.fat.bpb, len), |file.chain|);
      }
    }

    /** Finds the lowest place with room for `n` entries, growing the directory if there is none. */
    method FindRoom(n: nat) returns (start: nat, r: ResizeResult)
      requires Valid() && HintFine() && n > 0
      requires ENTRY_SIZE * (|Log()| + n) + BytesPerClus(file.fat.bpb) < 0x1_0000_0000
      modifies file, file.fat, file.fat.device
      ensures r == old(CreateOutcome(n))
      ensures r != Aborted ==>
        file.fat.freeCount == NO_HINT || (file.fat.freeCount == old(file.fat.freeCount)
          && file.chain <= old(file.chain))
      ensures r == NoRoom ==> Valid() && file.Now() == old(file.Now())
      ensures r == Resized ==>
        && file.chain == old(ChainFor(n))
        && file.Booked(old(file.fat.freeCount), old(file.fat.availClusCnt), old(file.fat.Avail()), |old(file.chain)|)
        && Since(old(file.Now())) && |old(Log())| <= |Log()| && Log() == old(Log()) + EndEntries(|Log()| - |old(Log())|)
        && start + n <= |Log()| && FirstRun(Log(), start, n)
        && (|Log()| == |old(Log())| <==> RoomNeeded(old(Log()), n) == 0)
    {
      hide LogOf, Capacity, BytesPerClus, Became, FirstRun, RoomNeeded, Scanned, GoodHint, ClustersFor, EndEntries;
      hide CountOfClusters, FirstDataSector, Tables, IsChain, Cells, Reserved, AllocOutcome, OnVolume, ValidImage;
      hide ValidBPB, FileChain;
      ghost var log := Log();
      SinceNow();
      ShiftedNone(file.fat.availClusCnt);
      var cur, cnt;
      cur, cnt, start := ScanFree(n);
      ScanNeeds(log, n, cur, cnt);
      r := Resized;
      if cnt < n {
        r := Grow(n - cnt);
        if r != Resized {
          return;
        }
        if cnt == 0 {
          start := cur;
        }
      }
      RoomFound(log, Log(), n, cur, cnt);
    }

    /**
     * Creates a file with the given name forms: long entries in reverse order, then the short entry,
     * in the first free entries that suffice, which are made if there are none.
     */
    method CrtFileInner(utf16: seq<byte>, stem: seq<byte>, isDir: bool, stamp: seq<byte>) returns (r: CreateResult)
      requires Valid() && HintFine() && |utf16| > 0 && Even(|utf16|) && |stamp| == 5
      requires ENTRY_SIZE * (|Log()| + LongEntryCount(utf16) + 1) + BytesPerClus(file.fat.bpb) < 0x1_0000_0000
      modifies file, file.fat, file.fat.device
      ensures var t := old(CreateOutcome(LongEntryCount(utf16) + 1));
        (r.Created? <==> t == Resized) && (r.DirectoryFull? <==> t == NoRoom)
      ensures r.DirectoryFull? ==> Valid() && file.Now() == old(file.Now())
      ensures r.Created? ==>
        && Since(old(file.Now())) && HintFine() && r.range.count == LongEntryCount(utf16) + 1
        && file.chain == old(ChainFor(LongEntryCount(utf16) + 1))
        && file.Booked(old(file.fat.freeCount), old(file.fat.availClusCnt), old(file.fat.Avail()), |old(file.chain)|)
        && CreatedAt(old(Log()), Log(), r.range, utf16, stem, isDir, stamp)
        && r.range.start + r.range.count <= |Log()|
        && Log()[r.range.start + r.range.count - 1][..11] == BytesOf(BasisFromLong(stem))
        && (|Log()| == |old(Log())| <==> RoomNeeded(old(Log()), r.range.count) == 0)
    {
      hide LogOf, Capacity, BytesPerClus, Became, FirstRun, RoomNeeded, IsNewGroup, GoodHint, ClustersFor, EndEntries;
      hide CountOfClusters, FirstDataSector, Tables, IsChain, Cells, Reserved, AllocOutcome, OnVolume, ValidImage;
      hide ValidBPB, FileChain, CreateOutcome, HintFine, BasisFromLong, Inserted;
      ghost var a := file.Now();
      HintNow();
      var required := (|utf16| - 1) / NAME_BYTES + 1;
      required := required + 1;
      var start, t := FindRoom(required);
      if t == NoRoom {
        return DirectoryFull;
      }
      if t == Aborted {
        return CreateCrashed;
      }
      WriteEntries(start, required, utf16, stem, isDir, stamp, a);
      HintStays(a, old(file.fat.freeCount));
      r := Created(DirEntryRange(start, required));
      ShortBytes(old(Log()), Log(), r.range, utf16, stem, isDir, stamp);
    }

    lemma ShortBytes(log: seq<Entry>, log': seq<Entry>, range: DirEntryRange, utf16: seq<byte>, stem: seq<byte>,
                     isDir: bool, stamp: seq<byte>)
      requires |utf16| > 0 && Even(|utf16|) && |stamp| == 5
      requires CreatedAt(log, log', range, utf16, stem, isDir, stamp)
      ensures 0 < range.count && range.start + range.count <= |log'|
      ensures log'[range.start + range.count - 1][..11] == BytesOf(BasisFromLong(stem))
    {
      hide IsNewGroup, BasisFromLong, Sum, PieceOf, Padded, FirstRun, Inserted;
      var g := log'[range.start..range.start + range.count];
      NewGroupShape(g, utf16, stem, isDir, stamp);
      NewGroupBytes(g, utf16, stem, isDir, stamp, 0);
    }

    lemma HintNow()
      requires Valid() && HintFine()
      ensures GoodHint(Entries(file.fat.bpb, file.Now().img), CountOfClusters(file.fat.bpb), file.fat.freeCount, 2)
    {
    }

    /** A good hint that has not been consumed is still good. */
    lemma HintStays(a: Snap, hint: nat)
      requires Since(a) && a.chain != []
      requires GoodHint(Entries(file.fat.bpb, a.img), CountOfClusters(file.fat.bpb), hint, 2)
      requires file.fat.freeCount == NO_HINT || (file.fat.freeCount == hint && file.chain <= a.chain)
      ensures HintFine()
    {
      hide LogOf, CountOfClusters, FirstDataSector, Tables, Reserved, OnVolume, ValidImage, FileChain, KeptApart;
      if file.fat.freeCount != NO_HINT {
        HintSurvives(Entries(file.fat.bpb, a.img), file.fat.Entries(), CountOfClusters(file.fat.bpb), hint, a.chain,
          file.chain);
      }
    }

    /** Looks for `n` free entries in a row; they are the last `cnt` ones before `cur`. */
    method ScanFree(n: nat) returns (cur: nat, cnt: nat, start: nat)
      requires Valid() && n > 0
      modifies file`clusChain
      ensures Valid() && Log() == old(Log()) && Scanned(Log(), n, cur, cnt)
      ensures (cnt < n ==> cur == |Log()|) && cnt <= cur && (cnt > 0 ==> start == cur - cnt)
    {
      hide OnVolume, ValidImage, ValidBPB, FileChain, LogOf, Capacity, Scanned, CountOfClusters, FirstDataSector;
      hide Tables, IsChain, Cells, Reserved;
      ghost var log := Log();
      cur, cnt, start := 0, 0, 0;
      ScanBegins(log, n);
      while cnt < n
        invariant Valid() && Log() == log && Scanned(log, n, cur, cnt) && cnt <= cur <= |log|
        invariant cnt > 0 ==> start == cur - cnt
        decreases |log| - cur
      {
        var result := ReadDirEntry(cur);
        if result.None? {
          break;
        }
        ScanOn(log, n, cur, cnt);
        if IsEmpty(result.value) {
          if cnt == 0 {
            start := cur;
          }
          cnt := cnt + 1;
        } else {
          cnt := 0;
        }
        cur := cur + 1;
      }
    }

    /** Writes the entries of a new file over the `n` entries at `start`. */
    method WriteEntries(start: nat, n: nat, utf16: seq<byte>, stem: seq<byte>, isDir: bool, stamp: seq<byte>,
                        ghost a: Snap)
      requires Since(a) && |utf16| > 0 && Even(|utf16|) && |stamp| == 5
      requires n == LongEntryCount(utf16) + 1 && start + n <= |Log()|
      modifies file, file.fat, file.fat.device
      ensures Since(a) && |Log()| == |old(Log())| && file.chain == old(file.chain)
      ensures file.fat.freeCount == old(file.fat.freeCount) && file.fat.availClusCnt == old(file.fat.availClusCnt)
      ensures var g := Log()[start..start + n];
        IsNewGroup(g, utf16, stem, isDir, stamp) && Log() == Inserted(old(Log()), start, g)
    {
      hide LogOf, Capacity, BytesPerClus, Became, IsNewGroup, IsNewShort, LongsWritten, IsLongEntryFor, BasisFromLong;
      hide Sum, CountOfClusters, FirstDataSector, Tables, IsChain, Cells, Reserved, LongEntryCount, Inserted;
      hide OnVolume, ValidImage, BasisFromShort, ValidBPB, FileChain;
      ghost var log := Log();
      var basis := GenBasisNameFromLong(stem);
      var chkSum := ChkSum(basis);
      var off: nat, ord: nat := 0, 1;
      LongsBegin(log, start, n, chkSum, utf16);
      while ord <= n - 1
        invariant file.chain == old(file.chain)
        invariant file.fat.freeCount == old(file.fat.freeCount) && file.fat.availClusCnt == old(file.fat.availClusCnt)
        invariant 1 <= ord <= n && off == NAME_BYTES * (ord - 1) && Since(a) && |Log()| == |log|
        invariant LongsWritten(log, Log(), start, n, ord, chkSum, utf16)
      {
        var e := MkLongDirEntry(ord == n - 1, ord, chkSum, utf16, off);
        LongsMore(log, Log(), start, n, ord, chkSum, utf16, e);
        WriteSince(start + n - ord - 1, e, a);
        off, ord := off + NAME_BYTES, ord + 1;
      }
      var short := MkShortDirEntry(basis, isDir, stamp);
      GroupWritten(log, Log(), start, utf16, stem, isDir, stamp, short);
      WriteSince(start + n - 1, short, a);
    }

    // ----- deleting -----

    /** Since `a`, nothing but this directory has changed. */
    ghost predicate Since(a: Snap)
      reads file, file.fat, file.fat.device
    {
      Valid() && ValidSnap(file.fat.bpb, a) && Became(file.fat.bpb, a, file.Now(), Log())
    }

    lemma SinceNow()
      requires Valid()
      ensures Since(file.Now())
    {
      BecameItself(file.fat.bpb, file.Now());
    }

    method WriteSince(n: nat, e: Entry, ghost a: Snap)
      requires Since(a) && n < |Log()|
      modifies file, file.fat, file.fat.device
      ensures Since(a) && Log() == old(Log())[n := e] && file.chain == old(file.chain)
      ensures file.fat.freeCount == old(file.fat.freeCount) && file.fat.availClusCnt == old(file.fat.availClusCnt)
    {
      hide LogOf, Capacity, BytesPerClus, OthersKept, CountOfClusters, FirstDataSector, Tables, IsChain, Cells;
      hide Reserved;
      ghost var b, log := file.Now(), Log();
      WriteDirEntry(n, e);
      BecameTwice(file.fat.bpb, a, b, file.Now(), log, log[n := e]);
    }

    /**
     * Deletes a name: its entries become tombstones, and a directory that ends with them is cut. `failed`
     * reports a failed check of the lookup.
     */
    method DelFile(name: Name) returns (r: bool, failed: bool)
      requires Valid() && (WellFormed(Log()) || !Search(Log(), name).Found?)
      modifies file, file.fat, file.fat.device
      ensures (failed <==> old(Search(Log(), name)) == CheckFails) && (r <==> old(Search(Log(), name)).Found?)
      ensures old(WellFormed(Log())) ==> !failed && (r <==> old(Lookup(Log(), name)).Some?)
      ensures Since(old(file.Now())) && (!r ==> file.Now() == old(file.Now()))
      ensures r ==>
        var log, x := old(Log()), old(Lookup(Log(), name)).value;
        && |x.entries| > 0 && x.start + |x.entries| <= |log| && Removed(log, x.start, |x.entries|, Log())
        && CutBehind(file.fat.bpb, log, x.start, |x.entries|, old(file.chain), file.chain)
    {
      hide OnVolume, ValidImage, ValidBPB, FileChain, WellFormed, Lookup, LogOf, Capacity, BytesPerClus, Became;
      hide Removed, Buried, NothingLive, CountOfClusters, FirstDataSector, Tables, IsChain, Cells, Reserved;
      hide SearchFrom;
      ghost var log, a := Log(), file.Now();
      SinceNow();
      var range;
      range, failed := LookupFileInner(name);
      r := range.Some?;
      if range.None? {
        return;
      }
      FoundAtStart(log, name);
      RemoveEntries(range.value.start, range.value.count, a);
    }

    lemma FoundAtStart(log: seq<Entry>, name: Name)
      requires (WellFormed(log) || !Search(log, name).Found?) && Search(log, name).Found?
      ensures Lookup(log, name).Some?
      ensures var x := Lookup(log, name).value;
        var s, n := x.start, |x.entries|;
        && Search(log, name) == Found(DirEntryRange(s, n))
        && n > 0 && s + n <= |log| && log[s..s + n] == x.entries && WellFormed(log[s + n..])
    {
      hide SearchFrom;
      SearchOfWellFormed(log, name);
      FoundIsHeld(log, name);
    }

    method RemoveEntries(s: nat, n: nat, ghost a: Snap)
      requires Since(a) && n > 0 && s + n <= |Log()| && WellFormed(Log()[s + n..])
      modifies file, file.fat, file.fat.device
      ensures Since(a) && Removed(old(Log()), s, n, Log())
      ensures CutBehind(file.fat.bpb, old(Log()), s, n, old(file.chain), file.chain)
    {
      hide OnVolume, ValidImage, ValidBPB, FileChain, WellFormed, LogOf, Capacity, BytesPerClus, Became, Buried;
      hide NothingLive, CountOfClusters, FirstDataSector, Tables, IsChain, Cells, Reserved;
      ghost var log := Log();
      BuryNone(log, s);
      var cur := s;
      while cur < s + n
        invariant s <= cur <= s + n && Since(a) && file.chain == old(file.chain) && Log() == Buried(log, s, cur - s)
      {
        BuryOne(log, s, cur);
        WriteSince(cur, TOMBSTONE, a);
        cur := cur + 1;
      }
      BuriedTail(log, s, n);
      NothingLiveIff(log[s + n..], s + n);
      var shortNo := s + n - 1;
      var isLast := IsLstNonEmptyEntry(shortNo);
      if isLast {
        WriteSince(shortNo, END_ENTRY, a);
        CutTo(s, a);
      }
      IsRemoved(log, s, n, Log());
    }

    function Buried(log: seq<Entry>, s: nat, n: nat): (r: seq<Entry>)
      requires s + n <= |log|
      ensures |r| == |log|
    {
      log[..s] + Tombstones(n) + log[s + n..]
    }

    lemma BuryNone(log: seq<Entry>, s: nat)
      requires s <= |log|
      ensures Buried(log, s, 0) == log
    {
    }

    lemma BuryOne(log: seq<Entry>, s: nat, cur: nat)
      requires s <= cur < |log|
      ensures Buried(log, s, cur - s)[cur := TOMBSTONE] == Buried(log, s, cur + 1 - s)
    {
    }

    lemma BuriedTail(log: seq<Entry>, s: nat, n: nat)
      requires s + n <= |log|
      ensures Buried(log, s, n)[s + n..] == log[s + n..]
    {
    }

    lemma IsRemoved(log: seq<Entry>, s: nat, n: nat, log': seq<Entry>)
      requires n > 0 && s + n <= |log|
      requires if AllEmpty(log[s + n..])
        then s < |log'| <= |log| && log' == Buried(log, s, n)[s + n - 1 := END_ENTRY][..|log'|]
        else log' == Buried(log, s, n)
      ensures Removed(log, s, n, log')
    {
    }

    /** Cuts the directory to the clusters that hold its entries up to entry `s`. */
    method CutTo(s: nat, ghost a: Snap)
      requires Since(a) && s < |Log()|
      modifies file, file.fat, file.fat.device
      ensures Since(a) && s < |Log()| <= |old(Log())| && Log() == old(Log())[..|Log()|]
      ensures file.chain <= old(file.chain)
      ensures BytesPerClus(file.fat.bpb) > 0 && |file.chain| == ClustersFor(file.fat.bpb, ENTRY_SIZE * (s + 1))
    {
      hide LogOf, Capacity, BytesPerClus, OthersKept, ClustersFor, TruncatedTo, CountOfClusters, FirstDataSector;
      hide Tables, IsChain, Cells, Reserved;
      LogBounds();
      ghost var b, log, len := file.Now(), Log(), ENTRY_SIZE * (s + 1);
      ClustersForIsLeast(file.fat.bpb, len);
      var r := file.Truncate(ENTRY_SIZE * (s + 1));
      CutLog(file.fat.bpb, len, b, file.Now());
      BecameTwice(file.fat.bpb, a, b, file.Now(), log, Log());
    }
  }

  /** A directory grown to hold `len` bytes gains terminators only. */
  lemma GrownLog(g: BPB, len: nat, a: Snap, b: Snap)
    requires ValidSnap(g, a) && ValidSnap(g, b) && TruncatedTo(g, true, len, a, b)
    requires len > Capacity(g, |a.chain|) && a.chain != []
    ensures Became(g, a, b, LogOf(g, b)) && b.chain != [] && Capacity(g, |b.chain|) < len + BytesPerClus(g)
    ensures len <= ENTRY_SIZE * |LogOf(g, b)| && |LogOf(g, b)| >= |LogOf(g, a)|
    ensures LogOf(g, b) == LogOf(g, a) + EndEntries(|LogOf(g, b)| - |LogOf(g, a)|)
  {
    hide OthersKept, IsChain, Reserved, ValidImage, CountOfClusters, Tables, FileData.FileBytes, SnapBytes;
    hide ClustersFor, Cells, EntriesOf;
    ClustersForIsLeast(g, len);
    LeastIsTight(g, len);
    var x, y := SnapBytes(g, a), SnapBytes(g, b);
    EntriesFill(g, |a.chain|);
    EntriesFill(g, |b.chain|);
    EntriesOfZeros(x, |y| / ENTRY_SIZE - |x| / ENTRY_SIZE);
  }

  lemma LeastIsTight(g: BPB, len: nat)
    requires ValidBPB(g) && len > 0
    ensures BytesPerClus(g) > 0 && Capacity(g, ClustersFor(g, len)) < len + BytesPerClus(g)
  {
    ClustersForIsLeast(g, len);
    var n, b := ClustersFor(g, len), BytesPerClus(g);
    CapacityIsProduct(g, n);
    assert n * b == (len - 1) / b * b + b;
  }

  /** A directory cut to hold `len` bytes keeps the entries in its remaining clusters. */
  lemma CutLog(g: BPB, len: nat, a: Snap, b: Snap)
    requires ValidSnap(g, a) && ValidSnap(g, b) && TruncatedTo(g, true, len, a, b)
    requires len <= Capacity(g, |a.chain|) && len > 0
    ensures Became(g, a, b, LogOf(g, b)) && b.chain != [] && Capacity(g, |b.chain|) <= Capacity(g, |a.chain|)
    ensures len <= ENTRY_SIZE * |LogOf(g, b)| && |LogOf(g, b)| <= |LogOf(g, a)|
    ensures LogOf(g, b) == LogOf(g, a)[..|LogOf(g, b)|]
  {
    hide OthersKept, IsChain, Reserved, ValidImage, CountOfClusters, Tables, FileData.FileBytes, SnapBytes;
    hide ClustersFor, Cells, EntriesOf;
    ClustersForIsLeast(g, len);
    CapacityIsProduct(g, 0);
    var x, y := SnapBytes(g, a), SnapBytes(g, b);
    assert y <= x;
    EntriesFill(g, |b.chain|);
    EntriesOfPrefix(x, |y| / ENTRY_SIZE);
    assert x[..|y|] == y;
  }
}
