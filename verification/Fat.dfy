/** The allocator object: class `FAT` of fat32.cpp over a flat device. */
module Fat {
  import opened Base
  import opened FatTable
  import opened FirstFit
  import opened Geometry
  import opened Device
  import opened FatImage

  /** The memoised count after `k` more clusters have been counted in (or out, if `k` is negative). */
  function Shifted(memo: Option<u32>, k: int): Option<u32> {
    if memo.Some? then Some(Wrap32(memo.value + k)) else None
  }

  lemma ShiftedNone(memo: Option<u32>)
    ensures Shifted(memo, 0) == memo
  {
  }

  lemma ShiftedMore(memo: Option<u32>, j: int, k: int)
    ensures Shifted(Shifted(memo, j), k) == Shifted(memo, j + k)
  {
  }

  lemma ShiftedFits(avail: u32, k: nat)
    requires k <= avail
    ensures Shifted(Some(avail), 0 - k) == Some(avail - k)
  {
  }

  datatype ResizeResult = Resized | NoRoom | Aborted

  class FAT {
    const bpb: BPB
    const device: FlatDevice
    /** The hint: `free_count_`, consumed by the first allocation. */
    var freeCount: u32
    /** The memoised number of free clusters. */
    var availClusCnt: Option<u32>

    constructor (bpb: BPB, freeCount: u32, device: FlatDevice)
      ensures this.bpb == bpb && this.device == device
      ensures this.freeCount == freeCount && availClusCnt == None
    {
      this.bpb, this.freeCount, this.device := bpb, freeCount, device;
      availClusCnt := None;
    }

    ghost predicate Valid()
      reads device
    {
      ValidBPB(bpb) && ValidImage(bpb, device.sectors)
    }

    /** Every FAT copy on the device; all reads go to copy 0. */
    ghost function Copies(): (r: seq<seq<u32>>)
      requires Valid()
      reads device
      ensures |r| == bpb.numFats > 0
    {
      Tables(bpb, device.sectors)
    }

    ghost function Entries(): (r: seq<u32>)
      requires Valid()
      reads device
      ensures |r| == ENTRIES_PER_SECTOR * bpb.fatSz32 >= Clusters() + 2
    {
      Copies()[0]
    }

    ghost function Clusters(): nat
      requires ValidBPB(bpb)
    {
      CountOfClusters(bpb)
    }

    /** What `availClusCnt()` answers: the memoised count if there is one. */
    ghost function Avail(): nat
      requires Valid()
      reads this, device
    {
      if availClusCnt.Some? then availClusCnt.value else |FreeUpTo(Entries(), Clusters())|
    }

    /** Same device contents except that the FAT copies have undergone the writes `ws`. */
    ghost predicate Wrote(before: Image, ws: seq<Write>)
      requires Valid() && ValidImage(bpb, before)
      requires WritesWithin(ws, ENTRIES_PER_SECTOR * bpb.fatSz32)
      reads device
    {
      WroteOn(bpb, before, device.sectors, ws)
    }

    lemma NothingWritten()
      requires Valid()
      ensures Wrote(device.sectors, [])
    {
    }

    method ReadFatEntry(secNo: nat, off: nat) returns (v: nat)
      requires Valid() && FirstFATSector(bpb, 0) <= secNo < FirstFATSector(bpb, 0) + bpb.fatSz32
      requires off < SECTOR_SIZE && off % 4 == 0
      ensures v == Link(Entries(), ENTRIES_PER_SECTOR * (secNo - FirstFATSector(bpb, 0)) + off / 4)
    {
      TableWord(bpb, device.sectors, 0, secNo - FirstFATSector(bpb, 0), off / 4);
      v := ReadFatWord(device.sectors[secNo], off);
    }

    /** Mirrors the write to every FAT copy. */
    method WriteFatEntry(secNo: nat, off: nat, val: nat, ghost before: Image, ghost ws: seq<Write>)
      requires Valid() && FirstFATSector(bpb, 0) <= secNo < FirstFATSector(bpb, 0) + bpb.fatSz32
      requires off < SECTOR_SIZE && off % 4 == 0
      requires ValidImage(bpb, before) && WritesWithin(ws, ENTRIES_PER_SECTOR * bpb.fatSz32) && Wrote(before, ws)
      modifies device
      ensures Valid()
      ensures Wrote(before, ws + [Write(ENTRIES_PER_SECTOR * (secNo - FirstFATSector(bpb, 0)) + off / 4, val)])
    {
      hide CountOfClusters, FirstDataSector, ValidImage, Mirroring, Wrote, Tables;
      ghost var i, j := secNo - FirstFATSector(bpb, 0), off / 4;
      ghost var n, ts := ENTRIES_PER_SECTOR * i + j, Copies();
      WriteStarts(before, ws, n, val);
      var k := 0;
      while k < bpb.numFats
        invariant k <= bpb.numFats && Mirroring(before, ts, n, val, k)
      {
        WriteCopy(k, secNo, off, val, before, ts);
        k := k + 1;
      }
      WriteEnds(before, ws, ts, n, val);
    }

    ghost predicate Mirroring(before: Image, ts: seq<seq<u32>>, n: nat, val: nat, k: nat)
      reads device
    {
      && Valid() && SamePayload(bpb, before, device.sectors)
      && MirroredUpTo(ts, Copies(), n, val, k)
    }

    lemma WriteStarts(before: Image, ws: seq<Write>, n: nat, val: nat)
      requires Valid() && n < ENTRIES_PER_SECTOR * bpb.fatSz32
      requires ValidImage(bpb, before) && WritesWithin(ws, ENTRIES_PER_SECTOR * bpb.fatSz32) && Wrote(before, ws)
      ensures Mirroring(before, Copies(), n, val, 0)
      ensures Copies() == WrittenAll(Tables(bpb, before), ws)
    {
    }

    lemma WriteEnds(before: Image, ws: seq<Write>, ts: seq<seq<u32>>, n: nat, val: nat)
      requires ValidBPB(bpb) && ValidImage(bpb, before) && WritesWithin(ws, ENTRIES_PER_SECTOR * bpb.fatSz32)
      requires n < ENTRIES_PER_SECTOR * bpb.fatSz32
      requires ts == WrittenAll(Tables(bpb, before), ws) && Mirroring(before, ts, n, val, bpb.numFats)
      ensures Valid() && Wrote(before, ws + [Write(n, val)])
    {
    }

    method WriteCopy(k: nat, secNo: nat, off: nat, val: nat, ghost before: Image, ghost ts: seq<seq<u32>>)
      requires ValidBPB(bpb) && FirstFATSector(bpb, 0) <= secNo < FirstFATSector(bpb, 0) + bpb.fatSz32
      requires off < SECTOR_SIZE && off % 4 == 0 && k < bpb.numFats
      requires Mirroring(before, ts, ENTRIES_PER_SECTOR * (secNo - FirstFATSector(bpb, 0)) + off / 4, val, k)
      modifies device
      ensures Mirroring(before, ts, ENTRIES_PER_SECTOR * (secNo - FirstFATSector(bpb, 0)) + off / 4, val, k + 1)
    {
      hide CountOfClusters, FirstDataSector, ValidImage, MirroredUpTo, Tables, SamePayload, WriteFatWord;
      StampMirrors(bpb, device.sectors, ts, k, secNo - FirstFATSector(bpb, 0), off / 4, val);
      var sec := secNo + k * bpb.fatSz32;
      ghost var img := device.sectors;
      device.sectors := device.sectors[sec := WriteFatWord(device.sectors[sec], off, val)];
      SamePayloadTransitive(bpb, before, img, device.sectors);
    }

    method ReadEntryOf(n: nat) returns (v: nat)
      requires Valid() && n < ENTRIES_PER_SECTOR * bpb.fatSz32
      ensures v == Link(Entries(), n)
    {
      ClusPosInFAT(bpb, n);
      var pos := ClusPosOnFAT(bpb, n);
      v := ReadFatEntry(pos.fatSecNum, pos.fatEntOffset);
    }

    method WriteEntryOf(n: nat, val: nat, ghost before: Image, ghost ws: seq<Write>)
      requires Valid() && n < ENTRIES_PER_SECTOR * bpb.fatSz32
      requires ValidImage(bpb, before) && WritesWithin(ws, ENTRIES_PER_SECTOR * bpb.fatSz32) && Wrote(before, ws)
      modifies device
      ensures Valid() && WritesWithin(ws + [Write(n, val)], ENTRIES_PER_SECTOR * bpb.fatSz32)
      ensures Wrote(before, ws + [Write(n, val)])
    {
      var pos := ClusPosOnFAT(bpb, n);
      WriteFatEntry(pos.fatSecNum, pos.fatEntOffset, val, before, ws);
    }

    /** Counts free clusters once, sector by sector, and remembers the answer. */
    method AvailClusCnt() returns (r: nat)
      requires Valid()
      modifies this`availClusCnt
      ensures Valid() && r == old(Avail()) && availClusCnt == Some(r)
      ensures r == if old(availClusCnt).Some? then old(availClusCnt).value else |FreeUpTo(Entries(), Clusters())|
    {
      hide CountOfClusters, FirstDataSector, ValidImage, Tables;
      if availClusCnt.Some? {
        return availClusCnt.value;
      }

      ghost var t := Entries();
      var avail, cnt, cntOfClus := 0, 0, CountOfClusters(bpb);
      var start := FirstFATSector(bpb, 0);
      var i := start;
      while i < start + bpb.fatSz32 && cnt < cntOfClus
        invariant start <= i <= start + bpb.fatSz32
        invariant cnt <= cntOfClus && (cnt == ENTRIES_PER_SECTOR * (i - start) || cnt == cntOfClus)
        invariant avail == |FreeUpTo(t, cnt)|
      {
        var j := 0;
        while j < ENTRIES_PER_SECTOR && cnt < cntOfClus
          invariant j <= ENTRIES_PER_SECTOR && cnt <= cntOfClus
          invariant cnt == ENTRIES_PER_SECTOR * (i - start) + j
          invariant avail == |FreeUpTo(t, cnt)|
        {
          var v := ReadFatEntry(i, j * 4);
          if v == 0 {
            avail := avail + 1;
          }
          j, cnt := j + 1, cnt + 1;
        }
        i := i + 1;
      }
      availClusCnt := Some(avail);
      r := avail;
    }

    method IncAvailCnt(n: nat)
      modifies this`availClusCnt
      ensures availClusCnt == Shifted(old(availClusCnt), n)
    {
      if availClusCnt.Some? {
        availClusCnt := Some(Wrap32(availClusCnt.value + n));
      }
    }

    method DecAvailCnt(n: nat)
      modifies this`availClusCnt
      ensures availClusCnt == Shifted(old(availClusCnt), 0 - n)
    {
      if availClusCnt.Some? {
        availClusCnt := Some(Wrap32(availClusCnt.value - n));
      }
    }

    /** What holds while the scan of `AllocClus` is about to look at cluster `pos`. */
    ghost predicate Scanning(before: Image, t: seq<u32>, hint: nat, avail: nat, k: nat, pos: nat, chain: seq<nat>,
                             cur: nat)
      requires ValidBPB(bpb) && ValidImage(bpb, before)
      reads this, device
    {
      && Valid() && t == Tables(bpb, before)[0]
      && pos <= |t| && chain == Collected(t, pos, hint) && |chain| < k <= avail
      && cur == (if chain == [] then 0 else chain[|chain| - 1])
      && Within(chain, |t|) && Wrote(before, OpenWrites(chain))
      && freeCount == NO_HINT && availClusCnt == Some(avail - |chain|)
    }

    /**
     * Takes `k` clusters, linking them in the order found. The source's final `assert(false)` is the
     * outcome `AssertFailed`.
     */
    method AllocClus(k: nat) returns (r: AllocResult)
      requires Valid() && Reserved(Entries()) && k >= 1
      requires freeCount == NO_HINT || freeCount < |Entries()|
      modifies this, device
      ensures Valid()
      ensures r == old(AllocOutcome(Entries(), Clusters(), freeCount, Avail(), k))
      ensures r.NoSpace? ==>
        device.sectors == old(device.sectors) && freeCount == old(freeCount) && availClusCnt == Some(old(Avail()))
      ensures r.Got? ==>
        && |r.chain| == k && Within(r.chain, |Entries()|) && Wrote(old(device.sectors), LinkWrites(r.chain))
        && freeCount == NO_HINT && availClusCnt == Some(old(Avail()) - k)
    {
      hide CountOfClusters, FirstDataSector, FirstFATSector, Reserved, LinkWrites, ValidImage, Tables, WrittenAll;
      hide SamePayload, OpenWrites, Collected, Scanning, Shifted;
      var avail := AvailClusCnt();
      if avail < k {
        return NoSpace;
      }

      ghost var before, t, hint := device.sectors, Entries(), freeCount;
      var chain, cur := [], 0;
      if freeCount != NO_HINT {
        ShiftedFits(avail, 1);
        cur := freeCount;
        chain := [cur];
        freeCount := NO_HINT;
        DecAvailCnt(1);
        if |chain| == k {
          EndMarkHint(cur);
          return Got(chain);
        }
      }
      ScanStarts(before, t, hint, avail, k, chain, cur);
      r := ScanTable(k, chain, cur, before, t, hint, avail);
    }

    /** A request for one cluster is met by the hint alone. */
    method EndMarkHint(hint: nat)
      requires Valid() && hint < |Entries()| && hint != NO_HINT
      modifies device
      ensures Valid() && Wrote(old(device.sectors), LinkWrites([hint]))
      ensures var found := old(Collected(Entries(), Clusters(), hint)); |found| >= 1 && found[..1] == [hint]
    {
      hide CountOfClusters, FirstDataSector, FirstFATSector, LinkWrites, ValidImage, Tables, WrittenAll, Collected;
      hide SamePayload, OpenWrites;
      ghost var before := device.sectors;
      OneClusterHinted(Entries(), Clusters(), hint);
      NothingWritten();
      WriteEntryOf(hint, EOC_MARK, before, []);
    }

    /** The scan of `AllocClus` over the sectors of the first FAT, from cluster 0 on. */
    method ScanTable(k: nat, c: seq<nat>, last: nat, ghost before: Image, ghost t: seq<u32>, ghost hint: nat,
                     ghost avail: u32)
      returns (r: AllocResult)
      requires ValidBPB(bpb) && ValidImage(bpb, before) && Reserved(t) && (hint == NO_HINT || hint < |t|)
      requires Clusters() <= |t| && Scanning(before, t, hint, avail, k, 0, c, last)
      modifies device, this`availClusCnt
      ensures Valid() && r == AllocOutcome(t, Clusters(), hint, avail, k) && !r.NoSpace?
      ensures r.Got? ==>
        && Within(r.chain, |t|) && Wrote(before, LinkWrites(r.chain))
        && freeCount == NO_HINT && availClusCnt == Some(avail - k)
    {
      hide CountOfClusters, FirstDataSector, FirstFATSector, Reserved, LinkWrites, ValidImage, Tables, WrittenAll;
      hide SamePayload, OpenWrites, Collected, Scanning, Shifted;
      var chain, cur, cntOfClus := c, last, CountOfClusters(bpb);
      var cnt, start := 0, FirstFATSector(bpb, 0);
      var i := start;
      while i < start + bpb.fatSz32 && cnt < cntOfClus
        invariant start <= i <= start + bpb.fatSz32 && cnt <= cntOfClus
        invariant cnt == ENTRIES_PER_SECTOR * (i - start) || cnt == cntOfClus
        invariant Scanning(before, t, hint, avail, k, cnt, chain, cur)
      {
        var j := 0;
        while j < ENTRIES_PER_SECTOR && cnt < cntOfClus
          invariant j <= ENTRIES_PER_SECTOR && cnt <= cntOfClus
          invariant cnt == ENTRIES_PER_SECTOR * (i - start) + j
          invariant Scanning(before, t, hint, avail, k, cnt, chain, cur)
        {
          var done;
          chain, cur, done := ScanCluster(i, j, cnt, chain, cur, k, before, t, hint, avail);
          if done {
            return Got(chain);
          }
          j, cnt := j + 1, cnt + 1;
        }
        i := i + 1;
      }
      ScanEnds(before, t, hint, avail, k, cnt, chain, cur);
      return AssertFailed;
    }

    lemma ScanEnds(before: Image, t: seq<u32>, hint: nat, avail: nat, k: nat, pos: nat, chain: seq<nat>, cur: nat)
      requires ValidBPB(bpb) && ValidImage(bpb, before) && Scanning(before, t, hint, avail, k, pos, chain, cur)
      ensures Valid() && pos <= |t| && |Collected(t, pos, hint)| < k <= avail
    {
    }

    lemma ScanStarts(before: Image, t: seq<u32>, hint: nat, avail: nat, k: nat, chain: seq<nat>, cur: nat)
      requires Valid() && before == device.sectors && t == Entries()
      requires chain == (if hint == NO_HINT then [] else [hint]) && cur == if hint == NO_HINT then 0 else hint
      requires |chain| < k <= avail && (hint == NO_HINT || hint < |t|)
      requires freeCount == NO_HINT && availClusCnt == Some(avail - |chain|)
      ensures Scanning(before, t, hint, avail, k, 0, chain, cur)
    {
    }

    /** The body of the scan: look at cluster `cnt` and take it if it reads as free. */
    method ScanCluster(i: nat, j: nat, cnt: nat, chain: seq<nat>, cur: nat, k: nat,
                       ghost before: Image, ghost t: seq<u32>, ghost hint: nat, ghost avail: u32)
      returns (chain': seq<nat>, cur': nat, done: bool)
      requires ValidBPB(bpb) && ValidImage(bpb, before) && Reserved(t) && (hint == NO_HINT || hint < |t|)
      requires FirstFATSector(bpb, 0) <= i < FirstFATSector(bpb, 0) + bpb.fatSz32 && j < ENTRIES_PER_SECTOR
      requires cnt == ENTRIES_PER_SECTOR * (i - FirstFATSector(bpb, 0)) + j && cnt < Clusters()
      requires Scanning(before, t, hint, avail, k, cnt, chain, cur)
      modifies device, this`availClusCnt
      ensures !done ==> Scanning(before, t, hint, avail, k, cnt + 1, chain', cur')
      ensures done ==>
        && |Collected(t, Clusters(), hint)| >= k && chain' == Collected(t, Clusters(), hint)[..k]
        && Valid() && Within(chain', |t|) && Wrote(before, LinkWrites(chain'))
        && freeCount == NO_HINT && availClusCnt == Some(avail - k)
    {
      hide FirstDataSector, ValidImage, Tables, WrittenAll, SamePayload, OpenWrites, Collected, Shifted, Written;
      chain', cur', done := chain, cur, false;
      var v := ReadFatEntry(i, j * 4);
      ScanReads(t, cnt, hint);
      CollectedNext(t, cnt, hint);
      if v == 0 {
        var pre := cur;
        cur' := cnt;
        TakeFound(pre, cur', before, chain);
        ShiftedFits(avail - |chain|, 1);
        chain' := chain + [cnt];
        if |chain'| == k {
          WriteEntryOf(cur', EOC_MARK, before, OpenWrites(chain'));
          CollectedIsPrefix(t, cnt + 1, Clusters(), hint);
          done := true;
        }
      }
    }

    /** The scan has found `cur`: link it to its predecessor, if there is one, and count it as taken. */
    method TakeFound(pre: nat, cur: nat, ghost before: Image, ghost chain: seq<nat>)
      requires Valid() && ValidImage(bpb, before)
      requires Within(chain, ENTRIES_PER_SECTOR * bpb.fatSz32) && Wrote(before, OpenWrites(chain))
      requires pre == if chain == [] then 0 else chain[|chain| - 1]
      requires cur < ENTRIES_PER_SECTOR * bpb.fatSz32
      modifies device, this`availClusCnt
      ensures Valid() && Wrote(before, OpenWrites(chain + [cur]))
      ensures availClusCnt == Shifted(old(availClusCnt), 0 - 1)
    {
      hide CountOfClusters, FirstDataSector, ValidImage, Tables, WrittenAll, SamePayload, OpenWrites;
      if chain == [] {
        OpenWritesShort(chain + [cur]);
      } else {
        OpenWritesMore(chain, cur);
      }
      if pre != 0 {
        WriteEntryOf(pre, cur, before, OpenWrites(chain));
      }
      DecAvailCnt(1);
    }

    /** Follows the links from `fst` to the end mark. */
    method ReadClusChains(fst: nat, ghost c: seq<nat>) returns (r: seq<nat>)
      requires Valid() && FileChain(Entries(), fst, c)
      ensures r == c
    {
      hide CountOfClusters, FirstDataSector, ValidImage, Tables, Link;
      r := [];
      if IsUsableNo(fst) {
        var cur := fst;
        while !IsEnd(cur)
          invariant |r| <= |c| && r == c[..|r|]
          invariant if |r| < |c| then cur == c[|r|] else IsEnd(cur)
          decreases |c| - |r|
        {
          r := r + [cur];
          cur := ReadEntryOf(cur);
        }
      }
    }

    /** Frees a whole chain. */
    method FreeClus(fst: nat, ghost c: seq<nat>)
      requires Valid() && FileChain(Entries(), fst, c)
      modifies device, this`availClusCnt
      ensures Valid() && Within(c, |Entries()|) && Wrote(old(device.sectors), ZeroWrites(c))
      ensures availClusCnt == Shifted(old(availClusCnt), |c|)
    {
      hide CountOfClusters, FirstDataSector, ValidImage, Tables, Link, Wrote, ZeroWrites, Written, Shifted;
      NothingWritten();
      ZeroWritesEmpty();
      ghost var before, t := device.sectors, Entries();
      if !IsUsableNo(fst) {
        ShiftedNone(availClusCnt);
        return;
      }
      var cur := fst;
      ghost var i := 0;
      ShiftedNone(availClusCnt);
      while !IsEnd(cur)
        invariant i <= |c| && (if i < |c| then cur == c[i] else IsEnd(cur))
        invariant Valid() && WritesWithin(ZeroWrites(c[..i]), |t|) && Wrote(before, ZeroWrites(c[..i]))
        invariant availClusCnt == Shifted(old(availClusCnt), i)
        decreases |c| - i
      {
        ghost var done := c[..i];
        EntryAheadUnchanged(before, c, i, ZeroWrites(done));
        var clus := cur;
        cur := ReadEntryOf(clus);
        WriteEntryOf(clus, 0, before, ZeroWrites(done));
        IncAvailCnt(1);
        ZeroWritesMore(c, i);
        ShiftedMore(old(availClusCnt), i, 1);
        i := i + 1;
      }
      assert c[..i] == c;
    }

    /** Writes to the clusters already walked do not change the link about to be read. */
    lemma EntryAheadUnchanged(before: Image, c: seq<nat>, i: nat, ws: seq<Write>)
      requires ValidBPB(bpb) && ValidImage(bpb, before) && Valid() && i < |c|
      requires IsChain(Tables(bpb, before)[0], c)
      requires WritesWithin(ws, ENTRIES_PER_SECTOR * bpb.fatSz32) && Wrote(before, ws)
      requires forall k :: 0 <= k < |ws| ==> ws[k].clus in c[..i]
      ensures c[i] < ENTRIES_PER_SECTOR * bpb.fatSz32
      ensures Link(Entries(), c[i]) == Link(Tables(bpb, before)[0], c[i])
    {
      var t := Tables(bpb, before)[0];
      ChainIsAcyclic(t, c);
      WrittenFrame(t, ws, c[i]);
    }

    /** Zeroes every sector of the given clusters. */
    method ClearClusChain(c: seq<nat>)
      requires Valid() && OnVolume(bpb, c)
      modifies device
      ensures Valid() && device.sectors == Cleared(bpb, old(device.sectors), c)
      ensures Copies() == old(Copies())
    {
      hide CountOfClusters, FirstDataSector, FirstSectorOfCluster, ValidImage, Tables, Cleared, ClearedPart;
      ghost var img := device.sectors;
      ClearedNone(bpb, img);
      var k := 0;
      while k < |c|
        invariant k <= |c| && device.sectors == Cleared(bpb, img, c[..k])
      {
        ClearedPartStart(bpb, img, c[..k], c[k]);
        var fstSec := FirstSectorOfCluster(bpb, c[k]);
        var i := fstSec;
        while i < fstSec + bpb.secPerClus
          invariant fstSec <= i <= fstSec + bpb.secPerClus
          invariant device.sectors == ClearedPart(bpb, img, c[..k], c[k], i - fstSec)
        {
          SectorOnDevice(img, c[k], i - fstSec);
          ClearedPartStep(bpb, img, c[..k], c[k], i - fstSec);
          device.sectors := device.sectors[i := Zeros(SECTOR_SIZE)];
          i := i + 1;
        }
        ClearedPartEnd(bpb, img, c[..k], c[k]);
        assert c[..k + 1] == c[..k] + [c[k]];
        k := k + 1;
      }
      assert c[..|c|] == c;
      ClearedKeepsTables(bpb, img, c);
    }

    lemma SectorOnDevice(img: Image, n: nat, s: nat)
      requires ValidBPB(bpb) && ValidImage(bpb, img) && 2 <= n < CountOfClusters(bpb) + 2 && s < bpb.secPerClus
      ensures FirstSectorOfCluster(bpb, n) + s < |img|
    {
      ClusterSectorBounds(bpb, n, s);
    }

    ghost predicate Cut(before: Image, c: seq<nat>, n: nat)
      requires ValidBPB(bpb) && ValidImage(bpb, before) && n <= |c|
      reads device
    {
      && Valid() && Within(c, ENTRIES_PER_SECTOR * bpb.fatSz32)
      && Wrote(before, ShrinkWrites(c, n))
    }

    /** The chain `c` has been extended by `d`, whose sectors have been zeroed if `clear`. */
    ghost predicate Grown(before: Image, clear: bool, c: seq<nat>, d: seq<nat>)
      requires ValidBPB(bpb) && ValidImage(bpb, before)
      reads device
    {
      && Valid() && |d| > 0 && Within(c, ENTRIES_PER_SECTOR * bpb.fatSz32)
        && Within(d, ENTRIES_PER_SECTOR * bpb.fatSz32)
      && var base := if clear then Cleared(bpb, before, d) else before;
      && ValidImage(bpb, base) && Wrote(base, GrowWrites(c, d))
    }

    /**
     * Makes the chain `c` that starts at `fst` exactly `n` clusters long; `fst'` is the first cluster
     * afterwards. The memoised count is lowered on shrinking too, as the source does.
     */
    method Resize(fst: nat, n: nat, clear: bool, ghost c: seq<nat>) returns (fst': nat, r: ResizeResult)
      requires Valid() && Reserved(Entries()) && FileChain(Entries(), fst, c)
      requires n > |c| ==> freeCount == NO_HINT || HintInReach(clear)
      modifies this, device
      ensures Valid()
      ensures n <= |c| ==>
        && r == Resized && fst' == (if n == 0 then 0 else fst) && freeCount == old(freeCount)
        && Cut(old(device.sectors), c, n)
        && availClusCnt == Shifted(old(availClusCnt), n - |c|)
      ensures n > |c| ==>
        var outcome := old(AllocOutcome(Entries(), Clusters(), freeCount, Avail(), n - |c|));
        && (outcome.NoSpace? ==>
          && r == NoRoom && fst' == fst && device.sectors == old(device.sectors)
          && freeCount == old(freeCount) && availClusCnt == Some(old(Avail())))
        && (outcome.AssertFailed? ==> r == Aborted)
        && (outcome.Got? ==>
          && r == Resized && Grown(old(device.sectors), clear, c, outcome.chain)
          && fst' == (if c == [] then outcome.chain[0] else fst)
          && freeCount == NO_HINT && availClusCnt == Some(old(Avail()) - (n - |c|)))
    {
      hide CountOfClusters, FirstDataSector, ValidImage, Tables, Wrote, Link, IsChain, Collected, GoodHint, Reserved;
      hide ShrinkWrites, GrowWrites, ShrinkProgress, Cleared, WrittenAll, LinkWrites, AllocOutcome, Grown, Cut;
      fst', r := fst, Resized;
      ghost var before := device.sectors;
      var clusCnt, pre := WalkAndCut(fst, n, c);
      WalkedAndCut(before, c, n);
      if clusCnt < n {
        fst', r := GrowBy(fst, pre, n - clusCnt, clear, c);
      } else if n == 0 {
        fst' := 0;
      }
    }

    /** The walk has cut a chain that is too long, and changed nothing about one that is too short. */
    lemma WalkedAndCut(before: Image, c: seq<nat>, n: nat)
      requires Valid() && ValidImage(bpb, before) && Within(c, ENTRIES_PER_SECTOR * bpb.fatSz32)
      requires WritesWithin(ShrinkProgress(c, n, |c|), ENTRIES_PER_SECTOR * bpb.fatSz32)
      requires Wrote(before, ShrinkProgress(c, n, |c|))
      ensures if n <= |c| then Cut(before, c, n) else device.sectors == before
    {
      hide CountOfClusters, FirstDataSector, Tables, Wrote, ShrinkWrites, ShrinkProgress;
      ShrinkProgressEnd(c, n);
      if n > |c| {
        NothingChanged(before);
      }
    }

    /** The hint has an entry in the table, and, if its cluster is to be cleared, sectors. */
    ghost predicate HintInReach(clear: bool)
      requires Valid()
      reads this, device
    {
      freeCount < |Entries()| && (clear ==> 2 <= freeCount < Clusters() + 2)
    }

    /** The growing half of `Resize`. */
    method GrowBy(fst: nat, pre: nat, k: nat, clear: bool, ghost c: seq<nat>) returns (fst': nat, r: ResizeResult)
      requires Valid() && Reserved(Entries()) && FileChain(Entries(), fst, c) && k >= 1
      requires pre == if c == [] then fst else c[|c| - 1]
      requires freeCount == NO_HINT || HintInReach(clear)
      modifies this, device
      ensures Valid()
      ensures var outcome := old(AllocOutcome(Entries(), Clusters(), freeCount, Avail(), k));
        && (outcome.NoSpace? ==>
          && r == NoRoom && fst' == fst && device.sectors == old(device.sectors)
          && freeCount == old(freeCount) && availClusCnt == Some(old(Avail())))
        && (outcome.AssertFailed? ==> r == Aborted)
        && (outcome.Got? ==>
          && r == Resized && Grown(old(device.sectors), clear, c, outcome.chain)
          && fst' == (if c == [] then outcome.chain[0] else fst)
          && freeCount == NO_HINT && availClusCnt == Some(old(Avail()) - k))
    {
      hide CountOfClusters, FirstDataSector, ValidImage, Tables, SamePayload, Link, Collected, GoodHint, Reserved;
      hide ShrinkWrites, GrowWrites, Cleared, WrittenAll, LinkWrites, AllocOutcome, Grown;
      ghost var before := device.sectors;
      if clear {
        TakenOnVolume(Entries(), freeCount, Avail(), k);
      }
      var result := AllocClus(k);
      if result.NoSpace? {
        return fst, NoRoom;
      }
      if result.AssertFailed? {
        return fst, Aborted;
      }
      var d := result.chain;
      ghost var base := before;
      if clear {
        ghost var linked := device.sectors;
        ClearClusChain(d);
        base := Cleared(bpb, before, d);
        ClearAfterLink(before, linked, d);
      }
      r := Resized;
      if !IsUsableNo(fst) {
        fst' := d[0];
      } else {
        fst' := fst;
        WriteEntryOf(pre, d[0], base, LinkWrites(d));
      }
      IsGrown(before, clear, c, d);
    }

    /** The walk of `Resize`: counts the clusters of `c` and cuts the chain after the first `n`. */
    method WalkAndCut(fst: nat, n: nat, ghost c: seq<nat>) returns (clusCnt: nat, pre: nat)
      requires Valid() && FileChain(Entries(), fst, c)
      modifies device, this`availClusCnt
      ensures Valid() && clusCnt == |c| && pre == (if c == [] then fst else c[|c| - 1])
      ensures Within(c, |Entries()|) && Wrote(old(device.sectors), ShrinkProgress(c, n, |c|))
      ensures availClusCnt == Shifted(old(availClusCnt), n - Max(|c|, n))
    {
      hide CountOfClusters, FirstDataSector, ValidImage, Tables, Link, Walking, Wrote, ShrinkProgress;
      clusCnt, pre := 0, fst;
      WalkStarts(fst, c, n);
      if IsUsableNo(fst) {
        var cur := fst;
        while !IsEnd(cur)
          invariant clusCnt <= |c| && (if clusCnt < |c| then cur == c[clusCnt] else IsEnd(cur))
          invariant pre == if clusCnt == 0 then fst else c[clusCnt - 1]
          invariant Walking(old(device.sectors), old(availClusCnt), c, n, clusCnt)
          decreases |c| - clusCnt
        {
          pre := cur;
          cur := WalkStep(pre, n, clusCnt, old(device.sectors), old(availClusCnt), c);
          clusCnt := clusCnt + 1;
        }
      }
      WalkEnds(old(device.sectors), old(availClusCnt), c, n);
    }

    ghost predicate Walking(before: Image, memo: Option<u32>, c: seq<nat>, n: nat, i: nat)
      requires ValidBPB(bpb) && ValidImage(bpb, before) && i <= |c|
      reads device, this`availClusCnt
    {
      && Valid() && WritesWithin(ShrinkProgress(c, n, i), ENTRIES_PER_SECTOR * bpb.fatSz32)
      && Wrote(before, ShrinkProgress(c, n, i))
      && availClusCnt == Shifted(memo, n - Max(i, n))
    }

    lemma WalkStarts(fst: nat, c: seq<nat>, n: nat)
      requires Valid() && FileChain(Entries(), fst, c)
      ensures Within(c, |Entries()|) && Walking(device.sectors, availClusCnt, c, n, 0)
    {
      ShrinkProgressStart(c, n);
      ShiftedNone(availClusCnt);
    }

    lemma WalkEnds(before: Image, memo: Option<u32>, c: seq<nat>, n: nat)
      requires ValidBPB(bpb) && ValidImage(bpb, before) && Walking(before, memo, c, n, |c|)
      ensures Valid() && WritesWithin(ShrinkProgress(c, n, |c|), ENTRIES_PER_SECTOR * bpb.fatSz32)
      ensures Wrote(before, ShrinkProgress(c, n, |c|)) && availClusCnt == Shifted(memo, n - Max(|c|, n))
    {
    }

    /** One step of the walk: read the link of `c[i]`, then end-mark or free it once `n` is reached. */
    method WalkStep(clus: nat, n: nat, i: nat, ghost before: Image, ghost memo: Option<u32>, ghost c: seq<nat>)
      returns (next: nat)
      requires ValidBPB(bpb) && ValidImage(bpb, before) && IsChain(Tables(bpb, before)[0], c)
      requires i < |c| && clus == c[i] && Walking(before, memo, c, n, i)
      modifies device, this`availClusCnt
      ensures Walking(before, memo, c, n, i + 1) && next == Link(Tables(bpb, before)[0], c[i])
    {
      hide CountOfClusters, FirstDataSector, ValidImage, Tables, Link, Wrote, ShrinkProgress, Shifted, IsChain;
      EntryAheadUnchanged(before, c, i, ShrinkProgress(c, n, i));
      next := ReadEntryOf(clus);
      CutHere(clus, n, i, before, memo, c);
    }

    /** What the table's and the memo's next step is, and what the memo then counts. */
    lemma CutProgress(memo: Option<u32>, c: seq<nat>, n: nat, i: nat)
      requires i < |c|
      ensures ShrinkProgress(c, n, i + 1) ==
        if i + 1 < n then ShrinkProgress(c, n, i)
        else ShrinkProgress(c, n, i) + [Write(c[i], if i + 1 == n then EOC_MARK else 0)]
      ensures var now, next := Shifted(memo, n - Max(i, n)), Shifted(memo, n - Max(i + 1, n));
        next == if i + 1 > n then Shifted(now, 0 - 1) else now
    {
      hide ShrinkProgress, Shifted;
      ShrinkProgressStep(c, n, i);
      if i + 1 > n {
        ShiftedMore(memo, n - i, 0 - 1);
      }
    }

    /** The `clus_cnt`th cluster of the walk is freed, end-marked or left alone. */
    method CutHere(clus: nat, n: nat, i: nat, ghost before: Image, ghost memo: Option<u32>, ghost c: seq<nat>)
      requires ValidBPB(bpb) && ValidImage(bpb, before) && i < |c| && Walking(before, memo, c, n, i)
      requires clus == c[i] < ENTRIES_PER_SECTOR * bpb.fatSz32
      modifies device, this`availClusCnt
      ensures Walking(before, memo, c, n, i + 1)
    {
      hide CountOfClusters, FirstDataSector, ValidImage, Tables, Wrote, ShrinkProgress, Shifted, Max, Walking;
      var clusCnt := i + 1;
      if clusCnt > n {
        FreeHere(clus, n, i, before, memo, c);
      } else if clusCnt == n {
        EndHere(clus, n, i, before, memo, c);
      } else {
        LeaveHere(n, i, before, memo, c);
      }
    }

    lemma WalkParts(before: Image, memo: Option<u32>, c: seq<nat>, n: nat, i: nat)
      requires ValidBPB(bpb) && ValidImage(bpb, before) && i <= |c| && Walking(before, memo, c, n, i)
      ensures Valid() && WritesWithin(ShrinkProgress(c, n, i), ENTRIES_PER_SECTOR * bpb.fatSz32)
      ensures Wrote(before, ShrinkProgress(c, n, i)) && availClusCnt == Shifted(memo, n - Max(i, n))
    {
    }

    lemma PartsWalk(before: Image, memo: Option<u32>, c: seq<nat>, n: nat, i: nat)
      requires ValidBPB(bpb) && ValidImage(bpb, before) && i <= |c|
      requires Valid() && WritesWithin(ShrinkProgress(c, n, i), ENTRIES_PER_SECTOR * bpb.fatSz32)
      requires Wrote(before, ShrinkProgress(c, n, i)) && availClusCnt == Shifted(memo, n - Max(i, n))
      ensures Walking(before, memo, c, n, i)
    {
    }

    method FreeHere(clus: nat, n: nat, i: nat, ghost before: Image, ghost memo: Option<u32>, ghost c: seq<nat>)
      requires ValidBPB(bpb) && ValidImage(bpb, before) && i < |c| && Walking(before, memo, c, n, i)
      requires clus == c[i] < ENTRIES_PER_SECTOR * bpb.fatSz32
      requires i >= n
      modifies device, this`availClusCnt
      ensures Walking(before, memo, c, n, i + 1)
    {
      hide *;
      WalkParts(before, memo, c, n, i);
      CutProgress(memo, c, n, i);
      WriteEntryOf(clus, 0, before, ShrinkProgress(c, n, i));
      DecAvailCnt(1);
      PartsWalk(before, memo, c, n, i + 1);
    }

    method EndHere(clus: nat, n: nat, i: nat, ghost before: Image, ghost memo: Option<u32>, ghost c: seq<nat>)
      requires ValidBPB(bpb) && ValidImage(bpb, before) && i < |c| && Walking(before, memo, c, n, i)
      requires clus == c[i] < ENTRIES_PER_SECTOR * bpb.fatSz32
      requires i + 1 == n
      modifies device
      ensures Walking(before, memo, c, n, i + 1)
    {
      hide ValidBPB, ValidImage, Tables, Wrote, Walking, WritesWithin, ShrinkProgress, Shifted, Max, Valid;
      WalkParts(before, memo, c, n, i);
      CutProgress(memo, c, n, i);
      WriteEntryOf(clus, EOC_MARK, before, ShrinkProgress(c, n, i));
      PartsWalk(before, memo, c, n, i + 1);
    }

    lemma LeaveHere(n: nat, i: nat, before: Image, memo: Option<u32>, c: seq<nat>)
      requires ValidBPB(bpb) && ValidImage(bpb, before) && i < |c| && Walking(before, memo, c, n, i)
      requires i + 1 < n
      ensures Walking(before, memo, c, n, i + 1)
    {
      hide CountOfClusters, FirstDataSector, ValidImage, Tables, Wrote, ShrinkProgress, Shifted, Max;
      CutProgress(memo, c, n, i);
    }

    lemma NothingChanged(before: Image)
      requires Valid() && ValidImage(bpb, before) && Wrote(before, [])
      ensures device.sectors == before
    {
      TablesDetermineImage(bpb, before, device.sectors);
    }

    lemma TakenOnVolume(t: seq<u32>, hint: nat, avail: nat, k: nat)
      requires ValidBPB(bpb) && Reserved(t) && Clusters() + 2 <= |t| && k >= 1
      requires hint == NO_HINT || 2 <= hint < Clusters() + 2
      ensures var r := AllocOutcome(t, Clusters(), hint, avail, k); r.Got? ==> |r.chain| == k && OnVolume(bpb, r.chain)
    {
      CollectedAreFree(t, Clusters(), hint);
    }

    /** Links written before clearing are links written on the cleared image. */
    lemma ClearAfterLink(before: Image, linked: Image, d: seq<nat>)
      requires ValidBPB(bpb) && ValidImage(bpb, before) && ValidImage(bpb, linked)
      requires |d| > 0 && Within(d, ENTRIES_PER_SECTOR * bpb.fatSz32)
      requires SamePayload(bpb, before, linked) && Tables(bpb, linked) == WrittenAll(Tables(bpb, before), LinkWrites(d))
      requires device.sectors == Cleared(bpb, linked, d)
      ensures Valid() && ValidImage(bpb, Cleared(bpb, before, d)) && Wrote(Cleared(bpb, before, d), LinkWrites(d))
    {
      hide LinkWrites, Written;
      ClearedKeepsTables(bpb, before, d);
      ClearedKeepsTables(bpb, linked, d);
    }

    lemma IsGrown(before: Image, clear: bool, c: seq<nat>, d: seq<nat>)
      requires Valid() && ValidImage(bpb, before) && |d| > 0
      requires Within(c, ENTRIES_PER_SECTOR * bpb.fatSz32) && Within(d, ENTRIES_PER_SECTOR * bpb.fatSz32)
      requires var base := if clear then Cleared(bpb, before, d) else before;
        && ValidImage(bpb, base)
        && Wrote(base, if c == [] then LinkWrites(d) else LinkWrites(d) + [Write(c[|c| - 1], d[0])])
      ensures Grown(before, clear, c, d)
    {
      assert LinkWrites(d) + [] == LinkWrites(d);
    }
  }
}
