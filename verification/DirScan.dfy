/** What the linear scans over a directory's entries find. */
module DirScan {
  import opened Base
  import opened LongName
  import opened ShortName
  import opened DirLog
  import opened ShortEntry
  import opened DirBytes

  datatype DirEntryRange = DirEntryRange(start: nat, count: nat)

  function RangeOf(x: Option<Group>): Option<DirEntryRange> {
    match x
    case None => None
    case Some(g) => Some(DirEntryRange(g.start, |g.entries|))
  }

  /** What a listing shows of a file: its entries, and its long name or else its short one. */
  datatype Listed = Listed(start: nat, count: nat, isShort: bool, name: seq<byte>)

  function ListingOf(g: Group): Listed {
    var n := |g.entries|;
    if n == 0 then Listed(g.start, 0, true, [])
    else if n == 1 then Listed(g.start, 1, true, DottedName(BasisOf(g.entries[0])))
    else Listed(g.start, n, false, JoinLong(g.entries[..n - 1]))
  }

  /** All files of a directory, in the order of their entries. */
  function Listing(log: seq<Entry>): (r: seq<Listed>)
    ensures |r| == |Groups(log, 0)|
  {
    seq(|Groups(log, 0)|, i requires 0 <= i < |Groups(log, 0)| => ListingOf(Groups(log, 0)[i]))
  }

  // ----- the scan for free entries -----

  /** `cnt` free entries end at `cur`, and no run of `n` starts before them. */
  predicate Scanned(log: seq<Entry>, n: nat, cur: nat, cnt: nat) {
    && cnt <= n && cnt <= cur <= |log| && AllEmpty(log[cur - cnt..cur])
    && (0 < cur - cnt && cnt < n ==> !IsEmpty(log[cur - cnt - 1]))
    && forall r :: 0 <= r < cur - cnt ==> !FreeRun(log, r, n)
  }

  lemma LiveBreaksRun(log: seq<Entry>, r: nat, n: nat, i: nat)
    requires r <= i < r + n && i < |log| && !IsEmpty(log[i])
    ensures !FreeRun(log, r, n)
  {
    if r + n <= |log| {
      assert log[r..r + n][i - r] == log[i];
    }
  }

  lemma ScanBegins(log: seq<Entry>, n: nat)
    ensures Scanned(log, n, 0, 0)
  {
  }

  lemma ScanOn(log: seq<Entry>, n: nat, cur: nat, cnt: nat)
    requires Scanned(log, n, cur, cnt) && cnt < n && cur < |log|
    ensures Scanned(log, n, cur + 1, if IsEmpty(log[cur]) then cnt + 1 else 0)
  {
    hide FreeRun, AllEmpty, IsEmpty;
    if IsEmpty(log[cur]) {
      FreeMore(log, cur - cnt, cur);
    } else {
      FreeMore(log, cur + 1, cur);
      forall r | 0 <= r < cur + 1 ensures !FreeRun(log, r, n) {
        if r >= cur - cnt {
          LiveBreaksRun(log, r, n, cur);
        }
      }
    }
  }

  lemma FreeMore(log: seq<Entry>, s: nat, cur: nat)
    requires s <= cur + 1 && cur < |log| && (s <= cur ==> AllEmpty(log[s..cur]) && IsEmpty(log[cur]))
    ensures AllEmpty(log[s..cur + 1])
  {
    hide IsEmpty;
    if s <= cur {
      assert log[s..cur + 1] == log[s..cur] + [log[cur]];
    }
  }

  /** Whatever the scan found, extended to `n` entries if need be, is the lowest free run. */
  lemma ScanFinds(log: seq<Entry>, n: nat, cur: nat, cnt: nat, z: seq<Entry>)
    requires Scanned(log, n, cur, cnt) && AllEmpty(z) && n > 0
    requires if cnt < n then cur == |log| && |z| >= n - cnt else z == []
    ensures FirstRun(log + z, cur - cnt, n)
  {
    hide IsEmpty;
    var all, s := log + z, cur - cnt;
    var f, found := all[s..s + n], log[s..cur];
    forall i | 0 <= i < n ensures IsEmpty(f[i]) {
      if i < cnt {
        assert f[i] == found[i];
      } else {
        assert f[i] == z[i - cnt];
      }
    }
    assert FreeRun(all, s, n);
    forall r | 0 <= r < s ensures !FreeRun(all, r, n) {
      if r + n <= |log| {
        RunAsBefore(log, z, r, n);
      } else {
        LiveBreaksRun(all, r, n, s - 1);
      }
    }
  }

  lemma RoomFound(log: seq<Entry>, grown: seq<Entry>, n: nat, cur: nat, cnt: nat)
    requires Scanned(log, n, cur, cnt) && n > 0 && |log| <= |grown|
    requires grown == log + EndEntries(|grown| - |log|)
    requires if cnt < n then cur == |log| && |log| + n - cnt <= |grown| else |grown| == |log|
    ensures FirstRun(grown, cur - cnt, n) && cur - cnt + n <= |grown|
  {
    ScanFinds(log, n, cur, cnt, EndEntries(|grown| - |log|));
  }

  lemma RunAsBefore(log: seq<Entry>, z: seq<Entry>, r: nat, n: nat)
    requires r + n <= |log|
    ensures FreeRun(log + z, r, n) <==> FreeRun(log, r, n)
  {
    assert (log + z)[r..r + n] == log[r..r + n];
  }

  ghost predicate HasRun(log: seq<Entry>, n: nat) {
    exists s: nat :: FreeRun(log, s, n)
  }

  function TrailingFree(log: seq<Entry>): (k: nat)
    ensures k <= |log|
  {
    if log == [] || !IsEmpty(log[|log| - 1]) then 0 else TrailingFree(log[..|log| - 1]) + 1
  }

  /** How many entries a directory must grow by before `n` free ones in a row can be found. */
  ghost function RoomNeeded(log: seq<Entry>, n: nat): nat {
    if HasRun(log, n) then 0 else Max(n, TrailingFree(log)) - TrailingFree(log)
  }

  lemma {:induction false} TrailingFreeIs(log: seq<Entry>, k: nat)
    requires k <= |log| && AllEmpty(log[|log| - k..]) && (k < |log| ==> !IsEmpty(log[|log| - k - 1]))
    ensures TrailingFree(log) == k
    decreases k
  {
    if k > 0 {
      assert log[|log| - k..][k - 1] == log[|log| - 1];
      var p := log[..|log| - 1];
      TrailingFreeIs(p, k - 1);
    }
  }

  lemma {:induction false} TrailingFreeLive(log: seq<Entry>)
    ensures var k := TrailingFree(log);
      && (forall i :: |log| - k <= i < |log| ==> IsEmpty(log[i]))
      && (k < |log| ==> !IsEmpty(log[|log| - k - 1]))
    decreases |log|
  {
    hide IsEmpty;
    if log != [] && IsEmpty(log[|log| - 1]) {
      TrailingFreeLive(log[..|log| - 1]);
    }
  }

  /** The needed growth is the least one that makes room for `n` entries in a row. */
  lemma RoomNeededIsLeast(log: seq<Entry>, n: nat, m: nat)
    requires n > 0
    ensures HasRun(log + EndEntries(m), n) <==> m >= RoomNeeded(log, n)
  {
    hide AllEmpty, FreeRun, HasRun, TrailingFree, IsEmpty;
    var k, grown := TrailingFree(log), log + EndEntries(m);
    TrailingFreeLive(log);
    if HasRun(log, n) {
      RunStays(log, n, m);
    } else {
      TailRun(log, n, k, m);
      if HasRun(grown, n) {
        NeedsRoom(log, n, k, m);
      }
    }
  }

  lemma RunStays(log: seq<Entry>, n: nat, m: nat)
    requires HasRun(log, n)
    ensures HasRun(log + EndEntries(m), n)
  {
    hide AllEmpty;
    var s: nat :| FreeRun(log, s, n);
    RunAsBefore(log, EndEntries(m), s, n);
  }

  lemma TailRun(log: seq<Entry>, n: nat, k: nat, m: nat)
    requires k <= |log| && forall i :: |log| - k <= i < |log| ==> IsEmpty(log[i])
    ensures k >= n ==> HasRun(log, n)
    ensures k < n <= k + m ==> HasRun(log + EndEntries(m), n)
  {
    hide IsEmpty;
    var s, grown := |log| - k, log + EndEntries(m);
    if k >= n {
      assert FreeRun(log, s, n);
    } else if n <= k + m {
      assert forall i :: |log| <= i < |grown| ==> grown[i] == EndEntries(m)[i - |log|];
      assert FreeRun(grown, s, n);
    }
  }

  lemma NeedsRoom(log: seq<Entry>, n: nat, k: nat, m: nat)
    requires k <= |log| && (k < |log| ==> !IsEmpty(log[|log| - k - 1])) && n > 0
    requires !HasRun(log, n) && HasRun(log + EndEntries(m), n)
    ensures n <= k + m
  {
    hide AllEmpty, IsEmpty, FreeRun;
    var grown := log + EndEntries(m);
    var s: nat :| FreeRun(grown, s, n);
    RunFits(grown, s, n);
    if s + n <= |log| {
      RunAsBefore(log, EndEntries(m), s, n);
    } else if s < |log| - k {
      LiveBreaksRun(grown, s, n, |log| - k - 1);
    }
  }

  lemma RunFits(log: seq<Entry>, s: nat, n: nat)
    requires FreeRun(log, s, n)
    ensures s + n <= |log|
  {
  }

  /** The scan stops short of `n` free entries only if there is no such run, and then the directory must grow. */
  lemma ScanNeeds(log: seq<Entry>, n: nat, cur: nat, cnt: nat)
    requires Scanned(log, n, cur, cnt) && n > 0 && (cnt < n ==> cur == |log|)
    ensures RoomNeeded(log, n) == n - cnt
  {
    hide AllEmpty, FreeRun, TrailingFree, HasRun;
    if cnt == n {
      RunFound(log, n, cur);
    } else {
      assert log[cur - cnt..cur] == log[|log| - cnt..];
      TrailingFreeIs(log, cnt);
      NoRun(log, n, cnt);
    }
  }

  lemma RunFound(log: seq<Entry>, n: nat, cur: nat)
    requires n <= cur <= |log| && AllEmpty(log[cur - n..cur])
    ensures HasRun(log, n)
  {
    assert FreeRun(log, cur - n, n);
  }

  lemma NoRun(log: seq<Entry>, n: nat, cnt: nat)
    requires Scanned(log, n, |log|, cnt) && cnt < n
    ensures !HasRun(log, n)
  {
    hide AllEmpty;
  }

  // ----- the scan for a name -----

  /** The `k` entries at `s` are the live long entries and the short entry of one group. */
  predicate IsGroupAt(log: seq<Entry>, s: nat, k: nat)
    requires s + k <= |log|
  {
    forall i :: s <= i < s + k ==>
      && !IsEmpty(log[i]) && (IsLong(log[i]) <==> i < s + k - 1)
      && (i < s + k - 1 ==> IsValidLong(log[i], StoredSum(log[s + k - 1])))
  }

  lemma GroupAt(log: seq<Entry>, s: nat)
    requires s < |log| && WellFormed(log[s..]) && !IsEmpty(log[s])
    ensures var k := GroupLen(log[s..]);
      && 0 < k && s + k <= |log| && ValidGroup(log[s..s + k]) && WellFormed(log[s + k..])
      && Groups(log[s..], s) == [Group(s, log[s..s + k])] + Groups(log[s + k..], s + k)
      && IsGroupAt(log, s, k)
  {
    hide WellFormed, Groups, GroupLen, StoredSum;
    var l := log[s..];
    AtGroup(l, s);
    var k := GroupLen(l);
    var g := log[s..s + k];
    assert l[..k] == g && l[k..] == log[s + k..];
    forall i | s <= i < s + k
      ensures !IsEmpty(log[i]) && (IsLong(log[i]) <==> i < s + k - 1)
      ensures i < s + k - 1 ==> IsValidLong(log[i], StoredSum(log[s + k - 1]))
    {
    }
  }

  lemma GroupSplits(log: seq<Entry>, s: nat, k: nat)
    requires k > 0 && s + k <= |log| && IsGroupAt(log, s, k)
    ensures var longs, short := log[s..s + k - 1], log[s + k - 1];
      && log[s..s + k] == longs + [short]
      && forall i :: 0 <= i < |longs| ==> IsValidLong(longs[i], StoredSum(short))
  {
  }

  lemma PassFree(log: seq<Entry>, s: nat)
    requires s < |log| && WellFormed(log[s..]) && IsEmpty(log[s])
    ensures WellFormed(log[s + 1..]) && Groups(log[s + 1..], s + 1) == Groups(log[s..], s)
    ensures IsLastEmpty(log[s]) ==> Groups(log[s..], s) == []
  {
    hide WellFormed, Groups;
    var l := log[s..];
    AtFree(l, s);
    if IsLastEmpty(log[s]) {
      FreeIsWellFormed(l[1..], s + 1);
    }
  }

  /**
   * The scan has read `cnt` entries of the group that starts at `cur - cnt`, whose names join to `read`,
   * and `name` is not before that group.
   */
  predicate Searching(log: seq<Entry>, name: Name, cur: nat, cnt: nat, read: seq<byte>) {
    && cnt <= cur <= |log|
    && var s := cur - cnt;
    && WellFormed(log[s..]) && Lookup(log, name) == FirstBearing(Groups(log[s..], s), name)
    && (cnt > 0 ==> cnt < GroupLen(log[s..]) && !IsEmpty(log[s]))
    && read == JoinLong(log[s..cur])
  }

  lemma SearchStarts(log: seq<Entry>, name: Name)
    requires WellFormed(log)
    ensures Searching(log, name, 0, 0, [])
  {
  }

  lemma SearchEnds(log: seq<Entry>, name: Name, cnt: nat, read: seq<byte>)
    requires Searching(log, name, |log|, cnt, read)
    ensures Lookup(log, name) == None
  {
  }

  lemma SearchPastFree(log: seq<Entry>, name: Name, cur: nat, cnt: nat, read: seq<byte>)
    requires Searching(log, name, cur, cnt, read) && cur < |log| && IsEmpty(log[cur])
    ensures IsLastEmpty(log[cur]) ==> Lookup(log, name) == None
    ensures Searching(log, name, cur + 1, 0, [])
  {
    hide WellFormed, Groups, GroupLen, ValidGroup, Bears;
    if cnt > 0 {
      GroupAt(log, cur - cnt);
    }
    PassFree(log, cur);
  }

  /** At a long entry the source's check of its checksum holds, and its piece is put in front. */
  lemma SearchAtLong(log: seq<Entry>, name: Name, cur: nat, cnt: nat, read: seq<byte>)
    requires Searching(log, name, cur, cnt, read) && cur < |log| && !IsEmpty(log[cur]) && IsLong(log[cur])
    ensures Searching(log, name, cur + 1, cnt + 1, UnitsFrom(log[cur], 0) + read)
    ensures IsValidLong(log[cur], ChkSumOf(log[cur - cnt]))
  {
    hide WellFormed, Groups, GroupLen, ValidGroup, Bears, StoredSum, FirstBearing, JoinLong, UnitsFrom;
    GroupAt(log, cur - cnt);
    JoinMore(log, cur - cnt, cur);
  }

  lemma JoinMore(log: seq<Entry>, s: nat, cur: nat)
    requires s <= cur < |log|
    ensures JoinLong(log[s..cur + 1]) == UnitsFrom(log[cur], 0) + JoinLong(log[s..cur])
  {
    hide UnitsFrom;
    assert log[s..cur + 1][..cur - s] == log[s..cur];
  }

  /** At a short entry the stored checksum is right, and the search ends or goes on with the next group. */
  lemma SearchAtShort(log: seq<Entry>, name: Name, cur: nat, cnt: nat, read: seq<byte>)
    requires Searching(log, name, cur, cnt, read) && cur < |log| && !IsEmpty(log[cur]) && !IsLong(log[cur])
    ensures cnt > 0 ==> StoredSum(log[cur]) == ChkSumOf(log[cur - cnt])
    ensures if (if cnt > 0 then read == name.utf16 else DottedName(BasisOf(log[cur])) == name.gbk)
      then Lookup(log, name) == Some(Group(cur - cnt, log[cur - cnt..cur + 1]))
      else Searching(log, name, cur + 1, 0, [])
  {
    hide WellFormed, Groups, GroupLen, ValidGroup, StoredSum, JoinLong, DottedName, BasisOf;
    GroupAt(log, cur - cnt);
    assert log[cur - cnt..cur + 1][..cnt] == log[cur - cnt..cur];
    JoinNothing(log, cur + 1);
  }

  lemma JoinNothing(log: seq<Entry>, i: nat)
    requires i <= |log|
    ensures JoinLong(log[i..i]) == []
  {
  }

  // ----- what the search answers in any directory -----

  datatype SearchResult = Found(range: DirEntryRange) | Absent | CheckFails

  /** The search for `name` from entry `cur` on, when the last `cnt` entries read belong to a group. */
  function SearchFrom(log: seq<Entry>, name: Name, cur: nat, cnt: nat): SearchResult
    requires cnt <= cur <= |log|
    decreases |log| - cur
  {
    if cur == |log| || IsLastEmpty(log[cur]) then Absent
    else
      var e := log[cur];
      if IsEmpty(e) then SearchFrom(log, name, cur + 1, 0)
      else if IsLong(e) then
        if IsValidLong(e, ChkSumOf(log[cur - cnt])) then SearchFrom(log, name, cur + 1, cnt + 1) else CheckFails
      else if cnt > 0 && StoredSum(e) != ChkSumOf(log[cur - cnt]) then CheckFails
      else if NameRead(log, name, cur, cnt) then Found(DirEntryRange(cur - cnt, cnt + 1))
      else SearchFrom(log, name, cur + 1, 0)
  }

  /** The short entry at `cur`, with `cnt` long ones before it, bears the name. */
  predicate NameRead(log: seq<Entry>, name: Name, cur: nat, cnt: nat)
    requires cnt <= cur < |log|
  {
    if cnt > 0 then JoinLong(log[cur - cnt..cur]) == name.utf16 else DottedName(BasisOf(log[cur])) == name.gbk
  }

  lemma SearchStep(log: seq<Entry>, name: Name, cur: nat, cnt: nat)
    requires cnt <= cur < |log|
    ensures SearchFrom(log, name, cur, cnt) ==
            var e := log[cur];
            if IsLastEmpty(e) then Absent
            else if IsEmpty(e) then SearchFrom(log, name, cur + 1, 0)
            else if IsLong(e) then
              if IsValidLong(e, ChkSumOf(log[cur - cnt])) then SearchFrom(log, name, cur + 1, cnt + 1) else CheckFails
            else if cnt > 0 && StoredSum(e) != ChkSumOf(log[cur - cnt]) then CheckFails
            else if NameRead(log, name, cur, cnt) then Found(DirEntryRange(cur - cnt, cnt + 1))
            else SearchFrom(log, name, cur + 1, 0)
  {
  }

  lemma SearchDone(log: seq<Entry>, name: Name, cnt: nat)
    requires cnt <= |log|
    ensures SearchFrom(log, name, |log|, cnt) == Absent
  {
  }

  function Search(log: seq<Entry>, name: Name): SearchResult {
    SearchFrom(log, name, 0, 0)
  }

  function ResultOf(x: Option<Group>): SearchResult {
    match RangeOf(x)
    case None => Absent
    case Some(r) => Found(r)
  }

  lemma {:induction false} SearchMeets(log: seq<Entry>, name: Name, cur: nat, cnt: nat)
    requires cnt <= cur <= |log| && Searching(log, name, cur, cnt, JoinLong(log[cur - cnt..cur]))
    ensures SearchFrom(log, name, cur, cnt) == ResultOf(Lookup(log, name))
    decreases |log| - cur
  {
    hide Searching, Lookup, JoinLong, IsValidLong, StoredSum, DottedName, BasisOf, IsEmpty, IsLong, IsLastEmpty;
    var read := JoinLong(log[cur - cnt..cur]);
    if cur == |log| {
      SearchEnds(log, name, cnt, read);
    } else {
      JoinNothing(log, cur + 1);
      if IsEmpty(log[cur]) {
        SearchPastFree(log, name, cur, cnt, read);
        LastIsFree(log[cur]);
        if !IsLastEmpty(log[cur]) {
          SearchMeets(log, name, cur + 1, 0);
        }
      } else if IsLong(log[cur]) {
        LastIsFree(log[cur]);
        SearchAtLong(log, name, cur, cnt, read);
        JoinMore(log, cur - cnt, cur);
        SearchMeets(log, name, cur + 1, cnt + 1);
      } else {
        LastIsFree(log[cur]);
        SearchAtShort(log, name, cur, cnt, read);
        if !NameRead(log, name, cur, cnt) {
          SearchMeets(log, name, cur + 1, 0);
        }
      }
    }
  }

  lemma LastIsFree(e: Entry)
    ensures IsLastEmpty(e) ==> IsEmpty(e)
  {
  }

  /** In a well-formed directory the search passes all its checks and answers what the map says. */
  lemma SearchOfWellFormed(log: seq<Entry>, name: Name)
    requires WellFormed(log)
    ensures Search(log, name) == ResultOf(Lookup(log, name))
  {
    hide WellFormed, Lookup, SearchFrom;
    SearchStarts(log, name);
    JoinNothing(log, 0);
    SearchMeets(log, name, 0, 0);
  }

  /** The entries `r` are a valid group that bears the name. */
  predicate IsGroupOf(log: seq<Entry>, r: DirEntryRange, name: Name) {
    && r.count > 0 && r.start + r.count <= |log|
    && ValidGroup(log[r.start..r.start + r.count]) && Bears(log[r.start..r.start + r.count], name)
  }

  /** Whatever the search finds, in any directory, is a valid group that bears the name. */
  lemma {:induction false} FoundIsGroup(log: seq<Entry>, name: Name, cur: nat, cnt: nat)
    requires cnt <= cur <= |log| && SearchFrom(log, name, cur, cnt).Found?
    requires forall i :: cur - cnt <= i < cur ==>
      !IsEmpty(log[i]) && IsLong(log[i]) && IsValidLong(log[i], ChkSumOf(log[cur - cnt]))
    ensures IsGroupOf(log, SearchFrom(log, name, cur, cnt).range, name)
    decreases |log| - cur
  {
    hide JoinLong, IsValidLong, StoredSum, DottedName, BasisOf, IsEmpty, IsLong, IsLastEmpty, IsGroupOf, NameRead;
    hide ValidGroup, Bears;
    var e := log[cur];
    if IsEmpty(e) {
      FoundIsGroup(log, name, cur + 1, 0);
    } else if IsLong(e) {
      FoundIsGroup(log, name, cur + 1, cnt + 1);
    } else if NameRead(log, name, cur, cnt) {
      GroupRead(log, name, cur, cnt);
    } else {
      FoundIsGroup(log, name, cur + 1, 0);
    }
  }

  lemma GroupRead(log: seq<Entry>, name: Name, cur: nat, cnt: nat)
    requires cnt <= cur < |log| && !IsEmpty(log[cur]) && !IsLong(log[cur])
    requires forall i :: cur - cnt <= i < cur ==> !IsEmpty(log[i]) && IsValidLong(log[i], ChkSumOf(log[cur - cnt]))
    requires cnt > 0 ==> StoredSum(log[cur]) == ChkSumOf(log[cur - cnt])
    ensures NameRead(log, name, cur, cnt) <==> IsGroupOf(log, DirEntryRange(cur - cnt, cnt + 1), name)
  {
    hide JoinLong, IsValidLong, StoredSum, DottedName, BasisOf, IsEmpty, IsLong;
    var g := log[cur - cnt..cur + 1];
    assert g[..cnt] == log[cur - cnt..cur];
  }

  // ----- the entries of a new file -----

  /** What a create writes: the long entries of the name, then the short entry made from it. */
  predicate IsNewGroup(g: seq<Entry>, utf16: seq<byte>, stem: seq<byte>, isDir: bool, stamp: seq<byte>)
    requires |utf16| > 0 && Even(|utf16|) && |stamp| == 5
  {
    && |g| > 0 && HoldsName(g[..|g| - 1], Sum(BytesOf(BasisFromLong(stem))), utf16)
    && IsNewShort(g[|g| - 1], BasisFromLong(stem), isDir, stamp)
  }

  /**
   * The bytes of these entries. In the last one stands the short name made from the stem, which `MadeNameBytes` spells
   * out, with attributes and times; before it the pieces of the long name, the last one first, each with the checksum
   * of that short name.
   */
  lemma NewGroupBytes(g: seq<Entry>, utf16: seq<byte>, stem: seq<byte>, isDir: bool, stamp: seq<byte>, j: nat)
    requires |utf16| > 0 && Even(|utf16|) && |stamp| == 5 && IsNewGroup(g, utf16, stem, isDir, stamp)
    requires j < |g| - 1
    ensures 26 * (|g| - 2) < |utf16| <= 26 * (|g| - 1)
    ensures g[|g| - 1] == BytesOf(BasisFromLong(stem)) + [if isDir then 0x10 else 0x00, 0x00] + stamp + stamp[3..5] +
                          [0x00, 0x00] + stamp[1..5] + Zeros(6)
    ensures PieceOf(g[j]) == Padded(utf16)[26 * (|g| - 2 - j)..26 * (|g| - 1 - j)]
    ensures g[j][0] % 0x40 == (|g| - 1 - j) % 0x40 && g[j][13] == Sum(BytesOf(BasisFromLong(stem)))
  {
    hide HoldsName, IsNewShort, BasisFromLong, Sum, PieceOf, Padded;
    var ls := g[..|g| - 1];
    NewShortLayout(g[|g| - 1], BasisFromLong(stem), isDir, stamp);
    NameLayout(ls, Sum(BytesOf(BasisFromLong(stem))), utf16, j);
    assert |ls| == LongEntryCount(utf16) by { LongsAreCounted(ls, Sum(BytesOf(BasisFromLong(stem))), utf16); }
  }

  lemma LongsAreCounted(ls: seq<Entry>, chkSum: byte, utf16: seq<byte>)
    requires |utf16| > 0 && Even(|utf16|) && HoldsName(ls, chkSum, utf16)
    ensures |ls| == LongEntryCount(utf16)
  {
  }

  predicate LongAt(cur: seq<Entry>, s: nat, n: nat, j: nat, chkSum: byte, name: seq<byte>)
    requires Even(|name|) && j < n - 1 && s + j < |cur|
  {
    IsLongEntryFor(cur[s + j], j == 0, n - 1 - j, chkSum, name, NAME_BYTES * (n - 2 - j))
  }

  /** The long entries with orders below `ord` have been written, counting down from the place of the short entry. */
  predicate LongsWritten(log: seq<Entry>, cur: seq<Entry>, s: nat, n: nat, ord: nat, chkSum: byte, name: seq<byte>)
    requires Even(|name|)
  {
    && |cur| == |log| && s + n <= |log| && 1 <= ord <= n
    && (forall i :: 0 <= i < |log| && !(s + n - ord <= i < s + n - 1) ==> cur[i] == log[i])
    && forall j :: n - ord <= j < n - 1 ==> LongAt(cur, s, n, j, chkSum, name)
  }

  lemma LongsBegin(log: seq<Entry>, s: nat, n: nat, chkSum: byte, name: seq<byte>)
    requires Even(|name|) && s + n <= |log| && n > 0
    ensures LongsWritten(log, log, s, n, 1, chkSum, name)
  {
  }

  lemma LongsMore(log: seq<Entry>, cur: seq<Entry>, s: nat, n: nat, ord: nat, chkSum: byte, name: seq<byte>, e: Entry)
    requires Even(|name|) && ord < n && LongsWritten(log, cur, s, n, ord, chkSum, name)
    requires IsLongEntryFor(e, ord == n - 1, ord, chkSum, name, NAME_BYTES * (ord - 1))
    ensures LongsWritten(log, cur[s + n - ord - 1 := e], s, n, ord + 1, chkSum, name)
  {
    hide IsLongEntryFor;
    var next := cur[s + n - ord - 1 := e];
    forall j | n - ord - 1 <= j < n - 1 ensures LongAt(next, s, n, j, chkSum, name) {
      if j != n - ord - 1 {
        assert LongAt(cur, s, n, j, chkSum, name);
      }
    }
  }

  lemma GroupWritten(log: seq<Entry>, cur: seq<Entry>, s: nat, utf16: seq<byte>, stem: seq<byte>, isDir: bool,
                     stamp: seq<byte>, e: Entry)
    requires |utf16| > 0 && Even(|utf16|) && |stamp| == 5 && IsNewShort(e, BasisFromLong(stem), isDir, stamp)
    requires var n := LongEntryCount(utf16) + 1;
      LongsWritten(log, cur, s, n, n, Sum(BytesOf(BasisFromLong(stem))), utf16)
    ensures var n := LongEntryCount(utf16) + 1;
      && s + n <= |log| == |cur|
      && var after := cur[s + n - 1 := e];
      after == Inserted(log, s, after[s..s + n]) && IsNewGroup(after[s..s + n], utf16, stem, isDir, stamp)
  {
    hide IsLongEntryFor, BasisFromLong, Sum, IsNewShort, LongEntryCount;
    var n, chkSum := LongEntryCount(utf16) + 1, Sum(BytesOf(BasisFromLong(stem)));
    var after := cur[s + n - 1 := e];
    var g := after[s..s + n];
    var ls := g[..n - 1];
    forall j | 0 <= j < |ls|
      ensures IsLongEntryFor(ls[j], j == 0, |ls| - j, chkSum, utf16, NAME_BYTES * (|ls| - j - 1))
    {
      assert LongAt(cur, s, n, j, chkSum, utf16);
    }
  }

  /**
   * The entries `g` of a new file lie in the lowest place with room for them in the directory, extended by
   * free entries.
   */
  predicate CreatedAt(log: seq<Entry>, log': seq<Entry>, range: DirEntryRange, utf16: seq<byte>, stem: seq<byte>,
                      isDir: bool, stamp: seq<byte>)
    requires |utf16| > 0 && Even(|utf16|) && |stamp| == 5
  {
    var s, n := range.start, range.count;
    && s + n <= |log'| && |log| <= |log'|
    && var g, grown := log'[s..s + n], log + EndEntries(|log'| - |log|);
    && IsNewGroup(g, utf16, stem, isDir, stamp) && FirstRun(grown, s, n) && log' == Inserted(grown, s, g)
  }

  /** Around the new entries each one is as it was, or an added terminator; they lie where the directory was free. */
  lemma CreatedFrame(log: seq<Entry>, log': seq<Entry>, range: DirEntryRange, utf16: seq<byte>, stem: seq<byte>,
                     isDir: bool, stamp: seq<byte>, i: nat)
    requires |utf16| > 0 && Even(|utf16|) && |stamp| == 5 && i < |log'|
    requires CreatedAt(log, log', range, utf16, stem, isDir, stamp)
    ensures |log| <= |log'|
    ensures if range.start <= i < range.start + range.count then i < |log| ==> log[i][0] in {0x00, 0xE5}
      else log'[i] == if i < |log| then log[i] else Zeros(32)
  {
    hide IsNewGroup, IsEmpty;
    var grown := log + EndEntries(|log'| - |log|);
    RunIsEmpty(grown, range.start, range.count);
    EntryKinds(grown[i]);
    assert i < |log| ==> grown[i] == log[i];
    assert range.start <= i < range.start + range.count ==> IsEmpty(grown[i]);
  }

  lemma RunIsEmpty(log: seq<Entry>, s: nat, n: nat)
    requires FreeRun(log, s, n)
    ensures s + n <= |log| && forall i :: s <= i < s + n ==> IsEmpty(log[i])
  {
    assert forall i :: s <= i < s + n ==> log[i] == log[s..s + n][i - s];
  }

  /** A name whose short form is stored and read back so that the checksums of its entries agree. */
  predicate ShortFits(stem: seq<byte>) {
    var b := BasisFromLong(stem);
    b.primary[0] != 0xE5 && Sum(BytesOf(BasisFromShort(DottedName(b)))) == Sum(BytesOf(b))
  }

  /** What a caller can check of a name before creating it. */
  predicate Creatable(utf16: seq<byte>, stem: seq<byte>)
    requires |utf16| > 0 && Even(|utf16|)
  {
    OrdersFit(LongEntryCount(utf16)) && ShortFits(stem)
  }

  /**
   * The entries of a new file form one valid group exactly if their orders look live, the short entry
   * looks live, and the checksum computed from the short name is the one stored.
   */
  lemma NewGroupValidIff(g: seq<Entry>, utf16: seq<byte>, stem: seq<byte>, isDir: bool, stamp: seq<byte>)
    requires |utf16| > 0 && Even(|utf16|) && |stamp| == 5 && IsNewGroup(g, utf16, stem, isDir, stamp)
    ensures ValidGroup(g) <==> Creatable(utf16, stem)
  {
    hide OrdersFit, BasisFromLong, BasisFromShort, DottedName, Sum, HoldsName, IsNewShort, StoredSum, LongEntryCount;
    var n, b := |g| - 1, BasisFromLong(stem);
    var ls, short := g[..n], g[n];
    NewShortReads(short, stem, isDir, stamp);
    NewLongsRead(ls, Sum(BytesOf(b)), utf16);
    LongEntriesLiveIff(ls, Sum(BytesOf(b)), utf16);
    if ValidGroup(g) {
      assert IsValidLong(g[0], StoredSum(short));
    }
  }

  lemma NewShortReads(e: Entry, stem: seq<byte>, isDir: bool, stamp: seq<byte>)
    requires |stamp| == 5 && IsNewShort(e, BasisFromLong(stem), isDir, stamp)
    ensures var b := BasisFromLong(stem);
      && BasisOf(e) == b && !IsLong(e) && (IsEmpty(e) <==> b.primary[0] == 0xE5)
      && StoredSum(e) == Sum(BytesOf(BasisFromShort(DottedName(b))))
  {
  }

  lemma NewLongsRead(ls: seq<Entry>, chkSum: byte, utf16: seq<byte>)
    requires |utf16| > 0 && Even(|utf16|) && HoldsName(ls, chkSum, utf16)
    ensures |ls| == LongEntryCount(utf16) > 0
    ensures forall i :: 0 <= i < |ls| ==> IsLong(ls[i]) && IsValidLong(ls[i], chkSum) && ChkSumOf(ls[i]) == chkSum
  {
  }

  lemma NewGroupShape(g: seq<Entry>, utf16: seq<byte>, stem: seq<byte>, isDir: bool, stamp: seq<byte>)
    requires |utf16| > 0 && Even(|utf16|) && |stamp| == 5 && IsNewGroup(g, utf16, stem, isDir, stamp)
    ensures |g| > 1 && forall i :: 0 <= i < |g| ==> (IsLong(g[i]) <==> i < |g| - 1)
  {
    hide BasisFromLong, BasisFromShort, DottedName, Sum, HoldsName, IsNewShort, IsLong;
    NewShortReads(g[|g| - 1], stem, isDir, stamp);
    NewLongsRead(g[..|g| - 1], Sum(BytesOf(BasisFromLong(stem))), utf16);
    forall i | 0 <= i < |g| - 1 ensures IsLong(g[i]) {
      assert g[i] == g[..|g| - 1][i];
    }
  }

  /** A new group answers to its long name exactly if no unit of the name reads as its end. */
  lemma NewGroupBearsIff(g: seq<Entry>, utf16: seq<byte>, stem: seq<byte>, isDir: bool, stamp: seq<byte>,
                         gbk: seq<byte>)
    requires |utf16| > 0 && Even(|utf16|) && |stamp| == 5 && IsNewGroup(g, utf16, stem, isDir, stamp)
    ensures Bears(g, Name(utf16, gbk)) <==> NoTerminator(utf16)
  {
    hide NoTerminator, JoinLong;
    LongNameRoundTripIff(g[..|g| - 1], Sum(BytesOf(BasisFromLong(stem))), utf16);
  }

  /**
   * Names whose short form has no inner space and no leading 0x05 or 0xE5 can be created, up to 228 entries
   * but not 165.
   */
  lemma CreatableIfPlain(utf16: seq<byte>, stem: seq<byte>)
    requires |utf16| > 0 && Even(|utf16|) && OrdersFit(LongEntryCount(utf16))
    requires var b := BasisFromLong(stem);
      SpacesTrail(b.primary) && SpacesTrail(b.extension) && b.primary[0] != 0x05 && b.primary[0] != 0xE5
    ensures Creatable(utf16, stem)
  {
    MadeNameRoundTripIff(stem);
  }
}
