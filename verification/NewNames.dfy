/** Which names can be created: what the directory is then, and what a lookup of the new name answers. */
module NewNames {
  import opened Base
  import opened LongName
  import opened ShortName
  import opened ShortEntry
  import opened DirLog
  import opened DirBytes
  import opened DirScan

  /** The parts around the entries of a new file. */
  lemma CreatedParts(log: seq<Entry>, log': seq<Entry>, range: DirEntryRange, utf16: seq<byte>, stem: seq<byte>,
                     isDir: bool, stamp: seq<byte>)
    requires |utf16| > 0 && Even(|utf16|) && |stamp| == 5 && WellFormed(log)
    requires CreatedAt(log, log', range, utf16, stem, isDir, stamp)
    ensures var s, n := range.start, range.count;
      && n > 1 && s + n <= |log'| && IsNewGroup(log'[s..s + n], utf16, stem, isDir, stamp)
      && WellFormed(log'[..s]) && NoEnd(log'[..s]) && WellFormed(log'[s + n..])
      && log' == log'[..s] + (log'[s..s + n] + log'[s + n..])
  {
    hide WellFormed, Groups, IsNewGroup, NoEnd, FirstRun, Inserted, AllEmpty;
    var s, n := range.start, range.count;
    var z, g := EndEntries(|log'| - |log|), log'[s..s + n];
    CreatedSize(log, log', range, utf16, stem, isDir, stamp);
    GrowthKeepsGroups(log, z, 0);
    RunSplits(log + z, s, n);
    InsertedParts(log + z, s, g);
    ThreeParts(log', s, n);
  }

  /** Long entries and the short one behind them, the first of which is live. */
  predicate IsRow(h: seq<Entry>) {
    |h| > 0 && !IsEmpty(h[0]) && forall i :: 0 <= i < |h| ==> (IsLong(h[i]) <==> i < |h| - 1)
  }

  lemma {:induction false} RowLen(h: seq<Entry>, b: seq<Entry>)
    requires |h| > 0 && forall i :: 0 <= i < |h| ==> (IsLong(h[i]) <==> i < |h| - 1)
    ensures GroupLen(h + b) == if forall i :: 0 <= i < |h| ==> !IsEmpty(h[i]) then |h| else 0
  {
    hide IsEmpty, IsLong;
    assert (h + b)[0] == h[0];
    if |h| > 1 && !IsEmpty(h[0]) {
      assert (h + b)[1..] == h[1..] + b;
      RowLen(h[1..], b);
      assert forall i :: 0 < i < |h| ==> h[i] == h[1..][i - 1];
    }
  }

  /** Such a row does no harm exactly if it is a valid group. */
  lemma RowFitsIff(h: seq<Entry>, b: seq<Entry>)
    requires IsRow(h) && WellFormed(b)
    ensures WellFormed(h + b) <==> ValidGroup(h)
  {
    hide WellFormed, GroupLen, IsEmpty, IsLong, Groups, IsValidLong, StoredSum;
    RowLen(h, b);
    assert (h + b)[0] == h[0] && (h + b)[..|h|] == h && (h + b)[|h|..] == b;
    AtGroup(h + b, 0);
  }

  /** Which of the stored orders of a name read as free entries. */
  lemma NewOrders(ls: seq<Entry>, chkSum: byte, utf16: seq<byte>)
    requires |utf16| > 0 && Even(|utf16|) && HoldsName(ls, chkSum, utf16)
    ensures |ls| > 0 && (IsEmpty(ls[0]) ==> !IsLastEmpty(ls[0]) && |ls| > 1 && !IsEmpty(ls[1]))
    ensures (forall j :: 1 <= j < |ls| ==> !IsEmpty(ls[j])) <==> |ls| <= 229
  {
    forall j | 0 <= j < |ls|
      ensures IsEmpty(ls[j]) <==>
        var o := (|ls| - j) % 0x100; (o == 0 && j != 0) || o == 0xE5 || (j == 0 && o == 0xA5)
      ensures j == 0 ==> !IsLastEmpty(ls[j])
    {
      OrderLiveIff(j == 0, |ls| - j);
    }
    if |ls| > 229 {
      assert (|ls| - (|ls| - 229)) % 0x100 == 0xE5;
      assert IsEmpty(ls[|ls| - 229]);
    }
  }

  /**
   * The directory stays well formed after a create exactly if the short name fits and the name has at most
   * 229 long entries. Of those, names of 165 and 229 lose their first entry, and answer to a shorter name.
   */
  lemma CreatedWellFormedIff(log: seq<Entry>, log': seq<Entry>, range: DirEntryRange, utf16: seq<byte>,
                             stem: seq<byte>, isDir: bool, stamp: seq<byte>)
    requires |utf16| > 0 && Even(|utf16|) && |stamp| == 5 && WellFormed(log)
    requires CreatedAt(log, log', range, utf16, stem, isDir, stamp)
    ensures WellFormed(log') <==> LongEntryCount(utf16) <= 229 && ShortFits(stem)
  {
    hide WellFormed, Groups, IsNewGroup, NoEnd, ValidGroup, ShortFits, LongEntryCount, CreatedAt;
    CreatedParts(log, log', range, utf16, stem, isDir, stamp);
    var s, n := range.start, range.count;
    var a, g, b := log'[..s], log'[s..s + n], log'[s + n..];
    NewGroupShape(g, utf16, stem, isDir, stamp);
    Concat(a, g + b, 0);
    NewRow(g, utf16, stem, isDir, stamp);
    assert (g + b)[0] == g[0];
    if IsEmpty(g[0]) {
      AtFree(g + b, 0);
      assert (g + b)[1..] == g[1..] + b;
      RowFitsIff(g[1..], b);
    } else {
      RowFitsIff(g, b);
    }
  }

  lemma NewRow(g: seq<Entry>, utf16: seq<byte>, stem: seq<byte>, isDir: bool, stamp: seq<byte>)
    requires |utf16| > 0 && Even(|utf16|) && |stamp| == 5 && IsNewGroup(g, utf16, stem, isDir, stamp)
    ensures |g| > 1 && (IsEmpty(g[0]) ==> !IsLastEmpty(g[0]))
    ensures var h := if IsEmpty(g[0]) then g[1..] else g;
      IsRow(h) && (ValidGroup(h) <==> LongEntryCount(utf16) <= 229 && ShortFits(stem))
  {
    hide BasisFromLong, BasisFromShort, DottedName, Sum, HoldsName, IsNewShort, StoredSum, LongEntryCount;
    hide IsEmpty, IsLong, IsLastEmpty;
    var n, chkSum := |g| - 1, Sum(BytesOf(BasisFromLong(stem)));
    var ls, short := g[..n], g[n];
    NewGroupShape(g, utf16, stem, isDir, stamp);
    NewShortReads(short, stem, isDir, stamp);
    NewLongsRead(ls, chkSum, utf16);
    NewOrders(ls, chkSum, utf16);
    var k := if IsEmpty(g[0]) then 1 else 0;
    var h := g[k..];
    assert g[0] == ls[0] && (n > 1 ==> g[1] == ls[1]);
    assert IsRow(h);
    assert forall i :: 0 <= i < n - k ==> h[i] == ls[i + k];
    assert h[|h| - 1] == short;
    if ValidGroup(h) {
      forall j | 1 <= j < n ensures !IsEmpty(ls[j]) {
        assert ls[j] == h[j - k];
      }
      assert IsValidLong(h[0], StoredSum(short));
    }
  }

  // ----- what a lookup of the new name answers -----

  /** No group is left open at the end. */
  predicate Closed(a: seq<Entry>) {
    a == [] || IsEmpty(a[|a| - 1]) || !IsLong(a[|a| - 1])
  }

  lemma {:induction false} WellFormedIsClosed(a: seq<Entry>)
    requires WellFormed(a) && NoEnd(a)
    ensures Closed(a)
    decreases |a|
  {
    hide WellFormed, IsEmpty, IsLong, IsLastEmpty, GroupLen, IsValidLong, Groups;
    if a != [] {
      var k := 1;
      if IsEmpty(a[0]) {
        AtFree(a, 0);
      } else {
        AtGroup(a, 0);
        k := GroupLen(a);
        LastOfGroup(a[..k]);
      }
      WellFormedIsClosed(a[k..]);
      assert k < |a| ==> a[|a| - 1] == a[k..][|a| - k - 1];
      assert k == |a| ==> a[..k] == a;
    }
  }

  lemma LastOfGroup(g: seq<Entry>)
    requires ValidGroup(g)
    ensures Closed(g) && |g| > 0
  {
  }

  /** A search that finds nothing in the front part of a directory goes on behind it. */
  lemma {:induction false} SearchSkips(a: seq<Entry>, rest: seq<Entry>, name: Name, cur: nat, cnt: nat)
    requires Closed(a) && NoEnd(a) && cnt <= cur <= |a| && SearchFrom(a, name, cur, cnt) == Absent
    requires cnt > 0 ==> !IsEmpty(a[cur - 1]) && IsLong(a[cur - 1])
    ensures SearchFrom(a + rest, name, cur, cnt) == SearchFrom(a + rest, name, |a|, 0)
    decreases |a| - cur
  {
    hide IsEmpty, IsLong, IsLastEmpty, IsValidLong, StoredSum, JoinLong, DottedName, BasisOf;
    var all := a + rest;
    if cur < |a| {
      assert all[cur] == a[cur] && all[cur - cnt] == a[cur - cnt] && all[cur - cnt..cur] == a[cur - cnt..cur];
      if IsEmpty(a[cur]) {
        SearchSkips(a, rest, name, cur + 1, 0);
      } else if IsLong(a[cur]) {
        SearchSkips(a, rest, name, cur + 1, cnt + 1);
      } else {
        SearchSkips(a, rest, name, cur + 1, 0);
      }
    }
  }

  lemma SameSlice(x: seq<Entry>, y: seq<Entry>, lo: nat, i: nat, j: nat)
    requires |x| == |y| && lo <= i <= j <= |x| && x[lo..] == y[lo..]
    ensures x[i..j] == y[i..j]
  {
    forall k | lo <= k < |x| ensures x[k] == y[k] {
      assert x[k] == x[lo..][k - lo] == y[lo..][k - lo];
    }
  }

  /** What a search answers depends only on the entries it still has to read. */
  lemma {:induction false} SearchAgrees(x: seq<Entry>, y: seq<Entry>, name: Name, lo: nat, cur: nat, cnt: nat)
    requires |x| == |y| && cnt <= cur <= |x| && lo + cnt <= cur && x[lo..] == y[lo..]
    ensures SearchFrom(x, name, cur, cnt) == SearchFrom(y, name, cur, cnt)
    decreases |x| - cur
  {
    hide IsEmpty, IsLong, IsLastEmpty, IsValidLong, StoredSum, JoinLong, DottedName, BasisOf;
    if cur < |x| {
      SameSlice(x, y, lo, cur - cnt, cur);
      SameSlice(x, y, lo, cur - cnt, cur + 1);
      assert x[cur] == x[cur - cnt..cur + 1][cnt] && x[cur - cnt] == x[cur - cnt..cur + 1][0];
      SearchAgrees(x, y, name, lo, cur + 1, 0);
      if !IsEmpty(x[cur]) && IsLong(x[cur]) {
        SearchAgrees(x, y, name, lo, cur + 1, cnt + 1);
      }
    }
  }

  lemma {:induction false} SearchPastRun(log: seq<Entry>, name: Name, s: nat, n: nat)
    requires s + n <= |log| && AllEmpty(log[s..s + n]) && NoEnd(log[s..s + n])
    ensures SearchFrom(log, name, s, 0) == SearchFrom(log, name, s + n, 0)
    decreases n
  {
    hide IsEmpty, IsLong, IsLastEmpty, IsValidLong, StoredSum;
    if n > 0 {
      assert log[s] == log[s..s + n][0] && log[s + 1..s + n] == log[s..s + n][1..];
      SearchPastRun(log, name, s + 1, n - 1);
    }
  }

  lemma {:induction false} NothingInFree(log: seq<Entry>, name: Name, s: nat)
    requires s <= |log| && AllEmpty(log[s..])
    ensures SearchFrom(log, name, s, 0) == Absent
    decreases |log| - s
  {
    hide IsEmpty, IsLong, IsLastEmpty, IsValidLong, StoredSum;
    if s < |log| {
      assert log[s] == log[s..][0] && log[s + 1..] == log[s..][1..];
      NothingInFree(log, name, s + 1);
    }
  }

  /** A search for an absent name passes the front part of a directory, whatever lies behind. */
  lemma FrontPassed(a: seq<Entry>, b: seq<Entry>, rest: seq<Entry>, name: Name)
    requires WellFormed(a) && NoEnd(a) && WellFormed(a + b) && Lookup(a + b, name) == None
    ensures Search(a + rest, name) == SearchFrom(a + rest, name, |a|, 0)
  {
    hide WellFormed, Groups, SearchFrom, NoEnd, Closed, FirstBearing;
    Concat(a, b, 0);
    FirstBearingConcat(Groups(a, 0), Groups(b, |a|), name);
    SearchOfWellFormed(a, name);
    WellFormedIsClosed(a);
    SearchSkips(a, rest, name, 0, 0);
  }

  /** Behind a free run that a search for an absent name has reached, it finds nothing. */
  lemma NothingBehind(log: seq<Entry>, log': seq<Entry>, name: Name, s: nat, n: nat)
    requires |log'| == |log| && s + n <= |log| && log'[s + n..] == log[s + n..]
    requires AllEmpty(log[s..s + n]) && SearchFrom(log, name, s, 0) == Absent
    requires NoEnd(log[s..s + n]) || AllEmpty(log[s + n..])
    ensures SearchFrom(log', name, s + n, 0) == Absent
  {
    hide SearchFrom, AllEmpty, NoEnd;
    if NoEnd(log[s..s + n]) {
      SearchPastRun(log, name, s, n);
      SearchAgrees(log, log', name, s + n, s + n, 0);
    } else {
      NothingInFree(log', name, s + n);
    }
  }

  /** Around the new entries, a search for a name that was absent finds nothing. */
  lemma NothingAround(log: seq<Entry>, log': seq<Entry>, range: DirEntryRange, name: Name, stem: seq<byte>,
                      isDir: bool, stamp: seq<byte>)
    requires |name.utf16| > 0 && Even(|name.utf16|) && |stamp| == 5
    requires WellFormed(log) && Lookup(log, name) == None
    requires CreatedAt(log, log', range, name.utf16, stem, isDir, stamp)
    ensures range.start + range.count <= |log'| && Search(log', name) == SearchFrom(log', name, range.start, 0)
    ensures SearchFrom(log', name, range.start + range.count, 0) == Absent
  {
    hide WellFormed, IsNewGroup, NoEnd, AllEmpty, Lookup, SearchFrom, FirstRun, Inserted;
    var s, n := range.start, range.count;
    var z, g := EndEntries(|log'| - |log|), log'[s..s + n];
    CreatedSize(log, log', range, name.utf16, stem, isDir, stamp);
    GrownLookup(log, z, name);
    NothingAroundRun(log + z, s, g, name);
  }

  lemma NothingAroundRun(log: seq<Entry>, s: nat, g: seq<Entry>, name: Name)
    requires WellFormed(log) && Lookup(log, name) == None && FirstRun(log, s, |g|) && |g| > 0 && s + |g| <= |log|
    ensures var log' := Inserted(log, s, g);
      && |log'| == |log| && Search(log', name) == SearchFrom(log', name, s, 0)
      && SearchFrom(log', name, s + |g|, 0) == Absent
  {
    hide WellFormed, NoEnd, AllEmpty, Lookup, SearchFrom, Inserted;
    var n, log' := |g|, Inserted(log, s, g);
    RunSplits(log, s, n);
    InsertedParts(log, s, g);
    ThreeParts(log', s, n);
    var a, f, b := log[..s], log[s..s + n], log[s + n..];
    SearchOfWellFormed(log, name);
    FrontPassed(a, f + b, f + b, name);
    FrontPassed(a, f + b, g + b, name);
    RunIsFree(log, s, n);
    NothingBehind(log, log', name, s, n);
  }

  lemma RunIsFree(log: seq<Entry>, s: nat, n: nat)
    requires FirstRun(log, s, n) && s + n <= |log|
    ensures AllEmpty(log[s..s + n])
  {
  }

  lemma CreatedSize(log: seq<Entry>, log': seq<Entry>, range: DirEntryRange, utf16: seq<byte>, stem: seq<byte>,
                    isDir: bool, stamp: seq<byte>)
    requires |utf16| > 0 && Even(|utf16|) && |stamp| == 5 && CreatedAt(log, log', range, utf16, stem, isDir, stamp)
    ensures 1 < range.count && range.start + range.count <= |log'| && |log| <= |log'|
    ensures AllEmpty(EndEntries(|log'| - |log|))
  {
    hide IsNewGroup, FirstRun, Inserted;
    NewGroupShape(log'[range.start..range.start + range.count], utf16, stem, isDir, stamp);
  }

  lemma GrownLookup(log: seq<Entry>, z: seq<Entry>, name: Name)
    requires WellFormed(log) && AllEmpty(z)
    ensures WellFormed(log + z) && Lookup(log + z, name) == Lookup(log, name)
  {
    hide WellFormed, Groups;
    GrowthKeepsGroups(log, z, 0);
  }

  /** The last `c` long entries before the short one at `p` are read as its group, and their names join to `name`. */
  predicate ReadAs(log: seq<Entry>, p: nat, c: nat, name: Name)
    requires c <= p < |log|
  {
    && !IsEmpty(log[p]) && StoredSum(log[p]) == ChkSumOf(log[p - c]) && NameRead(log, name, p, c)
    && forall i :: p - c <= i < p ==> !IsEmpty(log[i]) && IsValidLong(log[i], ChkSumOf(log[p - c]))
  }

  /**
   * Entries none of whose ends is read as the name fail a check, or one of them ends the directory, or the
   * search goes on behind them.
   */
  lemma {:induction false} RowNotFound(log: seq<Entry>, name: Name, s: nat, p: nat, cur: nat, cnt: nat)
    requires s + cnt <= cur <= p < |log| && !IsLong(log[p])
    requires forall i :: s <= i < p ==> IsLong(log[i])
    requires s < p && !IsEmpty(log[p - 1]) && !IsLastEmpty(log[p])
    requires forall i :: cur - cnt <= i < cur ==> !IsEmpty(log[i]) && IsValidLong(log[i], ChkSumOf(log[cur - cnt]))
    requires cur == p ==> cnt > 0
    requires forall c :: 1 <= c <= p - s ==> !ReadAs(log, p, c, name)
    ensures SearchFrom(log, name, cur, cnt) in {CheckFails, Absent, SearchFrom(log, name, p + 1, 0)}
    decreases p - cur
  {
    hide IsEmpty, IsLong, IsLastEmpty, IsValidLong, StoredSum, NameRead;
    if cur < p {
      if IsEmpty(log[cur]) {
        RowNotFound(log, name, s, p, cur + 1, 0);
      } else if IsValidLong(log[cur], ChkSumOf(log[cur - cnt])) {
        RowNotFound(log, name, s, p, cur + 1, cnt + 1);
      }
    } else {
      assert !ReadAs(log, p, cnt, name);
    }
  }

  /** Some of the last entries of a name do not join to all of it. */
  lemma {:induction false} PiecesAreShort(es: seq<Entry>)
    ensures |JoinLong(es)| <= NAME_BYTES * |es|
  {
    if es != [] {
      PiecesAreShort(es[..|es| - 1]);
      UnitsAreShort(es[|es| - 1], 0);
    }
  }

  /** Only a new group whose name can be created and has no terminator is read as its name, or any end of it. */
  lemma NewGroupReadAs(log: seq<Entry>, s: nat, p: nat, name: Name, stem: seq<byte>, isDir: bool, stamp: seq<byte>)
    requires |name.utf16| > 0 && Even(|name.utf16|) && |stamp| == 5 && s < p < |log|
    requires IsNewGroup(log[s..p + 1], name.utf16, stem, isDir, stamp)
    ensures forall c :: 1 <= c <= p - s && ReadAs(log, p, c, name) ==>
      Creatable(name.utf16, stem) && NoTerminator(name.utf16)
  {
    hide IsNewGroup, Creatable, NoTerminator, IsEmpty, IsLong, IsValidLong, StoredSum, JoinLong, ValidGroup, Bears;
    var g, n := log[s..p + 1], p + 1 - s;
    NewGroupShape(g, name.utf16, stem, isDir, stamp);
    NewGroupCount(g, name.utf16, stem, isDir, stamp);
    forall c | 1 <= c <= p - s && ReadAs(log, p, c, name)
      ensures Creatable(name.utf16, stem) && NoTerminator(name.utf16)
    {
      PiecesAreShort(log[p - c..p]);
      assert c == n - 1;
      assert log[p] == g[n - 1];
      GroupRead(log, name, p, c);
      NewGroupValidIff(g, name.utf16, stem, isDir, stamp);
      NewGroupBearsIff(g, name.utf16, stem, isDir, stamp, name.gbk);
    }
  }

  lemma NewGroupCount(g: seq<Entry>, utf16: seq<byte>, stem: seq<byte>, isDir: bool, stamp: seq<byte>)
    requires |utf16| > 0 && Even(|utf16|) && |stamp| == 5 && IsNewGroup(g, utf16, stem, isDir, stamp)
    ensures NAME_BYTES * (|g| - 2) < |utf16| && |g| > 1
    ensures !IsEmpty(g[|g| - 2]) && !IsLastEmpty(g[|g| - 1])
  {
    hide BasisFromShort, BasisFromLong, DottedName, Sum, HoldsName, IsNewShort, IsEmpty, IsLastEmpty;
    LongsCount(g[..|g| - 1], Sum(BytesOf(BasisFromLong(stem))), utf16);
    ShortIsNoEnd(g[|g| - 1], stem, isDir, stamp);
  }

  lemma LongsCount(ls: seq<Entry>, chkSum: byte, utf16: seq<byte>)
    requires |utf16| > 0 && Even(|utf16|) && HoldsName(ls, chkSum, utf16)
    ensures |ls| > 0 && NAME_BYTES * (|ls| - 1) < |utf16| && !IsEmpty(ls[|ls| - 1])
  {
    OrderLiveIff(|ls| == 1, 1);
  }

  lemma ShortIsNoEnd(e: Entry, stem: seq<byte>, isDir: bool, stamp: seq<byte>)
    requires |stamp| == 5 && IsNewShort(e, BasisFromLong(stem), isDir, stamp)
    ensures !IsLastEmpty(e)
  {
    hide BasisFromLong;
    NoDotMade(stem);
  }

  /**
   * Creating an absent name does what it is for exactly if the name is creatable and no unit of it reads as
   * its end: only then a lookup of the name passes its checks and finds the new entries. Otherwise it finds
   * nothing at all, if it passes its checks.
   */
  lemma CreatedFoundIff(log: seq<Entry>, log': seq<Entry>, range: DirEntryRange, name: Name, stem: seq<byte>,
                        isDir: bool, stamp: seq<byte>)
    requires |name.utf16| > 0 && Even(|name.utf16|) && |stamp| == 5
    requires WellFormed(log) && Lookup(log, name) == None
    requires CreatedAt(log, log', range, name.utf16, stem, isDir, stamp)
    ensures Search(log', name) == Found(range) <==> Creatable(name.utf16, stem) && NoTerminator(name.utf16)
    ensures Search(log', name).Found? ==> Search(log', name) == Found(range)
  {
    hide WellFormed, Creatable, NoTerminator, IsNewGroup, Lookup, SearchFrom, CreatedAt;
    var s, n := range.start, range.count;
    CreatedParts(log, log', range, name.utf16, stem, isDir, stamp);
    if Creatable(name.utf16, stem) && NoTerminator(name.utf16) {
      CreatedIsFound(log, log', range, name, stem, isDir, stamp);
      SearchOfWellFormed(log', name);
    } else {
      NothingAround(log, log', range, name, stem, isDir, stamp);
      NotReadAsName(log', s, n, name, stem, isDir, stamp);
    }
  }

  lemma NotReadAsName(log: seq<Entry>, s: nat, n: nat, name: Name, stem: seq<byte>, isDir: bool, stamp: seq<byte>)
    requires |name.utf16| > 0 && Even(|name.utf16|) && |stamp| == 5 && n > 1 && s + n <= |log|
    requires IsNewGroup(log[s..s + n], name.utf16, stem, isDir, stamp)
    requires !(Creatable(name.utf16, stem) && NoTerminator(name.utf16))
    ensures SearchFrom(log, name, s, 0) in {CheckFails, Absent, SearchFrom(log, name, s + n, 0)}
  {
    hide Creatable, NoTerminator, IsNewGroup, SearchFrom, IsEmpty, IsLong, IsLastEmpty, ReadAs, IsValidLong;
    var g, p := log[s..s + n], s + n - 1;
    NewGroupShape(g, name.utf16, stem, isDir, stamp);
    NewGroupCount(g, name.utf16, stem, isDir, stamp);
    assert p + 1 == s + n && log[s..p + 1] == g;
    NewGroupReadAs(log, s, p, name, stem, isDir, stamp);
    assert forall i :: s <= i < s + n ==> log[i] == g[i - s];
    RowNotFound(log, name, s, p, s, 0);
  }

  /** A name that can be created is found at its new entries. */
  lemma CreatedIsFound(log: seq<Entry>, log': seq<Entry>, range: DirEntryRange, name: Name, stem: seq<byte>,
                       isDir: bool, stamp: seq<byte>)
    requires |name.utf16| > 0 && Even(|name.utf16|) && |stamp| == 5
    requires Creatable(name.utf16, stem) && NoTerminator(name.utf16) && WellFormed(log) && Lookup(log, name) == None
    requires CreatedAt(log, log', range, name.utf16, stem, isDir, stamp)
    ensures range.count > 0 && range.start + range.count <= |log'| && WellFormed(log')
    ensures Lookup(log', name) == Some(Group(range.start, log'[range.start..range.start + range.count]))
  {
    hide WellFormed, Groups, Bears, ValidGroup, FirstRun, Creatable, NoTerminator, IsNewGroup, Lookup;
    var s, n := range.start, range.count;
    var g, grown := log'[s..s + n], log + EndEntries(|log'| - |log|);
    NewGroupValidIff(g, name.utf16, stem, isDir, stamp);
    NewGroupShape(g, name.utf16, stem, isDir, stamp);
    NewGroupBearsIff(g, name.utf16, stem, isDir, stamp, name.gbk);
    GrownLookup(log, EndEntries(|log'| - |log|), name);
    CreateUpdatesMap(grown, s, g, name);
  }

  /** The entries of "README.TXT" and "readme.txt": the last one starts with "README  TXT", and the others hold 73. */
  lemma ReadmeIsStored(g: seq<Entry>, utf16: seq<byte>, stem: seq<byte>, isDir: bool, stamp: seq<byte>, j: nat)
    requires |utf16| > 0 && Even(|utf16|) && |stamp| == 5 && IsNewGroup(g, utf16, stem, isDir, stamp)
    requires stem == [0x52, 0x45, 0x41, 0x44, 0x4D, 0x45, 0x2E, 0x54, 0x58, 0x54] && j < |g| - 1
    ensures g[|g| - 1][..11] == [0x52, 0x45, 0x41, 0x44, 0x4D, 0x45, 0x20, 0x20, 0x54, 0x58, 0x54] && g[j][13] == 0x73
  {
    hide IsNewGroup, BasisFromLong, Sum, PieceOf, Padded;
    NewGroupBytes(g, utf16, stem, isDir, stamp, j);
    MadeNameExample();
    SumExample();
  }

  /** A live long entry of the wrong type, or with a cluster, fails the check of any search that comes to it. */
  lemma BadLongFails(a: seq<Entry>, e: Entry, rest: seq<Entry>, name: Name)
    requires WellFormed(a) && NoEnd(a) && Lookup(a, name) == None
    requires e[0] !in {0x00, 0xE5} && e[11] % 0x40 == 0x0F && (e[12] != 0 || e[26] != 0 || e[27] != 0)
    ensures Search(a + ([e] + rest), name) == CheckFails
  {
    hide WellFormed, Groups, SearchFrom, NoEnd, Closed, FirstBearing, Lookup;
    assert a + [] == a;
    FrontPassed(a, [], [e] + rest, name);
    var all := a + ([e] + rest);
    assert all[|a|] == e;
    SearchStep(all, name, |a|, 0);
  }

  /** Long entries before which no group is open, of which the second holds another checksum than the first. */
  lemma ForeignSumFails(a: seq<Entry>, e: Entry, f: Entry, rest: seq<Entry>, name: Name)
    requires WellFormed(a) && NoEnd(a) && Lookup(a, name) == None
    requires e[0] !in {0x00, 0xE5} && f[0] !in {0x00, 0xE5} && e[11] == 0x0F && f[11] == 0x0F && e[13] != f[13]
    ensures Search(a + ([e, f] + rest), name) == CheckFails
  {
    hide WellFormed, Groups, SearchFrom, NoEnd, Closed, FirstBearing, Lookup, JoinLong, StoredSum, NameRead;
    assert a + [] == a;
    FrontPassed(a, [], [e, f] + rest, name);
    var all := a + ([e, f] + rest);
    assert all[|a|] == e && all[|a| + 1] == f;
    SearchStep(all, name, |a|, 0);
    SearchStep(all, name, |a| + 1, 1);
  }

  /** Creating "A B": the directory is not well formed, and the next lookup of the name fails its check. */
  lemma InnerSpaceBreaks(log: seq<Entry>, log': seq<Entry>, range: DirEntryRange, name: Name, stem: seq<byte>,
                         isDir: bool, stamp: seq<byte>)
    requires name.utf16 == [0x41, 0, 0x20, 0, 0x42, 0] && stem == [0x41, 0x20, 0x42] && |stamp| == 5
    requires WellFormed(log) && Lookup(log, name) == None
    requires CreatedAt(log, log', range, name.utf16, stem, isDir, stamp)
    ensures !WellFormed(log') && Search(log', name) == CheckFails
  {
    hide WellFormed, CreatedAt, Lookup, SearchFrom, BasisFromLong, BasisFromShort, DottedName, Sum, IsNewGroup, Search;
    InnerSpaceExample();
    assert |name.utf16| == 6 && LongEntryCount(name.utf16) == 1;
    CreatedWellFormedIff(log, log', range, name.utf16, stem, isDir, stamp);
    NothingAround(log, log', range, name, stem, isDir, stamp);
    CreatedParts(log, log', range, name.utf16, stem, isDir, stamp);
    FailsAtOnce(log', range.start, range.count, name, stem, isDir, stamp);
  }

  /** One live long entry, and a short one whose checksum is another. */
  lemma FailsAtOnce(log: seq<Entry>, s: nat, n: nat, name: Name, stem: seq<byte>, isDir: bool, stamp: seq<byte>)
    requires |name.utf16| > 0 && Even(|name.utf16|) && |stamp| == 5 && n > 1 && s + n <= |log|
    requires LongEntryCount(name.utf16) == 1 && IsNewGroup(log[s..s + n], name.utf16, stem, isDir, stamp)
    requires var b := BasisFromLong(stem);
      b.primary[0] != 0xE5 && Sum(BytesOf(BasisFromShort(DottedName(b)))) != Sum(BytesOf(b))
    ensures SearchFrom(log, name, s, 0) == CheckFails
  {
    hide BasisFromLong, BasisFromShort, DottedName, Sum, HoldsName, IsNewShort, StoredSum, LongEntryCount;
    hide IsEmpty, IsLong, IsLastEmpty;
    var g, chkSum := log[s..s + n], Sum(BytesOf(BasisFromLong(stem)));
    NewGroupShape(g, name.utf16, stem, isDir, stamp);
    NewGroupCount(g, name.utf16, stem, isDir, stamp);
    NewShortReads(g[n - 1], stem, isDir, stamp);
    NewLongsRead(g[..n - 1], chkSum, name.utf16);
    assert n == 2 && g[..n - 1][0] == g[0] == log[s] && log[s + 1] == g[1];
    LastIsFree(log[s]);
    LastIsFree(log[s + 1]);
  }
}
