/** A directory as a log of entries: tombstones, a terminator, and groups of long entries ended by a short one. */
module DirLog {
  import opened Base
  import opened LongName
  import opened ShortName

  /** The entries of one file, which start at entry number `start`. */
  datatype Group = Group(start: nat, entries: seq<Entry>)

  /** A looked-up name in the two forms it is compared in: UTF-16, and upper-case GBK. */
  datatype Name = Name(utf16: seq<byte>, gbk: seq<byte>)

  predicate AllEmpty(log: seq<Entry>) {
    forall i :: 0 <= i < |log| ==> IsEmpty(log[i])
  }

  /** Nothing in `log` marks the end of the directory. */
  predicate NoEnd(log: seq<Entry>) {
    forall i :: 0 <= i < |log| ==> !IsLastEmpty(log[i])
  }

  /** Entries up to and including the first short one, if all are live; 0 if there is no such group. */
  function GroupLen(log: seq<Entry>): (k: nat)
    ensures k <= |log|
  {
    if log == [] || IsEmpty(log[0]) then 0
    else if !IsLong(log[0]) then 1
    else
      var k := GroupLen(log[1..]);
      if k == 0 then 0 else k + 1
  }

  function StoredSum(short: Entry): byte {
    Sum(BytesOf(BasisFromShort(DottedName(BasisOf(short)))))
  }

  /** Live long entries that all carry the checksum of the live short entry that ends the group. */
  predicate ValidGroup(g: seq<Entry>) {
    && |g| > 0 && !IsEmpty(g[|g| - 1]) && !IsLong(g[|g| - 1])
    && forall i :: 0 <= i < |g| - 1 ==> !IsEmpty(g[i]) && IsValidLong(g[i], StoredSum(g[|g| - 1]))
  }

  /** Tombstones and valid groups, and after the first terminator nothing live. */
  predicate WellFormed(log: seq<Entry>)
    decreases |log|
  {
    if log == [] then true
    else if IsLastEmpty(log[0]) then AllEmpty(log)
    else if IsEmpty(log[0]) then WellFormed(log[1..])
    else
      var k := GroupLen(log);
      k > 0 && ValidGroup(log[..k]) && WellFormed(log[k..])
  }

  /** The groups before the terminator, numbered from `base`. */
  function Groups(log: seq<Entry>, base: nat): seq<Group>
    decreases |log|
  {
    if log == [] || IsLastEmpty(log[0]) then []
    else if IsEmpty(log[0]) then Groups(log[1..], base + 1)
    else
      var k := GroupLen(log);
      if k == 0 then [] else [Group(base, log[..k])] + Groups(log[k..], base + k)
  }

  /** A group with long entries bears its long name, one without bears its short name. */
  predicate Bears(g: seq<Entry>, name: Name)
    requires |g| > 0
  {
    if |g| > 1 then JoinLong(g[..|g| - 1]) == name.utf16 else DottedName(BasisOf(g[0])) == name.gbk
  }

  function FirstBearing(gs: seq<Group>, name: Name): Option<Group> {
    if gs == [] then None
    else if gs[0].entries != [] && Bears(gs[0].entries, name) then Some(gs[0])
    else FirstBearing(gs[1..], name)
  }

  /** The directory as a map from names to entry ranges. */
  function Lookup(log: seq<Entry>, name: Name): Option<Group> {
    FirstBearing(Groups(log, 0), name)
  }

  // ----- unfolding -----

  lemma AtFree(log: seq<Entry>, base: nat)
    requires log != [] && IsEmpty(log[0])
    ensures IsLastEmpty(log[0]) ==> Groups(log, base) == [] && (WellFormed(log) <==> AllEmpty(log))
    ensures !IsLastEmpty(log[0]) ==> Groups(log, base) == Groups(log[1..], base + 1)
    ensures !IsLastEmpty(log[0]) ==> (WellFormed(log) <==> WellFormed(log[1..]))
  {
  }

  lemma AtGroup(log: seq<Entry>, base: nat)
    requires log != [] && !IsEmpty(log[0])
    ensures var k := GroupLen(log);
      && (WellFormed(log) <==> k > 0 && ValidGroup(log[..k]) && WellFormed(log[k..]))
      && (k > 0 ==> Groups(log, base) == [Group(base, log[..k])] + Groups(log[k..], base + k))
  {
  }

  lemma GroupIsLive(log: seq<Entry>, k: nat)
    requires k <= |log| && ValidGroup(log[..k])
    ensures forall i :: 0 <= i < k ==> !IsEmpty(log[i])
  {
  }

  // ----- concatenation -----

  lemma {:induction false} GroupLenStable(a: seq<Entry>, b: seq<Entry>)
    requires GroupLen(a) > 0
    ensures GroupLen(a + b) == GroupLen(a)
  {
    if IsLong(a[0]) {
      assert (a + b)[1..] == a[1..] + b;
      GroupLenStable(a[1..], b);
    }
  }

  lemma {:induction false} GroupLenOfGroup(g: seq<Entry>)
    requires ValidGroup(g)
    ensures GroupLen(g) == |g| > 0
  {
    if |g| > 1 {
      GroupLenOfGroup(g[1..]);
    }
  }

  lemma ConsAppend(x: Group, a: seq<Group>, b: seq<Group>)
    ensures [x] + (a + b) == ([x] + a) + b
  {
  }

  /** A log can be cut at the end of any well-formed part that does not end the directory. */
  lemma {:induction false} Concat(a: seq<Entry>, b: seq<Entry>, base: nat)
    requires WellFormed(a) && NoEnd(a)
    ensures Groups(a + b, base) == Groups(a, base) + Groups(b, base + |a|)
    ensures WellFormed(a + b) <==> WellFormed(b)
    decreases |a|
  {
    hide WellFormed, Groups, ValidGroup, GroupLen;
    if a == [] {
      assert a + b == b;
      FreeIsWellFormed(a, base);
    } else if IsEmpty(a[0]) {
      AtFree(a, base);
      AtFree(a + b, base);
      assert (a + b)[1..] == a[1..] + b;
      Concat(a[1..], b, base + 1);
    } else {
      var k := GroupLen(a);
      AtGroup(a, base);
      Concat(a[k..], b, base + k);
      ConcatAtGroup(a, b, base);
    }
  }

  lemma ConcatAtGroup(a: seq<Entry>, b: seq<Entry>, base: nat)
    requires a != [] && !IsEmpty(a[0]) && WellFormed(a)
    requires var k := GroupLen(a);
      && Groups(a[k..] + b, base + k) == Groups(a[k..], base + k) + Groups(b, base + |a|)
      && (WellFormed(a[k..] + b) <==> WellFormed(b))
    ensures Groups(a + b, base) == Groups(a, base) + Groups(b, base + |a|)
    ensures WellFormed(a + b) <==> WellFormed(b)
  {
    hide WellFormed, Groups, ValidGroup, GroupLen;
    var k := GroupLen(a);
    AtGroup(a, base);
    GroupLenStable(a, b);
    AtGroup(a + b, base);
    assert (a + b)[..k] == a[..k] && (a + b)[k..] == a[k..] + b;
    ConsAppend(Group(base, a[..k]), Groups(a[k..], base + k), Groups(b, base + |a|));
  }

  /** Free entries contribute nothing, whether they end the directory or not. */
  lemma {:induction false} SkipFree(f: seq<Entry>, b: seq<Entry>, base: nat)
    requires AllEmpty(f) && (NoEnd(f) || AllEmpty(b))
    ensures Groups(f + b, base) == Groups(b, base + |f|)
    ensures WellFormed(f + b) <==> WellFormed(b)
    decreases |f|
  {
    hide WellFormed, Groups;
    if f == [] {
      assert f + b == b;
    } else {
      assert (f + b)[0] == f[0] && (f + b)[1..] == f[1..] + b;
      AtFree(f + b, base);
      if IsLastEmpty(f[0]) {
        FreeIsWellFormed(b, base + |f|);
      } else {
        SkipFree(f[1..], b, base + 1);
      }
    }
  }

  lemma {:induction false} FreeIsWellFormed(b: seq<Entry>, base: nat)
    requires AllEmpty(b)
    ensures WellFormed(b) && Groups(b, base) == []
  {
    if b != [] {
      FreeIsWellFormed(b[1..], base + 1);
    }
  }

  lemma OneGroup(g: seq<Entry>, b: seq<Entry>, base: nat)
    requires ValidGroup(g)
    ensures Groups(g + b, base) == [Group(base, g)] + Groups(b, base + |g|)
    ensures WellFormed(g + b) <==> WellFormed(b)
  {
    hide WellFormed, Groups, GroupLen, ValidGroup;
    GroupLenOfGroup(g);
    GroupLenStable(g, b);
    assert g[..|g|] == g;
    GroupIsLive(g, |g|);
    AtGroup(g + b, base);
  }

  lemma GroupIsWellFormed(g: seq<Entry>)
    requires ValidGroup(g)
    ensures WellFormed(g) && NoEnd(g)
  {
    hide WellFormed, ValidGroup;
    OneGroup(g, [], 0);
    FreeIsWellFormed([], 0);
    assert g + [] == g && g[..|g|] == g;
    GroupIsLive(g, |g|);
  }

  /** A well-formed log falls into two well-formed parts before any free entry that is not past the end. */
  lemma {:induction false} SplitBeforeFree(log: seq<Entry>, s: nat)
    requires WellFormed(log) && s <= |log| && NoEnd(log[..s]) && (s < |log| ==> IsEmpty(log[s]))
    ensures WellFormed(log[..s]) && WellFormed(log[s..])
    decreases |log|
  {
    hide WellFormed, ValidGroup, GroupLen, Groups, IsEmpty;
    if s == 0 {
      FreeIsWellFormed([], 0);
    } else {
      var a := log[..s];
      if IsEmpty(log[0]) {
        AtFree(log, 0);
        assert log[1..][..s - 1] == a[1..] && log[1..][s - 1..] == log[s..];
        SplitBeforeFree(log[1..], s - 1);
        AtFree(a, 0);
      } else {
        var k := GroupLen(log);
        AtGroup(log, 0);
        GroupIsLive(log, k);
        assert log[k..][..s - k] == a[k..] && log[k..][s - k..] == log[s..];
        SplitBeforeFree(log[k..], s - k);
        OneGroup(log[..k], a[k..], 0);
        assert a == log[..k] + a[k..];
      }
    }
  }

  /** Nothing is live after a terminator. */
  lemma {:induction false} NothingAfterEnd(log: seq<Entry>, p: nat, i: nat)
    requires WellFormed(log) && p <= i < |log| && IsLastEmpty(log[p])
    ensures IsEmpty(log[i])
    decreases |log|
  {
    hide WellFormed, ValidGroup, GroupLen;
    if IsEmpty(log[0]) {
      AtFree(log, 0);
      if !IsLastEmpty(log[0]) {
        NothingAfterEnd(log[1..], p - 1, i - 1);
      }
    } else {
      var k := GroupLen(log);
      AtGroup(log, 0);
      GroupIsLive(log, k);
      NothingAfterEnd(log[k..], p - k, i - k);
    }
  }

  // ----- looking a name up -----

  lemma {:induction false} FirstBearingConcat(a: seq<Group>, b: seq<Group>, name: Name)
    ensures FirstBearing(a + b, name) == if FirstBearing(a, name).Some? then FirstBearing(a, name)
      else FirstBearing(b, name)
    decreases |a|
  {
    if a == [] {
      assert a + b == b;
    } else {
      assert (a + b)[1..] == a[1..] + b;
      FirstBearingConcat(a[1..], b, name);
    }
  }

  /** `log` holds the valid group `g` at `s`, between a well-formed part that does not end it and a well-formed rest. */
  predicate HoldsGroup(log: seq<Entry>, s: nat, g: seq<Entry>) {
    && s + |g| <= |log| && log[s..s + |g|] == g && ValidGroup(g)
    && WellFormed(log[..s]) && NoEnd(log[..s]) && WellFormed(log[s + |g|..])
  }

  lemma HoldsGroupLater(p: seq<Entry>, log: seq<Entry>, s: nat, g: seq<Entry>, base: nat)
    requires WellFormed(p) && NoEnd(p) && HoldsGroup(log, s, g)
    ensures HoldsGroup(p + log, |p| + s, g)
    ensures Groups((p + log)[..|p| + s], base) == Groups(p, base) + Groups(log[..s], base + |p|)
  {
    hide WellFormed, Groups, ValidGroup;
    var all := p + log;
    assert all[..|p| + s] == p + log[..s] && all[|p| + s + |g|..] == log[s + |g|..];
    Concat(p, log[..s], base);
  }

  /** A lookup finds the first group that bears the name. */
  lemma {:induction false} FoundAt(log: seq<Entry>, base: nat, name: Name)
    requires WellFormed(log) && FirstBearing(Groups(log, base), name).Some?
    ensures var x := FirstBearing(Groups(log, base), name).value;
      && x.start >= base && HoldsGroup(log, x.start - base, x.entries) && Bears(x.entries, name)
      && FirstBearing(Groups(log[..x.start - base], base), name) == None
    decreases |log|
  {
    hide WellFormed, ValidGroup, GroupLen, Groups, Bears;
    FreeIsWellFormed(log[..0], base);
    if log == [] {
      FreeIsWellFormed(log, base);
    } else if IsEmpty(log[0]) {
      AtFree(log, base);
      FoundAt(log[1..], base + 1, name);
      var x := FirstBearing(Groups(log, base), name).value;
      assert log[..1] + [] == log[..1] && log == log[..1] + log[1..];
      FreeIsWellFormed(log[..1], base);
      HoldsGroupLater(log[..1], log[1..], x.start - base - 1, x.entries, base);
      FirstBearingConcat(Groups(log[..1], base), Groups(log[1..][..x.start - base - 1], base + 1), name);
    } else {
      FoundAtGroup(log, base, name);
    }
  }

  lemma {:induction false} FoundAtGroup(log: seq<Entry>, base: nat, name: Name)
    requires WellFormed(log) && FirstBearing(Groups(log, base), name).Some? && log != [] && !IsEmpty(log[0])
    ensures var x := FirstBearing(Groups(log, base), name).value;
      && x.start >= base && HoldsGroup(log, x.start - base, x.entries) && Bears(x.entries, name)
      && FirstBearing(Groups(log[..x.start - base], base), name) == None
    decreases |log|, 0
  {
    hide WellFormed, ValidGroup, GroupLen, Groups, Bears;
    FreeIsWellFormed(log[..0], base);
    AtGroup(log, base);
    var k := GroupLen(log);
    var g := log[..k];
    GroupIsWellFormed(g);
    if Bears(g, name) {
      assert log[0..0 + k] == g;
    } else {
      FoundAt(log[k..], base + k, name);
      var x := FirstBearing(Groups(log, base), name).value;
      assert log == g + log[k..];
      HoldsGroupLater(g, log[k..], x.start - base - k, x.entries, base);
      OneGroup(g, [], base);
      FreeIsWellFormed([], base + k);
      assert g + [] == g;
    }
  }

  // ----- creating -----

  predicate FreeRun(log: seq<Entry>, s: nat, n: nat) {
    s + n <= |log| && AllEmpty(log[s..s + n])
  }

  /** The lowest place with `n` free entries in a row. */
  predicate FirstRun(log: seq<Entry>, s: nat, n: nat) {
    FreeRun(log, s, n) && forall r :: 0 <= r < s ==> !FreeRun(log, r, n)
  }

  function Inserted(log: seq<Entry>, s: nat, g: seq<Entry>): (r: seq<Entry>)
    requires s + |g| <= |log|
    ensures |r| == |log|
  {
    log[..s] + g + log[s + |g|..]
  }

  lemma RunExtends(log: seq<Entry>, s: nat, n: nat)
    requires FreeRun(log, s, n) && s > 0 && IsEmpty(log[s - 1])
    ensures FreeRun(log, s - 1, n)
  {
    var f := log[s - 1..s - 1 + n];
    forall i | 0 <= i < n ensures IsEmpty(f[i]) {
      if i > 0 {
        assert f[i] == log[s..s + n][i - 1];
      }
    }
  }

  /** The entry before the lowest free run is live, so the directory does not end before the run. */
  lemma NoEndBeforeRun(log: seq<Entry>, s: nat, n: nat)
    requires WellFormed(log) && FirstRun(log, s, n) && n > 0
    ensures NoEnd(log[..s])
  {
    hide WellFormed;
    if s > 0 && IsEmpty(log[s - 1]) {
      RunExtends(log, s, n);
    }
    forall i | 0 <= i < s ensures !IsLastEmpty(log[..s][i]) {
      if IsLastEmpty(log[i]) {
        NothingAfterEnd(log, i, s - 1);
      }
    }
  }

  /** Past a free run that may end the directory there is nothing live if it does. */
  lemma RunEndsOrRests(log: seq<Entry>, n: nat)
    requires WellFormed(log) && n <= |log| && AllEmpty(log[..n])
    ensures NoEnd(log[..n]) || AllEmpty(log[n..])
    ensures WellFormed(log[n..])
  {
    hide WellFormed;
    var f := log[..n];
    if !NoEnd(f) {
      var p :| 0 <= p < n && IsLastEmpty(f[p]);
      forall i | n <= i < |log| ensures IsEmpty(log[i]) {
        NothingAfterEnd(log, p, i);
      }
      FreeIsWellFormed(log[n..], 0);
    } else {
      SkipFree(f, log[n..], 0);
      assert f + log[n..] == log;
    }
  }

  /** The lowest free run lies between a well-formed part that does not end the directory and a well-formed rest. */
  lemma RunSplits(log: seq<Entry>, s: nat, n: nat)
    requires WellFormed(log) && FirstRun(log, s, n) && n > 0
    ensures WellFormed(log[..s]) && NoEnd(log[..s]) && WellFormed(log[s + n..])
    ensures NoEnd(log[s..s + n]) || AllEmpty(log[s + n..])
    ensures log == log[..s] + (log[s..s + n] + log[s + n..])
  {
    hide WellFormed;
    NoEndBeforeRun(log, s, n);
    SplitBeforeFree(log, s);
    assert log[s..][..n] == log[s..s + n] && log[s..][n..] == log[s + n..];
    RunEndsOrRests(log[s..], n);
  }

  lemma GroupBetween(a: seq<Entry>, g: seq<Entry>, b: seq<Entry>)
    requires WellFormed(a) && NoEnd(a) && ValidGroup(g) && WellFormed(b)
    ensures Groups(a + (g + b), 0) == Groups(a, 0) + ([Group(|a|, g)] + Groups(b, |a| + |g|))
    ensures WellFormed(a + (g + b))
  {
    hide WellFormed, Groups, ValidGroup;
    OneGroup(g, b, |a|);
    Concat(a, g + b, 0);
  }

  lemma FreeBetween(a: seq<Entry>, f: seq<Entry>, b: seq<Entry>)
    requires WellFormed(a) && NoEnd(a) && AllEmpty(f) && WellFormed(b) && (NoEnd(f) || AllEmpty(b))
    ensures Groups(a + (f + b), 0) == Groups(a, 0) + Groups(b, |a| + |f|)
    ensures WellFormed(a + (f + b))
  {
    hide WellFormed, Groups;
    SkipFree(f, b, |a|);
    Concat(a, f + b, 0);
  }

  /** Writing a group over the lowest free run of its size adds that group and keeps all others. */
  lemma InsertAddsGroup(log: seq<Entry>, s: nat, g: seq<Entry>)
    requires WellFormed(log) && ValidGroup(g) && FirstRun(log, s, |g|)
    ensures var before, after := Groups(log[..s], 0), Groups(log[s + |g|..], s + |g|);
      && Groups(log, 0) == before + after
      && Groups(Inserted(log, s, g), 0) == before + ([Group(s, g)] + after)
    ensures WellFormed(Inserted(log, s, g))
  {
    hide WellFormed, Groups, ValidGroup;
    GroupLenOfGroup(g);
    RunSplits(log, s, |g|);
    var a, b := log[..s], log[s + |g|..];
    FreeBetween(a, log[s..s + |g|], b);
    GroupBetween(a, g, b);
    assert Inserted(log, s, g) == a + (g + b);
  }

  /**
   * Creating: the directory stays well formed, a name that was absent is found at exactly the new
   * entries if the new group bears it, and every name that the new group does not bear is looked up
   * as before.
   */
  lemma CreateUpdatesMap(log: seq<Entry>, s: nat, g: seq<Entry>, name: Name)
    requires WellFormed(log) && ValidGroup(g) && FirstRun(log, s, |g|)
    ensures WellFormed(Inserted(log, s, g))
    ensures !Bears(g, name) ==> Lookup(Inserted(log, s, g), name) == Lookup(log, name)
    ensures Bears(g, name) && Lookup(log, name) == None ==> Lookup(Inserted(log, s, g), name) == Some(Group(s, g))
  {
    hide WellFormed, Groups, Bears;
    InsertAddsGroup(log, s, g);
    var before, after := Groups(log[..s], 0), Groups(log[s + |g|..], s + |g|);
    FirstBearingConcat(before, after, name);
    FirstBearingConcat(before, [Group(s, g)] + after, name);
  }

  /** A directory grown by free entries holds the same groups. */
  lemma {:induction false} GrowthKeepsGroups(log: seq<Entry>, z: seq<Entry>, base: nat)
    requires WellFormed(log) && AllEmpty(z)
    ensures WellFormed(log + z) && Groups(log + z, base) == Groups(log, base)
    decreases |log|
  {
    hide WellFormed, Groups, ValidGroup, GroupLen;
    var all := log + z;
    if log == [] {
      assert all == z;
      FreeIsWellFormed(z, base);
      FreeIsWellFormed(log, base);
    } else if IsEmpty(log[0]) {
      AtFree(log, base);
      AtFree(all, base);
      if !IsLastEmpty(log[0]) {
        assert all[1..] == log[1..] + z;
        GrowthKeepsGroups(log[1..], z, base + 1);
      }
    } else {
      var k := GroupLen(log);
      AtGroup(log, base);
      GroupLenStable(log, z);
      AtGroup(all, base);
      assert all[..k] == log[..k] && all[k..] == log[k..] + z;
      GrowthKeepsGroups(log[k..], z, base + k);
    }
  }

  // ----- deleting -----

  const TOMBSTONE: Entry := [0xE5] + Zeros(31)
  const END_ENTRY: Entry := Zeros(32)

  function Tombstones(n: nat): (r: seq<Entry>)
    ensures |r| == n && AllEmpty(r) && NoEnd(r)
  {
    seq(n, _ => TOMBSTONE)
  }

  /** No live entry before the first terminator: what `isLstNonEmptyEntry` looks for. */
  predicate NothingLive(log: seq<Entry>) {
    log == [] || IsLastEmpty(log[0]) || (IsEmpty(log[0]) && NothingLive(log[1..]))
  }

  /** Looking only up to the first terminator is enough in a well-formed directory. */
  lemma {:induction false} NothingLiveIff(log: seq<Entry>, base: nat)
    requires WellFormed(log)
    ensures NothingLive(log) <==> AllEmpty(log)
    ensures NothingLive(log) <==> Groups(log, base) == []
    decreases |log|
  {
    hide WellFormed, ValidGroup, GroupLen, Groups;
    FreeIsWellFormed([], base);
    if log != [] {
      if IsEmpty(log[0]) {
        AtFree(log, base);
        if !IsLastEmpty(log[0]) {
          NothingLiveIff(log[1..], base + 1);
        }
      } else {
        AtGroup(log, base);
      }
    }
  }

  /**
   * `log'` is `log` with the `n` entries at `s` deleted: overwritten by tombstones, or, if nothing is
   * live after them, the last of them made the terminator and the directory cut somewhere behind `s`.
   */
  predicate Removed(log: seq<Entry>, s: nat, n: nat, log': seq<Entry>)
    requires s + n <= |log| && n > 0
  {
    var a, b := log[..s], log[s + n..];
    if AllEmpty(b) then
      s < |log'| <= |log| && log' == (a + Tombstones(n - 1) + [END_ENTRY] + b)[..|log'|]
    else
      log' == a + Tombstones(n) + b
  }

  /**
   * The bytes of a deleted range: 0xE5 and zeros; nothing but zeros in its last entry, and in none of the others, if
   * nothing live follows. All entries around it that are left stay.
   */
  lemma RemovedBytes(log: seq<Entry>, s: nat, n: nat, log': seq<Entry>, i: nat)
    requires s + n <= |log| && n > 0 && Removed(log, s, n, log') && i < |log'|
    ensures i < |log| && (AllEmpty(log[s + n..]) || |log'| == |log|)
    ensures log'[i] ==
            if i < s || i >= s + n then log[i]
            else if i == s + n - 1 && AllEmpty(log[s + n..]) then Zeros(32)
            else [0xE5] + Zeros(31)
  {
  }

  /** Deleting a group removes exactly that group. */
  lemma RemoveDropsGroup(log: seq<Entry>, s: nat, g: seq<Entry>, log': seq<Entry>)
    requires HoldsGroup(log, s, g) && Removed(log, s, |g|, log')
    ensures var before, after := Groups(log[..s], 0), Groups(log[s + |g|..], s + |g|);
      && Groups(log, 0) == before + ([Group(s, g)] + after)
      && Groups(log', 0) == before + after
    ensures WellFormed(log')
  {
    hide WellFormed, Groups, ValidGroup, Removed, Tombstones, NoEnd, AllEmpty, HoldsGroup;
    HeldBetween(log, s, g);
    var a, b := log[..s], log[s + |g|..];
    if AllEmpty(b) {
      CutIsEmpty(log, s, |g|, log');
      OnlyFreeAfter(a, log'[s..], b, s + |g|);
    } else {
      BuriedIsFree(log, s, |g|, log');
      FreeBetween(a, Tombstones(|g|), b);
    }
  }

  lemma HeldBetween(log: seq<Entry>, s: nat, g: seq<Entry>)
    requires HoldsGroup(log, s, g)
    ensures |g| > 0 && s + |g| <= |log| && WellFormed(log[..s]) && NoEnd(log[..s]) && WellFormed(log[s + |g|..])
    ensures Groups(log, 0) == Groups(log[..s], 0) + ([Group(s, g)] + Groups(log[s + |g|..], s + |g|))
  {
    hide *;
    HeldParts(log, s, g);
    GroupBetween(log[..s], g, log[s + |g|..]);
  }

  lemma HeldParts(log: seq<Entry>, s: nat, g: seq<Entry>)
    requires HoldsGroup(log, s, g)
    ensures |g| > 0 && s + |g| <= |log| && WellFormed(log[..s]) && NoEnd(log[..s]) && WellFormed(log[s + |g|..])
    ensures ValidGroup(g) && log == log[..s] + (g + log[s + |g|..]) && |log[..s]| == s
  {
    hide WellFormed, NoEnd, IsEmpty, IsLong, IsValidLong;
    ThreeParts(log, s, |g|);
  }

  lemma ThreeParts(log: seq<Entry>, s: nat, n: nat)
    requires s + n <= |log|
    ensures log == log[..s] + (log[s..s + n] + log[s + n..])
  {
  }

  lemma OnlyFreeAfter(a: seq<Entry>, f: seq<Entry>, b: seq<Entry>, base: nat)
    requires WellFormed(a) && NoEnd(a) && AllEmpty(f) && AllEmpty(b)
    ensures WellFormed(a + f) && Groups(a + f, 0) == Groups(a, 0) + Groups(b, base)
  {
    hide WellFormed, Groups;
    Concat(a, f, 0);
    FreeIsWellFormed(f, |a|);
    FreeIsWellFormed(b, base);
  }

  lemma CutIsEmpty(log: seq<Entry>, s: nat, n: nat, log': seq<Entry>)
    requires s + n <= |log| && n > 0 && Removed(log, s, n, log') && AllEmpty(log[s + n..])
    ensures |log'| >= s && AllEmpty(log'[s..]) && log' == log[..s] + log'[s..]
  {
  }

  lemma BuriedIsFree(log: seq<Entry>, s: nat, n: nat, log': seq<Entry>)
    requires s + n <= |log| && n > 0 && Removed(log, s, n, log') && !AllEmpty(log[s + n..])
    ensures log' == log[..s] + (Tombstones(n) + log[s + n..])
  {
  }

  /**
   * Deleting the group that a name is looked up as: the directory stays well formed, the name is then
   * looked up as the next group that bears it, so it is absent if that was the only one, and every name
   * that the deleted group does not bear is looked up as before.
   */
  lemma DeleteUpdatesMap(log: seq<Entry>, name: Name, log': seq<Entry>, other: Name)
    requires WellFormed(log) && Lookup(log, name).Some?
    requires var x := Lookup(log, name).value;
      |x.entries| > 0 && x.start + |x.entries| <= |log| && Removed(log, x.start, |x.entries|, log')
    ensures WellFormed(log')
    ensures var x := Lookup(log, name).value;
      && Bears(x.entries, name)
      && (!Bears(x.entries, other) ==> Lookup(log', other) == Lookup(log, other))
      && Lookup(log', name) == FirstBearing(Groups(log[x.start + |x.entries|..], x.start + |x.entries|), name)
  {
    hide *;
    FoundIsHeld(log, name);
    var x := Lookup(log, name).value;
    RemoveDropsGroup(log, x.start, x.entries, log');
    var s, n := x.start, |x.entries|;
    var before, after := Groups(log[..s], 0), Groups(log[s + n..], s + n);
    DropLookup(log, log', before, x, after, other);
    DropLookup(log, log', before, x, after, name);
  }

  /** What a lookup finds lies between two well-formed parts, the first of which does not bear the name. */
  lemma FoundIsHeld(log: seq<Entry>, name: Name)
    requires WellFormed(log) && Lookup(log, name).Some?
    ensures var x := Lookup(log, name).value;
      var s, n := x.start, |x.entries|;
      && n > 0 && s + n <= |log| && HoldsGroup(log, s, x.entries) && Bears(x.entries, name)
      && log[s..s + n] == x.entries && WellFormed(log[s + n..])
      && FirstBearing(Groups(log[..s], 0), name) == None
  {
    hide WellFormed, Groups, ValidGroup, Bears;
    FoundAt(log, 0, name);
    var x := Lookup(log, name).value;
    HeldBetween(log, x.start, x.entries);
  }

  lemma DropLookup(log: seq<Entry>, log': seq<Entry>, before: seq<Group>, x: Group, after: seq<Group>, name: Name)
    requires Groups(log, 0) == before + ([x] + after) && Groups(log', 0) == before + after && x.entries != []
    ensures !Bears(x.entries, name) ==> Lookup(log', name) == Lookup(log, name)
    ensures FirstBearing(before, name) == None ==> Lookup(log', name) == FirstBearing(after, name)
  {
    hide WellFormed, Groups, Bears;
    FirstBearingConcat(before, [x] + after, name);
    FirstBearingConcat(before, after, name);
  }

  lemma InsertedParts(log: seq<Entry>, s: nat, g: seq<Entry>)
    requires s + |g| <= |log|
    ensures var r := Inserted(log, s, g); r[..s] == log[..s] && r[s..s + |g|] == g && r[s + |g|..] == log[s + |g|..]
  {
  }

  /** Deleting what was just created leaves every name as it was before the creation. */
  lemma CreateThenDelete(log: seq<Entry>, s: nat, g: seq<Entry>, log': seq<Entry>)
    requires WellFormed(log) && ValidGroup(g) && FirstRun(log, s, |g|)
    requires Removed(Inserted(log, s, g), s, |g|, log')
    ensures WellFormed(log') && Groups(log', 0) == Groups(log, 0)
  {
    hide WellFormed, Groups, ValidGroup, Inserted, Removed, NoEnd, AllEmpty;
    InsertAddsGroup(log, s, g);
    GroupLenOfGroup(g);
    RunSplits(log, s, |g|);
    InsertedParts(log, s, g);
    RemoveDropsGroup(Inserted(log, s, g), s, g, log');
  }
}
