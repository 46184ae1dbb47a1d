/** What a listing shows: exactly the files there are, by names that a lookup finds. */
module Listings {
  import opened Base
  import opened LongName
  import opened ShortName
  import opened ShortEntry
  import opened DirLog
  import opened DirBytes
  import opened DirScan
  import opened DirRuns

  /** A group of a well-formed directory lies where it says. */
  lemma {:induction false} GroupLies(log: seq<Entry>, base: nat, i: nat)
    requires WellFormed(log) && i < |Groups(log, base)|
    ensures var x := Groups(log, base)[i];
      && base <= x.start && x.start - base + |x.entries| <= |log|
      && log[x.start - base..x.start - base + |x.entries|] == x.entries && ValidGroup(x.entries)
    decreases |log|
  {
    hide WellFormed, Groups, GroupLen, ValidGroup, IsEmpty, IsLastEmpty;
    if log == [] {
      NoGroups(base);
    } else if IsEmpty(log[0]) {
      AtFree(log, base);
      if !IsLastEmpty(log[0]) {
        GroupLies(log[1..], base + 1, i);
      }
    } else {
      AtGroup(log, base);
      var k := GroupLen(log);
      if i > 0 {
        GroupLies(log[k..], base + k, i - 1);
        SliceLater(log, k, Groups(log, base)[i].start - base - k, |Groups(log, base)[i].entries|);
      } else {
        assert log[0..0 + k] == log[..k];
      }
    }
  }

  lemma NoGroups(base: nat)
    ensures Groups([], base) == []
  {
  }

  lemma SliceLater(log: seq<Entry>, k: nat, s: nat, n: nat)
    requires k + s + n <= |log|
    ensures log[k..][s..s + n] == log[k + s..k + s + n]
  {
  }

  /**
   * What is listed lies at the entries it says, which are a valid group: with long entries it is listed by the name
   * that these join to, and otherwise by its short name. So it answers to what it is listed as.
   */
  lemma ListedAnswers(log: seq<Entry>, i: nat, other: seq<byte>)
    requires WellFormed(log) && i < |Listing(log)|
    ensures var l := Listing(log)[i];
      && l.count > 0 && l.start + l.count <= |log| && (l.isShort <==> l.count == 1)
      && var g := log[l.start..l.start + l.count];
      && ValidGroup(g) && g == Groups(log, 0)[i].entries
      && Bears(g, if l.isShort then Name(other, l.name) else Name(l.name, other))
  {
    hide WellFormed, Groups, JoinLong, DottedName;
    GroupLies(log, 0, i);
  }

  /** Where names are distinct, looking up a name by which a file is listed finds that file. */
  lemma ListedIsFound(gbkOf: Conversion, log: seq<Entry>, i: nat, u: seq<byte>)
    requires ValidDir(gbkOf, log) && i < |Listing(log)|
    requires var l := Listing(log)[i]; if l.isShort then gbkOf(u) == l.name else u == l.name
    ensures var l := Listing(log)[i]; Search(log, NameOf(gbkOf, u)) == Found(DirEntryRange(l.start, l.count))
  {
    hide WellFormed, Groups, JoinLong, DottedName, Bears, ValidGroup, SearchFrom, Search;
    var gs, l, name := Groups(log, 0), Listing(log)[i], NameOf(gbkOf, u);
    ListedAnswers(log, i, if l.isShort then u else gbkOf(u));
    assert BearsAt(gbkOf, gs, i, u);
    FirstOfOne(gbkOf, gs, i, u);
    SearchOfWellFormed(log, name);
  }

  /** Of groups with distinct names, the one that bears a name is the first to. */
  lemma {:induction false} FirstOfOne(gbkOf: Conversion, gs: seq<Group>, i: nat, u: seq<byte>)
    requires NamesDistinct(gbkOf, gs) && i < |gs| && BearsAt(gbkOf, gs, i, u)
    ensures FirstBearing(gs, NameOf(gbkOf, u)) == Some(gs[i])
    decreases |gs|
  {
    hide Bears;
    if i > 0 {
      assert !BearsAt(gbkOf, gs, 0, u);
      var rest := gs[1..];
      forall j, k, v | 0 <= j < |rest| && 0 <= k < |rest| && BearsAt(gbkOf, rest, j, v) && BearsAt(gbkOf, rest, k, v)
        ensures j == k
      {
        assert BearsAt(gbkOf, gs, j + 1, v) && BearsAt(gbkOf, gs, k + 1, v);
      }
      FirstOfOne(gbkOf, rest, i - 1, u);
    }
  }

  /** Whatever a lookup finds is listed. */
  lemma FoundIsListed(log: seq<Entry>, name: Name) returns (i: nat)
    requires WellFormed(log) && Search(log, name).Found?
    ensures i < |Listing(log)|
    ensures Search(log, name).range == DirEntryRange(Listing(log)[i].start, Listing(log)[i].count)
    ensures Listing(log)[i].isShort || Listing(log)[i].name == name.utf16
    ensures Listing(log)[i].isShort ==> Listing(log)[i].name == name.gbk
  {
    hide WellFormed, Groups, JoinLong, DottedName, ValidGroup, SearchFrom;
    SearchOfWellFormed(log, name);
    i := FirstIndex(Groups(log, 0), name);
    ListedAnswers(log, i, []);
  }

  lemma {:induction false} FirstIndex(gs: seq<Group>, name: Name) returns (i: nat)
    requires FirstBearing(gs, name).Some?
    ensures i < |gs| && FirstBearing(gs, name) == Some(gs[i]) && gs[i].entries != [] && Bears(gs[i].entries, name)
    decreases |gs|
  {
    hide Bears;
    i := 0;
    if !(gs[0].entries != [] && Bears(gs[0].entries, name)) {
      i := FirstIndex(gs[1..], name);
      i := i + 1;
    }
  }

  /** A create puts its name, in full, into the listing, and leaves the rest of it alone. */
  lemma CreatedIsListed(log: seq<Entry>, log': seq<Entry>, range: DirEntryRange, utf16: seq<byte>, stem: seq<byte>,
                        isDir: bool, stamp: seq<byte>) returns (k: nat)
    requires |utf16| > 0 && Even(|utf16|) && |stamp| == 5 && Creatable(utf16, stem) && NoTerminator(utf16)
    requires WellFormed(log) && CreatedAt(log, log', range, utf16, stem, isDir, stamp)
    ensures k <= |Listing(log)|
    ensures Listing(log') ==
            Listing(log)[..k] + [Listed(range.start, range.count, false, utf16)] + Listing(log)[k..]
  {
    hide WellFormed, Groups, Bears, ValidGroup, FirstRun, Creatable, NoTerminator, IsNewGroup, JoinLong;
    var s, n := range.start, range.count;
    var g, grown := log'[s..s + n], log + EndEntries(|log'| - |log|);
    NewGroupValidIff(g, utf16, stem, isDir, stamp);
    NewGroupListed(s, g, utf16, stem, isDir, stamp);
    GrowthKeepsGroups(log, EndEntries(|log'| - |log|), 0);
    InsertAddsGroup(grown, s, g);
    k := |Groups(grown[..s], 0)|;
    ListingWith(log', Groups(grown[..s], 0), Group(s, g), Groups(grown[s + |g|..], s + |g|));
    ListingWithout(log, Groups(grown[..s], 0), Groups(grown[s + |g|..], s + |g|));
  }

  lemma NewGroupListed(s: nat, g: seq<Entry>, utf16: seq<byte>, stem: seq<byte>, isDir: bool, stamp: seq<byte>)
    requires |utf16| > 0 && Even(|utf16|) && |stamp| == 5 && NoTerminator(utf16)
    requires IsNewGroup(g, utf16, stem, isDir, stamp)
    ensures ListingOf(Group(s, g)) == Listed(s, |g|, false, utf16)
  {
    hide NoTerminator, JoinLong, BasisFromLong, IsNewShort, IsLongEntryFor;
    LongNameRoundTripIff(g[..|g| - 1], Sum(BytesOf(BasisFromLong(stem))), utf16);
    NewGroupShape(g, utf16, stem, isDir, stamp);
  }

  function ListedAll(gs: seq<Group>): (r: seq<Listed>)
    ensures |r| == |gs| && forall i :: 0 <= i < |r| ==> r[i] == ListingOf(gs[i])
  {
    seq(|gs|, i requires 0 <= i < |gs| => ListingOf(gs[i]))
  }

  lemma ListingWith(log: seq<Entry>, before: seq<Group>, x: Group, after: seq<Group>)
    requires Groups(log, 0) == before + ([x] + after)
    ensures Listing(log) == ListedAll(before) + [ListingOf(x)] + ListedAll(after)
  {
    hide Groups, ListingOf;
  }

  lemma ListingWithout(log: seq<Entry>, before: seq<Group>, after: seq<Group>)
    requires Groups(log, 0) == before + after
    ensures Listing(log) == ListedAll(before) + ListedAll(after)
    ensures Listing(log)[..|before|] == ListedAll(before) && Listing(log)[|before|..] == ListedAll(after)
  {
    hide Groups, ListingOf;
  }

  /** A delete takes the file that the name leads to out of the listing, and leaves the rest of it alone. */
  lemma DeletedIsUnlisted(log: seq<Entry>, name: Name, log': seq<Entry>) returns (k: nat)
    requires WellFormed(log) && Lookup(log, name).Some?
    requires var x := Lookup(log, name).value;
      |x.entries| > 0 && x.start + |x.entries| <= |log| && Removed(log, x.start, |x.entries|, log')
    ensures k < |Listing(log)| && Listing(log') == Listing(log)[..k] + Listing(log)[k + 1..]
    ensures Listing(log)[k].start == Lookup(log, name).value.start
  {
    hide WellFormed, Groups, Bears, ValidGroup, Removed, Lookup, ListingOf, FirstBearing;
    FoundIsHeld(log, name);
    var x := Lookup(log, name).value;
    var s, n := x.start, |x.entries|;
    RemoveDropsGroup(log, s, x.entries, log');
    var before, after := Groups(log[..s], 0), Groups(log[s + n..], s + n);
    k := |before|;
    ListingWith(log, before, x, after);
    ListingWithout(log', before, after);
    ListingStart(x);
  }

  lemma ListingStart(x: Group)
    ensures ListingOf(x).start == x.start && ListingOf(x).count == |x.entries|
  {
  }
}
