/** Runs of creates and deletes on a directory, which behaves as a map from names to groups of entries. */
module DirRuns {
  import opened Base
  import opened LongName
  import opened ShortName
  import opened ShortEntry
  import opened DirLog
  import opened DirScan

  /** The conversion of a UTF-16 name to upper-case GBK, whatever it is. */
  type Conversion = seq<byte> -> seq<byte>

  function NameOf(gbkOf: Conversion, u: seq<byte>): Name {
    Name(u, gbkOf(u))
  }

  ghost predicate BearsAt(gbkOf: Conversion, gs: seq<Group>, i: nat, u: seq<byte>)
    requires i < |gs|
  {
    gs[i].entries != [] && Bears(gs[i].entries, NameOf(gbkOf, u))
  }

  /** No name belongs to two groups. */
  ghost predicate NamesDistinct(gbkOf: Conversion, gs: seq<Group>) {
    forall i, j, u :: 0 <= i < |gs| && 0 <= j < |gs| && BearsAt(gbkOf, gs, i, u) && BearsAt(gbkOf, gs, j, u) ==> i == j
  }

  ghost predicate ValidDir(gbkOf: Conversion, log: seq<Entry>) {
    WellFormed(log) && NamesDistinct(gbkOf, Groups(log, 0))
  }

  /** The directory as a map. */
  ghost function MapOf(gbkOf: Conversion, log: seq<Entry>): imap<seq<byte>, Group> {
    imap u: seq<byte> | Lookup(log, NameOf(gbkOf, u)).Some? :: Lookup(log, NameOf(gbkOf, u)).value
  }

  // ----- one step -----

  lemma {:induction false} NobodyBears(gbkOf: Conversion, gs: seq<Group>, u: seq<byte>)
    ensures FirstBearing(gs, NameOf(gbkOf, u)) == None <==> forall i :: 0 <= i < |gs| ==> !BearsAt(gbkOf, gs, i, u)
    decreases |gs|
  {
    hide Bears;
    if gs != [] {
      var rest := gs[1..];
      NobodyBears(gbkOf, rest, u);
      assert forall i :: 0 < i < |gs| ==> (BearsAt(gbkOf, gs, i, u) <==> BearsAt(gbkOf, rest, i - 1, u));
      assert forall i :: 0 <= i < |rest| ==> (BearsAt(gbkOf, rest, i, u) <==> BearsAt(gbkOf, gs, i + 1, u));
      assert BearsAt(gbkOf, gs, 0, u) ==> FirstBearing(gs, NameOf(gbkOf, u)).Some?;
    }
  }

  lemma AddedStaysDistinct(gbkOf: Conversion, before: seq<Group>, x: Group, after: seq<Group>)
    requires NamesDistinct(gbkOf, before + after)
    requires forall u, i :: 0 <= i < |before + after| && BearsAt(gbkOf, [x], 0, u) ==>
      !BearsAt(gbkOf, before + after, i, u)
    ensures NamesDistinct(gbkOf, before + ([x] + after))
  {
    hide Bears;
    var rest, all := before + after, before + ([x] + after);
    forall i, j, u | 0 <= i < |all| && 0 <= j < |all| && BearsAt(gbkOf, all, i, u) && BearsAt(gbkOf, all, j, u)
      ensures i == j
    {
      var k, l := if i > |before| then i - 1 else i, if j > |before| then j - 1 else j;
      assert i != |before| ==> BearsAt(gbkOf, rest, k, u);
      assert j != |before| ==> BearsAt(gbkOf, rest, l, u);
    }
  }

  lemma DroppedStaysDistinct(gbkOf: Conversion, before: seq<Group>, x: Group, after: seq<Group>)
    requires NamesDistinct(gbkOf, before + ([x] + after))
    ensures NamesDistinct(gbkOf, before + after)
    ensures forall u, i :: 0 <= i < |before + after| && BearsAt(gbkOf, [x], 0, u) ==>
      !BearsAt(gbkOf, before + after, i, u)
  {
    hide Bears;
    var all, rest := before + ([x] + after), before + after;
    forall i, u | 0 <= i < |rest| && BearsAt(gbkOf, rest, i, u)
      ensures BearsAt(gbkOf, all, if i < |before| then i else i + 1, u)
    {
    }
    forall u | BearsAt(gbkOf, [x], 0, u) ensures BearsAt(gbkOf, all, |before|, u) {
    }
  }

  /** Creating an absent name adds it to the map and touches nothing else. */
  lemma CreateExtendsMap(gbkOf: Conversion, log: seq<Entry>, log': seq<Entry>, range: DirEntryRange,
                         utf16: seq<byte>, stem: seq<byte>, isDir: bool, stamp: seq<byte>)
    requires |utf16| > 0 && Even(|utf16|) && |stamp| == 5
    requires ValidDir(gbkOf, log) && Lookup(log, NameOf(gbkOf, utf16)) == None
    requires CreatedAt(log, log', range, utf16, stem, isDir, stamp)
    requires Creatable(utf16, stem) && NoTerminator(utf16)
    ensures ValidDir(gbkOf, log')
    ensures MapOf(gbkOf, log') ==
            MapOf(gbkOf, log)[utf16 := Group(range.start, log'[range.start..range.start + range.count])]
  {
    hide WellFormed, Groups, Bears, ValidGroup, FirstRun, Creatable, NoTerminator, IsNewGroup, NamesDistinct;
    var s, n := range.start, range.count;
    var g, grown := log'[s..s + n], log + DirBytes.EndEntries(|log'| - |log|);
    NewGroupValidIff(g, utf16, stem, isDir, stamp);
    GrowthKeepsGroups(log, DirBytes.EndEntries(|log'| - |log|), 0);
    InsertAddsGroup(grown, s, g);
    OnlyBears(gbkOf, g, utf16, stem, isDir, stamp);
    AddsOneName(gbkOf, grown, log', s, g, utf16);
    SameGroupsSameMap(gbkOf, log, grown);
  }

  lemma SameGroupsSameMap(gbkOf: Conversion, log: seq<Entry>, log': seq<Entry>)
    requires Groups(log, 0) == Groups(log', 0)
    ensures MapOf(gbkOf, log) == MapOf(gbkOf, log')
  {
  }

  /** A new group answers to its own name and to no other. */
  lemma OnlyBears(gbkOf: Conversion, g: seq<Entry>, utf16: seq<byte>, stem: seq<byte>, isDir: bool, stamp: seq<byte>)
    requires |utf16| > 0 && Even(|utf16|) && |stamp| == 5
    requires IsNewGroup(g, utf16, stem, isDir, stamp) && NoTerminator(utf16)
    ensures |g| > 1 && forall u :: Bears(g, NameOf(gbkOf, u)) <==> u == utf16
  {
    hide NoTerminator, JoinLong, BasisFromLong, IsNewShort, IsLongEntryFor;
    LongNameRoundTripIff(g[..|g| - 1], Sum(BytesOf(BasisFromLong(stem))), utf16);
  }

  lemma AddsOneName(gbkOf: Conversion, log: seq<Entry>, log': seq<Entry>, s: nat, g: seq<Entry>, name: seq<byte>)
    requires WellFormed(log) && NamesDistinct(gbkOf, Groups(log, 0)) && Lookup(log, NameOf(gbkOf, name)) == None
    requires ValidGroup(g) && FirstRun(log, s, |g|) && log' == Inserted(log, s, g)
    requires |g| > 0 && forall u :: Bears(g, NameOf(gbkOf, u)) <==> u == name
    ensures NamesDistinct(gbkOf, Groups(log', 0)) && MapOf(gbkOf, log') == MapOf(gbkOf, log)[name := Group(s, g)]
  {
    hide WellFormed, Groups, Bears, ValidGroup, NamesDistinct;
    InsertAddsGroup(log, s, g);
    var before, after := Groups(log[..s], 0), Groups(log[s + |g|..], s + |g|);
    NobodyBears(gbkOf, before + after, name);
    AddedStaysDistinct(gbkOf, before, Group(s, g), after);
    forall u ensures Lookup(log', NameOf(gbkOf, u)) == if u == name then Some(Group(s, g))
      else Lookup(log, NameOf(gbkOf, u)) {
      CreateUpdatesMap(log, s, g, NameOf(gbkOf, u));
    }
  }

  /** Deleting a name takes its group, and with it every name that group goes by, out of the map. */
  lemma DeleteShrinksMap(gbkOf: Conversion, log: seq<Entry>, name: seq<byte>, log': seq<Entry>)
    requires ValidDir(gbkOf, log) && Lookup(log, NameOf(gbkOf, name)).Some?
    requires var x := Lookup(log, NameOf(gbkOf, name)).value;
      |x.entries| > 0 && x.start + |x.entries| <= |log| && Removed(log, x.start, |x.entries|, log')
    ensures ValidDir(gbkOf, log')
    ensures var m := MapOf(gbkOf, log);
      name in m && MapOf(gbkOf, log') == imap u | u in m && m[u] != m[name] :: m[u]
  {
    hide WellFormed, Groups, Bears, NamesDistinct, Removed;
    var x := Lookup(log, NameOf(gbkOf, name)).value;
    var s, n := x.start, |x.entries|;
    FoundAt(log, 0, NameOf(gbkOf, name));
    RemoveDropsGroup(log, s, x.entries, log');
    var before, after := Groups(log[..s], 0), Groups(log[s + n..], s + n);
    DroppedStaysDistinct(gbkOf, before, x, after);
    forall u
      ensures Lookup(log', NameOf(gbkOf, u)) ==
              if Lookup(log, NameOf(gbkOf, u)) == Some(x) then None else Lookup(log, NameOf(gbkOf, u))
    {
      DeleteUpdatesMap(log, NameOf(gbkOf, name), log', NameOf(gbkOf, u));
      if Bears(x.entries, NameOf(gbkOf, u)) {
        NobodyBears(gbkOf, before + after, u);
        OnlyThatGroup(gbkOf, before, x, after, u);
      } else if Lookup(log, NameOf(gbkOf, u)).Some? {
        NotFoundUnlessBorne(Groups(log, 0), NameOf(gbkOf, u));
      }
    }
  }

  lemma OnlyThatGroup(gbkOf: Conversion, before: seq<Group>, x: Group, after: seq<Group>, u: seq<byte>)
    requires x.entries != [] && Bears(x.entries, NameOf(gbkOf, u))
    requires forall i :: 0 <= i < |before + after| ==> !BearsAt(gbkOf, before + after, i, u)
    ensures FirstBearing(before + ([x] + after), NameOf(gbkOf, u)) == Some(x)
  {
    hide Bears;
    FirstBearingConcat(before, [x] + after, NameOf(gbkOf, u));
    FirstBearingConcat(before, after, NameOf(gbkOf, u));
    NobodyBears(gbkOf, before + after, u);
  }

  lemma {:induction false} NotFoundUnlessBorne(gs: seq<Group>, name: Name)
    requires FirstBearing(gs, name).Some?
    ensures var x := FirstBearing(gs, name).value; x.entries != [] && Bears(x.entries, name)
    decreases |gs|
  {
    hide Bears;
    if !(gs[0].entries != [] && Bears(gs[0].entries, name)) {
      NotFoundUnlessBorne(gs[1..], name);
    }
  }

  // ----- runs -----

  /** A create, which callers make only of absent names, or a delete. */
  datatype DirOp =
    | Make(utf16: seq<byte>, stem: seq<byte>, isDir: bool, stamp: seq<byte>)
    | Drop(utf16: seq<byte>)

  predicate Allowed(op: DirOp) {
    op.Make? ==>
      |op.utf16| > 0 && Even(|op.utf16|) && |op.stamp| == 5 && NoTerminator(op.utf16) && Creatable(op.utf16, op.stem)
  }

  /** What `Directory.CrtFileInner` (which may find no room) and `Directory.DelFile` do to the entries. */
  ghost predicate DirStep(gbkOf: Conversion, log: seq<Entry>, op: DirOp, log': seq<Entry>)
    requires Allowed(op)
  {
    var found := Lookup(log, NameOf(gbkOf, op.utf16));
    match op
    case Make(utf16, stem, isDir, stamp) =>
      log' == log || (found == None && exists range :: CreatedAt(log, log', range, utf16, stem, isDir, stamp))
    case Drop(_) =>
      if found == None then log' == log
      else
        var x := found.value;
        |x.entries| > 0 && x.start + |x.entries| <= |log| && Removed(log, x.start, |x.entries|, log')
  }

  /** The same step on a map: a name is added with some group of its own, or taken out with all its aliases. */
  ghost predicate MapStep(m: imap<seq<byte>, Group>, op: DirOp, m': imap<seq<byte>, Group>) {
    match op
    case Make(utf16, _, _, _) => m' == m || (utf16 !in m && utf16 in m' && m' == m[utf16 := m'[utf16]])
    case Drop(utf16) => if utf16 !in m then m' == m else m' == imap u | u in m && m[u] != m[utf16] :: m[u]
  }

  lemma StepRefinesMap(gbkOf: Conversion, log: seq<Entry>, op: DirOp, log': seq<Entry>)
    requires ValidDir(gbkOf, log) && Allowed(op) && DirStep(gbkOf, log, op, log')
    ensures ValidDir(gbkOf, log') && MapStep(MapOf(gbkOf, log), op, MapOf(gbkOf, log'))
  {
    hide ValidDir, Creatable, NoTerminator, Removed, Lookup;
    match op
    case Make(utf16, stem, isDir, stamp) =>
      if log' != log {
        var range :| CreatedAt(log, log', range, utf16, stem, isDir, stamp);
        CreateExtendsMap(gbkOf, log, log', range, utf16, stem, isDir, stamp);
      }
    case Drop(utf16) =>
      if Lookup(log, NameOf(gbkOf, utf16)).Some? {
        DeleteShrinksMap(gbkOf, log, utf16, log');
      }
  }

  ghost predicate DirRun(gbkOf: Conversion, logs: seq<seq<Entry>>, ops: seq<DirOp>) {
    && |logs| == |ops| + 1
    && forall i :: 0 <= i < |ops| ==> Allowed(ops[i]) && DirStep(gbkOf, logs[i], ops[i], logs[i + 1])
  }

  /**
   * Over every run of creates and deletes the directory stays well formed with distinct names, so every
   * scan over it stays within its checks, and each step is the corresponding step of a map from names to groups.
   */
  lemma {:induction false} RunRefinesMap(gbkOf: Conversion, logs: seq<seq<Entry>>, ops: seq<DirOp>, k: nat)
    requires DirRun(gbkOf, logs, ops) && ValidDir(gbkOf, logs[0]) && k <= |ops|
    ensures ValidDir(gbkOf, logs[k])
    ensures k < |ops| ==> MapStep(MapOf(gbkOf, logs[k]), ops[k], MapOf(gbkOf, logs[k + 1]))
  {
    hide ValidDir, MapStep, DirStep;
    if k > 0 {
      RunRefinesMap(gbkOf, logs, ops, k - 1);
      StepRefinesMap(gbkOf, logs[k - 1], ops[k - 1], logs[k]);
    }
    if k < |ops| {
      StepRefinesMap(gbkOf, logs[k], ops[k], logs[k + 1]);
    }
  }
}
