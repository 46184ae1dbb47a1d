/** What a rename does to the directories seen as maps from names to groups. */
module RenameMap {
  import opened Base
  import opened LongName
  import opened ShortEntry
  import opened DirLog
  import opened DirScan
  import opened DirUpdate
  import opened DirRuns

  /** The group with metadata written into its short entry. */
  function WithMetaIn(x: Group, m: Meta, isDir: bool): (r: Group)
    requires |x.entries| > 0 && ValidMeta(m)
    ensures r.start == x.start && |r.entries| == |x.entries|
  {
    Group(x.start, MetaWritten(x.entries, |x.entries| - 1, m, isDir))
  }

  /** Which file a group names, and how long that is: what its short entry says. */
  function MetaIn(x: Group): Meta
    requires |x.entries| > 0
  {
    MetaOf(x.entries[|x.entries| - 1])
  }

  lemma MetaInWritten(x: Group, m: Meta, isDir: bool)
    requires |x.entries| > 0 && ValidMeta(m)
    ensures MetaIn(WithMetaIn(x, m, isDir)) == if isDir then m.(size := MetaIn(x).size) else m
  {
  }

  ghost predicate SameNames(gbkOf: Conversion, x: Group, y: Group)
    requires |x.entries| > 0 && |y.entries| > 0
  {
    forall u :: Bears(x.entries, NameOf(gbkOf, u)) <==> Bears(y.entries, NameOf(gbkOf, u))
  }

  /** Replacing a group by one that bears the same names. */
  lemma ReplacedGroup(gbkOf: Conversion, before: seq<Group>, x: Group, y: Group, after: seq<Group>)
    requires |x.entries| > 0 && |y.entries| > 0 && SameNames(gbkOf, x, y)
    requires NamesDistinct(gbkOf, before + ([x] + after))
    ensures NamesDistinct(gbkOf, before + ([y] + after))
    ensures forall u ::
      (FirstBearing(before + ([y] + after), NameOf(gbkOf, u)) ==
       if Bears(x.entries, NameOf(gbkOf, u)) then Some(y) else FirstBearing(before + ([x] + after), NameOf(gbkOf, u)))
  {
    hide Bears;
    var a, b, k := before + ([x] + after), before + ([y] + after), |before|;
    forall i, u | 0 <= i < |b| ensures BearsAt(gbkOf, b, i, u) <==> BearsAt(gbkOf, a, i, u) {
      assert i != k ==> b[i] == a[i];
    }
    forall u
      ensures FirstBearing(b, NameOf(gbkOf, u)) ==
        if Bears(x.entries, NameOf(gbkOf, u)) then Some(y) else FirstBearing(a, NameOf(gbkOf, u))
    {
      ReplacedLookup(gbkOf, before, x, y, after, u);
    }
  }

  lemma ReplacedLookup(gbkOf: Conversion, before: seq<Group>, x: Group, y: Group, after: seq<Group>, u: seq<byte>)
    requires |x.entries| > 0 && |y.entries| > 0
    requires Bears(x.entries, NameOf(gbkOf, u)) <==> Bears(y.entries, NameOf(gbkOf, u))
    requires NamesDistinct(gbkOf, before + ([x] + after))
    ensures FirstBearing(before + ([y] + after), NameOf(gbkOf, u)) ==
      if Bears(x.entries, NameOf(gbkOf, u)) then Some(y) else FirstBearing(before + ([x] + after), NameOf(gbkOf, u))
  {
    hide Bears, NamesDistinct;
    var name := NameOf(gbkOf, u);
    FirstBearingConcat(before, [x] + after, name);
    FirstBearingConcat(before, [y] + after, name);
    if Bears(x.entries, name) {
      DroppedStaysDistinct(gbkOf, before, x, after);
      NobodyBears(gbkOf, before + after, u);
      FirstBearingConcat(before, after, name);
    }
  }

  /** In a valid directory exactly the names that a group bears are looked up as that group. */
  lemma LookedUpIffBorne(gbkOf: Conversion, log: seq<Entry>, name: seq<byte>, u: seq<byte>)
    requires ValidDir(gbkOf, log) && Lookup(log, NameOf(gbkOf, name)).Some?
    ensures var x := Lookup(log, NameOf(gbkOf, name)).value;
      |x.entries| > 0 && (Lookup(log, NameOf(gbkOf, u)) == Some(x) <==> Bears(x.entries, NameOf(gbkOf, u)))
  {
    hide WellFormed, Groups, Bears, NamesDistinct, HoldsGroup;
    FoundIsHeld(log, NameOf(gbkOf, name));
    var x := Lookup(log, NameOf(gbkOf, name)).value;
    HeldBetween(log, x.start, x.entries);
    var before, after := Groups(log[..x.start], 0), Groups(log[x.start + |x.entries|..], x.start + |x.entries|);
    if Bears(x.entries, NameOf(gbkOf, u)) {
      DroppedStaysDistinct(gbkOf, before, x, after);
      OnlyThatGroup(gbkOf, before, x, after, u);
    } else if Lookup(log, NameOf(gbkOf, u)).Some? {
      NotFoundUnlessBorne(Groups(log, 0), NameOf(gbkOf, u));
    }
  }

  /** Writing metadata changes the group of a name in place. */
  lemma MetaWrittenInMap(gbkOf: Conversion, log: seq<Entry>, name: seq<byte>, m: Meta, isDir: bool)
    requires ValidDir(gbkOf, log) && ValidMeta(m) && Lookup(log, NameOf(gbkOf, name)).Some?
    ensures var x := Lookup(log, NameOf(gbkOf, name)).value;
      && |x.entries| > 0 && x.start + |x.entries| <= |log|
      && var log' := MetaWritten(log, x.start + |x.entries| - 1, m, isDir);
      && ValidDir(gbkOf, log')
      && (forall u :: Lookup(log', NameOf(gbkOf, u)) ==
            if Lookup(log, NameOf(gbkOf, u)) == Some(x) then Some(WithMetaIn(x, m, isDir))
              else Lookup(log, NameOf(gbkOf, u)))
      && forall u ::
           Lookup(log', NameOf(gbkOf, u)) == Some(WithMetaIn(x, m, isDir)) <==> Lookup(log, NameOf(gbkOf, u)) == Some(x)
  {
    hide WellFormed, Groups, Bears, NamesDistinct, HoldsGroup, MetaWritten;
    FoundIsHeld(log, NameOf(gbkOf, name));
    var x := Lookup(log, NameOf(gbkOf, name)).value;
    var y := WithMetaIn(x, m, isDir);
    HeldBetween(log, x.start, x.entries);
    var log' := MetaWritten(log, x.start + |x.entries| - 1, m, isDir);
    var before, after := Groups(log[..x.start], 0), Groups(log[x.start + |x.entries|..], x.start + |x.entries|);
    forall u ensures Bears(y.entries, NameOf(gbkOf, u)) <==> Bears(x.entries, NameOf(gbkOf, u)) {
      MetaKeepsNames(log, x.start, x.entries, m, isDir, NameOf(gbkOf, u));
    }
    MetaKeepsNames(log, x.start, x.entries, m, isDir, NameOf(gbkOf, name));
    ReplacedGroup(gbkOf, before, x, y, after);
    forall u
      ensures Lookup(log', NameOf(gbkOf, u)) ==
           if Lookup(log, NameOf(gbkOf, u)) == Some(x) then Some(y) else Lookup(log, NameOf(gbkOf, u))
      ensures Lookup(log', NameOf(gbkOf, u)) == Some(y) <==> Lookup(log, NameOf(gbkOf, u)) == Some(x)
    {
      LookedUpIffBorne(gbkOf, log, name, u);
      LookedUpIffBorne(gbkOf, log', name, u);
    }
  }

  /** Marking a group's entries free takes its names out of the map. */
  lemma MarkedInMap(gbkOf: Conversion, log: seq<Entry>, name: seq<byte>)
    requires ValidDir(gbkOf, log) && Lookup(log, NameOf(gbkOf, name)).Some?
    ensures var x := Lookup(log, NameOf(gbkOf, name)).value;
      && x.start + |x.entries| <= |log|
      && var log' := Marked(log, x.start, |x.entries|);
      && ValidDir(gbkOf, log')
      && forall u :: Lookup(log', NameOf(gbkOf, u)) ==
           if Lookup(log, NameOf(gbkOf, u)) == Some(x) then None else Lookup(log, NameOf(gbkOf, u))
  {
    hide WellFormed, Groups, Bears, NamesDistinct, HoldsGroup, Marked;
    FoundIsHeld(log, NameOf(gbkOf, name));
    var x := Lookup(log, NameOf(gbkOf, name)).value;
    MarkDropsGroup(log, x.start, x.entries);
    var log' := Marked(log, x.start, |x.entries|);
    var before, after := Groups(log[..x.start], 0), Groups(log[x.start + |x.entries|..], x.start + |x.entries|);
    DroppedStaysDistinct(gbkOf, before, x, after);
    forall u
      ensures Lookup(log', NameOf(gbkOf, u)) ==
           if Lookup(log, NameOf(gbkOf, u)) == Some(x) then None else Lookup(log, NameOf(gbkOf, u))
    {
      LookedUpIffBorne(gbkOf, log, name, u);
      DropLookup(log, log', before, x, after, NameOf(gbkOf, u));
      if Bears(x.entries, NameOf(gbkOf, u)) {
        NobodyBears(gbkOf, before + after, u);
      }
    }
  }

  // ----- rename -----

  /** The map without the group `x` and with the source's metadata in the group `y`. */
  ghost function AfterRename(m: imap<seq<byte>, Group>, x: Group, y: Group, source: Meta,
                             isDir: bool): imap<seq<byte>, Group>
    requires |y.entries| > 0 && ValidMeta(source)
  {
    imap u | u in m && m[u] != x :: if m[u] == y then WithMetaIn(y, source, isDir) else m[u]
  }

  /**
   * Within one directory: the old name is gone, the new name leads to what the old one led to, and every
   * other name is untouched.
   */
  lemma RenameWithinDir(gbkOf: Conversion, log: seq<Entry>, log': seq<Entry>, from: seq<byte>, to: seq<byte>,
                        source: Meta, target: Meta, isDir: bool)
    requires ValidDir(gbkOf, log) && ValidMeta(source) && ValidMeta(target)
    requires Lookup(log, NameOf(gbkOf, from)).Some? && Lookup(log, NameOf(gbkOf, to)).Some?
    requires var x, y := Lookup(log, NameOf(gbkOf, from)).value, Lookup(log, NameOf(gbkOf, to)).value;
      && x != y && |x.entries| > 0 && |y.entries| > 0 && x.start + |x.entries| <= |log|
        && y.start + |y.entries| <= |log|
      && Moved(log, log', log, log', true, x.start, |x.entries|, y.start + |y.entries| - 1, source, target, isDir)
    ensures ValidDir(gbkOf, log')
    ensures var x, y := Lookup(log, NameOf(gbkOf, from)).value, Lookup(log, NameOf(gbkOf, to)).value;
      && MapOf(gbkOf, log') == AfterRename(MapOf(gbkOf, log), x, y, source, isDir)
      && MetaIn(WithMetaIn(y, source, isDir)) == if isDir then source.(size := MetaIn(y).size) else source
  {
    hide ValidDir, Lookup, MetaWritten, Marked, WithMetaIn;
    var x, y := Lookup(log, NameOf(gbkOf, from)).value, Lookup(log, NameOf(gbkOf, to)).value;
    MetaInWritten(y, source, isDir);
    MetaWrittenInMap(gbkOf, log, to, source, isDir);
    var mid := MetaWritten(log, y.start + |y.entries| - 1, source, isDir);
    MetaThenMarked(gbkOf, mid, from, target, isDir);
  }

  /** What remains of the source's directory: its metadata was written, then its group marked free. */
  lemma MetaThenMarked(gbkOf: Conversion, log: seq<Entry>, from: seq<byte>, m: Meta, isDir: bool)
    requires ValidDir(gbkOf, log) && ValidMeta(m) && Lookup(log, NameOf(gbkOf, from)).Some?
    ensures var x := Lookup(log, NameOf(gbkOf, from)).value;
      && |x.entries| > 0 && x.start + |x.entries| <= |log|
      && var log' := Marked(MetaWritten(log, x.start + |x.entries| - 1, m, isDir), x.start, |x.entries|);
      && ValidDir(gbkOf, log')
      && forall u :: Lookup(log', NameOf(gbkOf, u)) ==
           if Lookup(log, NameOf(gbkOf, u)) == Some(x) then None else Lookup(log, NameOf(gbkOf, u))
  {
    hide ValidDir, Lookup, MetaWritten, Marked, WithMetaIn;
    var x := Lookup(log, NameOf(gbkOf, from)).value;
    MetaWrittenInMap(gbkOf, log, from, m, isDir);
    var mid := MetaWritten(log, x.start + |x.entries| - 1, m, isDir);
    MarkedInMap(gbkOf, mid, from);
  }

  /** Across two directories: the old name leaves its directory, the new name leads to what the old one led to. */
  lemma RenameAcrossDirs(gbkOf: Conversion, l: seq<Entry>, l': seq<Entry>, m: seq<Entry>, m': seq<Entry>,
                         from: seq<byte>, to: seq<byte>, source: Meta, target: Meta, isDir: bool)
    requires ValidDir(gbkOf, l) && ValidDir(gbkOf, m) && ValidMeta(source) && ValidMeta(target)
    requires Lookup(l, NameOf(gbkOf, from)).Some? && Lookup(m, NameOf(gbkOf, to)).Some?
    requires var x, y := Lookup(l, NameOf(gbkOf, from)).value, Lookup(m, NameOf(gbkOf, to)).value;
      && |x.entries| > 0 && |y.entries| > 0 && x.start + |x.entries| <= |l| && y.start + |y.entries| <= |m|
      && Moved(l, l', m, m', false, x.start, |x.entries|, y.start + |y.entries| - 1, source, target, isDir)
    ensures ValidDir(gbkOf, l') && ValidDir(gbkOf, m')
    ensures var x, y := Lookup(l, NameOf(gbkOf, from)).value, Lookup(m, NameOf(gbkOf, to)).value;
      && MapOf(gbkOf, l') == (imap u | u in MapOf(gbkOf, l) && MapOf(gbkOf, l)[u] != x :: MapOf(gbkOf, l)[u])
      && MapOf(gbkOf, m') == (imap u | u in MapOf(gbkOf, m) ::
           if MapOf(gbkOf, m)[u] == y then WithMetaIn(y, source, isDir) else MapOf(gbkOf, m)[u])
      && MetaIn(WithMetaIn(y, source, isDir)) == if isDir then source.(size := MetaIn(y).size) else source
  {
    hide *;
    TargetDirMap(gbkOf, m, to, source, isDir);
    SourceDirMap(gbkOf, l, from, target, isDir);
    MovedApart(l, l', m, m', Lookup(l, NameOf(gbkOf, from)).value, Lookup(m, NameOf(gbkOf, to)).value, source, target,
      isDir);
  }

  lemma MovedApart(l: seq<Entry>, l': seq<Entry>, m: seq<Entry>, m': seq<Entry>, x: Group, y: Group, source: Meta,
                   target: Meta, isDir: bool)
    requires |x.entries| > 0 && |y.entries| > 0 && x.start + |x.entries| <= |l| && y.start + |y.entries| <= |m|
    requires ValidMeta(source) && ValidMeta(target)
    requires Moved(l, l', m, m', false, x.start, |x.entries|, y.start + |y.entries| - 1, source, target, isDir)
    ensures m' == MetaWritten(m, y.start + |y.entries| - 1, source, isDir)
    ensures l' == Marked(MetaWritten(l, x.start + |x.entries| - 1, target, isDir), x.start, |x.entries|)
  {
  }

  lemma TargetDirMap(gbkOf: Conversion, m: seq<Entry>, to: seq<byte>, source: Meta, isDir: bool)
    requires ValidDir(gbkOf, m) && ValidMeta(source) && Lookup(m, NameOf(gbkOf, to)).Some?
    ensures var y := Lookup(m, NameOf(gbkOf, to)).value;
      && |y.entries| > 0 && y.start + |y.entries| <= |m|
      && var m' := MetaWritten(m, y.start + |y.entries| - 1, source, isDir);
      && ValidDir(gbkOf, m')
      && MapOf(gbkOf, m') == (imap u | u in MapOf(gbkOf, m) ::
           if MapOf(gbkOf, m)[u] == y then WithMetaIn(y, source, isDir) else MapOf(gbkOf, m)[u])
      && MetaIn(WithMetaIn(y, source, isDir)) == if isDir then source.(size := MetaIn(y).size) else source
  {
    hide ValidDir, Lookup, MetaWritten, WithMetaIn;
    MetaWrittenInMap(gbkOf, m, to, source, isDir);
    MetaInWritten(Lookup(m, NameOf(gbkOf, to)).value, source, isDir);
  }

  lemma SourceDirMap(gbkOf: Conversion, l: seq<Entry>, from: seq<byte>, target: Meta, isDir: bool)
    requires ValidDir(gbkOf, l) && ValidMeta(target) && Lookup(l, NameOf(gbkOf, from)).Some?
    ensures var x := Lookup(l, NameOf(gbkOf, from)).value;
      && |x.entries| > 0 && x.start + |x.entries| <= |l|
      && var l' := Marked(MetaWritten(l, x.start + |x.entries| - 1, target, isDir), x.start, |x.entries|);
      && ValidDir(gbkOf, l')
      && MapOf(gbkOf, l') == imap u | u in MapOf(gbkOf, l) && MapOf(gbkOf, l)[u] != x :: MapOf(gbkOf, l)[u]
  {
    hide ValidDir, Lookup, MetaWritten, Marked, WithMetaIn;
    MetaThenMarked(gbkOf, l, from, target, isDir);
  }

  /** Renaming a file onto itself leaves none of its names. */
  lemma RenameOntoItselfDestroys(gbkOf: Conversion, log: seq<Entry>, log': seq<Entry>, from: seq<byte>, m: Meta,
                                 isDir: bool)
    requires ValidDir(gbkOf, log) && ValidMeta(m) && Lookup(log, NameOf(gbkOf, from)).Some?
    requires var x := Lookup(log, NameOf(gbkOf, from)).value;
      && |x.entries| > 0 && x.start + |x.entries| <= |log|
      && var i := x.start + |x.entries| - 1;
      log' == Marked(MetaWritten(MetaWritten(log, i, m, isDir), i, m, isDir), x.start, |x.entries|)
    ensures ValidDir(gbkOf, log') && from !in MapOf(gbkOf, log')
    ensures var x := Lookup(log, NameOf(gbkOf, from)).value;
      MapOf(gbkOf, log') == imap u | u in MapOf(gbkOf, log) && MapOf(gbkOf, log)[u] != x :: MapOf(gbkOf, log)[u]
  {
    hide ValidDir, Lookup, MetaWritten, Marked, WithMetaIn;
    var x := Lookup(log, NameOf(gbkOf, from)).value;
    MetaWrittenInMap(gbkOf, log, from, m, isDir);
    MetaThenMarked(gbkOf, MetaWritten(log, x.start + |x.entries| - 1, m, isDir), from, m, isDir);
  }

  /** A new group is what its name, and no other, leads to. */
  lemma NewGroupIn(gbkOf: Conversion, log: seq<Entry>, mid: seq<Entry>, range: DirEntryRange,
                   utf16: seq<byte>, stem: seq<byte>, isDir: bool, stamp: seq<byte>, u: seq<byte>)
    requires |utf16| > 0 && Even(|utf16|) && |stamp| == 5 && NoTerminator(utf16) && Creatable(utf16, stem)
    requires ValidDir(gbkOf, log) && Lookup(log, NameOf(gbkOf, utf16)) == None
    requires CreatedAt(log, mid, range, utf16, stem, isDir, stamp)
    ensures range.start + range.count <= |mid| && range.count > 1 && ValidDir(gbkOf, mid)
    ensures var y := Group(range.start, mid[range.start..range.start + range.count]);
      && Lookup(mid, NameOf(gbkOf, utf16)) == Some(y)
      && (Lookup(mid, NameOf(gbkOf, u)) == Some(y) <==> u == utf16)
      && (u != utf16 ==> Lookup(mid, NameOf(gbkOf, u)) == Lookup(log, NameOf(gbkOf, u)))
  {
    hide ValidDir, Lookup, Bears, Creatable, NoTerminator, FirstRun, IsNewGroup;
    var y := Group(range.start, mid[range.start..range.start + range.count]);
    CreateExtendsMap(gbkOf, log, mid, range, utf16, stem, isDir, stamp);
    OnlyBears(gbkOf, y.entries, utf16, stem, isDir, stamp);
    assert utf16 in MapOf(gbkOf, mid) && MapOf(gbkOf, mid)[utf16] == y;
    LookedUpIffBorne(gbkOf, mid, utf16, u);
    assert u != utf16 ==> (u in MapOf(gbkOf, mid) <==> u in MapOf(gbkOf, log));
  }

  /** A new group says that the file has no clusters and no size. */
  lemma NewGroupSays(g: seq<Entry>, start: nat, utf16: seq<byte>, stem: seq<byte>, isDir: bool, stamp: seq<byte>)
    requires |utf16| > 0 && Even(|utf16|) && |stamp| == 5 && IsNewGroup(g, utf16, stem, isDir, stamp)
    ensures MetaIn(Group(start, g)) == Meta(stamp, stamp[3..], stamp[1..], 0, 0)
  {
  }

  /**
   * Renaming within one directory to a name that did not exist: afterwards it leads to a group, where the
   * placeholder was made, that says what the old name's group said; the old name is gone.
   */
  lemma RenameToNewWithinDir(gbkOf: Conversion, log: seq<Entry>, mid: seq<Entry>, log': seq<Entry>,
                             range: DirEntryRange, from: seq<byte>, utf16: seq<byte>, stem: seq<byte>, isDir: bool,
                             stamp: seq<byte>, source: Meta, placeholder: Meta)
    requires |utf16| > 0 && Even(|utf16|) && |stamp| == 5 && NoTerminator(utf16) && Creatable(utf16, stem)
    requires ValidMeta(source) && ValidMeta(placeholder)
    requires ValidDir(gbkOf, log) && Lookup(log, NameOf(gbkOf, utf16)) == None && Lookup(log, NameOf(gbkOf, from)).Some?
    requires CreatedAt(log, mid, range, utf16, stem, isDir, stamp)
    requires var x := Lookup(log, NameOf(gbkOf, from)).value;
      && |x.entries| > 0 && x.start + |x.entries| <= |mid| && range.start + range.count <= |mid| && range.count > 0
      && Moved(mid, log', mid, log', true, x.start, |x.entries|, range.start + range.count - 1, source, placeholder,
        isDir)
    ensures ValidDir(gbkOf, log') && from !in MapOf(gbkOf, log') && utf16 in MapOf(gbkOf, log')
    ensures var y := MapOf(gbkOf, log')[utf16];
      y.start == range.start && |y.entries| == range.count > 0 && MetaIn(y) == if isDir then source.(size := 0)
        else source
    ensures var x, m := Lookup(log, NameOf(gbkOf, from)).value, MapOf(gbkOf, log);
      MapOf(gbkOf, log') == (imap u | u in m && m[u] != x :: m[u])[utf16 := MapOf(gbkOf, log')[utf16]]
  {
    hide ValidDir, Lookup, Bears, Creatable, NoTerminator, Moved, WithMetaIn, IsNewGroup, FirstRun;
    var x := Lookup(log, NameOf(gbkOf, from)).value;
    var y := Group(range.start, mid[range.start..range.start + range.count]);
    forall u
      ensures Lookup(mid, NameOf(gbkOf, u)) == Some(y) <==> u == utf16
      ensures u != utf16 ==> Lookup(mid, NameOf(gbkOf, u)) == Lookup(log, NameOf(gbkOf, u))
    {
      NewGroupIn(gbkOf, log, mid, range, utf16, stem, isDir, stamp, u);
    }
    NewGroupIn(gbkOf, log, mid, range, utf16, stem, isDir, stamp, from);
    RenameWithinDir(gbkOf, mid, log', from, utf16, source, placeholder, isDir);
    NewGroupSays(y.entries, range.start, utf16, stem, isDir, stamp);
    var m, m' := MapOf(gbkOf, log), MapOf(gbkOf, log');
  }

  /** The same across two directories, for the one that gets the new name. */
  lemma RenameToNewAcrossDirs(gbkOf: Conversion, log: seq<Entry>, mid: seq<Entry>, log': seq<Entry>,
                              range: DirEntryRange, utf16: seq<byte>, stem: seq<byte>, isDir: bool, stamp: seq<byte>,
                              source: Meta)
    requires |utf16| > 0 && Even(|utf16|) && |stamp| == 5 && NoTerminator(utf16) && Creatable(utf16, stem)
    requires ValidMeta(source)
    requires ValidDir(gbkOf, log) && Lookup(log, NameOf(gbkOf, utf16)) == None
    requires CreatedAt(log, mid, range, utf16, stem, isDir, stamp)
    requires range.start + range.count <= |mid| && range.count > 0
    requires log' == MetaWritten(mid, range.start + range.count - 1, source, isDir)
    ensures ValidDir(gbkOf, log') && utf16 in MapOf(gbkOf, log')
    ensures var y := MapOf(gbkOf, log')[utf16];
      && y.start == range.start && |y.entries| == range.count > 0
      && MetaIn(y) == (if isDir then source.(size := 0) else source)
      && MapOf(gbkOf, log') == MapOf(gbkOf, log)[utf16 := y]
  {
    hide ValidDir, Lookup, Bears, Creatable, NoTerminator, WithMetaIn, IsNewGroup, FirstRun, MetaWritten;
    var y := Group(range.start, mid[range.start..range.start + range.count]);
    forall u
      ensures Lookup(mid, NameOf(gbkOf, u)) == Some(y) <==> u == utf16
      ensures u != utf16 ==> Lookup(mid, NameOf(gbkOf, u)) == Lookup(log, NameOf(gbkOf, u))
    {
      NewGroupIn(gbkOf, log, mid, range, utf16, stem, isDir, stamp, u);
    }
    NewGroupIn(gbkOf, log, mid, range, utf16, stem, isDir, stamp, utf16);
    MetaWrittenInMap(gbkOf, mid, utf16, source, isDir);
    MetaInWritten(y, source, isDir);
    NewGroupSays(y.entries, range.start, utf16, stem, isDir, stamp);
  }
}
