/** What files do to their own entries in a directory: writing metadata back, and marking the entries free. */
module DirUpdate {
  import opened LongName
  import opened ShortName
  import opened ShortEntry
  import opened DirLog

  /** The entry with its first byte set to the mark of a free entry. */
  function Freed(e: Entry): (r: Entry)
    ensures IsEmpty(r) && !IsLastEmpty(r)
  {
    e[0 := 0xE5]
  }

  /** `n` entries from `s` on marked free in place. */
  function Marked(log: seq<Entry>, s: nat, n: nat): (r: seq<Entry>)
    requires s + n <= |log|
    ensures |r| == |log| && forall i :: 0 <= i < |log| ==> r[i] == if s <= i < s + n then Freed(log[i]) else log[i]
  {
    seq(|log|, i requires 0 <= i < |log| => if s <= i < s + n then Freed(log[i]) else log[i])
  }

  /** Only the first byte of the entries changes. */
  lemma MarkedBytes(log: seq<Entry>, s: nat, n: nat, i: nat)
    requires s + n <= |log| && i < |log|
    ensures Marked(log, s, n)[i][0] == (if s <= i < s + n then 0xE5 else log[i][0])
    ensures Marked(log, s, n)[i][1..] == log[i][1..]
  {
  }

  lemma MarkedMore(log: seq<Entry>, s: nat, n: nat)
    requires s + n < |log|
    ensures Marked(log, s, n)[s + n := Freed(Marked(log, s, n)[s + n])] == Marked(log, s, n + 1)
  {
  }

  lemma MarkedNone(log: seq<Entry>, s: nat)
    requires s <= |log|
    ensures Marked(log, s, 0) == log
  {
  }

  /** A file that marks its own entries free drops its group. */
  lemma MarkDropsGroup(log: seq<Entry>, s: nat, g: seq<Entry>)
    requires HoldsGroup(log, s, g)
    ensures s + |g| <= |log| && WellFormed(Marked(log, s, |g|))
    ensures var before, after := Groups(log[..s], 0), Groups(log[s + |g|..], s + |g|);
      && Groups(log, 0) == before + ([Group(s, g)] + after)
      && Groups(Marked(log, s, |g|), 0) == before + after
  {
    hide WellFormed, Groups, ValidGroup, HoldsGroup;
    HeldBetween(log, s, g);
    MarkedSplits(log, s, |g|);
    FreeBetween(log[..s], Marked(log, s, |g|)[s..s + |g|], log[s + |g|..]);
  }

  lemma MarkedSplits(log: seq<Entry>, s: nat, n: nat)
    requires s + n <= |log|
    ensures var r := Marked(log, s, n);
      r == log[..s] + (r[s..s + n] + log[s + n..]) && AllEmpty(r[s..s + n]) && NoEnd(r[s..s + n])
  {
  }

  /** Marking the first entry of a deleted name free once more changes no name, even if it has become the terminator. */
  lemma MarkAfterRemove(log: seq<Entry>, s: nat, g: seq<Entry>, log': seq<Entry>)
    requires HoldsGroup(log, s, g) && |g| > 0 && s + |g| <= |log| && Removed(log, s, |g|, log')
    ensures s < |log'| && !IsLong(log'[s]) && WellFormed(Marked(log', s, 1))
    ensures Groups(Marked(log', s, 1), 0) == Groups(log', 0)
  {
    hide *;
    FirstRemoved(log, s, |g|, log');
    if AllEmpty(log[s + |g|..]) {
      MarkAfterCut(log, s, g, log');
    } else {
      RemoveDropsGroup(log, s, g, log');
      MarkedNothing(log', s);
    }
  }

  lemma MarkAfterCut(log: seq<Entry>, s: nat, g: seq<Entry>, log': seq<Entry>)
    requires HoldsGroup(log, s, g) && |g| > 0 && s + |g| <= |log| && Removed(log, s, |g|, log')
    requires AllEmpty(log[s + |g|..]) && s < |log'| && log'[..s] == log[..s]
    ensures WellFormed(Marked(log', s, 1)) && Groups(Marked(log', s, 1), 0) == Groups(log', 0)
  {
    hide WellFormed, Groups, ValidGroup, HoldsGroup, Removed, AllEmpty, NoEnd, Marked;
    HeldBetween(log, s, g);
    CutIsEmpty(log, s, |g|, log');
    MarkInTail(log', s);
  }

  lemma MarkInTail(log: seq<Entry>, s: nat)
    requires s < |log| && WellFormed(log[..s]) && NoEnd(log[..s]) && AllEmpty(log[s..])
    ensures WellFormed(Marked(log, s, 1)) && Groups(Marked(log, s, 1), 0) == Groups(log, 0)
  {
    hide WellFormed, Groups, Marked;
    MarkedTailEmpty(log, s);
    OnlyFreeAfter(log[..s], log[s..], [], 0);
    OnlyFreeAfter(log[..s], Marked(log, s, 1)[s..], [], 0);
    assert log == log[..s] + log[s..];
  }

  lemma MarkedNothing(log: seq<Entry>, s: nat)
    requires s < |log| && log[s] == TOMBSTONE
    ensures Marked(log, s, 1) == log
  {
    assert Freed(TOMBSTONE) == TOMBSTONE;
  }

  lemma FirstRemoved(log: seq<Entry>, s: nat, n: nat, log': seq<Entry>)
    requires n > 0 && s + n <= |log| && Removed(log, s, n, log')
    ensures s < |log'| && !IsLong(log'[s]) && log'[..s] == log[..s]
    ensures !AllEmpty(log[s + n..]) ==> log'[s] == TOMBSTONE
  {
  }

  lemma MarkedTailEmpty(log: seq<Entry>, s: nat)
    requires s < |log| && AllEmpty(log[s..])
    ensures AllEmpty(Marked(log, s, 1)[s..]) && Marked(log, s, 1) == log[..s] + Marked(log, s, 1)[s..]
  {
  }

  // ----- metadata -----

  function MetaWritten(log: seq<Entry>, k: nat, m: Meta, isDir: bool): (r: seq<Entry>)
    requires k < |log| && ValidMeta(m)
    ensures |r| == |log|
  {
    log[k := WithMeta(log[k], m, isDir)]
  }

  /** Writing metadata into a group's short entry keeps the group and every name it bears. */
  lemma MetaKeepsNames(log: seq<Entry>, s: nat, g: seq<Entry>, m: Meta, isDir: bool, name: Name)
    requires HoldsGroup(log, s, g) && ValidMeta(m)
    ensures |g| > 0 && s + |g| <= |log|
    ensures var g', log' := MetaWritten(g, |g| - 1, m, isDir), MetaWritten(log, s + |g| - 1, m, isDir);
      && HoldsGroup(log', s, g') && (Bears(g', name) <==> Bears(g, name))
      && WellFormed(log')
      && Groups(log', 0) == Groups(log[..s], 0) + ([Group(s, g')] + Groups(log[s + |g|..], s + |g|))
  {
    hide WellFormed, Groups, ValidGroup, StoredSum, WithMeta;
    HeldBetween(log, s, g);
    var g', log' := MetaWritten(g, |g| - 1, m, isDir), MetaWritten(log, s + |g| - 1, m, isDir);
    assert log[s + |g| - 1] == g[|g| - 1];
    assert log'[..s] == log[..s] && log'[s + |g|..] == log[s + |g|..];
    assert log'[s..s + |g|] == g';
    MetaKeepsValid(g, m, isDir, name);
    assert log' == log[..s] + (g' + log[s + |g|..]);
    GroupBetween(log[..s], g', log[s + |g|..]);
  }

  lemma MetaKeepsValid(g: seq<Entry>, m: Meta, isDir: bool, name: Name)
    requires ValidGroup(g) && ValidMeta(m)
    ensures var g' := MetaWritten(g, |g| - 1, m, isDir);
      ValidGroup(g') && (Bears(g', name) <==> Bears(g, name))
  {
    hide WithMeta, JoinLong, DottedName, BasisFromShort, Sum;
    var n := |g| - 1;
    var g' := MetaWritten(g, n, m, isDir);
    MetaRoundTrip(g[n], m, isDir);
  }

  /**
   * What is left of the entries `l` of the source's directory and `m` of the target's, whose short entries
   * are `i` and `j`: the target's has got the source's metadata, the source's group is marked free.
   */
  ghost predicate Moved(l: seq<Entry>, l': seq<Entry>, m: seq<Entry>, m': seq<Entry>, same: bool, s: nat, n: nat,
                        j: nat, source: Meta, target: Meta, isDir: bool)
    requires n > 0 && s + n <= |l| && j < |m| && ValidMeta(source) && ValidMeta(target) && (same ==> l == m)
  {
    if same then
      l' == Marked(MetaWritten(MetaWritten(m, j, source, isDir), s + n - 1, target, isDir), s, n)
    else
      m' == MetaWritten(m, j, source, isDir) && l' == Marked(MetaWritten(l, s + n - 1, target, isDir), s, n)
  }
}
