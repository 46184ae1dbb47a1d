/**
 * The file allocation table as a value: cluster `n` links to `Link(t, n)`.
 *
 * Chains, the writes that the allocator makes to them, and which clusters are free.
 */
module FatTable {
  import opened Base

  const LINK_SPACE := 0x1000_0000
  const EOC_MARK := 0x0FFF_FFF8
  const NO_HINT := 0xFFFF_FFFF

  /** `entry & 0x0FFFFFFF`: the link held by a raw entry. */
  function LinkOf(entry: u32): nat {
    entry % LINK_SPACE
  }

  /** `(entry & 0xF0000000) | (v & 0x0FFFFFFF)`: the top four bits survive. */
  function Stamp(entry: u32, v: nat): (r: u32)
    ensures LinkOf(r) == v % LINK_SPACE
    ensures r / LINK_SPACE == entry / LINK_SPACE
  {
    entry / LINK_SPACE * LINK_SPACE + v % LINK_SPACE
  }

  function Link(t: seq<u32>, n: nat): nat
    requires n < |t|
  {
    LinkOf(t[n])
  }

  function SetLink(t: seq<u32>, n: nat, v: nat): (r: seq<u32>)
    requires n < |t|
    ensures |r| == |t|
    ensures Link(r, n) == v % LINK_SPACE
    ensures forall m :: 0 <= m < |t| && m != n ==> r[m] == t[m]
  {
    t[n := Stamp(t[n], v)]
  }

  predicate IsEnd(v: nat) {
    v >= EOC_MARK
  }

  /**
   * The low 28 bits of an entry are its link and the top four are nobody's; the eight highest links mark an end. Of the
   * entries F0000003 and FFFFFFF8 only the second is an end, and it is what marking the first as one leaves.
   */
  lemma EntryLayout(entry: u32, v: nat)
    ensures LinkOf(entry) < 0x1000_0000 && (entry - LinkOf(entry)) % 0x1000_0000 == 0
    ensures IsEnd(LinkOf(entry)) <==> 0x0FFF_FFF8 <= entry % 0x1000_0000 <= 0x0FFF_FFFF
    ensures v < 0x1000_0000 ==> entry - entry % 0x1000_0000 + v == Stamp(entry, v)
    ensures LinkOf(0xF000_0003) == 3 && Stamp(0xF000_0003, EOC_MARK) == 0xFFFF_FFF8
  {
    assert entry == entry / 0x1000_0000 * 0x1000_0000 + entry % 0x1000_0000;
  }

  predicate IsUsableNo(n: nat) {
    n != 0 && n != 1
  }

  predicate Distinct(c: seq<nat>) {
    forall i, j :: 0 <= i < j < |c| ==> c[i] != c[j]
  }

  predicate InTable(t: seq<u32>, c: seq<nat>) {
    forall i :: 0 <= i < |c| ==> 2 <= c[i] < |t| && c[i] < EOC_MARK
  }

  // ----- chains -----

  predicate IsChain(t: seq<u32>, c: seq<nat>) {
    && |c| > 0
    && InTable(t, c)
    && (forall i :: 0 <= i < |c| - 1 ==> Link(t, c[i]) == c[i + 1])
    && IsEnd(Link(t, c[|c| - 1]))
  }

  /** The chain of a file whose first cluster field holds `fst`; a file without clusters holds 0 or 1. */
  predicate FileChain(t: seq<u32>, fst: nat, c: seq<nat>) {
    if c == [] then fst < 2 else c[0] == fst && IsChain(t, c)
  }

  lemma {:induction false} RepeatRepeats(t: seq<u32>, c: seq<nat>, i: nat, j: nat, m: nat)
    requires IsChain(t, c) && i < j && j + m < |c| && c[i] == c[j]
    ensures c[i + m] == c[j + m]
  {
    if m > 0 {
      RepeatRepeats(t, c, i, j, m - 1);
    }
  }

  lemma LastIsNotLinked(t: seq<u32>, c: seq<nat>, k: nat)
    requires IsChain(t, c) && k < |c| - 1
    ensures c[k] != c[|c| - 1]
  {
    assert Link(t, c[k]) == c[k + 1];
  }

  /** An end-marked chain visits no cluster twice, so walking it terminates. */
  lemma ChainIsAcyclic(t: seq<u32>, c: seq<nat>)
    requires IsChain(t, c)
    ensures Distinct(c)
  {
    forall i, j | 0 <= i < j < |c| ensures c[i] != c[j] {
      var m := |c| - 1 - j;
      LastIsNotLinked(t, c, i + m);
      if c[i] == c[j] {
        RepeatRepeats(t, c, i, j, m);
      }
    }
  }

  /** A first cluster has at most one chain. */
  lemma {:induction false} ChainIsUnique(t: seq<u32>, fst: nat, c: seq<nat>, d: seq<nat>)
    requires FileChain(t, fst, c) && FileChain(t, fst, d)
    ensures c == d
    decreases |c|
  {
    if c != [] && d != [] {
      assert |d| > 1 ==> Link(t, d[0]) == d[1];
      if |c| > 1 && |d| > 1 {
        ChainIsUnique(t, c[1], c[1..], d[1..]);
      }
    }
  }

  lemma ChainTail(t: seq<u32>, c: seq<nat>, i: nat)
    requires IsChain(t, c) && i < |c|
    ensures IsChain(t, c[i..])
  {
  }

  /** Chains that never meet in a link stay apart: a shared cluster means a shared tail. */
  lemma SharedClusterSharesTail(t: seq<u32>, c: seq<nat>, d: seq<nat>, i: nat, j: nat)
    requires IsChain(t, c) && IsChain(t, d) && i < |c| && j < |d| && c[i] == d[j]
    ensures c[i..] == d[j..]
  {
    ChainTail(t, c, i);
    ChainTail(t, d, j);
    ChainIsUnique(t, c[i], c[i..], d[j..]);
  }

  /** A chain is untouched by writes to other entries. */
  lemma ChainFrame(t: seq<u32>, u: seq<u32>, c: seq<nat>)
    requires IsChain(t, c) && |t| == |u|
    requires forall i :: 0 <= i < |c| ==> t[c[i]] == u[c[i]]
    ensures IsChain(u, c)
  {
  }

  // ----- the allocator's writes -----

  /** One call of `writeFatEntry`: the entry of `clus` gets the link `link`. */
  datatype Write = Write(clus: nat, link: nat)

  predicate Within(c: seq<nat>, size: nat) {
    forall i :: 0 <= i < |c| ==> c[i] < size
  }

  predicate WritesWithin(ws: seq<Write>, size: nat) {
    forall i :: 0 <= i < |ws| ==> ws[i].clus < size
  }

  function Written(t: seq<u32>, ws: seq<Write>): (r: seq<u32>)
    requires WritesWithin(ws, |t|)
    ensures |r| == |t|
  {
    if ws == [] then t
    else SetLink(Written(t, ws[..|ws| - 1]), ws[|ws| - 1].clus, ws[|ws| - 1].link)
  }

  /** The scan writes `pre -> cur` when it finds `cur`; a 0 in `pre` means that there is no `pre` yet. */
  function OpenWrites(c: seq<nat>): (r: seq<Write>)
    ensures forall i :: 0 <= i < |r| ==> r[i].clus in c
  {
    if |c| <= 1 then []
    else
      var before := OpenWrites(c[..|c| - 1]);
      if c[|c| - 2] != 0 then before + [Write(c[|c| - 2], c[|c| - 1])] else before
  }

  function LinkWrites(c: seq<nat>): (r: seq<Write>)
    requires |c| > 0
    ensures forall i :: 0 <= i < |r| ==> r[i].clus in c
  {
    OpenWrites(c) + [Write(c[|c| - 1], EOC_MARK)]
  }

  function ZeroWrites(c: seq<nat>): (r: seq<Write>)
    ensures forall i :: 0 <= i < |r| ==> r[i].clus in c
  {
    if c == [] then [] else ZeroWrites(c[..|c| - 1]) + [Write(c[|c| - 1], 0)]
  }

  lemma ZeroWritesEmpty()
    ensures ZeroWrites([]) == []
  {
  }

  lemma ZeroWritesMore(c: seq<nat>, i: nat)
    requires i < |c|
    ensures ZeroWrites(c[..i + 1]) == ZeroWrites(c[..i]) + [Write(c[i], 0)]
  {
    assert c[..i + 1][..i] == c[..i];
  }

  /** Old chain `c` cut to its first `n` clusters. */
  function ShrinkWrites(c: seq<nat>, n: nat): (r: seq<Write>)
    requires n <= |c|
    ensures forall i :: 0 <= i < |r| ==> r[i].clus in c
  {
    (if n > 0 then [Write(c[n - 1], EOC_MARK)] else []) + ZeroWrites(c[n..])
  }

  /** What `resize` has written after walking `i` clusters of `c` on its way to `n`. */
  function ShrinkProgress(c: seq<nat>, n: nat, i: nat): (r: seq<Write>)
    requires i <= |c|
    ensures forall j :: 0 <= j < |r| ==> r[j].clus in c[..i]
  {
    if i < n then [] else ShrinkWrites(c[..i], n)
  }

  lemma ShrinkProgressStep(c: seq<nat>, n: nat, i: nat)
    requires i < |c|
    ensures ShrinkProgress(c, n, i + 1) ==
            if i + 1 < n then ShrinkProgress(c, n, i)
            else ShrinkProgress(c, n, i) + [Write(c[i], if i + 1 == n then EOC_MARK else 0)]
  {
    var p, q := c[..i], c[..i + 1];
    if i + 1 == n {
      assert q[n..] == [];
    } else if i >= n {
      assert q[n..] == p[n..] + [c[i]];
    }
  }

  lemma ShrinkProgressStart(c: seq<nat>, n: nat)
    ensures ShrinkProgress(c, n, 0) == []
  {
  }

  lemma ShrinkProgressEnd(c: seq<nat>, n: nat)
    ensures ShrinkProgress(c, n, |c|) == if n <= |c| then ShrinkWrites(c, n) else []
  {
    assert c[..|c|] == c;
  }

  /** Freshly taken clusters `d` appended to chain `c`. */
  function GrowWrites(c: seq<nat>, d: seq<nat>): (r: seq<Write>)
    requires |d| > 0
    ensures forall i :: 0 <= i < |r| ==> r[i].clus in c || r[i].clus in d
  {
    LinkWrites(d) + if c == [] then [] else [Write(c[|c| - 1], d[0])]
  }

  lemma GrowFromNothing(d: seq<nat>)
    requires |d| > 0
    ensures GrowWrites([], d) == LinkWrites(d)
  {
  }

  // ----- what those writes mean -----

  lemma {:induction false} WrittenFrame(t: seq<u32>, ws: seq<Write>, n: nat)
    requires WritesWithin(ws, |t|) && n < |t|
    requires forall i :: 0 <= i < |ws| ==> ws[i].clus != n
    ensures Written(t, ws)[n] == t[n]
    decreases |ws|
  {
    if ws != [] {
      WrittenFrame(t, ws[..|ws| - 1], n);
    }
  }

  lemma WrittenOne(t: seq<u32>, ws: seq<Write>, w: Write)
    requires WritesWithin(ws, |t|) && w.clus < |t|
    ensures WritesWithin(ws + [w], |t|)
    ensures Written(t, ws + [w]) == SetLink(Written(t, ws), w.clus, w.link)
  {
  }

  lemma {:induction false} WrittenAppend(t: seq<u32>, a: seq<Write>, b: seq<Write>)
    requires WritesWithin(a, |t|) && WritesWithin(b, |t|)
    ensures WritesWithin(a + b, |t|)
    ensures Written(t, a + b) == Written(Written(t, a), b)
    decreases |b|
  {
    if b == [] {
      assert a + b == a;
    } else {
      var p, w := b[..|b| - 1], b[|b| - 1];
      WrittenAppend(t, a, p);
      WrittenOne(t, a + p, w);
      assert a + b == (a + p) + [w];
    }
  }

  /** No write ever changes the top four bits of an entry. */
  lemma {:induction false} WrittenKeepsTop(t: seq<u32>, ws: seq<Write>, n: nat)
    requires WritesWithin(ws, |t|) && n < |t|
    ensures Written(t, ws)[n] / LINK_SPACE == t[n] / LINK_SPACE
    decreases |ws|
  {
    if ws != [] {
      WrittenKeepsTop(t, ws[..|ws| - 1], n);
    }
  }

  lemma {:induction false} OpenWritesLink(t: seq<u32>, c: seq<nat>)
    requires Within(c, |t|) && Within(c, LINK_SPACE) && Distinct(c)
    requires forall i :: 0 <= i < |c| ==> c[i] != 0
    ensures forall i :: 0 <= i < |c| - 1 ==> Link(Written(t, OpenWrites(c)), c[i]) == c[i + 1]
    decreases |c|
  {
    hide Link, SetLink;
    if |c| > 1 {
      var p, cur := c[..|c| - 1], c[|c| - 1];
      OpenWritesLink(t, p);
      assert c == p + [cur];
      assert OpenWrites(c) == OpenWrites(p) + [Write(p[|p| - 1], cur)];
      WrittenOne(t, OpenWrites(p), Write(p[|p| - 1], cur));
      LinkMore(Written(t, OpenWrites(p)), p, cur);
    }
  }

  lemma LinkMore(u: seq<u32>, p: seq<nat>, cur: nat)
    requires |p| > 0 && Distinct(p) && cur < LINK_SPACE
    requires forall i :: 0 <= i < |p| ==> p[i] < |u|
    requires forall i :: 0 <= i < |p| - 1 ==> Link(u, p[i]) == p[i + 1]
    ensures var r, c := SetLink(u, p[|p| - 1], cur), p + [cur];
      forall i :: 0 <= i < |c| - 1 ==> Link(r, c[i]) == c[i + 1]
  {
  }

  /** Linking distinct clusters yields exactly that chain and leaves every other entry alone. */
  lemma LinkWritesLink(t: seq<u32>, c: seq<nat>)
    requires |c| > 0 && InTable(t, c) && Distinct(c)
    ensures IsChain(Written(t, LinkWrites(c)), c)
    ensures Link(Written(t, LinkWrites(c)), c[|c| - 1]) == 0x0FFF_FFF8
    ensures forall n :: 0 <= n < |t| && n !in c ==> Written(t, LinkWrites(c))[n] == t[n]
  {
    OpenWritesLink(t, c);
    WrittenOne(t, OpenWrites(c), Write(c[|c| - 1], EOC_MARK));
    EndMarkCloses(Written(t, OpenWrites(c)), c);
    forall n | 0 <= n < |t| && n !in c ensures Written(t, LinkWrites(c))[n] == t[n] {
      WrittenFrame(t, LinkWrites(c), n);
    }
  }

  lemma EndMarkCloses(u: seq<u32>, c: seq<nat>)
    requires |c| > 0 && InTable(u, c) && Distinct(c)
    requires forall i :: 0 <= i < |c| - 1 ==> Link(u, c[i]) == c[i + 1]
    ensures IsChain(SetLink(u, c[|c| - 1], EOC_MARK), c)
  {
  }

  lemma {:induction false} ZeroWritesZero(t: seq<u32>, c: seq<nat>)
    requires Within(c, |t|)
    ensures forall i :: 0 <= i < |c| ==> Link(Written(t, ZeroWrites(c)), c[i]) == 0
    ensures forall n :: 0 <= n < |t| && n !in c ==> Written(t, ZeroWrites(c))[n] == t[n]
    decreases |c|
  {
    if c != [] {
      var p, x := c[..|c| - 1], c[|c| - 1];
      ZeroWritesZero(t, p);
      assert c == p + [x];
      WrittenOne(t, ZeroWrites(p), Write(x, 0));
    }
  }

  lemma EndMarkCuts(t: seq<u32>, c: seq<nat>, n: nat)
    requires IsChain(t, c) && 0 < n <= |c| && Distinct(c)
    ensures IsChain(SetLink(t, c[n - 1], EOC_MARK), c[..n])
  {
  }

  lemma ShrinkInTwo(t: seq<u32>, c: seq<nat>, n: nat)
    requires Within(c, |t|) && n <= |c|
    ensures WritesWithin(ShrinkWrites(c, n), |t|)
    ensures Written(t, ShrinkWrites(c, n)) ==
            Written(if n > 0 then SetLink(t, c[n - 1], EOC_MARK) else t, ZeroWrites(c[n..]))
  {
    var mark := if n > 0 then [Write(c[n - 1], EOC_MARK)] else [];
    if n > 0 {
      WrittenOne(t, [], mark[0]);
    }
    WrittenAppend(t, mark, ZeroWrites(c[n..]));
  }

  /** Cutting a chain keeps its first `n` clusters linked and end-marked and frees exactly the rest. */
  lemma ShrinkWritesCut(t: seq<u32>, c: seq<nat>, n: nat)
    requires IsChain(t, c) && n <= |c|
    ensures n > 0 ==> IsChain(Written(t, ShrinkWrites(c, n)), c[..n])
    ensures n > 0 ==> Link(Written(t, ShrinkWrites(c, n)), c[n - 1]) == 0x0FFF_FFF8
    ensures forall i :: n <= i < |c| ==> Link(Written(t, ShrinkWrites(c, n)), c[i]) == 0
    ensures forall m :: 0 <= m < |t| && m !in c ==> Written(t, ShrinkWrites(c, n))[m] == t[m]
  {
    ShrinkInTwo(t, c, n);
    if n == 0 {
      ZeroWritesZero(t, c);
    } else {
      ChainIsAcyclic(t, c);
      EndMarkCuts(t, c, n);
      ZeroTail(t, SetLink(t, c[n - 1], EOC_MARK), c, n);
    }
  }

  lemma ZeroTail(t: seq<u32>, u: seq<u32>, c: seq<nat>, n: nat)
    requires |u| == |t| && 0 < n <= |c| && Within(c, |t|) && Distinct(c)
    requires IsChain(u, c[..n])
    requires forall m :: 0 <= m < |t| && m !in c ==> u[m] == t[m]
    ensures var r := Written(u, ZeroWrites(c[n..]));
      && IsChain(r, c[..n]) && r[c[n - 1]] == u[c[n - 1]]
      && (forall i :: n <= i < |c| ==> Link(r, c[i]) == 0)
      && (forall m :: 0 <= m < |t| && m !in c ==> r[m] == t[m])
  {
    var r, d := Written(u, ZeroWrites(c[n..])), c[n..];
    ZeroWritesZero(u, d);
    forall i | n <= i < |c| ensures Link(r, c[i]) == 0 {
      assert c[i] == d[i - n];
    }
    forall i | 0 <= i < n ensures r[c[i]] == u[c[i]] {
      assert c[i] !in d;
    }
    ChainFrame(u, r, c[..n]);
  }

  lemma GrowInTwo(t: seq<u32>, c: seq<nat>, d: seq<nat>)
    requires |d| > 0 && Within(c, |t|) && Within(d, |t|)
    ensures WritesWithin(GrowWrites(c, d), |t|)
    ensures var u := Written(t, LinkWrites(d));
      Written(t, GrowWrites(c, d)) == if c == [] then u else SetLink(u, c[|c| - 1], d[0])
  {
    if c == [] {
      assert GrowWrites(c, d) == LinkWrites(d);
    } else {
      WrittenOne(t, LinkWrites(d), Write(c[|c| - 1], d[0]));
    }
  }

  /** Growing a chain by clusters outside it yields their concatenation. */
  lemma GrowWritesJoin(t: seq<u32>, c: seq<nat>, d: seq<nat>)
    requires c == [] || IsChain(t, c)
    requires |d| > 0 && InTable(t, d) && Distinct(d)
    requires forall i, j :: 0 <= i < |c| && 0 <= j < |d| ==> c[i] != d[j]
    ensures IsChain(Written(t, GrowWrites(c, d)), c + d)
    ensures forall m :: 0 <= m < |t| && m !in c && m !in d ==> Written(t, GrowWrites(c, d))[m] == t[m]
  {
    var u := Written(t, LinkWrites(d));
    LinkWritesLink(t, d);
    GrowInTwo(t, c, d);
    if c == [] {
      assert c + d == d;
    } else {
      ChainIsAcyclic(t, c);
      ChainFrame(t, u, c);
      AppendChain(u, c, d);
    }
  }

  /** Pointing the last cluster of one chain at the head of another joins them. */
  lemma AppendChain(u: seq<u32>, c: seq<nat>, d: seq<nat>)
    requires IsChain(u, c) && IsChain(u, d) && Distinct(c)
    requires forall i, j :: 0 <= i < |c| && 0 <= j < |d| ==> c[i] != d[j]
    ensures IsChain(SetLink(u, c[|c| - 1], d[0]), c + d)
  {
    var r := SetLink(u, c[|c| - 1], d[0]);
    forall i | 0 <= i < |c + d| - 1 ensures Link(r, (c + d)[i]) == (c + d)[i + 1] {
      if i >= |c| {
        assert Link(u, d[i - |c|]) == d[i - |c| + 1];
      } else if i < |c| - 1 {
        assert Link(u, c[i]) == c[i + 1];
      }
    }
  }

  /** Freeing what was just linked restores every raw entry, top four bits included. */
  lemma ZeroUndoesLink(t: seq<u32>, c: seq<nat>)
    requires |c| > 0 && InTable(t, c) && Distinct(c)
    requires forall i :: 0 <= i < |c| ==> Link(t, c[i]) == 0
    ensures Written(Written(t, LinkWrites(c)), ZeroWrites(c)) == t
  {
    var u := Written(t, LinkWrites(c));
    var r := Written(u, ZeroWrites(c));
    LinkWritesLink(t, c);
    ZeroWritesZero(u, c);
    forall n | 0 <= n < |t| ensures r[n] == t[n] {
      if n in c {
        var i :| 0 <= i < |c| && c[i] == n;
        WrittenKeepsTop(t, LinkWrites(c), n);
        WrittenKeepsTop(u, ZeroWrites(c), n);
      }
    }
  }

  // ----- free clusters -----

  /** The free clusters below `hi`, ascending. */
  function FreeUpTo(t: seq<u32>, hi: nat): (r: seq<nat>)
    requires hi <= |t|
    ensures |r| <= hi
  {
    if hi == 0 then []
    else
      var below := FreeUpTo(t, hi - 1);
      if Link(t, hi - 1) == 0 then below + [hi - 1] else below
  }

  function FreeSet(t: seq<u32>, hi: nat): set<nat>
    requires hi <= |t|
  {
    set n | 0 <= n < hi && Link(t, n) == 0
  }

  predicate Ascending(s: seq<nat>) {
    forall i, j :: 0 <= i < j < |s| ==> s[i] < s[j]
  }

  /** `FreeUpTo` lists each free cluster below `hi` once, in ascending order. */
  lemma {:induction false} FreeUpToLists(t: seq<u32>, hi: nat)
    requires hi <= |t|
    ensures Ascending(FreeUpTo(t, hi))
    ensures forall n :: n in FreeUpTo(t, hi) <==> 0 <= n < hi && Link(t, n) == 0
  {
    if hi > 0 {
      FreeUpToLists(t, hi - 1);
      var rest := FreeUpTo(t, hi - 1);
      forall i | 0 <= i < |rest| ensures rest[i] < hi - 1 {
        assert rest[i] in rest;
      }
    }
  }

  function Elements(c: seq<nat>): set<nat> {
    set x | x in c
  }

  lemma {:induction false} DistinctCount(c: seq<nat>)
    requires Distinct(c)
    ensures |Elements(c)| == |c|
    decreases |c|
  {
    if c != [] {
      var p, x := c[..|c| - 1], c[|c| - 1];
      DistinctCount(p);
      assert Elements(c) == Elements(p) + {x};
    }
  }

  lemma FreeCount(t: seq<u32>, hi: nat)
    requires hi <= |t|
    ensures |FreeUpTo(t, hi)| == |FreeSet(t, hi)|
  {
    FreeUpToLists(t, hi);
    DistinctCount(FreeUpTo(t, hi));
    assert Elements(FreeUpTo(t, hi)) == FreeSet(t, hi);
  }

  /** Taking free clusters lowers the free count by their number. */
  lemma TakingLowersCount(t: seq<u32>, u: seq<u32>, hi: nat, c: seq<nat>)
    requires |t| == |u| && hi <= |t| && Distinct(c)
    requires forall i :: 0 <= i < |c| ==> c[i] < hi && Link(t, c[i]) == 0 && Link(u, c[i]) != 0
    requires forall n :: 0 <= n < hi && n !in c ==> (Link(u, n) == 0 <==> Link(t, n) == 0)
    ensures |FreeUpTo(u, hi)| == |FreeUpTo(t, hi)| - |c|
  {
    FreeCount(t, hi);
    FreeCount(u, hi);
    DistinctCount(c);
    SetMinus(FreeSet(t, hi), FreeSet(u, hi), c);
  }

  lemma SetMinus(before: set<nat>, after: set<nat>, c: seq<nat>)
    requires forall i :: 0 <= i < |c| ==> c[i] in before && c[i] !in after
    requires forall n :: n !in c ==> (n in after <==> n in before)
    ensures |after| == |before| - |Elements(c)|
  {
    assert after == before - Elements(c);
  }
}
