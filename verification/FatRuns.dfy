/**
 * Runs of allocations, frees and resizes on the files of a volume.
 *
 * `Step` says what one operation does to the FAT copies, the memoised count and the chain of each file;
 * `OpenVolume.Execute` performs it with the allocator object.
 */
module FatRuns {
  import opened Base
  import opened FatTable
  import opened FirstFit
  import opened FatImage
  import opened Fat

  /**
   * `chains` maps each file to its cluster chain; a file without clusters has the chain `[]`. `hint` is
   * the allocator's hint, consumed by the first allocation that succeeds.
   */
  datatype Volume = Volume(ts: seq<seq<u32>>, memo: Option<u32>, chains: map<nat, seq<nat>>, hint: nat)

  datatype Op =
    | Create(id: nat, size: nat)
    | Delete(id: nat)
    | Resize(id: nat, size: nat)

  function HeadOf(c: seq<nat>): nat {
    if c == [] then 0 else c[0]
  }

  function AvailOf(v: Volume, cnt: nat): nat
    requires |v.ts| > 0 && cnt <= |v.ts[0]|
  {
    if v.memo.Some? then v.memo.value else |FreeUpTo(v.ts[0], cnt)|
  }

  function ChainOf(v: Volume, id: nat): seq<nat> {
    if id in v.chains then v.chains[id] else []
  }

  predicate Shaped(v: Volume, cnt: nat, size: nat) {
    && |v.ts| > 0 && SameLength(v.ts, size) && cnt + 2 <= size && cnt + 2 <= EOC_MARK
    && (v.hint == NO_HINT || v.hint < cnt + 2)
    && forall id :: id in v.chains ==> Within(v.chains[id], size)
  }

  /** The chain `c` of file `id` resized to `n` clusters; `None` if the allocator's assertion fires. */
  function ResizeStep(v: Volume, cnt: nat, size: nat, id: nat, c: seq<nat>, n: nat): Option<Volume>
    requires Shaped(v, cnt, size) && Within(c, size)
  {
    if n <= |c| then
      Some(Volume(WrittenAll(v.ts, ShrinkWrites(c, n)), Shifted(v.memo, n - |c|), v.chains[id := c[..n]], v.hint))
    else
      match AllocOutcome(v.ts[0], cnt, v.hint, AvailOf(v, cnt), n - |c|)
      case NoSpace => Some(v.(memo := Some(AvailOf(v, cnt))))
      case AssertFailed => None
      case Got(d) =>
        CollectedWithin(v.ts[0], cnt, size, v.hint);
        Some(Volume(WrittenAll(v.ts, GrowWrites(c, d)), Some(AvailOf(v, cnt) - (n - |c|)), v.chains[id := c + d],
          NO_HINT))
  }

  lemma {:induction false} CollectedWithin(t: seq<u32>, pos: nat, top: nat, hint: nat)
    requires pos <= |t| && pos <= top && (hint == NO_HINT || hint < top)
    ensures Within(Collected(t, pos, hint), top)
    decreases pos
  {
    if pos > 0 {
      CollectedWithin(t, pos - 1, top, hint);
    }
  }

  /** One operation. Operations on files in the wrong state change nothing. */
  function Step(v: Volume, cnt: nat, size: nat, op: Op): Option<Volume>
    requires Shaped(v, cnt, size)
  {
    match op
    case Create(id, n) =>
      if id in v.chains || n == 0 then Some(v) else ResizeStep(v, cnt, size, id, [], n)
    case Delete(id) =>
      if id !in v.chains then Some(v)
      else
        var c := v.chains[id];
        Some(Volume(WrittenAll(v.ts, ZeroWrites(c)), Shifted(v.memo, |c|), v.chains - {id}, v.hint))
    case Resize(id, n) =>
      if id !in v.chains then Some(v) else ResizeStep(v, cnt, size, id, v.chains[id], n)
  }

  // ----- the global invariant -----

  ghost predicate Owned(chains: map<nat, seq<nat>>, n: nat) {
    exists id :: id in chains && n in chains[id]
  }

  /** Every chain is end-marked, lies below `top`, and no two files share a cluster. */
  ghost predicate ChainsApart(t: seq<u32>, top: nat, chains: map<nat, seq<nat>>) {
    && (forall id :: id in chains ==> Within(chains[id], top) && (chains[id] == [] || IsChain(t, chains[id])))
    && forall a, b, n :: a in chains && b in chains && n in chains[a] && n in chains[b] ==> a == b
  }

  /** Nothing leaked: the occupied clusters that no file owns are exactly the fixed set `others`. */
  ghost predicate NothingLeaked(t: seq<u32>, top: nat, chains: map<nat, seq<nat>>, others: set<nat>)
    requires top <= |t|
  {
    forall n :: 0 <= n < top ==> (n in others <==> Link(t, n) != 0 && !Owned(chains, n))
  }

  /** Of all the volume's cluster numbers, that is up to `cnt + 1`, though the scan stops at `cnt`. */
  ghost predicate Inv(v: Volume, cnt: nat, size: nat, others: set<nat>) {
    && Shaped(v, cnt, size) && AllAgree(v.ts) && Reserved(v.ts[0]) && {0, 1} <= others
    && GoodHint(v.ts[0], cnt, v.hint, 2) && ChainsApart(v.ts[0], cnt + 2, v.chains)
    && NothingLeaked(v.ts[0], cnt + 2, v.chains, others)
  }

  /** What is occupied and owned by no file, such as the reserved entries. */
  function Unowned(v: Volume, cnt: nat): set<nat>
    requires |v.ts| > 0 && cnt + 2 <= |v.ts[0]|
  {
    set n | 0 <= n < cnt + 2 && Link(v.ts[0], n) != 0 && forall id :: id in v.chains ==> n !in v.chains[id]
  }

  /**
   * A volume as it is opened, with the files that lie on it, meets the invariant exactly if their chains
   * are sound and the hint read from it is good.
   */
  lemma OpenedIsInvIff(v: Volume, cnt: nat, size: nat)
    requires Shaped(v, cnt, size) && AllAgree(v.ts) && Reserved(v.ts[0])
    ensures Inv(v, cnt, size, Unowned(v, cnt)) <==>
            GoodHint(v.ts[0], cnt, v.hint, 2) && ChainsApart(v.ts[0], cnt + 2, v.chains)
  {
    forall n | 0 <= n < cnt + 2
      ensures n in Unowned(v, cnt) <==> Link(v.ts[0], n) != 0 && !Owned(v.chains, n)
    {
    }
    if ChainsApart(v.ts[0], cnt + 2, v.chains) {
      forall id | id in v.chains ensures 0 !in v.chains[id] && 1 !in v.chains[id] {
      }
    }
  }

  lemma OwnedIsOccupied(t: seq<u32>, c: seq<nat>, n: nat)
    requires IsChain(t, c) && n in c
    ensures n < |t| && Link(t, n) != 0 && 2 <= n
  {
    var i :| 0 <= i < |c| && c[i] == n;
    if i < |c| - 1 {
      assert Link(t, c[i]) == c[i + 1];
    }
  }

  /** In the invariant every cluster is of exactly one kind, and owned by at most one file. */
  lemma ClustersArePartitioned(v: Volume, cnt: nat, size: nat, others: set<nat>, n: nat)
    requires Inv(v, cnt, size, others) && n < cnt + 2
    ensures n in others || Link(v.ts[0], n) == 0 || Owned(v.chains, n)
    ensures !(n in others && Link(v.ts[0], n) == 0) && !(n in others && Owned(v.chains, n))
    ensures !(Link(v.ts[0], n) == 0 && Owned(v.chains, n))
    ensures forall a, b :: a in v.chains && b in v.chains && n in v.chains[a] && n in v.chains[b] ==> a == b
    ensures forall a :: a in v.chains ==>
      Distinct(v.chains[a]) && (v.chains[a] == [] || forall k :: 0 <= k < |v.ts| ==> IsChain(v.ts[k], v.chains[a]))
  {
    if Owned(v.chains, n) {
      var id :| id in v.chains && n in v.chains[id];
      OwnedIsOccupied(v.ts[0], v.chains[id], n);
    }
    forall a | a in v.chains ensures Distinct(v.chains[a]) {
      if v.chains[a] != [] {
        ChainIsAcyclic(v.ts[0], v.chains[a]);
      }
    }
  }

  /** Writes that turn chain `c` into `d`, taking free clusters and freeing what is dropped. */
  ghost predicate TurnsInto(t: seq<u32>, u: seq<u32>, top: nat, c: seq<nat>, d: seq<nat>) {
    && |u| == |t| && top <= |t|
    && Within(d, top) && (d == [] || IsChain(u, d))
    && (forall n :: n in d ==> n in c || (n < |t| && Link(t, n) == 0))
    && (forall n :: n in c && n !in d ==> n < |u| && Link(u, n) == 0)
    && (forall n :: 0 <= n < |t| && n !in c && n !in d ==> u[n] == t[n])
  }

  lemma TurningKeepsChains(t: seq<u32>, u: seq<u32>, top: nat, chains: map<nat, seq<nat>>, id: nat, d: seq<nat>)
    requires ChainsApart(t, top, chains)
    requires TurnsInto(t, u, top, if id in chains then chains[id] else [], d)
    ensures ChainsApart(u, top, chains[id := d])
  {
    var after := chains[id := d];
    var c := if id in chains then chains[id] else [];
    forall a, n | a in chains && a != id && n in chains[a]
      ensures n < |t| && n !in c && n !in d && u[n] == t[n]
    {
      OwnedIsOccupied(t, chains[a], n);
    }
    forall a | a in after ensures Within(after[a], top) && (after[a] == [] || IsChain(u, after[a])) {
      if a != id && chains[a] != [] {
        var e := chains[a];
        forall i | 0 <= i < |e| ensures t[e[i]] == u[e[i]] {
          assert e[i] in chains[a];
        }
        ChainFrame(t, u, e);
      }
    }
  }

  lemma TurningLeaksNothing(t: seq<u32>, u: seq<u32>, top: nat, chains: map<nat, seq<nat>>, id: nat, d: seq<nat>,
                            others: set<nat>)
    requires top <= |t| && ChainsApart(t, top, chains) && NothingLeaked(t, top, chains, others)
    requires TurnsInto(t, u, top, if id in chains then chains[id] else [], d)
    ensures NothingLeaked(u, top, chains[id := d], others)
  {
    var c := if id in chains then chains[id] else [];
    var after := chains[id := d];
    forall n | 0 <= n < top ensures n in others <==> Link(u, n) != 0 && !Owned(after, n) {
      if n in d {
        OwnedIsOccupied(u, d, n);
        assert n in after[id];
        if n in c { assert n in chains[id]; }
      } else if n in c {
        assert n in chains[id];
      } else {
        if Owned(after, n) {
          var a :| a in after && n in after[a];
        }
        if Owned(chains, n) {
          var a :| a in chains && n in chains[a];
          assert a != id && n in after[a];
        }
      }
    }
  }

  lemma TailIndex(c: seq<nat>, n: nat, x: nat) returns (i: nat)
    requires n <= |c| && x in c && x !in c[..n]
    ensures n <= i < |c| && c[i] == x
  {
    i :| 0 <= i < |c| && c[i] == x;
  }

  lemma ShrinkTurns(t: seq<u32>, top: nat, c: seq<nat>, n: nat)
    requires top <= |t| && Within(c, top) && (c == [] || IsChain(t, c)) && n <= |c|
    ensures WritesWithin(ShrinkWrites(c, n), |t|)
    ensures TurnsInto(t, Written(t, ShrinkWrites(c, n)), top, c, c[..n])
  {
    if c == [] {
      assert ShrinkWrites(c, n) == [];
    } else {
      ShrinkWritesCut(t, c, n);
      var u := Written(t, ShrinkWrites(c, n));
      forall x | x in c && x !in c[..n] ensures Link(u, x) == 0 {
        var i := TailIndex(c, n, x);
      }
    }
  }

  lemma GrowTurns(t: seq<u32>, top: nat, c: seq<nat>, d: seq<nat>)
    requires top <= |t| && Within(c, top) && (c == [] || IsChain(t, c))
    requires |d| > 0 && Within(d, top) && Fresh(t, d)
    ensures WritesWithin(GrowWrites(c, d), |t|)
    ensures TurnsInto(t, Written(t, GrowWrites(c, d)), top, c, c + d)
  {
    forall i, j | 0 <= i < |c| && 0 <= j < |d| ensures c[i] != d[j] {
      OwnedIsOccupied(t, c, c[i]);
    }
    GrowWritesJoin(t, c, d);
  }

  lemma ZeroTurns(t: seq<u32>, top: nat, c: seq<nat>)
    requires top <= |t| && Within(c, top)
    ensures WritesWithin(ZeroWrites(c), |t|)
    ensures TurnsInto(t, Written(t, ZeroWrites(c)), top, c, [])
  {
    ZeroWritesZero(t, c);
  }

  lemma TakenAreFresh(t: seq<u32>, cnt: nat, hint: nat, avail: nat, k: nat)
    requires Reserved(t) && cnt <= |t| && cnt <= EOC_MARK && k >= 1 && (hint == NO_HINT || hint < cnt + 2)
    requires GoodHint(t, cnt, hint, 2) && AllocOutcome(t, cnt, hint, avail, k).Got?
    ensures var d := AllocOutcome(t, cnt, hint, avail, k).chain;
      |d| == k && Fresh(t, d) && Within(d, cnt + 2)
  {
    hide GoodHint, Fresh, Collected, Candidates, Reserved;
    GoodForAny(t, cnt, hint);
    CollectedWithin(t, cnt, cnt + 2, hint);
    OutcomeIsFirstFit(t, cnt, hint, avail, k);
  }

  /** Freeing clusters leaves a good hint good. */
  lemma HintStaysGood(t: seq<u32>, u: seq<u32>, cnt: nat, hint: nat, top: nat, c: seq<nat>,
                      d: seq<nat>)
    requires cnt <= |t| && TurnsInto(t, u, top, c, d) && GoodHint(t, cnt, hint, 2) && (c == [] || IsChain(t, c))
    requires forall n :: n in d ==> n in c
    ensures GoodHint(u, cnt, hint, 2)
  {
    hide IsChain, Link;
    forall n | 0 <= n < |t| && Link(t, n) == 0 ensures Link(u, n) == 0 {
      if n in c {
        OwnedIsOccupied(t, c, n);
      } else {
        SameLink(t, u, n);
      }
    }
  }

  lemma SameLink(t: seq<u32>, u: seq<u32>, n: nat)
    requires n < |t| == |u| && t[n] == u[n]
    ensures Link(t, n) == Link(u, n)
  {
  }

  /** What `Inv` says of the table that all copies equal. */
  ghost predicate Sound(t: seq<u32>, cnt: nat, hint: nat, chains: map<nat, seq<nat>>, others: set<nat>)
    requires cnt + 2 <= |t|
  {
    GoodHint(t, cnt, hint, 2) && ChainsApart(t, cnt + 2, chains) && NothingLeaked(t, cnt + 2, chains, others)
  }

  lemma TurningKeepsSound(t: seq<u32>, u: seq<u32>, cnt: nat, hint: nat, hint': nat, chains: map<nat, seq<nat>>,
                          others: set<nat>, id: nat, d: seq<nat>)
    requires cnt + 2 <= |t| && Sound(t, cnt, hint, chains, others)
    requires TurnsInto(t, u, cnt + 2, if id in chains then chains[id] else [], d)
    requires hint' == NO_HINT || (hint' == hint && d <= if id in chains then chains[id] else [])
    ensures Sound(u, cnt, hint', chains[id := d], others)
  {
    hide Link, IsChain, NothingLeaked;
    TurningKeepsChains(t, u, cnt + 2, chains, id, d);
    TurningLeaksNothing(t, u, cnt + 2, chains, id, d, others);
    if hint' != NO_HINT {
      HintStaysGood(t, u, cnt, hint, cnt + 2, if id in chains then chains[id] else [], d);
    }
  }

  lemma ReservedStays(t: seq<u32>, ws: seq<Write>, top: nat, others: set<nat>, chains: map<nat, seq<nat>>)
    requires WritesWithin(ws, |t|) && {0, 1} <= others && 2 <= top <= |t|
    requires NothingLeaked(Written(t, ws), top, chains, others)
    ensures Reserved(Written(t, ws))
  {
    hide Link, Written;
    assert 0 in others && 1 in others;
  }

  lemma TurningKeepsInv(v: Volume, v': Volume, cnt: nat, size: nat, others: set<nat>, id: nat, ws: seq<Write>,
                        d: seq<nat>)
    requires Inv(v, cnt, size, others) && WritesWithin(ws, size)
    requires TurnsInto(v.ts[0], Written(v.ts[0], ws), cnt + 2, ChainOf(v, id), d)
    requires v'.ts == WrittenAll(v.ts, ws) && v'.chains == v.chains[id := d]
    requires v'.hint == NO_HINT || (v'.hint == v.hint && d <= ChainOf(v, id))
    ensures Inv(v', cnt, size, others)
  {
    hide Link, IsChain, Written, NothingLeaked, GoodHint, Owned, Reserved;
    var t, u := v.ts[0], Written(v.ts[0], ws);
    TurningKeepsSound(t, u, cnt, v.hint, v'.hint, v.chains, others, id, d);
    ReservedStays(t, ws, cnt + 2, others, v'.chains);
  }

  lemma ForgettingKeepsInv(v: Volume, v': Volume, cnt: nat, size: nat, others: set<nat>, id: nat)
    requires Inv(v, cnt, size, others) && id in v.chains && v.chains[id] == []
    requires v'.ts == v.ts && v'.chains == v.chains - {id} && v'.hint == v.hint
    ensures Inv(v', cnt, size, others)
  {
    forall n ensures Owned(v'.chains, n) <==> Owned(v.chains, n) {
      if Owned(v.chains, n) {
        var a :| a in v.chains && n in v.chains[a];
        assert a in v'.chains;
      }
      if Owned(v'.chains, n) {
        var a :| a in v'.chains && n in v'.chains[a];
      }
    }
  }

  lemma ShrinkKeepsInv(v: Volume, v': Volume, cnt: nat, size: nat, others: set<nat>, id: nat, c: seq<nat>, n: nat)
    requires Inv(v, cnt, size, others) && c == ChainOf(v, id) && n <= |c|
    requires WritesWithin(ShrinkWrites(c, n), size)
    requires v'.ts == WrittenAll(v.ts, ShrinkWrites(c, n)) && v'.chains == v.chains[id := c[..n]] && v'.hint == v.hint
    ensures Inv(v', cnt, size, others)
  {
    ShrinkTurns(v.ts[0], cnt + 2, c, n);
    TurningKeepsInv(v, v', cnt, size, others, id, ShrinkWrites(c, n), c[..n]);
  }

  lemma GrowKeepsInv(v: Volume, v': Volume, cnt: nat, size: nat, others: set<nat>, id: nat, c: seq<nat>, d: seq<nat>)
    requires Inv(v, cnt, size, others) && c == ChainOf(v, id)
    requires |d| > 0 && Within(d, cnt + 2) && Fresh(v.ts[0], d) && WritesWithin(GrowWrites(c, d), size)
    requires v'.ts == WrittenAll(v.ts, GrowWrites(c, d)) && v'.chains == v.chains[id := c + d] && v'.hint == NO_HINT
    ensures Inv(v', cnt, size, others)
  {
    GrowTurns(v.ts[0], cnt + 2, c, d);
    TurningKeepsInv(v, v', cnt, size, others, id, GrowWrites(c, d), c + d);
  }

  lemma ResizeKeepsInv(v: Volume, cnt: nat, size: nat, others: set<nat>, id: nat, c: seq<nat>, n: nat)
    requires Inv(v, cnt, size, others) && c == ChainOf(v, id)
    requires Within(c, size) && ResizeStep(v, cnt, size, id, c, n).Some?
    ensures Inv(ResizeStep(v, cnt, size, id, c, n).value, cnt, size, others)
  {
    hide IsChain, Link, Written, Collected, Fresh, ShrinkWrites, GrowWrites, Shifted, ChainsApart, NothingLeaked;
    hide Reserved, GoodHint;
    var t, v' := v.ts[0], ResizeStep(v, cnt, size, id, c, n).value;
    if n <= |c| {
      ShrinkKeepsInv(v, v', cnt, size, others, id, c, n);
    } else {
      var r := AllocOutcome(t, cnt, v.hint, AvailOf(v, cnt), n - |c|);
      if r.Got? {
        TakenAreFresh(t, cnt, v.hint, AvailOf(v, cnt), n - |c|);
        GrowKeepsInv(v, v', cnt, size, others, id, c, r.chain);
      }
    }
  }

  lemma StepKeepsInv(v: Volume, cnt: nat, size: nat, others: set<nat>, op: Op)
    requires Inv(v, cnt, size, others) && Step(v, cnt, size, op).Some?
    ensures Inv(Step(v, cnt, size, op).value, cnt, size, others)
  {
    hide IsChain, Link, Written, Reserved;
    match op
    case Create(id, n) =>
      if id !in v.chains && n != 0 {
        ResizeKeepsInv(v, cnt, size, others, id, [], n);
      }
    case Delete(id) =>
      if id in v.chains {
        var c := v.chains[id];
        ZeroTurns(v.ts[0], cnt + 2, c);
        var mid := Volume(WrittenAll(v.ts, ZeroWrites(c)), v.memo, v.chains[id := []], v.hint);
        TurningKeepsInv(v, mid, cnt, size, others, id, ZeroWrites(c), []);
        var v' := Step(v, cnt, size, op).value;
        ForgettingKeepsInv(mid, v', cnt, size, others, id);
      }
    case Resize(id, n) =>
      if id in v.chains {
        ResizeKeepsInv(v, cnt, size, others, id, v.chains[id], n);
      }
  }

  // ----- what a step does -----

  /** A create takes an absent file and some clusters, the other operations a file that is there. */
  predicate Acts(v: Volume, op: Op) {
    if op.Create? then op.id !in v.chains && op.size > 0 else op.id in v.chains
  }

  /**
   * The chain that a step leaves its file with: cut to the size asked for, or grown by the first candidates, if the
   * count admits that many. Only a request that the count admits and the candidates do not fill does not complete.
   */
  lemma StepDoes(v: Volume, cnt: nat, size: nat, others: set<nat>, op: Op)
    requires Inv(v, cnt, size, others)
    ensures var c, n := ChainOf(v, op.id), if op.Delete? then 0 else op.size;
      var avail, cs := AvailOf(v, cnt), Candidates(v.ts[0], cnt, v.hint);
      var k := if Acts(v, op) then n - |c| else 0;
      && (Step(v, cnt, size, op) == None <==> k > 0 && |cs| < k <= avail)
      && (Step(v, cnt, size, op).Some? ==>
           var w := Step(v, cnt, size, op).value;
           && (!Acts(v, op) ==> w == v)
           && (k > avail ==> w.chains == v.chains && w.ts == v.ts)
           && (Acts(v, op) && k <= avail ==>
                && (op.id in w.chains <==> !op.Delete?)
                && ChainOf(w, op.id) == if k <= 0 then c[..n] else c + cs[..k])
           && forall id :: id != op.id ==> (id in w.chains <==> id in v.chains) && ChainOf(w, id) == ChainOf(v, id))
  {
    hide WrittenAll, ShrinkWrites, GrowWrites, ZeroWrites, Shifted, ChainsApart, NothingLeaked, GoodHint, Candidates;
    hide Reserved, AllocOutcome, AllAgree;
    var k := Wanted(v, op);
    GoodForAny(v.ts[0], cnt, v.hint);
    if k > 0 {
      OutcomeIsFirstFit(v.ts[0], cnt, v.hint, AvailOf(v, cnt), k);
      OutcomeCases(v.ts[0], cnt, v.hint, AvailOf(v, cnt), k);
    }
  }

  lemma OutcomeCases(t: seq<u32>, cnt: nat, hint: nat, avail: nat, k: nat)
    requires cnt <= |t|
    ensures AllocOutcome(t, cnt, hint, avail, k) == NoSpace <==> avail < k
  {
  }

  /** The clusters that a step takes from its file are free afterwards. */
  lemma StepFrees(v: Volume, cnt: nat, size: nat, others: set<nat>, op: Op, x: nat)
    requires Inv(v, cnt, size, others) && Step(v, cnt, size, op).Some?
    requires var w := Step(v, cnt, size, op).value; x in ChainOf(v, op.id) && x !in ChainOf(w, op.id)
    ensures var w := Step(v, cnt, size, op).value; x < |w.ts[0]| && Link(w.ts[0], x) == 0
  {
    hide IsChain, Link, GoodHint, Step, Candidates, AllAgree, Reserved;
    StepKeepsInv(v, cnt, size, others, op);
    StepDoes(v, cnt, size, others, op);
    var w := Step(v, cnt, size, op).value;
    forall id | id in w.chains ensures x !in w.chains[id] {
      assert id != op.id ==> id in v.chains && ChainOf(w, id) == ChainOf(v, id);
    }
    assert Owned(v.chains, x);
  }

  // ----- runs -----

  ghost predicate Run(v: Volume, cnt: nat, size: nat, ops: seq<Op>, v': Volume)
    requires Shaped(v, cnt, size)
    decreases |ops|
  {
    if ops == [] then v' == v
    else
      var next := Step(v, cnt, size, ops[0]);
      next.Some? && Shaped(next.value, cnt, size) && Run(next.value, cnt, size, ops[1..], v')
  }

  /**
   * Over every run of allocations, frees and resizes: chains stay end-marked, acyclic and pairwise
   * disjoint, all FAT copies agree, and no cluster is ever leaked, shared or taken from the reserved ones.
   */
  lemma {:induction false} RunKeepsInv(v: Volume, cnt: nat, size: nat, others: set<nat>, ops: seq<Op>, v': Volume)
    requires Inv(v, cnt, size, others) && Run(v, cnt, size, ops, v')
    ensures Inv(v', cnt, size, others)
    decreases |ops|
  {
    if ops != [] {
      StepKeepsInv(v, cnt, size, others, ops[0]);
      RunKeepsInv(Step(v, cnt, size, ops[0]).value, cnt, size, others, ops[1..], v');
    }
  }

  // ----- the memoised count -----

  predicate Honest(v: Volume, cnt: nat)
    requires |v.ts| > 0 && cnt <= |v.ts[0]|
  {
    v.memo.Some? ==> v.memo.value == |FreeUpTo(v.ts[0], cnt)|
  }

  /** The clusters of `c` below `hi`, which are the ones that the count of free clusters speaks of. */
  function Below(c: seq<nat>, hi: nat): (r: seq<nat>)
    ensures |r| <= |c|
  {
    if c == [] then []
    else
      var p := Below(c[..|c| - 1], hi);
      if c[|c| - 1] < hi then p + [c[|c| - 1]] else p
  }

  lemma {:induction false} BelowIs(c: seq<nat>, hi: nat)
    ensures forall x :: x in Below(c, hi) <==> x in c && x < hi
    ensures |Below(c, hi)| == |c| <==> Within(c, hi)
    ensures Distinct(c) ==> Distinct(Below(c, hi))
  {
    if c != [] {
      var p, l := c[..|c| - 1], c[|c| - 1];
      BelowIs(p, hi);
      assert c == p + [l];
      if Distinct(c) {
        assert l !in p && Distinct(p);
      }
    }
  }

  function Range(m: nat): set<nat> {
    if m == 0 then {} else Range(m - 1) + {m - 1}
  }

  lemma {:induction false} RangeIs(m: nat)
    ensures |Range(m)| == m && forall n: nat :: n in Range(m) <==> n < m
  {
    if m > 0 {
      RangeIs(m - 1);
    }
  }

  lemma DistinctFits(c: seq<nat>, m: nat)
    requires Distinct(c) && Within(c, m)
    ensures |c| <= m
  {
    DistinctCount(c);
    RangeIs(m);
    assert Elements(c) <= Range(m);
    assert Range(m) == Elements(c) + (Range(m) - Elements(c));
  }

  /** Of two chains, the longer one leaves as many fewer free clusters as the rest of it has below `cnt`. */
  lemma LongerLeavesFewer(t: seq<u32>, u: seq<u32>, cnt: nat, c: seq<nat>, d: seq<nat>)
    requires |u| == |t| && cnt <= |t| && c <= d && Within(d, |t|) && Distinct(d)
    requires (c == [] || IsChain(t, c)) && (d == [] || IsChain(u, d))
    requires forall n :: n in d ==> n in c || Link(t, n) == 0
    requires forall n :: 0 <= n < |t| && n !in d ==> u[n] == t[n]
    ensures |FreeUpTo(u, cnt)| == |FreeUpTo(t, cnt)| - |Below(d[|c|..], cnt)|
  {
    hide IsChain, Link, FreeUpTo, Distinct, Within, Below;
    var rest, taken := d[|c|..], Below(d[|c|..], cnt);
    RestOf(c, d);
    BelowIs(rest, cnt);
    forall n | 0 <= n < cnt
      ensures n in rest ==> Link(t, n) == 0 && Link(u, n) != 0
      ensures n !in rest ==> (Link(u, n) == 0 <==> Link(t, n) == 0)
    {
      OneKindEach(t, u, c, d, n);
    }
    forall i | 0 <= i < |taken| ensures taken[i] < cnt && Link(t, taken[i]) == 0 && Link(u, taken[i]) != 0 {
      assert taken[i] in taken;
    }
    TakingLowersCount(t, u, cnt, taken);
  }

  lemma RestOf(c: seq<nat>, d: seq<nat>)
    requires c <= d && Distinct(d)
    ensures var rest := d[|c|..];
      Distinct(rest) && (forall x :: x in d <==> x in c || x in rest) && (forall x :: x in rest ==> x !in c)
  {
    var rest := d[|c|..];
    assert forall i :: 0 <= i < |rest| ==> rest[i] == d[|c| + i];
    assert d == c + rest;
  }

  lemma OneKindEach(t: seq<u32>, u: seq<u32>, c: seq<nat>, d: seq<nat>, n: nat)
    requires |u| == |t| && n < |t|
    requires (c == [] || IsChain(t, c)) && (d == [] || IsChain(u, d))
    requires n in d ==> n in c || Link(t, n) == 0
    requires n !in d ==> u[n] == t[n]
    ensures n in d ==> Link(u, n) != 0
    ensures n in c ==> Link(t, n) != 0
    ensures n !in d ==> Link(u, n) == Link(t, n)
  {
    if n in c { OwnedIsOccupied(t, c, n); }
    if n in d { OwnedIsOccupied(u, d, n); }
  }

  /** Turning `c` into `d` moves the free count by as many clusters as it takes or frees below `cnt`. */
  lemma TurningMovesCount(v: Volume, cnt: nat, size: nat, others: set<nat>, id: nat, ws: seq<Write>, d: seq<nat>)
    requires Inv(v, cnt, size, others) && WritesWithin(ws, size)
    requires var c := ChainOf(v, id); TurnsInto(v.ts[0], Written(v.ts[0], ws), cnt + 2, c, d) && (c <= d || d <= c)
    ensures var c, before, after := ChainOf(v, id), FreeUpTo(v.ts[0], cnt), FreeUpTo(WrittenAll(v.ts, ws)[0], cnt);
      && (c <= d ==> |after| == |before| - |Below(d[|c|..], cnt)|)
      && (d <= c ==> |after| == |before| + |Below(c[|d|..], cnt)|)
      && |before| <= cnt && |after| <= cnt && |c| <= cnt + 2 && |d| <= cnt + 2
  {
    hide Written, FreeUpTo, Below, Reserved, GoodHint;
    var c, t, u := ChainOf(v, id), v.ts[0], Written(v.ts[0], ws);
    if c != [] { ChainIsAcyclic(t, c); }
    if d != [] { ChainIsAcyclic(u, d); }
    DistinctFits(c, cnt + 2);
    DistinctFits(d, cnt + 2);
    FreeFits(t, cnt);
    FreeFits(u, cnt);
    if c <= d {
      LongerLeavesFewer(t, u, cnt, c, d);
    }
    if d <= c {
      LongerLeavesFewer(u, t, cnt, d, c);
    }
  }

  lemma FreeFits(t: seq<u32>, cnt: nat)
    requires cnt <= |t|
    ensures |FreeUpTo(t, cnt)| <= cnt
  {
    FreeUpToLists(t, cnt);
    var free := FreeUpTo(t, cnt);
    forall i | 0 <= i < |free| ensures free[i] < cnt {
      assert free[i] in free;
    }
    DistinctFits(free, cnt);
  }

  predicate Shrinks(v: Volume, op: Op) {
    op.Resize? && op.id in v.chains && op.size < |v.chains[op.id]|
  }

  /** How many clusters an operation asks the allocator for. */
  function Wanted(v: Volume, op: Op): nat {
    match op
    case Create(id, n) => if id in v.chains then 0 else n
    case Delete(_) => 0
    case Resize(id, n) => if id in v.chains && n > |v.chains[id]| then n - |v.chains[id]| else 0
  }

  /** The operation takes the hint, or frees a cluster, from behind the scanned range. */
  predicate LeavesScan(v: Volume, cnt: nat, op: Op)
    requires |v.ts| > 0 && cnt <= |v.ts[0]|
  {
    || (0 < Wanted(v, op) <= AvailOf(v, cnt) && cnt <= v.hint < NO_HINT)
    || (op.Delete? && op.id in v.chains && !Within(v.chains[op.id], cnt))
  }

  lemma TakenInScanIff(t: seq<u32>, cnt: nat, hint: nat, avail: nat, k: nat)
    requires cnt <= |t| && k >= 1 && hint <= NO_HINT && AllocOutcome(t, cnt, hint, avail, k).Got?
    ensures Within(AllocOutcome(t, cnt, hint, avail, k).chain, cnt) <==> !(cnt <= hint < NO_HINT)
  {
    if cnt <= hint < NO_HINT {
      BeyondScanOnlyAsHint(t, cnt, hint, avail, k, hint);
    } else {
      CollectedWithin(t, cnt, cnt, hint);
    }
  }

  /** Growing takes the new clusters off the count, those behind the scanned range included. */
  lemma GrownCount(v: Volume, cnt: nat, size: nat, others: set<nat>, id: nat, k: nat)
    requires Inv(v, cnt, size, others) && k >= 1 && AllocOutcome(v.ts[0], cnt, v.hint, AvailOf(v, cnt), k).Got?
    ensures var c, d := ChainOf(v, id), AllocOutcome(v.ts[0], cnt, v.hint, AvailOf(v, cnt), k).chain;
      && |d| == k && Within(d, cnt + 2) && WritesWithin(GrowWrites(c, d), size)
      && |FreeUpTo(WrittenAll(v.ts, GrowWrites(c, d))[0], cnt)| == |FreeUpTo(v.ts[0], cnt)| - |Below(d, cnt)|
      && (|Below(d, cnt)| == k <==> !(cnt <= v.hint < NO_HINT))
  {
    hide IsChain, Link, FreeUpTo, Collected, Written, GrowWrites, Fresh, Below, AllocOutcome, NothingLeaked;
    var t, c := v.ts[0], ChainOf(v, id);
    var d := AllocOutcome(t, cnt, v.hint, AvailOf(v, cnt), k).chain;
    TakenAreFresh(t, cnt, v.hint, AvailOf(v, cnt), k);
    GrowTurns(t, cnt + 2, c, d);
    TurningMovesCount(v, cnt, size, others, id, GrowWrites(c, d), c + d);
    assert (c + d)[|c|..] == d;
    BelowIs(d, cnt);
    TakenInScanIff(t, cnt, v.hint, AvailOf(v, cnt), k);
  }

  /** Growing is never aborted while the count is honest, and keeps it so unless it takes a hint behind the scan. */
  lemma GrowMemo(v: Volume, cnt: nat, size: nat, others: set<nat>, id: nat, c: seq<nat>, n: nat)
    requires Inv(v, cnt, size, others) && Honest(v, cnt) && c == ChainOf(v, id) && Within(c, size) && n > |c|
    ensures var r := ResizeStep(v, cnt, size, id, c, n);
      && r.Some? && |r.value.ts| > 0 && Shaped(r.value, cnt, size)
      && (Honest(r.value, cnt) <==> !(n - |c| <= AvailOf(v, cnt) && cnt <= v.hint < NO_HINT))
  {
    hide IsChain, Link, FreeUpTo, Collected, Written, GrowWrites, Fresh, TurnsInto, Below, ChainsApart, NothingLeaked;
    var t, k := v.ts[0], n - |c|;
    GoodForAny(t, cnt, v.hint);
    AllocIsFirstFit(t, cnt, v.hint, AvailOf(v, cnt), k);
    if AllocOutcome(t, cnt, v.hint, AvailOf(v, cnt), k).Got? {
      GrownCount(v, cnt, size, others, id, k);
    }
  }

  lemma CutCount(v: Volume, cnt: nat, size: nat, others: set<nat>, id: nat, n: nat)
    requires Inv(v, cnt, size, others) && id in v.chains && n <= |v.chains[id]|
    ensures var c := v.chains[id];
      && WritesWithin(ShrinkWrites(c, n), size) && |c| <= cnt + 2
      && |FreeUpTo(WrittenAll(v.ts, ShrinkWrites(c, n))[0], cnt)| ==
         |FreeUpTo(v.ts[0], cnt)| + |Below(c[n..], cnt)| <= cnt
  {
    var c := v.chains[id];
    ShrinkTurns(v.ts[0], cnt + 2, c, n);
    TurningMovesCount(v, cnt, size, others, id, ShrinkWrites(c, n), c[..n]);
  }

  /** A cut is counted in the wrong direction, so it leaves the count right only if it cuts nothing. */
  lemma CutMemo(v: Volume, cnt: nat, size: nat, others: set<nat>, id: nat, n: nat)
    requires Inv(v, cnt, size, others) && v.memo.Some? && Honest(v, cnt) && id in v.chains && n <= |v.chains[id]|
    ensures var r := Step(v, cnt, size, Resize(id, n));
      r.Some? && Shaped(r.value, cnt, size) && (Honest(r.value, cnt) <==> n == |v.chains[id]|)
  {
    hide IsChain, Link, FreeUpTo, Collected, Written, ShrinkWrites, GrowWrites, AllocOutcome, Wrap32, Below;
    var c := v.chains[id];
    CutCount(v, cnt, size, others, id, n);
    StepKeepsInv(v, cnt, size, others, Resize(id, n));
    WrapDiffers(|FreeUpTo(v.ts[0], cnt)|, n - |c|, |Below(c[n..], cnt)|);
  }

  lemma DeleteMemo(v: Volume, cnt: nat, size: nat, others: set<nat>, id: nat)
    requires Inv(v, cnt, size, others) && v.memo.Some? && Honest(v, cnt) && id in v.chains
    ensures var r := Step(v, cnt, size, Delete(id));
      r.Some? && Shaped(r.value, cnt, size) && (Honest(r.value, cnt) <==> Within(v.chains[id], cnt))
  {
    hide IsChain, Link, FreeUpTo, Written, ZeroWrites, Wrap32, Below;
    var c := v.chains[id];
    ZeroTurns(v.ts[0], cnt + 2, c);
    TurningMovesCount(v, cnt, size, others, id, ZeroWrites(c), []);
    assert c[0..] == c;
    BelowIs(c, cnt);
    WrapDiffers(|FreeUpTo(v.ts[0], cnt)|, |c|, |Below(c, cnt)|);
  }

  lemma WrapDiffers(free: nat, shift: int, moved: nat)
    requires free + moved < 0x8000_0000 && -0x4000_0000 < shift < 0x4000_0000 && moved < 0x4000_0000
    ensures Wrap32(free + shift) == free + moved <==> shift == moved
  {
  }

  /**
   * With an honest memoised count no step aborts, and the count stays right exactly if the step cuts no chain
   * and neither takes nor frees a cluster behind the scanned range.
   */
  lemma StepMemoIff(v: Volume, cnt: nat, size: nat, others: set<nat>, op: Op)
    requires Inv(v, cnt, size, others) && v.memo.Some? && Honest(v, cnt)
    ensures var r := Step(v, cnt, size, op);
      && r.Some? && Shaped(r.value, cnt, size)
      && (Honest(r.value, cnt) <==> !Shrinks(v, op) && !LeavesScan(v, cnt, op))
  {
    hide ResizeStep, Inv, Honest;
    InvIsShaped(v, cnt, size, others);
    match op
    case Create(id, n) =>
      if id !in v.chains && n != 0 {
        GrowMemo(v, cnt, size, others, id, [], n);
      }
    case Resize(id, n) =>
      if id in v.chains {
        if n > |v.chains[id]| {
          GrowMemo(v, cnt, size, others, id, v.chains[id], n);
        } else {
          CutMemo(v, cnt, size, others, id, n);
        }
      }
    case Delete(id) =>
      if id in v.chains {
        DeleteMemo(v, cnt, size, others, id);
      }
  }

  /**
   * On any full volume, shrinking a file by one cluster makes the memoised count wrap around, and the next
   * request for two clusters, of which only one is free, ends in the failed assertion.
   */
  lemma ShrinkThenAbort(v: Volume, cnt: nat, size: nat, others: set<nat>, id: nat, newId: nat)
    requires Inv(v, cnt, size, others) && Honest(v, cnt) && v.memo == Some(0) && InScan(v, cnt)
    requires id in v.chains && v.chains[id] != [] && newId !in v.chains
    ensures var shrunk := Step(v, cnt, size, Resize(id, |v.chains[id]| - 1));
      && shrunk.Some? && Shaped(shrunk.value, cnt, size)
      && shrunk.value.memo == Some(0xFFFF_FFFF) && |FreeUpTo(shrunk.value.ts[0], cnt)| == 1
      && Step(shrunk.value, cnt, size, Create(newId, 2)) == None
  {
    hide IsChain, FreeUpTo, Collected, Written, ShrinkWrites, GrowWrites, ChainsApart, NothingLeaked, Below;
    var c, n := v.chains[id], |v.chains[id]| - 1;
    CutCount(v, cnt, size, others, id, n);
    BelowIs(c[n..], cnt);
    StepKeepsInv(v, cnt, size, others, Resize(id, n));
    var v' := Step(v, cnt, size, Resize(id, n)).value;
    FreeUpToLists(v.ts[0], cnt);
    assert FreeUpTo(v.ts[0], cnt) == [] && v.hint == NO_HINT;
    AssertFiresIffMemoTooHigh(v'.ts[0], cnt, v'.hint, 0xFFFF_FFFF, 2);
  }

  lemma InvIsShaped(v: Volume, cnt: nat, size: nat, others: set<nat>)
    requires Inv(v, cnt, size, others)
    ensures Shaped(v, cnt, size)
  {
  }

  // ----- runs with an honest count -----

  /** Neither a file nor the hint reaches behind the scanned range. */
  predicate InScan(v: Volume, cnt: nat) {
    (v.hint == NO_HINT || v.hint < cnt) && forall id :: id in v.chains ==> Within(v.chains[id], cnt)
  }

  lemma StepStaysInScan(v: Volume, cnt: nat, size: nat, op: Op)
    requires Shaped(v, cnt, size) && InScan(v, cnt) && Step(v, cnt, size, op).Some?
    ensures InScan(Step(v, cnt, size, op).value, cnt)
  {
    hide AllocOutcome, WrittenAll, ShrinkWrites, GrowWrites, ZeroWrites, Shifted;
    var k := Wanted(v, op);
    if k > 0 && AllocOutcome(v.ts[0], cnt, v.hint, AvailOf(v, cnt), k).Got? {
      TakenInScanIff(v.ts[0], cnt, v.hint, AvailOf(v, cnt), k);
    }
  }

  /** While no file is shrunk, no step aborts and the memoised count stays the number of free clusters. */
  lemma StepIsHonest(v: Volume, cnt: nat, size: nat, others: set<nat>, op: Op)
    requires Inv(v, cnt, size, others) && Honest(v, cnt) && InScan(v, cnt) && !Shrinks(v, op)
    ensures var r := Step(v, cnt, size, op);
      r.Some? && Shaped(r.value, cnt, size) && Honest(r.value, cnt) && InScan(r.value, cnt)
  {
    hide ResizeStep, Inv, Honest;
    if v.memo.Some? {
      StepMemoIff(v, cnt, size, others, op);
    } else {
      UncountedStep(v, cnt, size, others, op);
    }
    InvIsShaped(v, cnt, size, others);
    StepStaysInScan(v, cnt, size, op);
  }

  /** Before anything is memoised, a step counts first or leaves the count open. */
  lemma UncountedStep(v: Volume, cnt: nat, size: nat, others: set<nat>, op: Op)
    requires Inv(v, cnt, size, others) && v.memo == None && InScan(v, cnt)
    ensures var r := Step(v, cnt, size, op); r.Some? && Shaped(r.value, cnt, size) && Honest(r.value, cnt)
  {
    hide AllocOutcome, WrittenAll, ShrinkWrites, GrowWrites, ZeroWrites, ChainsApart, NothingLeaked, GoodHint;
    if Wanted(v, op) > 0 {
      hide ResizeStep;
      GrowMemo(v, cnt, size, others, op.id, ChainOf(v, op.id), |ChainOf(v, op.id)| + Wanted(v, op));
    } else {
      StepKeepsInv(v, cnt, size, others, op);
    }
  }

  ghost predicate NeverShrinks(v: Volume, cnt: nat, size: nat, ops: seq<Op>)
    requires Shaped(v, cnt, size)
    decreases |ops|
  {
    ops == [] || (
      && !Shrinks(v, ops[0])
      && var next := Step(v, cnt, size, ops[0]);
      next.Some? && Shaped(next.value, cnt, size) ==> NeverShrinks(next.value, cnt, size, ops[1..]))
  }

  /** A run in which no file is shrunk completes without an assertion failure and with an honest count. */
  lemma {:induction false} RunIsHonest(v: Volume, cnt: nat, size: nat, others: set<nat>, ops: seq<Op>)
    returns (v': Volume)
    requires Inv(v, cnt, size, others) && Honest(v, cnt) && InScan(v, cnt)
    requires NeverShrinks(v, cnt, size, ops)
    ensures Run(v, cnt, size, ops, v') && Inv(v', cnt, size, others) && Honest(v', cnt)
    decreases |ops|
  {
    if ops == [] {
      v' := v;
    } else {
      StepIsHonest(v, cnt, size, others, ops[0]);
      StepKeepsInv(v, cnt, size, others, ops[0]);
      v' := RunIsHonest(Step(v, cnt, size, ops[0]).value, cnt, size, others, ops[1..]);
    }
  }
}
