/**
 * Which clusters `allocClus` takes: the hint, if there is one, and then whatever its scan of
 * cluster numbers 0, 1, 2, ... finds free while it is already writing links.
 */
module FirstFit {
  import opened Base
  import opened FatTable

  /** Entries 0 and 1 are reserved, so they never read as free. */
  predicate Reserved(t: seq<u32>) {
    |t| >= 2 && Link(t, 0) != 0 && Link(t, 1) != 0
  }

  /** What the scan has collected before it looks at cluster `pos`. */
  function Collected(t: seq<u32>, pos: nat, hint: nat): (r: seq<nat>)
    requires pos <= |t|
  {
    if pos == 0 then (if hint == NO_HINT then [] else [hint])
    else
      var before := Collected(t, pos - 1, hint);
      if Link(t, pos - 1) == 0 && (pos - 1 != hint || |before| == 1) then before + [pos - 1] else before
  }

  lemma CollectedNext(t: seq<u32>, pos: nat, hint: nat)
    requires pos < |t|
    ensures var before := Collected(t, pos, hint);
      Collected(t, pos + 1, hint) ==
      if Link(t, pos) == 0 && (pos != hint || |before| == 1) then before + [pos] else before
  {
  }

  /** A one-cluster request with a hint gets just the hint. */
  lemma OneClusterHinted(t: seq<u32>, cnt: nat, hint: nat)
    requires cnt <= |t| && hint != NO_HINT
    ensures |Collected(t, cnt, hint)| >= 1 && Collected(t, cnt, hint)[..1] == [hint]
    ensures LinkWrites([hint]) == [] + [Write(hint, EOC_MARK)]
  {
  }

  lemma OpenWritesShort(c: seq<nat>)
    requires |c| <= 1
    ensures OpenWrites(c) == []
  {
  }

  lemma OpenWritesMore(c: seq<nat>, x: nat)
    requires c != []
    ensures OpenWrites(c + [x]) ==
            if c[|c| - 1] != 0 then OpenWrites(c) + [Write(c[|c| - 1], x)] else OpenWrites(c)
  {
  }

  datatype AllocResult = NoSpace | Got(chain: seq<nat>) | AssertFailed

  /** The outcome of `allocClus(k)` when the memoised free count reads `avail`. */
  function AllocOutcome(t: seq<u32>, cnt: nat, hint: nat, avail: nat, k: nat): AllocResult
    requires cnt <= |t|
  {
    var found := Collected(t, cnt, hint);
    if avail < k then NoSpace else if |found| < k then AssertFailed else Got(found[..k])
  }

  lemma {:induction false} CollectedIsPrefix(t: seq<u32>, pos: nat, end: nat, hint: nat)
    requires pos <= end <= |t|
    ensures Collected(t, pos, hint) <= Collected(t, end, hint)
    decreases end
  {
    if pos < end {
      CollectedIsPrefix(t, pos, end - 1, hint);
    }
  }

  /** Everything collected by the scan itself lies below `pos`, past the reserved entries, and is free. */
  lemma {:induction false} CollectedAreFree(t: seq<u32>, pos: nat, hint: nat)
    requires Reserved(t) && pos <= |t|
    ensures var c, h := Collected(t, pos, hint), if hint == NO_HINT then 0 else 1;
      && |c| >= h && (h == 1 ==> c[0] == hint)
      && (forall i :: h <= i < |c| ==> 2 <= c[i] < pos && Link(t, c[i]) == 0)
      && (forall i, j :: h <= i < j < |c| ==> c[i] < c[j])
      && (h == 1 ==> forall i :: 1 < i < |c| ==> c[i] != hint)
  {
    if pos > 0 {
      CollectedAreFree(t, pos - 1, hint);
    }
  }

  /**
   * The scan reads entries that it may already have changed: the hint's entry stops reading as free
   * as soon as a second cluster has been collected, and nothing else ahead of the scan changes.
   */
  lemma ScanReads(t: seq<u32>, pos: nat, hint: nat)
    requires Reserved(t) && pos < |t| && pos < EOC_MARK && (hint == NO_HINT || hint < |t|)
    ensures var c := Collected(t, pos, hint);
      && WritesWithin(OpenWrites(c), |t|)
      && (Link(Written(t, OpenWrites(c)), pos) == 0 <==> Link(t, pos) == 0 && (pos != hint || |c| == 1))
  {
    CollectedAreFree(t, pos, hint);
    var c := Collected(t, pos, hint);
    if pos != hint {
      assert pos !in c;
      WrittenFrame(t, OpenWrites(c), pos);
    } else if |c| > 1 {
      HintIsLinked(t, c);
    }
  }

  lemma HintIsLinked(t: seq<u32>, c: seq<nat>)
    requires |c| > 1 && Within(c, |t|) && c[0] != 0 && Within(c, LINK_SPACE)
    requires forall i :: 1 <= i < |c| ==> 2 <= c[i] < c[0]
    requires forall i, j :: 1 <= i < j < |c| ==> c[i] < c[j]
    ensures WritesWithin(OpenWrites(c), |t|)
    ensures Link(Written(t, OpenWrites(c)), c[0]) != 0
  {
    hide Link, Written, OpenWrites;
    assert Distinct(c);
    OpenWritesLink(t, c);
    assert Link(Written(t, OpenWrites(c)), c[0]) == c[1];
  }

  // ----- what is taken -----

  lemma {:induction false} NoHintIsFirstFit(t: seq<u32>, cnt: nat)
    requires cnt <= |t| && cnt <= NO_HINT
    ensures Collected(t, cnt, NO_HINT) == FreeUpTo(t, cnt)
    decreases cnt
  {
    if cnt > 0 {
      NoHintIsFirstFit(t, cnt - 1);
    }
  }

  /** `s` without `x`. */
  function Without(s: seq<nat>, x: nat): seq<nat> {
    if s == [] then []
    else
      var before := Without(s[..|s| - 1], x);
      if s[|s| - 1] == x then before else before + [s[|s| - 1]]
  }

  predicate LowestFree(t: seq<u32>, cnt: nat, h: nat)
    requires cnt <= |t|
  {
    h < cnt && Link(t, h) == 0 && forall n :: 0 <= n < h ==> Link(t, n) != 0
  }

  lemma {:induction false} HintThenFirstFit(t: seq<u32>, cnt: nat, hint: nat)
    requires cnt <= |t| && hint != NO_HINT && !LowestFree(t, cnt, hint)
    ensures Collected(t, cnt, hint) == [hint] + Without(FreeUpTo(t, cnt), hint)
    decreases cnt
  {
    if cnt > 0 {
      HintThenFirstFit(t, cnt - 1, hint);
      var before, free := Collected(t, cnt - 1, hint), FreeUpTo(t, cnt - 1);
      if Link(t, cnt - 1) == 0 {
        if cnt - 1 == hint {
          var n :| 0 <= n < hint && Link(t, n) == 0;
          FreeUpToLists(t, cnt - 1);
          WithoutKeepsOthers(free, hint, n);
        }
      }
    }
  }

  lemma {:induction false} WithoutKeepsOthers(s: seq<nat>, x: nat, y: nat)
    requires y in s && y != x
    ensures y in Without(s, x)
  {
    if s[|s| - 1] != y {
      WithoutKeepsOthers(s[..|s| - 1], x, y);
    }
  }

  lemma {:induction false} WithoutMembers(s: seq<nat>, x: nat)
    requires Ascending(s)
    ensures Ascending(Without(s, x))
    ensures forall y :: y in Without(s, x) <==> y in s && y != x
    ensures |Without(s, x)| == |s| - if x in s then 1 else 0
  {
    if s != [] {
      var p, l := s[..|s| - 1], s[|s| - 1];
      WithoutMembers(p, x);
      assert s == p + [l] && l !in p;
      forall i | 0 <= i < |Without(p, x)| ensures Without(p, x)[i] < l {
        assert Without(p, x)[i] in p;
      }
    }
  }

  /** With the lowest free cluster as its hint, the scan meets the hint again before it is linked. */
  lemma {:induction false} LowestHintIsTakenTwice(t: seq<u32>, cnt: nat, hint: nat)
    requires cnt <= |t| && hint != NO_HINT && LowestFree(t, cnt, hint)
    ensures Collected(t, hint, hint) == [hint]
    ensures [hint, hint] <= Collected(t, cnt, hint)
  {
    OnlyHint(t, hint, hint);
    CollectedIsPrefix(t, hint + 1, cnt, hint);
  }

  lemma {:induction false} OnlyHint(t: seq<u32>, pos: nat, hint: nat)
    requires pos <= |t| && hint != NO_HINT && forall n :: 0 <= n < pos ==> Link(t, n) != 0
    ensures Collected(t, pos, hint) == [hint]
  {
    if pos > 0 {
      OnlyHint(t, pos - 1, hint);
    }
  }

  // ----- when the result is a fresh chain -----

  predicate Fresh(t: seq<u32>, c: seq<nat>) {
    && InTable(t, c) && Distinct(c)
    && forall i :: 0 <= i < |c| ==> Link(t, c[i]) == 0
  }

  /** What a caller can check before asking for `k` clusters with a hint. */
  predicate GoodHint(t: seq<u32>, cnt: nat, hint: nat, k: nat)
    requires cnt <= |t|
  {
    hint == NO_HINT
    || (hint < |t| && hint < EOC_MARK && Link(t, hint) == 0 && (k <= 1 || !LowestFree(t, cnt, hint)))
  }

  /** A hint that is good for two clusters is good for any number. */
  lemma GoodForAny(t: seq<u32>, cnt: nat, hint: nat)
    requires cnt <= |t| && GoodHint(t, cnt, hint, 2)
    ensures forall k :: GoodHint(t, cnt, hint, k)
  {
  }

  lemma GoodHintIsUsable(t: seq<u32>, cnt: nat, hint: nat, k: nat)
    requires Reserved(t) && cnt <= |t| && GoodHint(t, cnt, hint, k)
    ensures hint == NO_HINT || 2 <= hint < |t|
  {
  }

  /** The clusters a first-fit allocator with that hint should take, best first. */
  function Candidates(t: seq<u32>, cnt: nat, hint: nat): seq<nat>
    requires cnt <= |t|
  {
    if hint == NO_HINT then FreeUpTo(t, cnt) else [hint] + Without(FreeUpTo(t, cnt), hint)
  }

  lemma FreeListIsFresh(t: seq<u32>, cnt: nat, s: seq<nat>)
    requires Reserved(t) && cnt <= |t| && cnt <= EOC_MARK && Ascending(s)
    requires forall n :: n in s ==> n < cnt && Link(t, n) == 0
    ensures Fresh(t, s)
  {
    forall i | 0 <= i < |s| ensures 2 <= s[i] < cnt && Link(t, s[i]) == 0 {
      assert s[i] in s;
    }
  }

  lemma HintIsFresh(t: seq<u32>, hint: nat, s: seq<nat>)
    requires Reserved(t) && Fresh(t, s) && hint !in s
    requires hint < |t| && hint < EOC_MARK && Link(t, hint) == 0
    ensures Fresh(t, [hint] + s)
  {
  }

  lemma CandidatesAreFresh(t: seq<u32>, cnt: nat, hint: nat)
    requires Reserved(t) && cnt <= |t| && cnt <= EOC_MARK && GoodHint(t, cnt, hint, 1)
    ensures Fresh(t, Candidates(t, cnt, hint))
    ensures |Candidates(t, cnt, hint)| >= |FreeUpTo(t, cnt)|
  {
    FreeUpToLists(t, cnt);
    if hint == NO_HINT {
      FreeListIsFresh(t, cnt, FreeUpTo(t, cnt));
    } else {
      WithoutMembers(FreeUpTo(t, cnt), hint);
      FreeListIsFresh(t, cnt, Without(FreeUpTo(t, cnt), hint));
      HintIsFresh(t, hint, Without(FreeUpTo(t, cnt), hint));
    }
  }

  lemma TakesCandidates(t: seq<u32>, cnt: nat, hint: nat, k: nat)
    requires cnt <= |t| && cnt <= EOC_MARK && GoodHint(t, cnt, hint, k) && k >= 1
    ensures var taken, cs := Collected(t, cnt, hint), Candidates(t, cnt, hint);
      (k <= |taken| <==> k <= |cs|) && (k <= |cs| ==> taken[..k] == cs[..k])
  {
    if hint == NO_HINT {
      NoHintIsFirstFit(t, cnt);
    } else if LowestFree(t, cnt, hint) {
      LowestHintIsTakenTwice(t, cnt, hint);
      assert Collected(t, cnt, hint)[..1] == [hint] == Candidates(t, cnt, hint)[..1];
    } else {
      HintThenFirstFit(t, cnt, hint);
    }
  }

  /** With a good hint, whatever is handed out is the hint and then the smallest other free clusters. */
  lemma OutcomeIsFirstFit(t: seq<u32>, cnt: nat, hint: nat, avail: nat, k: nat)
    requires Reserved(t) && cnt <= |t| && cnt <= EOC_MARK && GoodHint(t, cnt, hint, k) && k >= 1
    ensures var r, cs := AllocOutcome(t, cnt, hint, avail, k), Candidates(t, cnt, hint);
      && (r.Got? <==> k <= avail && k <= |cs|)
      && (r.Got? ==> r.chain == cs[..k] && Fresh(t, r.chain))
  {
    TakesCandidates(t, cnt, hint, k);
    CandidatesAreFresh(t, cnt, hint);
    if k <= |Candidates(t, cnt, hint)| {
      FreshPrefix(t, Candidates(t, cnt, hint), k);
    }
  }

  /**
   * First fit: while the memoised count does not exceed the true one, a request fails only when it
   * exceeds the memoised count.
   */
  lemma AllocIsFirstFit(t: seq<u32>, cnt: nat, hint: nat, avail: nat, k: nat)
    requires Reserved(t) && cnt <= |t| && cnt <= EOC_MARK && GoodHint(t, cnt, hint, k)
    requires k >= 1 && avail <= |FreeUpTo(t, cnt)|
    ensures avail <= |Candidates(t, cnt, hint)| && Fresh(t, Candidates(t, cnt, hint))
    ensures AllocOutcome(t, cnt, hint, avail, k) ==
            if avail < k then NoSpace else Got(Candidates(t, cnt, hint)[..k])
  {
    CandidatesAreFresh(t, cnt, hint);
    OutcomeIsFirstFit(t, cnt, hint, avail, k);
  }

  /** All candidates but a hint from behind the scanned range are free clusters of that range, and all of these. */
  lemma CandidatesInScan(t: seq<u32>, cnt: nat, hint: nat)
    requires Reserved(t) && cnt <= |t| && cnt <= EOC_MARK && GoodHint(t, cnt, hint, 1)
    ensures var cs, beyond := Candidates(t, cnt, hint), if cnt <= hint < NO_HINT then 1 else 0;
      && |cs| == |FreeUpTo(t, cnt)| + beyond && Distinct(cs)
      && (beyond == 1 ==> cs[0] == hint)
      && forall i :: beyond <= i < |cs| ==> cs[i] < cnt && Link(t, cs[i]) == 0
  {
    hide Link, FreeUpTo;
    CandidatesAreFresh(t, cnt, hint);
    FreeUpToLists(t, cnt);
    var cs, free := Candidates(t, cnt, hint), FreeUpTo(t, cnt);
    if hint == NO_HINT {
      forall i | 0 <= i < |cs| ensures cs[i] in free {
      }
    } else {
      WithoutMembers(free, hint);
      forall i | 1 <= i < |cs| ensures cs[i] in free {
        assert cs[i] == Without(free, hint)[i - 1];
        assert cs[i] in Without(free, hint);
      }
    }
  }

  /** Once the first `k` candidates are taken, the others are what is left. */
  lemma TakingCandidates(t: seq<u32>, u: seq<u32>, cnt: nat, hint: nat, k: nat)
    requires Reserved(t) && |u| == |t| && cnt <= |t| && cnt <= EOC_MARK && GoodHint(t, cnt, hint, 1)
    requires 1 <= k <= |Candidates(t, cnt, hint)|
    requires forall n :: 0 <= n < cnt ==>
      if n in Candidates(t, cnt, hint)[..k] then Link(u, n) != 0 else (Link(u, n) == 0 <==> Link(t, n) == 0)
    ensures |FreeUpTo(u, cnt)| == |Candidates(t, cnt, hint)| - k
  {
    hide Link, FreeUpTo, Candidates, GoodHint, Reserved;
    CandidatesInScan(t, cnt, hint);
    var beyond := if cnt <= hint < NO_HINT then 1 else 0;
    var cs := Candidates(t, cnt, hint);
    var taken := cs[beyond..k];
    WithoutFirst(cs, beyond, k);
    TakingLowersCount(t, u, cnt, taken);
  }

  lemma WithoutFirst(cs: seq<nat>, b: nat, k: nat)
    requires b <= k <= |cs| && b <= 1 && Distinct(cs)
    ensures var taken := cs[b..k];
      && Distinct(taken) && (forall i :: 0 <= i < |taken| ==> taken[i] == cs[i + b] && taken[i] in cs[..k])
      && forall n :: n in cs[..k] ==> n in taken || (b == 1 && n == cs[0])
  {
    var taken := cs[b..k];
    forall i | 0 <= i < |taken| ensures taken[i] in cs[..k] {
      assert taken[i] == cs[..k][i + b];
    }
    forall n | n in cs[..k] ensures n in taken || (b == 1 && n == cs[0]) {
      var i :| 0 <= i < k && cs[..k][i] == n;
      assert i >= b ==> taken[i - b] == n;
    }
  }

  /** A table in which the same clusters of the scanned range are free has the same candidates. */
  lemma SameFreeSameCandidates(t: seq<u32>, u: seq<u32>, cnt: nat, hint: nat)
    requires |u| == |t| && cnt <= |t| && forall n :: 0 <= n < cnt ==> (Link(u, n) == 0 <==> Link(t, n) == 0)
    ensures Candidates(u, cnt, hint) == Candidates(t, cnt, hint) && |FreeUpTo(u, cnt)| == |FreeUpTo(t, cnt)|
  {
    SameFreeList(t, u, cnt);
  }

  lemma {:induction false} SameFreeList(t: seq<u32>, u: seq<u32>, cnt: nat)
    requires |u| == |t| && cnt <= |t| && forall n :: 0 <= n < cnt ==> (Link(u, n) == 0 <==> Link(t, n) == 0)
    ensures FreeUpTo(u, cnt) == FreeUpTo(t, cnt)
    decreases cnt
  {
    hide Link;
    if cnt > 0 {
      SameFreeList(t, u, cnt - 1);
    }
  }

  /** A hint that is the lowest free cluster is collected twice. */
  lemma {:induction false} LowestHintThenFirstFit(t: seq<u32>, pos: nat, hint: nat)
    requires hint != NO_HINT && hint < pos <= |t| && LowestFree(t, pos, hint)
    ensures Collected(t, pos, hint) == [hint] + FreeUpTo(t, pos)
    decreases pos
  {
    if pos == hint + 1 {
      OnlyHint(t, hint, hint);
      NoneFree(t, hint);
    } else {
      LowestHintThenFirstFit(t, pos - 1, hint);
      FreeUpToLists(t, pos - 1);
      assert hint in FreeUpTo(t, pos - 1);
    }
  }

  lemma {:induction false} NoneFree(t: seq<u32>, pos: nat)
    requires pos <= |t| && forall n :: 0 <= n < pos ==> Link(t, n) != 0
    ensures FreeUpTo(t, pos) == []
  {
    if pos > 0 {
      NoneFree(t, pos - 1);
    }
  }

  /** A hint counts on top of the free clusters unless it is one of them and not met again. */
  predicate HintCountsExtra(t: seq<u32>, cnt: nat, hint: nat)
    requires cnt <= |t|
  {
    hint != NO_HINT && (hint >= cnt || Link(t, hint) != 0 || LowestFree(t, cnt, hint))
  }

  /**
   * The final assertion of `allocClus` fires exactly when the memoised count promised more clusters than
   * the scan can hand out.
   */
  lemma AssertFiresIffMemoTooHigh(t: seq<u32>, cnt: nat, hint: nat, avail: nat, k: nat)
    requires cnt <= |t| && cnt <= NO_HINT
    ensures var most := |FreeUpTo(t, cnt)| + if HintCountsExtra(t, cnt, hint) then 1 else 0;
      AllocOutcome(t, cnt, hint, avail, k) == AssertFailed <==> most < k <= avail
  {
    if hint == NO_HINT {
      NoHintIsFirstFit(t, cnt);
    } else if LowestFree(t, cnt, hint) {
      LowestHintThenFirstFit(t, cnt, hint);
    } else {
      HintThenFirstFit(t, cnt, hint);
      FreeUpToLists(t, cnt);
      WithoutMembers(FreeUpTo(t, cnt), hint);
    }
  }

  lemma FreshPrefix(t: seq<u32>, c: seq<nat>, k: nat)
    requires Fresh(t, c) && k <= |c|
    ensures Fresh(t, c[..k])
  {
  }

  lemma BadHintIsNotFresh(t: seq<u32>, cnt: nat, hint: nat, c: seq<nat>)
    requires cnt <= |t| && hint < |t| && hint < EOC_MARK && c <= Collected(t, cnt, hint)
    requires |c| >= 1 && !GoodHint(t, cnt, hint, |c|)
    ensures !Fresh(t, c)
  {
    CollectedIsPrefix(t, 0, cnt, hint);
    if Link(t, hint) == 0 {
      LowestHintIsTakenTwice(t, cnt, hint);
      assert c[0] == c[1];
    } else {
      assert c[0] == hint;
    }
  }

  ghost predicate AllocsFresh(t: seq<u32>, cnt: nat, hint: nat, avail: nat, k: nat)
    requires cnt <= |t|
  {
    var r := AllocOutcome(t, cnt, hint, avail, k);
    r.Got? && |r.chain| == k && Fresh(t, r.chain)
  }

  /** With any hint, the result is a fresh chain of `k` clusters if and only if the hint is good. */
  lemma HintIsGoodIffFresh(t: seq<u32>, cnt: nat, hint: nat, k: nat)
    requires Reserved(t) && cnt <= |t| && cnt <= EOC_MARK
    requires hint < |t| && hint < EOC_MARK && 1 <= k <= |FreeUpTo(t, cnt)|
    ensures GoodHint(t, cnt, hint, k) <==> AllocsFresh(t, cnt, hint, |FreeUpTo(t, cnt)|, k)
  {
    if GoodHint(t, cnt, hint, k) {
      CandidatesAreFresh(t, cnt, hint);
      OutcomeIsFirstFit(t, cnt, hint, |FreeUpTo(t, cnt)|, k);
    } else if |Collected(t, cnt, hint)| >= k {
      BadHintIsNotFresh(t, cnt, hint, Collected(t, cnt, hint)[..k]);
    }
  }

  /** A two-cluster request hinted at the lowest free cluster gets that cluster twice. */
  lemma BadHintExample(t: seq<u32>)
    requires t == [EOC_MARK, EOC_MARK, 0, 0]
    ensures AllocOutcome(t, 4, 2, 2, 2) == Got([2, 2])
    ensures Link(Written(t, LinkWrites([2, 2])), 2) == EOC_MARK && Link(Written(t, OpenWrites([2, 2])), 2) == 2
  {
    LowestHintIsTakenTwice(t, 4, 2);
    WrittenOne(t, [], Write(2, 2));
    assert OpenWrites([2, 2]) == [] + [Write(2, 2)];
    WrittenOne(t, OpenWrites([2, 2]), Write(2, EOC_MARK));
  }

  // ----- the last two clusters -----

  lemma {:induction false} BeyondScanIff(t: seq<u32>, pos: nat, cnt: nat, hint: nat, n: nat)
    requires pos <= cnt <= |t| && n >= cnt
    ensures n in Collected(t, pos, hint) <==> n == hint && hint != NO_HINT
  {
    if pos > 0 {
      BeyondScanIff(t, pos - 1, cnt, hint, n);
    }
  }

  /** The scan stops at `cnt`, so a cluster from there on is handed out exactly if it is the hint. */
  lemma BeyondScanOnlyAsHint(t: seq<u32>, cnt: nat, hint: nat, avail: nat, k: nat, n: nat)
    requires cnt <= |t| && k >= 1 && n >= cnt && AllocOutcome(t, cnt, hint, avail, k).Got?
    ensures n in AllocOutcome(t, cnt, hint, avail, k).chain <==> n == hint && hint != NO_HINT
  {
    BeyondScanIff(t, cnt, cnt, hint, n);
    CollectedIsPrefix(t, 0, cnt, hint);
    var found := Collected(t, cnt, hint);
    if n == hint && hint != NO_HINT {
      assert found[..k][0] == hint;
    }
  }

  /** With only the last two of six clusters free, a request finds no space, but gets one of them as its hint. */
  lemma LastClustersExample(t: seq<u32>)
    requires t == [EOC_MARK, EOC_MARK, EOC_MARK, EOC_MARK, 0, 0]
    ensures Link(t, 4) == 0 && Link(t, 5) == 0
    ensures AllocOutcome(t, 4, NO_HINT, |FreeUpTo(t, 4)|, 1) == NoSpace
    ensures GoodHint(t, 4, 4, 1) && AllocOutcome(t, 4, 4, 1, 1) == Got([4])
  {
    NoneFree(t, 4);
    OneClusterHinted(t, 4, 4);
  }

  /**
   * The hint at mount is the free count itself. With one free cluster left it is 1, and the first request
   * is given the reserved entry 1.
   */
  lemma CountAsHintIsBad(t: seq<u32>, cnt: nat)
    requires Reserved(t) && cnt <= |t| && |FreeUpTo(t, cnt)| == 1
    ensures var hint, avail := |FreeUpTo(t, cnt)|, |FreeUpTo(t, cnt)|;
      AllocOutcome(t, cnt, hint, avail, 1) == Got([1]) && !GoodHint(t, cnt, hint, 1)
  {
    OneClusterHinted(t, cnt, 1);
  }
}
