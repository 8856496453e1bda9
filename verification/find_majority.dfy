/** The find-majority problem of Balance/ProblemFindMajority.cpp: c coins, c odd, of two varieties
    H and L; find which variety holds the majority. A distribution gives, for each part of a
    partition, how many of its coins may be H; a state lists the distributions still consistent
    with the weighings seen. */
module FindMajority {
  import opened Sums
  import opened Lex
  import opened Pans

  /** The problem's constants (coin_count, minimum_count, maximum_count, threshold). */
  datatype Problem = Problem(coinCount: nat, minimumCount: nat, maximumCount: nat, threshold: nat)

  /** The constructor: the majority threshold, and the range of the number of H coins. By default
      each variety has at least one coin; an almost balanced problem has the varieties differ by one. */
  function NewProblem(coinCount: nat, isAlmostBalanced: bool): (pr: Problem)
    requires coinCount % 2 == 1 && coinCount <= MaxCoins
    ensures pr.coinCount == coinCount
    ensures 2 * pr.threshold > coinCount && 2 * (pr.threshold - 1) < coinCount
    ensures pr.minimumCount + pr.maximumCount == coinCount
    ensures !isAlmostBalanced ==> pr.minimumCount == 1
    ensures isAlmostBalanced ==> pr.maximumCount == pr.minimumCount + 1 == pr.threshold
    ensures pr.maximumCount < MaxCoins
  {
    var threshold := (coinCount + 1) / 2;
    if isAlmostBalanced then Problem(coinCount, threshold - 1, threshold, threshold)
    else Problem(coinCount, 1, coinCount - 1, threshold)
  }

  /** H is in the majority under distribution d. */
  predicate Majority(pr: Problem, d: seq<nat>) {
    Sum(d) >= pr.threshold
  }

  /** is_majority: add up the H counts in a uint8_t, stopping as soon as the threshold is reached.
      The counts are non-negative, so stopping early gives the same answer, and the sum never wraps
      while the distribution holds at most 255 coins. */
  method IsMajority(pr: Problem, d: seq<nat>) returns (r: bool)
    requires pr.threshold > 0
    ensures |d| == 0 ==> !r
    ensures Sum(d) <= MaxCoins ==> (r <==> Majority(pr, d))
  {
    var hCount := 0;
    var i := 0;
    while i < |d|
      invariant 0 <= i <= |d|
      invariant hCount <= MaxCoins
      invariant Sum(d) <= MaxCoins ==> hCount == Prefix(d, i) && hCount < pr.threshold
      invariant i == 0 ==> hCount == 0
    {
      if Sum(d) <= MaxCoins {
        PrefixMono(d, i + 1, |d|);
      }
      hCount := (hCount + d[i]) % (MaxCoins + 1);
      if hCount >= pr.threshold {
        if Sum(d) <= MaxCoins {
          PrefixMono(d, i + 1, |d|);
        }
        return true;
      }
      i := i + 1;
    }
    return false;
  }

  /** Each distribution of the state holds at most 255 coins, as a uint8_t count requires. */
  predicate Bounded(state: seq<seq<nat>>) {
    forall k :: 0 <= k < |state| ==> Sum(state[k]) <= MaxCoins
  }

  /** All distributions of the state agree on whether H is in the majority. */
  predicate Agree(pr: Problem, state: seq<seq<nat>>) {
    forall i, j :: 0 <= i < |state| && 0 <= j < |state| ==> (Majority(pr, state[i]) <==> Majority(pr, state[j]))
  }

  /** is_resolved: an impossible state is resolved; otherwise the state is resolved when every
      distribution gives the same answer to "is H in the majority?". */
  method IsResolved(pr: Problem, state: seq<seq<nat>>) returns (r: bool)
    requires pr.threshold > 0
    ensures |state| == 0 ==> r
    ensures Bounded(state) ==> (r <==> Agree(pr, state))
  {
    if |state| == 0 {
      return true;
    }
    var seenMajority, seenMinority := false, false;
    var i := 0;
    while i < |state|
      invariant 0 <= i <= |state|
      invariant !(seenMajority && seenMinority)
      invariant Bounded(state) ==> (seenMajority <==> exists k :: 0 <= k < i && Majority(pr, state[k]))
      invariant Bounded(state) ==> (seenMinority <==> exists k :: 0 <= k < i && !Majority(pr, state[k]))
    {
      var m := IsMajority(pr, state[i]);
      if m {
        if seenMinority {
          return false;
        }
        seenMajority := true;
      } else if seenMajority {
        return false;
      } else {
        seenMinority := true;
      }
      i := i + 1;
    }
    if Bounded(state) && !Agree(pr, state) {
      var a, b :| 0 <= a < |state| && 0 <= b < |state| && Majority(pr, state[a]) && !Majority(pr, state[b]);
      assert false;
    }
    return true;
  }

  /** is_impossible: no distribution is consistent with the weighings seen. */
  function IsImpossible(state: seq<seq<nat>>): (r: bool)
    ensures r <==> forall d :: d !in state
  {
    assert |state| > 0 ==> state[0] in state;
    |state| == 0
  }

  /** make_root_data: the one-part distributions [i] for i from minimum_count to maximum_count. */
  method MakeRootData(pr: Problem) returns (state: seq<seq<nat>>)
    requires pr.maximumCount < MaxCoins
    ensures forall d :: d in state <==> |d| == 1 && pr.minimumCount <= d[0] <= pr.maximumCount
    ensures forall i, j :: 0 <= i < j < |state| ==> NatLess(state[i], state[j])
  {
    state := [];
    var i := pr.minimumCount;
    while i <= pr.maximumCount
      invariant pr.minimumCount <= i && (pr.minimumCount <= pr.maximumCount ==> i <= pr.maximumCount + 1)
      invariant pr.minimumCount > pr.maximumCount ==> i == pr.minimumCount
      invariant |state| == i - pr.minimumCount
      invariant forall k :: 0 <= k < |state| ==> state[k] == [pr.minimumCount + k]
      decreases pr.maximumCount + 1 - i
    {
      state := state + [[i]];
      i := i + 1;
    }
    assert pr.minimumCount <= pr.maximumCount ==> i == pr.maximumCount + 1;
    forall d | d in state ensures |d| == 1 && pr.minimumCount <= d[0] <= pr.maximumCount {
      var k :| 0 <= k < |state| && state[k] == d;
    }
    forall d | |d| == 1 && pr.minimumCount <= d[0] <= pr.maximumCount ensures d in state {
      assert d == [d[0]];
      assert state[d[0] - pr.minimumCount] == d;
    }
    forall i, j | 0 <= i < j < |state| ensures NatLess(state[i], state[j]) {
      NatLessAt(state[i], state[j], 0);
    }
  }
}
