/** The find-majority problem of Balance2/ProblemFindMajority2.cpp. Its constructor and
    is_majority are the same code as in Balance/ProblemFindMajority.cpp and are the members of
    FindMajority; what is new is the state, which pairs the distributions with an interned
    Partition2, and the order on states that keys the solver's maps. */
module FindMajority2 {
  import opened Sums
  import opened Lex
  import opened Pans
  import Intern
  import Partition2
  import FindMajority

  /** StateType: the distributions, the handle of the partition they refer to, and a score the
      comparisons leave out (a float, kept here only as a value). */
  datatype StateType = StateType(distributions: seq<seq<nat>>, partition: nat, score: real)

  /** operator==: the same partition instance and the same distributions; the score does not count. */
  predicate Equal(a: StateType, b: StateType) {
    a.partition == b.partition && a.distributions == b.distributions
  }

  /** operator<=> as "less than": by partition value when the instances differ, otherwise
      lexicographically by the distribution lists. */
  predicate Less(cache: Intern.Cache<Partition2.Partition2>, a: StateType, b: StateType)
    requires Intern.IsHandle(cache, a.partition) && Intern.IsHandle(cache, b.partition)
  {
    if a.partition != b.partition then Partition2.Less(cache.values[a.partition], cache.values[b.partition])
    else Lex.Less(a.distributions, b.distributions, NatLess)
  }

  /** The score plays no part in equality or order. */
  lemma ScoreIgnored(cache: Intern.Cache<Partition2.Partition2>, a: StateType, b: StateType, s: real)
    requires Intern.IsHandle(cache, a.partition) && Intern.IsHandle(cache, b.partition)
    ensures Equal(a, b) <==> Equal(a.(score := s), b)
    ensures Less(cache, a, b) <==> Less(cache, a.(score := s), b)
  {
  }

  /** With one instance per partition value, states are totally ordered and two states are
      equivalent in that order exactly when they are equal: what std::totally_ordered and the
      solver's maps need. */
  lemma LessTotalOrder(cache: Intern.Cache<Partition2.Partition2>, a: StateType, b: StateType, c: StateType)
    requires Intern.Valid(cache)
    requires Intern.IsHandle(cache, a.partition) && Intern.IsHandle(cache, b.partition) && Intern.IsHandle(cache, c.partition)
    ensures !Less(cache, a, a)
    ensures Less(cache, a, b) && Less(cache, b, c) ==> Less(cache, a, c)
    ensures Equal(a, b) || Less(cache, a, b) || Less(cache, b, a)
    ensures Equal(a, b) ==> !Less(cache, a, b)
  {
    NatLessStrictTotal();
    var pa, pb, pc := cache.values[a.partition], cache.values[b.partition], cache.values[c.partition];
    Intern.HandleEqIffValueEq(cache, a.partition, b.partition);
    Intern.HandleEqIffValueEq(cache, b.partition, c.partition);
    Intern.HandleEqIffValueEq(cache, a.partition, c.partition);
    Partition2.LessStrictTotal(pa, pb, pc);
    Partition2.LessStrictTotal(pb, pa, pc);
    Partition2.LessStrictTotal(pa, pc, pb);
    LessIrreflexive(a.distributions, NatLess);
    LessTrichotomy(a.distributions, b.distributions, NatLess);
    if Less(cache, a, b) && Less(cache, b, c) {
      if a.partition == b.partition && b.partition == c.partition {
        LessTransitive(a.distributions, b.distributions, c.distributions, NatLess);
      }
    }
  }

  /** make_root(partition): the root state over a one-part partition of all the coins, holding the
      distributions [minimum_count] .. [maximum_count] in ascending order. */
  method MakeRoot(pr: FindMajority.Problem, cache: Intern.Cache<Partition2.Partition2>, partition: nat) returns (state: StateType)
    requires Intern.IsHandle(cache, partition)
    requires |cache.values[partition].parts| == 1 && Partition2.CoinCount(cache.values[partition]) == pr.coinCount
    requires pr.maximumCount < MaxCoins
    ensures state.partition == partition
    ensures forall d :: d in state.distributions <==> |d| == 1 && pr.minimumCount <= d[0] <= pr.maximumCount
    ensures forall i, j :: 0 <= i < j < |state.distributions| ==> NatLess(state.distributions[i], state.distributions[j])
  {
    var distributions := FindMajority.MakeRootData(pr);
    state := StateType(distributions, partition, 0.0);
  }
}
