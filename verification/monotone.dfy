/** The monotonicity argument of Balance/Weighing.cpp: once no right pan exists for a left pan x,
    none exists for any lexicographically smaller left pan of the same size. This is what lets
    advance jump straight to the next pan size when select_right fails.

    The argument goes through a closed form for the largest right pan. Let j be the first part x
    takes coins from, T the coins in the parts after j, and N the size of x. The largest right pan
    y with left[i] + right[i] <= p[i] and y not above x holds Phi(x) - N coins, where
      Phi(x) = min(p[j], 2 x[j] - c) + T
    and c is 1 exactly when the first part k after j with 2 x[k] != p[k] has 2 x[k] < p[k]
    (cases A, B and C of the argument in the source). A right pan of size N exists iff
    2 N <= Phi(x), and Phi does not grow as x steps down. */
module Monotone {
  import opened Sums
  import opened Lex
  import opened Selection
  import opened Pans

  /** First part at or after i that x takes coins from, or |x| when there is none. */
  function FirstNonzeroFrom(x: seq<nat>, i: nat): (j: nat)
    requires i <= |x|
    ensures i <= j <= |x|
    ensures forall m :: i <= m < j ==> x[m] == 0
    ensures j < |x| ==> x[j] > 0
    decreases |x| - i
  {
    if i == |x| || x[i] > 0 then i else FirstNonzeroFrom(x, i + 1)
  }

  /** First part x takes coins from. */
  function Lead(x: seq<nat>): nat {
    FirstNonzeroFrom(x, 0)
  }

  /** A non-empty pan takes coins from some part. */
  lemma LeadExists(x: seq<nat>)
    requires Sum(x) > 0
    ensures Lead(x) < |x|
  {
    if Lead(x) == |x| {
      RangeZero(x, 0, |x|);
    }
  }

  /** First part at or after i where the right pan cannot take exactly as many coins as x, or |p|. */
  function FirstUnbalanced(p: seq<nat>, x: seq<nat>, i: nat): (k: nat)
    requires |x| == |p| && i <= |p|
    ensures i <= k <= |p|
    ensures forall m :: i <= m < k ==> 2 * x[m] == p[m]
    ensures k < |p| ==> 2 * x[k] != p[k]
    decreases |p| - i
  {
    if i == |p| || 2 * x[i] != p[i] then i else FirstUnbalanced(p, x, i + 1)
  }

  /** c of the closed form: 1 when the first unbalanced part after j has coins to spare. */
  function Spill(p: seq<nat>, x: seq<nat>, j: nat): nat
    requires |x| == |p| && j < |p|
  {
    var k := FirstUnbalanced(p, x, j + 1);
    if k < |p| && 2 * x[k] < p[k] then 1 else 0
  }

  /** Size of the largest right pan for x, plus the size of x. */
  function Phi(p: seq<nat>, x: seq<nat>): int
    requires |x| == |p| && Lead(x) < |x|
  {
    var j := Lead(x);
    Min(p[j], 2 * x[j] - Spill(p, x, j)) + (Sum(p) - Prefix(p, j + 1))
  }

  /** The coins of x before its lead part: none. */
  lemma LeadPrefix(x: seq<nat>)
    requires Lead(x) < |x|
    ensures Prefix(x, Lead(x)) == 0
    ensures Prefix(x, Lead(x) + 1) == x[Lead(x)]
  {
    RangeZero(x, 0, Lead(x));
  }

  // ---------------------------------------------------------------------------------------------
  // No right pan is larger than the closed form

  /** Every right pan y that fits beside x and is not above x has Sum(y) + Sum(x) <= Phi(x). */
  lemma PhiUpper(p: seq<nat>, x: seq<nat>, y: seq<nat>)
    requires Fits(p, x, y) && NatLessEq(y, x) && Lead(x) < |x|
    ensures Sum(y) + Sum(x) <= Phi(p, x)
  {
    var j := Lead(x);
    LeadPrefix(x);
    if y == x {
      PhiUpperSame(p, x);
    } else {
      var d := NatLessWitness(y, x);
      if d == j {
        DeviationBound(p, x, y, j);
        assert y[j] <= Spare(p, x)[j];
      } else {
        assert y[j] <= Spare(p, x)[j];
        PhiUpperLater(p, x, y, d);
      }
    }
  }

  /** The case y == x of PhiUpper: every part can match x. */
  lemma PhiUpperSame(p: seq<nat>, x: seq<nat>)
    requires Fits(p, x, x) && Lead(x) < |x|
    ensures 2 * Sum(x) <= Phi(p, x)
  {
    var j := Lead(x);
    var n := |p|;
    LeadPrefix(x);
    forall i | 0 <= i < n ensures x[i] + x[i] <= p[i] {
      assert x[i] <= Spare(p, x)[i];
    }
    var k := FirstUnbalanced(p, x, j + 1);
    if k < n && 2 * x[k] < p[k] {
      RangeAddLt(x, x, p, j + 1, n, k);
    } else {
      RangeAddLe(x, x, p, j + 1, n);
    }
  }

  /** The case of PhiUpper where y first falls behind x after the lead part j. */
  lemma PhiUpperLater(p: seq<nat>, x: seq<nat>, y: seq<nat>, d: nat)
    requires Fits(p, x, y) && Lead(x) < d < |p|
    requires forall i :: 0 <= i < d ==> y[i] == x[i]
    requires y[d] < x[d]
    ensures Sum(y) + Sum(x) <= Phi(p, x)
  {
    var j := Lead(x);
    var n := |p|;
    LeadPrefix(x);
    PrefixAgree(y, x, j + 1);
    assert 2 * x[j] <= p[j] by {
      assert y[j] <= Spare(p, x)[j];
    }
    forall i | j + 1 <= i < n ensures y[i] + x[i] <= p[i] {
      assert y[i] <= Spare(p, x)[i];
    }
    var k := FirstUnbalanced(p, x, j + 1);
    if k < n && 2 * x[k] < p[k] {
      var s := if d <= k then d else k;
      assert y[k] <= Spare(p, x)[k];
      RangeAddLt(y, x, p, j + 1, n, s);
    } else {
      RangeAddLe(y, x, p, j + 1, n);
    }
  }

  // ---------------------------------------------------------------------------------------------
  // A right pan of the closed-form size exists

  /** The right pan that agrees with x before d, takes v coins at d and every spare coin after d. */
  function Deviate(p: seq<nat>, x: seq<nat>, d: nat, v: nat): (z: seq<nat>)
    requires Within(p, x) && d < |p|
    ensures |z| == |p|
    ensures forall i :: 0 <= i < d ==> z[i] == x[i]
    ensures z[d] == v
    ensures forall i :: d < i < |p| ==> z[i] == p[i] - x[i]
  {
    seq(|p|, i requires 0 <= i < |p| => if i < d then x[i] else if i == d then v else p[i] - x[i])
  }

  lemma DeviateFacts(p: seq<nat>, x: seq<nat>, d: nat, v: nat)
    requires Within(p, x) && d < |p|
    requires forall i :: 0 <= i < d ==> 2 * x[i] <= p[i]
    requires v + x[d] <= p[d]
    ensures Fits(p, x, Deviate(p, x, d, v))
    ensures Sum(Deviate(p, x, d, v)) == Prefix(x, d) + v + (Sum(p) - Prefix(p, d + 1)) - (Sum(x) - Prefix(x, d + 1))
  {
    var z := Deviate(p, x, d, v);
    PrefixAgree(z, x, d);
    RangeAddEq(z, x, p, d + 1, |p|);
    assert Prefix(z, d + 1) == Prefix(z, d) + z[d];
  }

  /** A right pan of size Phi(x) - Sum(x) that fits beside x and is not above it. */
  lemma PhiReach(p: seq<nat>, x: seq<nat>) returns (z: seq<nat>)
    requires Within(p, x) && Lead(x) < |x|
    ensures Fits(p, x, z) && NatLessEq(z, x)
    ensures Sum(z) + Sum(x) == Phi(p, x)
  {
    var j := Lead(x);
    var k := FirstUnbalanced(p, x, j + 1);
    if 2 * x[j] > p[j] {
      z := ReachBehindAt(p, x, j, p[j] - x[j]);
    } else if k < |p| && 2 * x[k] < p[k] {
      z := ReachBehindAt(p, x, j, x[j] - 1);
    } else if k < |p| {
      z := ReachBalancedUpTo(p, x, k);
    } else {
      z := ReachBalanced(p, x);
    }
  }

  /** Cases A and C: the right pan falls behind x at the lead part j, taking v < x[j] coins there,
      and takes every spare coin after it. */
  lemma ReachBehindAt(p: seq<nat>, x: seq<nat>, j: nat, v: nat) returns (z: seq<nat>)
    requires Within(p, x) && j == Lead(x) < |x|
    requires v < x[j] && v + x[j] <= p[j]
    ensures Fits(p, x, z) && NatLess(z, x)
    ensures Sum(z) + Sum(x) == v + x[j] + (Sum(p) - Prefix(p, j + 1))
  {
    LeadPrefix(x);
    z := Deviate(p, x, j, v);
    DeviateFacts(p, x, j, v);
    NatLessAt(z, x, j);
  }

  /** Case B with an unbalanced part k after j that cannot match x: match x up to k, take every
      spare coin from k on. */
  lemma ReachBalancedUpTo(p: seq<nat>, x: seq<nat>, k: nat) returns (z: seq<nat>)
    requires Within(p, x) && Lead(x) < |x|
    requires 2 * x[Lead(x)] <= p[Lead(x)]
    requires k == FirstUnbalanced(p, x, Lead(x) + 1) < |p| && 2 * x[k] > p[k]
    ensures Fits(p, x, z) && NatLess(z, x)
    ensures Sum(z) + Sum(x) == 2 * x[Lead(x)] + (Sum(p) - Prefix(p, Lead(x) + 1))
  {
    z := Deviate(p, x, k, p[k] - x[k]);
    DeviateUpTo(p, x, k);
    NatLessAt(z, x, k);
  }

  /** The coins of the right pan ReachBalancedUpTo builds. */
  lemma DeviateUpTo(p: seq<nat>, x: seq<nat>, k: nat)
    requires Within(p, x) && Lead(x) < |x|
    requires 2 * x[Lead(x)] <= p[Lead(x)]
    requires k == FirstUnbalanced(p, x, Lead(x) + 1) < |p| && 2 * x[k] > p[k]
    ensures Fits(p, x, Deviate(p, x, k, p[k] - x[k]))
    ensures Sum(Deviate(p, x, k, p[k] - x[k])) + Sum(x) == 2 * x[Lead(x)] + (Sum(p) - Prefix(p, Lead(x) + 1))
  {
    var j := Lead(x);
    LeadPrefix(x);
    MatchableBefore(p, x, k);
    DeviateFacts(p, x, k, p[k] - x[k]);
    BalancedRange(p, x, j + 1);
    PrefixStep(p, k);
    PrefixStep(x, k);
    DeviateUpToSum(Sum(Deviate(p, x, k, p[k] - x[k])), Sum(x), Sum(p), x[k], p[k], Prefix(x, k), Prefix(x, k + 1),
                   Prefix(p, k), Prefix(p, k + 1), x[j], Prefix(p, j + 1));
  }

  /** The coin count of DeviateUpTo, on the range sums it is made of. */
  lemma DeviateUpToSum(sumZ: int, sumX: int, sumP: int, xk: int, pk: int, xK: int, xK1: int, pK: int, pK1: int,
                       xj: int, pJ1: int)
    requires sumZ == xK + (pk - xk) + (sumP - pK1) - (sumX - xK1)
    requires xK1 == xK + xk && pK1 == pK + pk
    requires 2 * (xK - xj) == pK - pJ1
    ensures sumZ + sumX == 2 * xj + (sumP - pJ1)
  {
  }

  /** Before the first unbalanced part after the lead part, a right pan can match x part by part. */
  lemma MatchableBefore(p: seq<nat>, x: seq<nat>, k: nat)
    requires Within(p, x) && Lead(x) < |x|
    requires 2 * x[Lead(x)] <= p[Lead(x)]
    requires k == FirstUnbalanced(p, x, Lead(x) + 1)
    ensures forall i :: 0 <= i < k ==> 2 * x[i] <= p[i]
  {
    forall i | 0 <= i < k ensures 2 * x[i] <= p[i] {
      if i < Lead(x) {
        assert x[i] == 0;
      }
    }
  }

  /** The balanced parts from a on hold twice the coins x takes from them. */
  lemma BalancedRange(p: seq<nat>, x: seq<nat>, a: nat)
    requires |x| == |p| && a <= |p|
    ensures var k := FirstUnbalanced(p, x, a);
            2 * (Prefix(x, k) - Prefix(x, a)) == Prefix(p, k) - Prefix(p, a)
  {
    RangeAddEq(x, x, p, a, FirstUnbalanced(p, x, a));
  }

  /** Case B with every part after j balanced: the right pan can equal x. */
  lemma ReachBalanced(p: seq<nat>, x: seq<nat>) returns (z: seq<nat>)
    requires Within(p, x) && Lead(x) < |x|
    requires 2 * x[Lead(x)] <= p[Lead(x)]
    requires FirstUnbalanced(p, x, Lead(x) + 1) == |p|
    ensures Fits(p, x, z) && z == x
    ensures Sum(z) + Sum(x) == 2 * x[Lead(x)] + (Sum(p) - Prefix(p, Lead(x) + 1))
  {
    var j := Lead(x);
    LeadPrefix(x);
    z := x;
    forall i | 0 <= i < |p| ensures x[i] <= Spare(p, x)[i] {
    }
    RangeAddEq(x, x, p, j + 1, |p|);
  }

  // ---------------------------------------------------------------------------------------------
  // Feasibility through the closed form

  /** Keeps at most n coins, taking them from the front. */
  function Trim(z: seq<nat>, n: nat): (t: seq<nat>)
    ensures |t| == |z|
    ensures forall i :: 0 <= i < |z| ==> t[i] <= z[i]
    ensures Sum(t) == Min(n, Sum(z))
    decreases |z|
  {
    if z == [] then []
    else
      var h: nat := if n <= z[0] then n else z[0];
      var r := Trim(z[1..], n - h);
      SumCons(h, r);
      SumTail(z);
      [h] + r
  }

  /** A right pan of size N exists for x exactly when 2 N <= Phi(x). */
  lemma FeasibleIffPhi(p: seq<nat>, x: seq<nat>)
    requires Within(p, x) && Lead(x) < |x|
    ensures Feasible(p, x) <==> 2 * Sum(x) <= Phi(p, x)
  {
    if Feasible(p, x) {
      var y :| Admissible(p, x, y);
      PhiUpper(p, x, y);
    }
    if 2 * Sum(x) <= Phi(p, x) {
      var y := PhiWitness(p, x);
    }
  }

  /** When 2 N <= Phi(x), the largest right pan cut down to N coins is admissible. */
  lemma PhiWitness(p: seq<nat>, x: seq<nat>) returns (y: seq<nat>)
    requires Within(p, x) && Lead(x) < |x|
    requires 2 * Sum(x) <= Phi(p, x)
    ensures Admissible(p, x, y)
  {
    var z := PhiReach(p, x);
    y := Trim(z, Sum(x));
    WithinBelow(Spare(p, x), z, y);
    NatLessEqPointwise(y, z);
    if y != z && z != x {
      NatLessTransitive(y, z, x);
    }
  }

  /** Taking no more from each part than a selection within the room stays within the room. */
  lemma WithinBelow(cap: seq<nat>, z: seq<nat>, y: seq<nat>)
    requires Within(cap, z) && |y| == |z|
    requires forall i :: 0 <= i < |z| ==> y[i] <= z[i]
    ensures Within(cap, y)
  {
  }

  /** Phi does not grow as the left pan steps down at a fixed size. */
  lemma PhiMonotone(p: seq<nat>, x': seq<nat>, x: seq<nat>)
    requires Within(p, x') && Within(p, x) && Lead(x) < |x|
    requires Sum(x') == Sum(x) && NatLess(x', x)
    ensures Lead(x') < |x'|
    ensures Phi(p, x') <= Phi(p, x)
  {
    LeadPrefix(x);
    PrefixMono(x, Lead(x) + 1, |x|);
    LeadExists(x');
    var j := Lead(x);
    var j' := Lead(x');
    var d := NatLessWitness(x', x);
    assert j <= j';
    if j < j' {
      PrefixMono(p, j + 1, j');
      assert Prefix(p, j' + 1) == Prefix(p, j') + p[j'];
    } else if d == j {
    } else {
      SpillMonotone(p, x', x, j, d);
    }
  }

  /** With the same lead part and lead count, stepping down after j cannot lose the spare coin of case C. */
  lemma SpillMonotone(p: seq<nat>, x': seq<nat>, x: seq<nat>, j: nat, d: nat)
    requires |x'| == |p| && |x| == |p| && j < d < |p|
    requires forall i :: 0 <= i < d ==> x'[i] == x[i]
    requires x'[d] < x[d]
    ensures Spill(p, x, j) <= Spill(p, x', j)
  {
    var k := FirstUnbalanced(p, x, j + 1);
    var k' := FirstUnbalanced(p, x', j + 1);
    if k < |p| && 2 * x[k] < p[k] {
      if d < k {
        assert k' == d;
      } else {
        assert k' == k;
      }
    }
  }

  /** The claim of the argument at Balance/Weighing.cpp: no right pan for x means no right pan for
      any lexicographically smaller left pan of the same size. */
  lemma NoneBelow(p: seq<nat>, x': seq<nat>, x: seq<nat>)
    requires Within(p, x') && Within(p, x) && Sum(x') == Sum(x) > 0
    requires NatLess(x', x) && !Feasible(p, x)
    ensures !Feasible(p, x')
  {
    LeadExists(x);
    PhiMonotone(p, x', x);
    FeasibleIffPhi(p, x);
    FeasibleIffPhi(p, x');
  }
}
