/** The enumerator of Balance/Weighing.cpp: the first weighing of a partition, and the step from
    one weighing to the next in the order of Pans.Precedes. Vectors are values here; each method
    returns the pans the C++ member function leaves in `left` and `right`. */
module Enumerator {
  import opened Sums
  import opened Lex
  import opened Selection
  import opened Pans
  import opened Monotone

  // ---------------------------------------------------------------------------------------------
  // The first weighing

  /** The weighing the constructor builds: one coin of part 0 on the left, and on the right one
      coin of part 0 when it has two, otherwise one coin of part 1. */
  function Start(p: seq<nat>): (w: Weighing)
    requires IsPartition(p) && Sum(p) >= 2
    ensures |w.left| == |p| && |w.right| == |p|
  {
    assert |p| > 0;
    assert |p| == 1 ==> Sum(p) == Prefix(p, 0) + p[0];
    var zero := seq(|p|, _ => 0);
    var left := zero[0 := 1];
    Weighing(left, if p[0] >= 2 then left else zero[1 := 1])
  }

  /** The left pan of Start is the greedy, hence largest, left pan of one coin. */
  lemma StartLeft(p: seq<nat>)
    requires IsPartition(p) && Sum(p) >= 2
    ensures Within(p, Start(p).left) && Sum(Start(p).left) == 1
    ensures HighestOfSize(p, Start(p).left)
  {
    var L := Start(p).left;
    forall i | 0 <= i < |p| ensures L[i] == Clamp(1 - Prefix(p, i), p[i]) {
      if i > 0 {
        PrefixMono(p, 1, i);
      }
    }
    GreedyHighest(p, L, 1);
  }

  /** The right pan of Start is the largest admissible right pan for its left pan. */
  lemma StartRight(p: seq<nat>)
    requires IsPartition(p) && Sum(p) >= 2
    ensures IsWeighing(p, Start(p))
    ensures forall z :: Admissible(p, Start(p).left, z) ==> NatLessEq(z, Start(p).right)
  {
    if p[0] < 2 {
      StartRightSingle(p);
    } else {
      StartLeft(p);
      assert Within(Spare(p, Start(p).left), Start(p).right);
    }
  }

  /** When part 0 has a single coin, the right pan of Start is the greedy, hence largest, right pan
      of one coin beside the left pan. */
  lemma StartRightSingle(p: seq<nat>)
    requires IsPartition(p) && Sum(p) >= 2 && p[0] < 2
    ensures IsWeighing(p, Start(p))
    ensures forall z :: Admissible(p, Start(p).left, z) ==> NatLessEq(z, Start(p).right)
  {
    StartLeft(p);
    StartRightGreedy(p);
    var L, R := Start(p).left, Start(p).right;
    var S := Spare(p, L);
    GreedyHighest(S, R, 1);
    NatLessAt(R, L, 0);
    forall z | Admissible(p, L, z) ensures NatLessEq(z, R) {
      assert Within(S, z);
    }
  }

  lemma StartRightGreedy(p: seq<nat>)
    requires IsPartition(p) && Sum(p) >= 2 && p[0] < 2
    ensures Within(p, Start(p).left)
    ensures GreedyFrom(Spare(p, Start(p).left), Start(p).right, 0, 1)
    ensures 1 <= Sum(Spare(p, Start(p).left))
  {
    StartLeft(p);
    var L, R := Start(p).left, Start(p).right;
    var S := Spare(p, L);
    forall i | 0 <= i < |p| ensures R[i] == GreedyAt(S, 0, 1, i) {
      if i > 1 {
        PrefixMono(S, 2, i);
      }
    }
    SparePrefix(p, L, |p|);
  }

  /** The constructor's weighing comes before every other weighing of the partition. */
  lemma StartIsFirst(p: seq<nat>)
    requires IsPartition(p) && Sum(p) >= 2
    ensures IsFirst(p, Start(p))
  {
    StartLeft(p);
    StartRight(p);
    var w := Start(p);
    forall v | IsWeighing(p, v) ensures v == w || Precedes(w, v) {
      if PanCount(v) == 1 {
        assert Within(p, v.left);
        if v.left == w.left {
          assert Admissible(p, w.left, v.right);
        }
      }
    }
  }

  // ---------------------------------------------------------------------------------------------
  // fill_left and fill_right

  /** fill_left: places `count` coins in the left pan greedily from part `index` on. The caller
      guarantees room for them. The result is the largest left pan of its size that keeps the
      parts before `index`. */
  method FillLeft(p: seq<nat>, left: seq<nat>, count: nat, index: nat) returns (left': seq<nat>)
    requires Within(p, left) && index <= |p|
    requires count <= Sum(p) - Prefix(p, index)
    ensures Within(p, left')
    ensures forall i :: 0 <= i < index ==> left'[i] == left[i]
    ensures Sum(left') == Prefix(left, index) + count
    ensures GreedyFrom(p, left', index, count)
    ensures forall z :: Within(p, z) && (forall i :: 0 <= i < index ==> z[i] == left[i]) && Sum(z) == Sum(left')
              ==> NatLessEq(z, left')
  {
    var rest;
    left', rest := Fill(p, left, count, index);
    PrefixAgree(left', left, index);
    forall z | Within(p, z) && (forall i :: 0 <= i < index ==> z[i] == left[i]) && Sum(z) == Sum(left')
      ensures NatLessEq(z, left')
    {
      PrefixAgree(z, left', index);
      GreedyIsLexMax(p, left', z, index, count);
    }
  }

  /** fill_right: places `count` coins in the right pan greedily from part `index` on, taking only
      coins the left pan leaves. The caller guarantees room for them. The result is the largest
      such right pan of its size that keeps the parts before `index`. */
  method FillRight(p: seq<nat>, left: seq<nat>, right: seq<nat>, count: nat, index: nat) returns (right': seq<nat>)
    requires Within(p, left) && |right| == |p| && index <= |p|
    requires count <= Sum(Spare(p, left)) - Prefix(Spare(p, left), index)
    ensures |right'| == |p|
    ensures forall i :: 0 <= i < index ==> right'[i] == right[i]
    ensures forall i :: index <= i < |p| ==> right'[i] <= Spare(p, left)[i]
    ensures Sum(right') == Prefix(right, index) + count
    ensures GreedyFrom(Spare(p, left), right', index, count)
    ensures forall z :: |z| == |p| && (forall i :: 0 <= i < index ==> z[i] == right[i])
              && (forall i :: index <= i < |p| ==> z[i] <= Spare(p, left)[i]) && Sum(z) == Sum(right')
              ==> NatLessEq(z, right')
  {
    var S := Spare(p, left);
    var rest;
    right', rest := Fill(S, right, count, index);
    PrefixAgree(right', right, index);
    forall z | |z| == |p| && (forall i :: 0 <= i < index ==> z[i] == right[i])
        && (forall i :: index <= i < |p| ==> z[i] <= S[i]) && Sum(z) == Sum(right')
      ensures NatLessEq(z, right')
    {
      PrefixAgree(z, right', index);
      GreedyIsLexMax(S, right', z, index, count);
    }
  }

  // ---------------------------------------------------------------------------------------------
  // select_right

  /** The largest right pan that keeps x everywhere before part k, where x first cannot be matched,
      and fills greedily from part k on, is the largest admissible right pan when it places all coins. */
  lemma FirstFillBest(p: seq<nat>, x: seq<nat>, y: seq<nat>, k: nat, count: nat)
    requires Within(p, x) && |y| == |p| && k < |p|
    requires forall i :: 0 <= i < k ==> y[i] == x[i] && 2 * x[i] <= p[i]
    requires p[k] < 2 * x[k]
    requires count == Sum(x) - Prefix(x, k)
    requires GreedyFrom(Spare(p, x), y, k, count)
    requires Sum(y) - Prefix(y, k) == count
    ensures Admissible(p, x, y)
    ensures forall z :: Admissible(p, x, z) ==> NatLessEq(z, y)
  {
    var S := Spare(p, x);
    GreedyWithin(S, y, k, count);
    assert Within(S, y) by {
      forall i | 0 <= i < k ensures y[i] <= S[i] {
        assert y[i] == x[i];
      }
    }
    PrefixAgree(y, x, k);
    NatLessAt(y, x, k);
    forall z | Admissible(p, x, z) ensures NatLessEq(z, y) {
      assert z[k] <= S[k];
      var d := NatLessWitness(z, x);
      if d < k {
        NatLessAt(z, y, d);
      } else {
        PrefixAgree(z, y, k);
        GreedyIsLexMax(S, y, z, k, count);
      }
    }
  }

  /** The right pan select_right builds after backtracking: x kept before part m, one coin fewer at
      m, and the rest placed greedily after m, is admissible. */
  lemma BackFillAdmissible(p: seq<nat>, x: seq<nat>, y: seq<nat>, m: nat, count: nat)
    requires Within(p, x) && |y| == |p| && m < |p|
    requires forall i :: 0 <= i <= m ==> 2 * x[i] <= p[i]
    requires x[m] > 0 && y[m] == x[m] - 1
    requires forall i :: 0 <= i < m ==> y[i] == x[i]
    requires count == Sum(x) - Prefix(x, m + 1) + 1
    requires GreedyFrom(Spare(p, x), y, m + 1, count)
    requires Sum(y) - Prefix(y, m + 1) == count
    ensures Admissible(p, x, y)
  {
    BackFillFits(p, x, y, m, count);
    BackFillSum(x, y, m, count);
    NatLessAt(y, x, m);
    AdmissibleOf(p, x, y);
  }

  /** One coin fewer at m and `count` coins after it: as many coins as x. */
  lemma BackFillSum(x: seq<nat>, y: seq<nat>, m: nat, count: nat)
    requires |y| == |x| && m < |x|
    requires x[m] > 0 && y[m] == x[m] - 1
    requires forall i :: 0 <= i < m ==> y[i] == x[i]
    requires count == Sum(x) - Prefix(x, m + 1) + 1
    requires Sum(y) - Prefix(y, m + 1) == count
    ensures Sum(y) == Sum(x)
  {
    CountPassed(x, m, count);
    SumFromTail(x, y, m, count - 1);
  }

  lemma AdmissibleOf(p: seq<nat>, x: seq<nat>, y: seq<nat>)
    requires Fits(p, x, y) && Sum(y) == Sum(x) && NatLess(y, x)
    ensures Admissible(p, x, y)
  {
  }

  /** Kept before m, one coin fewer at m and placed greedily in the spare coins after m, y fits beside x. */
  lemma BackFillFits(p: seq<nat>, x: seq<nat>, y: seq<nat>, m: nat, count: nat)
    requires Within(p, x) && |y| == |p| && m < |p|
    requires forall i :: 0 <= i <= m ==> 2 * x[i] <= p[i]
    requires x[m] > 0 && y[m] == x[m] - 1
    requires forall i :: 0 <= i < m ==> y[i] == x[i]
    requires GreedyFrom(Spare(p, x), y, m + 1, count)
    ensures Fits(p, x, y)
  {
    var S := Spare(p, x);
    GreedyWithin(S, y, m + 1, count);
    forall i | 0 <= i <= m ensures y[i] <= S[i] {
      assert y[i] <= x[i];
    }
  }

  /** ... and it is the largest admissible right pan, given that no slack is left after the
      non-empty parts of x between m and k. */
  lemma BackFillBest(p: seq<nat>, x: seq<nat>, y: seq<nat>, m: nat, k: nat, count: nat)
    requires Within(p, x) && |y| == |p| && m < k < |p|
    requires forall i :: 0 <= i < k ==> 2 * x[i] <= p[i]
    requires p[k] < 2 * x[k] && Slack(p, x, k) < 0
    requires forall j :: m + 1 <= j < k && x[j] > 0 ==> Slack(p, x, j + 1) <= 0
    requires x[m] > 0 && y[m] == x[m] - 1
    requires forall i :: 0 <= i < m ==> y[i] == x[i]
    requires count == Sum(x) - Prefix(x, m + 1) + 1
    requires GreedyFrom(Spare(p, x), y, m + 1, count)
    requires Sum(y) - Prefix(y, m + 1) == count
    ensures Admissible(p, x, y)
    ensures forall z :: Admissible(p, x, z) ==> NatLessEq(z, y)
  {
    BackFillAdmissible(p, x, y, m, count);
    forall z | Admissible(p, x, z) ensures NatLessEq(z, y) {
      BackFillAbove(p, x, y, m, k, count, z);
    }
  }

  lemma BackFillAbove(p: seq<nat>, x: seq<nat>, y: seq<nat>, m: nat, k: nat, count: nat, z: seq<nat>)
    requires Within(p, x) && |y| == |p| && m < k < |p|
    requires p[k] < 2 * x[k] && Slack(p, x, k) < 0
    requires forall j :: m + 1 <= j < k && x[j] > 0 ==> Slack(p, x, j + 1) <= 0
    requires x[m] > 0 && y[m] == x[m] - 1
    requires forall i :: 0 <= i < m ==> y[i] == x[i]
    requires count == Sum(x) - Prefix(x, m + 1) + 1
    requires GreedyFrom(Spare(p, x), y, m + 1, count)
    requires Admissible(p, x, z)
    ensures NatLessEq(z, y)
  {
    var S := Spare(p, x);
    assert z[k] <= S[k];
    var d := NatLessWitness(z, x);
    if d < m {
      NatLessAt(z, y, d);
    } else if d == m {
      if z[m] < y[m] {
        NatLessAt(z, y, m);
      } else {
        BackFillTail(p, x, y, m, count, z);
      }
    } else {
      ShortOne(p, x, m + 1, k, z);
      assert false;
    }
  }

  /** A right pan that keeps x before m and has y[m] at m takes its other coins after m, where y
      is greedy. */
  lemma BackFillTail(p: seq<nat>, x: seq<nat>, y: seq<nat>, m: nat, count: nat, z: seq<nat>)
    requires Within(p, x) && |y| == |p| && |z| == |p| && m < |p|
    requires forall i :: 0 <= i < m ==> y[i] == x[i]
    requires forall i :: 0 <= i < m ==> z[i] == x[i]
    requires x[m] > 0 && y[m] == x[m] - 1 && z[m] == y[m]
    requires count == Sum(x) - Prefix(x, m + 1) + 1
    requires GreedyFrom(Spare(p, x), y, m + 1, count)
    requires Within(Spare(p, x), z) && Sum(z) == Sum(x)
    ensures NatLessEq(z, y)
  {
    CountPassed(x, m, count);
    StepDownTail(Spare(p, x), x, y, m, count - 1, z);
  }

  /** The coins x places after m, plus one, leave a count of at least one. */
  lemma CountPassed(x: seq<nat>, m: nat, count: nat)
    requires m < |x| && count == Sum(x) - Prefix(x, m + 1) + 1
    ensures count >= 1 && count - 1 == Sum(x) - Prefix(x, m + 1)
  {
    PrefixMono(x, m + 1, |x|);
  }

  /** select_right: the largest admissible right pan for the left pan, or false when there is none.
      A first pass copies the left pan while the part has room for both; at the first part k that
      has not, it takes what is left and fills greedily. When coins remain, SelectRightBack walks back. */
  method SelectRight(p: seq<nat>, left: seq<nat>, right0: seq<nat>) returns (ok: bool, right: seq<nat>)
    requires Within(p, left) && |right0| == |p|
    ensures |right| == |p|
    ensures ok ==> BestRight(p, left, right)
    ensures !ok ==> !Feasible(p, left)
    ensures (forall i :: 0 <= i < |p| ==> 2 * left[i] <= p[i]) ==> ok && right == left
  {
    var n := |p|;
    var total := Sum(left);
    var count := total;
    right := right0;
    var index := 0;
    while index < n
      invariant 0 <= index <= n && |right| == n
      invariant forall i :: 0 <= i < index ==> right[i] == left[i] && 2 * left[i] <= p[i]
      invariant count == total - Prefix(left, index)
    {
      PrefixMono(left, index + 1, n);
      if p[index] >= 2 * left[index] {
        right := right[index := Min(count, left[index])];
        count := count - right[index];
        index := index + 1;
      } else {
        ok, right := SelectRightFrom(p, left, right, index);
        return;
      }
    }
    assert right == left;
    assert Within(Spare(p, left), right);
    return true, right;
  }

  /** select_right from the first part k that cannot match the left pan: it takes what is left
      there and fills greedily after it. When coins remain, SelectRightBack walks back. */
  method SelectRightFrom(p: seq<nat>, left: seq<nat>, right0: seq<nat>, k: nat) returns (ok: bool, right: seq<nat>)
    requires Within(p, left) && |right0| == |p| && k < |p|
    requires forall i :: 0 <= i < k ==> right0[i] == left[i] && 2 * left[i] <= p[i]
    requires p[k] < 2 * left[k]
    ensures |right| == |p|
    ensures ok ==> BestRight(p, left, right)
    ensures !ok ==> !Feasible(p, left)
  {
    PrefixMono(left, k, |p|);
    var count := Sum(left) - Prefix(left, k);
    var rest;
    right, rest := Fill(Spare(p, left), right0, count, k);
    if rest == 0 {
      FirstFillBest(p, left, right, k, count);
      return true, right;
    }
    assert Sum(right) - Prefix(right, k) == Min(count, Sum(Spare(p, left)) - Prefix(Spare(p, left), k));
    FirstPassRest(p, left, right, k, count, rest);
    ok, right := SelectRightBack(p, left, right, k, rest + 1);
  }

  /** When the greedy fill from part k leaves coins over, they are exactly the missing slack. */
  lemma FirstPassRest(p: seq<nat>, x: seq<nat>, r: seq<nat>, k: nat, count: nat, rest: nat)
    requires Within(p, x) && |r| == |p| && k <= |p|
    requires count == Sum(x) - Prefix(x, k)
    requires Sum(r) - Prefix(r, k) == Min(count, Sum(Spare(p, x)) - Prefix(Spare(p, x), k))
    requires rest == count - (Sum(r) - Prefix(r, k)) && rest > 0
    ensures rest == -Slack(p, x, k)
  {
    SparePrefix(p, x, |p|);
    SparePrefix(p, x, k);
  }

  /** The backward walk of select_right. Parts before k match the left pan, part k cannot, and
      count is one more than the coins the greedy fill from k could not place. Each step back
      frees the coins of one part and places as many as its spare room takes; when that places
      them all, SelectRightRetry looks for a part to take one coin fewer. Part 0 is never
      freed: there is no earlier part to take one coin fewer from. */
  method SelectRightBack(p: seq<nat>, left: seq<nat>, right0: seq<nat>, k: nat, count0: nat)
      returns (ok: bool, right: seq<nat>)
    requires Within(p, left) && |right0| == |p| && k < |p|
    requires forall i :: 0 <= i < k ==> right0[i] == left[i] && 2 * left[i] <= p[i]
    requires p[k] < 2 * left[k] && Slack(p, left, k) < 0
    requires count0 == 1 - Slack(p, left, k)
    ensures |right| == |p|
    ensures ok ==> BestRight(p, left, right)
    ensures !ok ==> !Feasible(p, left)
  {
    right := right0;
    var count := count0;
    var index := k;
    while index > 1
      invariant 0 <= index <= k && |right| == |p|
      invariant forall i :: 0 <= i < index ==> right[i] == left[i]
      invariant count >= 1 && count == 1 - Slack(p, left, index)
      invariant forall b :: index <= b <= k ==> Slack(p, left, b) <= 0
    {
      index := index - 1;
      SlackStep(p, left, index);
      count := count + right[index];
      right := right[index := Min(count, p[index] - left[index])];
      count := count - right[index];
      if count == 0 {
        ok, right := SelectRightRetry(p, left, right, index, k);
        return;
      }
    }
    NoRightPan(p, left, k);
    return false, right;
  }

  /** The last stage of select_right: all coins fit from part b on, so one coin fewer in the last
      non-empty part m before b makes room for a greedy fill after m. Without such a part there is
      no right pan. */
  method SelectRightRetry(p: seq<nat>, left: seq<nat>, right0: seq<nat>, b: nat, k: nat)
      returns (ok: bool, right: seq<nat>)
    requires Within(p, left) && |right0| == |p| && b < k < |p|
    requires forall i :: 0 <= i < b ==> right0[i] == left[i]
    requires forall i :: 0 <= i < k ==> 2 * left[i] <= p[i]
    requires p[k] < 2 * left[k] && Slack(p, left, k) < 0
    requires Slack(p, left, b) >= 1
    requires forall c :: b < c <= k ==> Slack(p, left, c) <= 0
    ensures |right| == |p|
    ensures ok ==> BestRight(p, left, right)
    ensures !ok ==> !Feasible(p, left)
  {
    right := right0;
    var index := b;
    while index > 0
      invariant 0 <= index <= b && |right| == |p|
      invariant forall i :: index <= i < b ==> left[i] == 0
      invariant forall i :: 0 <= i < index ==> right[i] == left[i]
    {
      index := index - 1;
      if right[index] > 0 {
        right := TakeOneFewer(p, left, right, index, b, k);
        return true, right;
      }
    }
    NoRightPan(p, left, k);
    return false, right;
  }

  /** The successful end of select_right: one coin fewer in part m, the first non-empty part
      before b, then the greedy fill after m of every coin the left pan has after m, plus one. */
  method TakeOneFewer(p: seq<nat>, left: seq<nat>, right0: seq<nat>, m: nat, b: nat, k: nat) returns (right: seq<nat>)
    requires Within(p, left) && |right0| == |p| && m < b < k < |p|
    requires forall i :: 0 <= i <= m ==> right0[i] == left[i]
    requires left[m] > 0 && forall i :: m < i < b ==> left[i] == 0
    requires forall i :: 0 <= i < k ==> 2 * left[i] <= p[i]
    requires p[k] < 2 * left[k] && Slack(p, left, k) < 0
    requires Slack(p, left, b) >= 1
    requires forall c :: b < c <= k ==> Slack(p, left, c) <= 0
    ensures BestRight(p, left, right)
  {
    right := right0[m := right0[m] - 1];
    PrefixMono(left, m + 1, |p|);
    PrefixAgree(right, left, m);
    assert Prefix(right, m + 1) == Prefix(right, m) + right[m];
    assert Prefix(left, m + 1) == Prefix(left, m) + left[m];
    var count := Sum(left) - Prefix(right, m + 1);
    RetryRoom(p, left, m, b);
    var before := right;
    right := FillRight(p, left, right, count, m + 1);
    PrefixAgree(right, before, m + 1);
    BackFillBest(p, left, right, m, k, count);
  }

  /** Parts between m and b are empty in x, so the slack from m + 1 on is at least the slack from b,
      and the spare room after m takes every coin of x after m plus one. */
  lemma RetryRoom(p: seq<nat>, x: seq<nat>, m: nat, b: nat)
    requires Within(p, x) && m < b <= |p|
    requires forall i :: m < i < b ==> x[i] == 0
    requires Slack(p, x, b) >= 1
    ensures Sum(x) - Prefix(x, m + 1) + 1 <= Sum(Spare(p, x)) - Prefix(Spare(p, x), m + 1)
  {
    RangeZero(x, m + 1, b);
    PrefixMono(p, m + 1, b);
    SparePrefix(p, x, m + 1);
    SparePrefix(p, x, |p|);
  }

  // ---------------------------------------------------------------------------------------------
  // advance_right, advance_left and advance

  /** advance_right: the next right pan of the same size below the current one, using only coins
      the left pan leaves; false when the current right pan is the lowest of its size. */
  method AdvanceRight(p: seq<nat>, left: seq<nat>, right: seq<nat>) returns (ok: bool, right': seq<nat>)
    requires Fits(p, left, right) && |p| > 0
    ensures ok ==> NextBelow(Spare(p, left), right, right')
    ensures !ok ==> LowestOfSize(Spare(p, left), right)
  {
    var passed;
    ok, right', passed := StepDown(Spare(p, left), right);
  }

  /** advance_left: the next left pan of the same size below the current one; when there is none,
      the largest left pan with one coin more, unless two such pans need more coins than the
      partition has. */
  method AdvanceLeft(p: seq<nat>, left: seq<nat>) returns (ok: bool, left': seq<nat>)
    requires Within(p, left) && |left| > 0 && LeavesRoom(p, left)
    ensures ok && Sum(left') == Sum(left) ==> NextBelow(p, left, left')
    ensures ok && Sum(left') != Sum(left) ==>
              && LowestOfSize(p, left)
              && Within(p, left') && Sum(left') == Sum(left) + 1 && 2 * Sum(left') <= Sum(p)
              && HighestOfSize(p, left')
    ensures !ok ==> LowestOfSize(p, left) && 2 * (Sum(left) + 1) > Sum(p)
  {
    var found, below, passed := StepDown(p, left);
    if found {
      return true, below;
    }
    var count := passed + 1;
    if 2 * count > Sum(p) {
      return false, left;
    }
    left' := FillLeft(p, left, count, 0);
    GreedyHighest(p, left', count);
    return true, left';
  }

  /** Some part keeps coins out of the left pan x, so the backward scan of advance_left stops before
      it runs off the front (the assert at Balance/Weighing.cpp:271). */
  predicate LeavesRoom(p: seq<nat>, x: seq<nat>)
    requires |x| == |p|
  {
    exists i :: 0 <= i < |p| && x[i] < p[i]
  }

  /** The left pan of a weighing leaves room: its right pan is not empty and takes coins the left
      pan does not. */
  lemma WeighingLeavesRoom(p: seq<nat>, w: Weighing)
    requires IsWeighing(p, w)
    ensures |w.left| == |p| && LeavesRoom(p, w.left)
  {
    var x, y := w.left, w.right;
    SomePositive(y, |y|);
    var i :| 0 <= i < |y| && y[i] > 0;
    assert y[i] <= Spare(p, x)[i];
  }

  /** The largest left pan of its size has a right pan whenever two pans of that size fit. */
  lemma GrownFeasible(p: seq<nat>, x: seq<nat>)
    requires Within(p, x) && HighestOfSize(p, x) && 2 * Sum(x) <= Sum(p)
    ensures Feasible(p, x)
  {
    var S := Spare(p, x);
    SparePrefix(p, x, |p|);
    var y := Trim(S, Sum(x));
    assert Within(p, y);
    assert Within(S, y);
    assert Admissible(p, x, y);
  }

  /** A left pan without a right pan makes every smaller left pan of its size infeasible too,
      so from the step to x' on no left pan of this size below x has a right pan. */
  lemma SkipInfeasible(p: seq<nat>, x: seq<nat>, x': seq<nat>)
    requires Within(p, x) && Sum(x) > 0 && NextBelow(p, x, x') && !Feasible(p, x')
    ensures forall z :: Within(p, z) && Sum(z) == Sum(x) && NatLess(z, x) ==> !Feasible(p, z)
  {
    forall z | Within(p, z) && Sum(z) == Sum(x) && NatLess(z, x) ensures !Feasible(p, z) {
      if z != x' {
        NoneBelow(p, z, x');
      }
    }
  }

  /** A new right pan below the current one, keeping the left pan, gives the next weighing. */
  lemma NextSameLeft(p: seq<nat>, w: Weighing, r': seq<nat>)
    requires IsWeighing(p, w) && NextBelow(Spare(p, w.left), w.right, r')
    ensures IsNext(p, w, Weighing(w.left, r'))
  {
    var x, r := w.left, w.right;
    if r != x {
      NatLessTransitive(r', r, x);
    }
    assert IsWeighing(p, Weighing(x, r'));
    forall v | IsWeighing(p, v) && Precedes(w, v) ensures v == Weighing(x, r') || Precedes(Weighing(x, r'), v) {
      assert Within(Spare(p, v.left), v.right);
    }
  }

  /** With no right pan below the current one and no feasible left pan of the same size below the
      current one, every later weighing has larger pans. */
  lemma NoneAfterAtSize(p: seq<nat>, w: Weighing)
    requires IsWeighing(p, w) && LowestOfSize(Spare(p, w.left), w.right)
    requires forall z :: Within(p, z) && Sum(z) == Sum(w.left) && NatLess(z, w.left) ==> !Feasible(p, z)
    ensures forall v :: IsWeighing(p, v) && Precedes(w, v) ==> PanCount(w) < PanCount(v)
  {
    forall v | IsWeighing(p, v) && Precedes(w, v) ensures PanCount(w) < PanCount(v) {
      assert Within(p, v.left) && Within(Spare(p, v.left), v.right) && Admissible(p, v.left, v.right);
    }
  }

  /** With no right pan below the current one, the next left pan of the same size with its best
      right pan gives the next weighing. */
  lemma NextOtherLeft(p: seq<nat>, w: Weighing, x': seq<nat>, y: seq<nat>)
    requires IsWeighing(p, w) && LowestOfSize(Spare(p, w.left), w.right)
    requires NextBelow(p, w.left, x') && BestRight(p, x', y)
    ensures IsNext(p, w, Weighing(x', y))
  {
    var w' := Weighing(x', y);
    assert IsWeighing(p, w');
    forall v | IsWeighing(p, v) && Precedes(w, v) ensures v == w' || Precedes(w', v) {
      assert Within(p, v.left) && Within(Spare(p, v.left), v.right) && Admissible(p, v.left, v.right);
    }
  }

  /** When nothing of the current size is left, the largest left pan of the next size with its
      best right pan gives the next weighing. */
  lemma NextBiggerSize(p: seq<nat>, w: Weighing, x': seq<nat>, y: seq<nat>)
    requires IsWeighing(p, w) && LowestOfSize(Spare(p, w.left), w.right)
    requires forall z :: Within(p, z) && Sum(z) == Sum(w.left) && NatLess(z, w.left) ==> !Feasible(p, z)
    requires Within(p, x') && Sum(x') == Sum(w.left) + 1 && HighestOfSize(p, x') && BestRight(p, x', y)
    ensures IsNext(p, w, Weighing(x', y))
  {
    NoneAfterAtSize(p, w);
    var w' := Weighing(x', y);
    assert IsWeighing(p, w');
    forall v | IsWeighing(p, v) && Precedes(w, v) ensures v == w' || Precedes(w', v) {
      assert Within(p, v.left) && Admissible(p, v.left, v.right);
    }
  }

  /** When nothing of the current size is left and two larger pans do not fit, w is the last weighing. */
  lemma LastAtSize(p: seq<nat>, w: Weighing)
    requires IsWeighing(p, w) && LowestOfSize(Spare(p, w.left), w.right)
    requires forall z :: Within(p, z) && Sum(z) == Sum(w.left) && NatLess(z, w.left) ==> !Feasible(p, z)
    requires 2 * (Sum(w.left) + 1) > Sum(p)
    ensures IsLast(p, w)
  {
    NoneAfterAtSize(p, w);
    forall v | IsWeighing(p, v) ensures !Precedes(w, v) {
      PanBound(p, v.left, v.right);
    }
  }

  /** advance: the next weighing in the order of Precedes, or End after the last one. End stays End. */
  method Advance(p: seq<nat>, w: Weighing) returns (w': Weighing)
    requires w == End || IsWeighing(p, w)
    ensures w == End ==> w' == End
    ensures w != End ==> (w' == End && IsLast(p, w)) || (w' != End && IsNext(p, w, w'))
  {
    if w.left == [] {
      return w;
    }
    var x, r := w.left, w.right;
    var ok, r' := AdvanceRight(p, x, r);
    if ok {
      NextSameLeft(p, w, r');
      return Weighing(x, r');
    }
    WeighingLeavesRoom(p, w);
    var okLeft, x' := AdvanceLeft(p, x);
    if !okLeft {
      LastAtSize(p, w);
      return End;
    }
    if Sum(x') != Sum(x) {
      GrownFeasible(p, x');
    }
    var okRight, y := SelectRight(p, x', r);
    if okRight {
      if Sum(x') == Sum(x) {
        NextOtherLeft(p, w, x', y);
      } else {
        NextBiggerSize(p, w, x', y);
      }
      return Weighing(x', y);
    }
    // No left pan of this size below x' has a right pan either: go to the next size
    SkipInfeasible(p, x, x');
    var count := Sum(x') + 1;
    if 2 * count > Sum(p) {
      LastAtSize(p, w);
      return End;
    }
    var g := FillLeft(p, x', count, 0);
    GreedyHighest(p, g, count);
    GrownFeasible(p, g);
    var _, y' := SelectRight(p, g, y);
    NextBiggerSize(p, w, g, y');
    return Weighing(g, y');
  }

  // ---------------------------------------------------------------------------------------------
  // The whole sequence

  /** Every count vector within cap: a finite set, used to bound the enumeration. */
  ghost function Vectors(cap: seq<nat>): set<seq<nat>>
    decreases |cap|
  {
    if cap == [] then {[]}
    else set v: nat, t | v <= cap[0] && t in Vectors(cap[1..]) :: [v] + t
  }

  lemma {:induction false} VectorsComplete(cap: seq<nat>, x: seq<nat>)
    requires Within(cap, x)
    ensures x in Vectors(cap)
    decreases |cap|
  {
    if cap != [] {
      assert Within(cap[1..], x[1..]) by {
        forall i | 0 <= i < |x[1..]| ensures x[1..][i] <= cap[1..][i] {
          assert x[1..][i] == x[i + 1];
        }
      }
      VectorsComplete(cap[1..], x[1..]);
      assert x == [x[0]] + x[1..];
    }
  }

  /** All pairs of vectors within p: every weighing of p is one of them. */
  ghost function Candidates(p: seq<nat>): set<Weighing> {
    set l, r | l in Vectors(p) && r in Vectors(p) :: Weighing(l, r)
  }

  lemma WeighingCandidate(p: seq<nat>, w: Weighing)
    requires IsWeighing(p, w)
    ensures w in Candidates(p)
  {
    assert Within(p, w.right) by {
      assert Within(Spare(p, w.left), w.right);
    }
    VectorsComplete(p, w.left);
    VectorsComplete(p, w.right);
  }

  /** Appending w to a chain that precedes it keeps the chain ordered; when the next weighing w'
      follows w it follows every earlier one too. */
  lemma ChainExtend(ws: seq<Weighing>, seen: set<Weighing>, w: Weighing, w': Weighing)
    requires forall i, j :: 0 <= i < j < |ws| ==> Precedes(ws[i], ws[j])
    requires forall i :: 0 <= i < |ws| ==> Precedes(ws[i], w)
    requires forall v :: v in seen ==> Precedes(v, w)
    requires w' != End ==> Precedes(w, w')
    ensures forall i, j :: 0 <= i < j < |ws + [w]| ==> Precedes((ws + [w])[i], (ws + [w])[j])
    ensures w' != End ==> forall i :: 0 <= i < |ws + [w]| ==> Precedes((ws + [w])[i], w')
    ensures w' != End ==> forall v :: v in seen + {w} ==> Precedes(v, w')
  {
    var ws' := ws + [w];
    forall i, j | 0 <= i < j < |ws'| ensures Precedes(ws'[i], ws'[j]) {
      if j < |ws| {
        assert Precedes(ws[i], ws[j]);
      } else {
        assert Precedes(ws[i], w);
      }
    }
    if w' != End {
      forall i | 0 <= i < |ws'| ensures Precedes(ws'[i], w') {
        if i < |ws| {
          PrecedesTransitive(ws[i], w, w');
        }
      }
      forall v | v in seen + {w} ensures Precedes(v, w') {
        if v in seen {
          PrecedesTransitive(v, w, w');
        }
      }
    }
  }

  lemma ValidExtend(p: seq<nat>, ws: seq<Weighing>, w: Weighing)
    requires forall i :: 0 <= i < |ws| ==> IsWeighing(p, ws[i])
    requires IsWeighing(p, w)
    ensures forall i :: 0 <= i < |ws + [w]| ==> IsWeighing(p, (ws + [w])[i])
  {
    forall i | 0 <= i < |ws + [w]| ensures IsWeighing(p, (ws + [w])[i]) {
      if i < |ws| {
        assert (ws + [w])[i] == ws[i];
      }
    }
  }

  /** Every weighing is emitted, is the current one, or comes later; advancing keeps this. */
  lemma CoverExtend(p: seq<nat>, ws: seq<Weighing>, w: Weighing, w': Weighing)
    requires forall v :: IsWeighing(p, v) ==> v in ws || v == w || Precedes(w, v)
    requires (w' == End && IsLast(p, w)) || (w' != End && IsNext(p, w, w'))
    ensures forall v :: IsWeighing(p, v) ==> v in ws + [w] || (w' != End && (v == w' || Precedes(w', v)))
  {
  }

  /** Along a chain of weighings pan sizes never decrease, and no weighing meets its mirror image. */
  lemma ChainFacts(p: seq<nat>, ws: seq<Weighing>)
    requires forall i :: 0 <= i < |ws| ==> IsWeighing(p, ws[i])
    requires forall i, j :: 0 <= i < j < |ws| ==> Precedes(ws[i], ws[j])
    ensures forall i, j :: 0 <= i < j < |ws| ==> PanCount(ws[i]) <= PanCount(ws[j])
    ensures forall i, j :: 0 <= i < |ws| && 0 <= j < |ws| && ws[j] == Weighing(ws[i].right, ws[i].left) ==> i == j
  {
    forall i, j | 0 <= i < j < |ws| ensures PanCount(ws[i]) <= PanCount(ws[j]) {
      PrecedesPanCount(ws[i], ws[j]);
    }
    forall i, j | 0 <= i < |ws| && 0 <= j < |ws| && ws[j] == Weighing(ws[i].right, ws[i].left) ensures i == j {
      NoMirror(p, ws[i]);
      if i != j {
        PrecedesIrreflexive(ws[i]);
      }
    }
  }

  /** What Enumerate knows before each step: ws holds the weighings emitted so far in order, w is
      the current weighing (or End) and follows all of them, and every weighing not emitted yet is
      w or comes after it. The set seen, a subset of the finite Candidates, bounds the loop. */
  ghost predicate EnumerateInv(p: seq<nat>, ws: seq<Weighing>, w: Weighing, seen: set<Weighing>)
    requires IsPartition(p) && Sum(p) >= 2
  {
    && (w == End || IsWeighing(p, w))
    && (w != End && ws == [] ==> w == Start(p))
    && (|ws| > 0 ==> ws[0] == Start(p))
    && (forall i :: 0 <= i < |ws| ==> IsWeighing(p, ws[i]))
    && (forall i, j :: 0 <= i < j < |ws| ==> Precedes(ws[i], ws[j]))
    && (w != End ==> forall i :: 0 <= i < |ws| ==> Precedes(ws[i], w))
    && (forall v :: IsWeighing(p, v) ==> v in ws || (w != End && (v == w || Precedes(w, v))))
    && (w != End ==> forall v :: v in seen ==> Precedes(v, w))
    && seen <= Candidates(p)
  }

  /** Before the first step nothing is emitted and the current weighing is Start(p). */
  lemma EnumerateInit(p: seq<nat>)
    requires IsPartition(p) && Sum(p) >= 2
    ensures EnumerateInv(p, [], Start(p), {})
  {
    StartIsFirst(p);
  }

  /** Emitting w and moving to the weighing w' that Advance produces keeps EnumerateInv, and the
      candidates not yet seen shrink. */
  lemma EnumerateStep(p: seq<nat>, ws: seq<Weighing>, w: Weighing, seen: set<Weighing>, w': Weighing)
    requires IsPartition(p) && Sum(p) >= 2
    requires EnumerateInv(p, ws, w, seen) && w != End
    requires (w' == End && IsLast(p, w)) || (w' != End && IsNext(p, w, w'))
    ensures EnumerateInv(p, ws + [w], w', seen + {w})
    ensures |Candidates(p) - (seen + {w})| < |Candidates(p) - seen|
  {
    WeighingCandidate(p, w);
    assert w !in seen by {
      PrecedesIrreflexive(w);
    }
    assert Candidates(p) - seen == (Candidates(p) - (seen + {w})) + {w};
    ChainExtend(ws, seen, w, w');
    CoverExtend(p, ws, w, w');
    ValidExtend(p, ws, w);
  }

  /** When Advance reaches End, the emitted weighings are complete and ordered. */
  lemma EnumerateDone(p: seq<nat>, ws: seq<Weighing>, seen: set<Weighing>)
    requires IsPartition(p) && Sum(p) >= 2
    requires EnumerateInv(p, ws, End, seen)
    ensures |ws| > 0 && ws[0] == Start(p)
    ensures forall i :: 0 <= i < |ws| ==> IsWeighing(p, ws[i])
    ensures forall v :: IsWeighing(p, v) ==> v in ws
    ensures forall i, j :: 0 <= i < j < |ws| ==> Precedes(ws[i], ws[j])
    ensures forall i, j :: 0 <= i < j < |ws| ==> PanCount(ws[i]) <= PanCount(ws[j])
    ensures forall i, j :: 0 <= i < |ws| && 0 <= j < |ws| && ws[j] == Weighing(ws[i].right, ws[i].left) ==> i == j
  {
    StartIsFirst(p);
    assert Start(p) in ws;
    ChainFacts(p, ws);
  }

  /** Iterating over the weighings of a partition: Start, then Advance until End. The result is every
      weighing of p, each once, in the order of Precedes; pan sizes never decrease, and no weighing
      appears together with its mirror image. */
  method Enumerate(p: seq<nat>) returns (ws: seq<Weighing>)
    requires IsPartition(p) && Sum(p) >= 2
    ensures |ws| > 0 && ws[0] == Start(p)
    ensures forall i :: 0 <= i < |ws| ==> IsWeighing(p, ws[i])
    ensures forall v :: IsWeighing(p, v) ==> v in ws
    ensures forall i, j :: 0 <= i < j < |ws| ==> Precedes(ws[i], ws[j])
    ensures forall i, j :: 0 <= i < j < |ws| ==> PanCount(ws[i]) <= PanCount(ws[j])
    ensures forall i, j :: 0 <= i < |ws| && 0 <= j < |ws| && ws[j] == Weighing(ws[i].right, ws[i].left) ==> i == j
  {
    var w := Start(p);
    ws := [];
    ghost var seen: set<Weighing> := {};
    EnumerateInit(p);
    while w != End
      invariant EnumerateInv(p, ws, w, seen)
      decreases |Candidates(p) - seen| + (if w == End then 0 else 1)
    {
      var w' := Advance(p, w);
      EnumerateStep(p, ws, w, seen, w');
      ws := ws + [w];
      seen := seen + {w};
      w := w';
    }
    EnumerateDone(p, ws, seen);
  }
}
