/** Weighings of Balance/Weighing.cpp as values, and the conditions the enumerator keeps.

    For a partition p (coins per part) a weighing takes left[i] coins of part i for the left pan
    and right[i] for the right pan. The enumerator visits every weighing with
      left[i] + right[i] <= p[i],  sum left == sum right > 0,  right lexicographically not above left,
    ordered by pan size ascending, then left descending, then right descending. */
module Pans {
  import opened Sums
  import opened Lex
  import opened Selection

  /** Counts are uint8_t in the source: a partition holds at most this many coins. */
  const MaxCoins: nat := 255

  /** A partition as the enumerator receives it: every part holds a coin, and the coin count fits a uint8_t. */
  predicate IsPartition(p: seq<nat>) {
    && (forall i :: 0 <= i < |p| ==> p[i] > 0)
    && Sum(p) <= MaxCoins
  }

  /** Coins of each part placed in the left and right pan. Both vectors empty is the end-of-sequence sentinel. */
  datatype Weighing = Weighing(left: seq<nat>, right: seq<nat>)

  /** The sentinel that end() produces by clearing both vectors. */
  const End: Weighing := Weighing([], [])

  /** Number of coins in each pan (pan_count). */
  function PanCount(w: Weighing): nat {
    Sum(w.left)
  }

  /** Coins of each part not taken by `used`. */
  function Spare(p: seq<nat>, used: seq<nat>): (s: seq<nat>)
    requires Within(p, used)
    ensures |s| == |p|
    ensures forall i :: 0 <= i < |p| ==> s[i] + used[i] == p[i]
  {
    seq(|p|, i requires 0 <= i < |p| => p[i] - used[i])
  }

  /** The physical constraint: both pans together take no more coins from a part than it has. */
  predicate Fits(p: seq<nat>, x: seq<nat>, y: seq<nat>) {
    Within(p, x) && Within(Spare(p, x), y)
  }

  /** Fits spelled out part by part. */
  predicate Placeable(p: seq<nat>, x: seq<nat>, y: seq<nat>) {
    |x| == |p| && |y| == |p| && forall i :: 0 <= i < |p| ==> x[i] + y[i] <= p[i]
  }

  lemma FitsIffPlaceable(p: seq<nat>, x: seq<nat>, y: seq<nat>)
    ensures Fits(p, x, y) <==> Placeable(p, x, y)
  {
    if Placeable(p, x, y) {
      assert Within(p, x);
      assert Within(Spare(p, x), y);
    }
    if Fits(p, x, y) {
      forall i | 0 <= i < |p| ensures x[i] + y[i] <= p[i] {
        assert y[i] <= Spare(p, x)[i];
      }
    }
  }

  /** y is a right pan for left pan x: physically possible, of the same size, and not lexicographically above x. */
  predicate Admissible(p: seq<nat>, x: seq<nat>, y: seq<nat>) {
    Fits(p, x, y) && Sum(y) == Sum(x) && NatLessEq(y, x)
  }

  /** Some right pan exists for left pan x. */
  ghost predicate Feasible(p: seq<nat>, x: seq<nat>) {
    exists y :: Admissible(p, x, y)
  }

  /** y is the right pan select_right picks for x: admissible, and no admissible right pan is
      lexicographically larger. */
  ghost predicate BestRight(p: seq<nat>, x: seq<nat>, y: seq<nat>) {
    Admissible(p, x, y) && forall z :: Admissible(p, x, z) ==> NatLessEq(z, y)
  }

  /** A weighing the enumerator emits for p. */
  predicate IsWeighing(p: seq<nat>, w: Weighing) {
    Admissible(p, w.left, w.right) && PanCount(w) > 0
  }

  /** a is emitted before b: smaller pans first, then the larger left pan, then the larger right pan. */
  predicate Precedes(a: Weighing, b: Weighing) {
    || PanCount(a) < PanCount(b)
    || (PanCount(a) == PanCount(b) && NatLess(b.left, a.left))
    || (a.left == b.left && NatLess(b.right, a.right))
  }

  /** w is the first weighing of p. */
  ghost predicate IsFirst(p: seq<nat>, w: Weighing) {
    IsWeighing(p, w) && forall v :: IsWeighing(p, v) ==> v == w || Precedes(w, v)
  }

  /** w' is the weighing of p that comes right after w. */
  ghost predicate IsNext(p: seq<nat>, w: Weighing, w': Weighing) {
    && IsWeighing(p, w') && Precedes(w, w')
    && forall v :: IsWeighing(p, v) && Precedes(w, v) ==> v == w' || Precedes(w', v)
  }

  /** No weighing of p comes after w. */
  ghost predicate IsLast(p: seq<nat>, w: Weighing) {
    forall v :: IsWeighing(p, v) ==> !Precedes(w, v)
  }

  lemma PrecedesIrreflexive(a: Weighing)
    ensures !Precedes(a, a)
  {
    if NatLess(a.left, a.left) {
      NatLessAsymmetric(a.left, a.left);
    }
    if NatLess(a.right, a.right) {
      NatLessAsymmetric(a.right, a.right);
    }
  }

  lemma PrecedesTransitive(a: Weighing, b: Weighing, c: Weighing)
    requires Precedes(a, b) && Precedes(b, c)
    ensures Precedes(a, c)
  {
    if PanCount(a) < PanCount(b) || PanCount(b) < PanCount(c) {
    } else if a.left == b.left && b.left == c.left {
      NatLessTransitive(c.right, b.right, a.right);
    } else if a.left == b.left {
    } else if b.left == c.left {
    } else {
      NatLessTransitive(c.left, b.left, a.left);
    }
  }

  /** Pan sizes never decrease along the order. */
  lemma PrecedesPanCount(a: Weighing, b: Weighing)
    requires Precedes(a, b)
    ensures PanCount(a) <= PanCount(b)
  {
  }

  /** Any two weighings are equal or ordered one way or the other. */
  lemma PrecedesTotal(a: Weighing, b: Weighing)
    ensures a == b || Precedes(a, b) || Precedes(b, a)
  {
    NatLessTrichotomy(a.left, b.left);
    NatLessTrichotomy(a.right, b.right);
  }

  /** Range sums of the spare coins. */
  lemma SparePrefix(p: seq<nat>, used: seq<nat>, n: nat)
    requires Within(p, used) && n <= |p|
    ensures Prefix(Spare(p, used), n) == Prefix(p, n) - Prefix(used, n)
  {
    RangeAddEq(Spare(p, used), used, p, 0, n);
  }

  /** Both pans together fit in the partition, so a pan holds at most half of the coins. */
  lemma PanBound(p: seq<nat>, x: seq<nat>, y: seq<nat>)
    requires Fits(p, x, y)
    ensures Sum(x) + Sum(y) <= Sum(p)
  {
    RangeAddLe(x, y, p, 0, |p|);
  }

  /** No weighing and its mirror image are both weighings of p, unless they are the same. */
  lemma NoMirror(p: seq<nat>, w: Weighing)
    requires IsWeighing(p, w) && IsWeighing(p, Weighing(w.right, w.left))
    ensures w.left == w.right
  {
    if w.left != w.right {
      NatLessAsymmetric(w.right, w.left);
    }
  }

  // ---------------------------------------------------------------------------------------------
  // Room left for the right pan

  /** Slack(b): the coins of parts b.. beyond matching x part by part, sum of p[i] - 2 x[i] over i >= b. */
  function Slack(p: seq<nat>, x: seq<nat>, b: nat): int
    requires |x| == |p| && b <= |p|
  {
    (Sum(p) - Prefix(p, b)) - 2 * (Sum(x) - Prefix(x, b))
  }

  lemma SlackStep(p: seq<nat>, x: seq<nat>, b: nat)
    requires |x| == |p| && b < |p|
    ensures Slack(p, x, b) == p[b] - 2 * x[b] + Slack(p, x, b + 1)
  {
    assert Prefix(p, b + 1) == Prefix(p, b) + p[b];
    assert Prefix(x, b + 1) == Prefix(x, b) + x[b];
  }

  /** A right pan that agrees with x before d takes at most y[d] plus the spare coins after d. */
  lemma DeviationBound(p: seq<nat>, x: seq<nat>, y: seq<nat>, d: nat)
    requires Fits(p, x, y) && d < |p|
    requires forall i :: 0 <= i < d ==> y[i] == x[i]
    ensures Sum(y) <= Prefix(x, d) + y[d] + (Sum(p) - Prefix(p, d + 1)) - (Sum(x) - Prefix(x, d + 1))
  {
    PrefixAgree(y, x, d);
    forall i | d + 1 <= i < |p| ensures y[i] + x[i] <= p[i] {
      assert y[i] <= Spare(p, x)[i];
    }
    RangeAddLe(y, x, p, d + 1, |p|);
    assert Prefix(y, d + 1) == Prefix(y, d) + y[d];
  }

  /** A right pan that falls behind x at a part d where no slack is left beyond d is smaller than x. */
  lemma BehindShort(p: seq<nat>, x: seq<nat>, y: seq<nat>, d: nat)
    requires Fits(p, x, y) && d < |p|
    requires forall i :: 0 <= i < d ==> y[i] == x[i]
    requires y[d] < x[d] && Slack(p, x, d + 1) <= 0
    ensures Sum(y) < Sum(x)
  {
    DeviationBound(p, x, y, d);
    assert Prefix(x, d + 1) == Prefix(x, d) + x[d];
  }

  /** The facts select_right gathers before it reports a right pan or gives up. Part k is the first
      part where the right pan cannot match x; from part a on every non-empty part of x before k
      leaves no slack after it. Then every right pan that agrees with x before a falls short. */
  lemma ShortFrom(p: seq<nat>, x: seq<nat>, a: nat, k: nat)
    requires Within(p, x) && a <= k < |p|
    requires p[k] < 2 * x[k]
    requires Slack(p, x, k) < 0
    requires forall m :: a <= m < k && x[m] > 0 ==> Slack(p, x, m + 1) <= 0
    ensures forall y :: Fits(p, x, y) && NatLessEq(y, x) && (forall i :: 0 <= i < a ==> y[i] == x[i]) ==> Sum(y) < Sum(x)
  {
    forall y | Fits(p, x, y) && NatLessEq(y, x) && (forall i :: 0 <= i < a ==> y[i] == x[i]) ensures Sum(y) < Sum(x) {
      ShortOne(p, x, a, k, y);
    }
  }

  lemma ShortOne(p: seq<nat>, x: seq<nat>, a: nat, k: nat, y: seq<nat>)
    requires Within(p, x) && a <= k < |p|
    requires p[k] < 2 * x[k]
    requires Slack(p, x, k) < 0
    requires forall m :: a <= m < k && x[m] > 0 ==> Slack(p, x, m + 1) <= 0
    requires Fits(p, x, y) && NatLessEq(y, x) && (forall i :: 0 <= i < a ==> y[i] == x[i])
    ensures Sum(y) < Sum(x)
  {
    assert y[k] <= Spare(p, x)[k];
    assert y != x;
    var d := NatLessWitness(y, x);
    if d < k {
      BehindShort(p, x, y, d);
    } else {
      assert d == k;
      SlackStep(p, x, k);
      DeviationBound(p, x, y, k);
      assert Prefix(x, k + 1) == Prefix(x, k) + x[k];
    }
  }

  /** With part k failing as in ShortFrom from part 0, no right pan exists. */
  lemma NoRightPan(p: seq<nat>, x: seq<nat>, k: nat)
    requires Within(p, x) && k < |p|
    requires p[k] < 2 * x[k]
    requires Slack(p, x, k) < 0
    requires forall m :: 0 <= m < k && x[m] > 0 ==> Slack(p, x, m + 1) <= 0
    ensures !Feasible(p, x)
  {
    ShortFrom(p, x, 0, k);
  }
}
