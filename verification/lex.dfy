/** Lexicographic order on sequences, as std::vector's operator<=> defines it:
    the first differing position decides, and a proper prefix comes first. */
module Lex {

  /** Position of the first difference between a and b, or the shorter length when one is a prefix of the other. */
  function FirstDiff<T(==)>(a: seq<T>, b: seq<T>): (d: nat)
    ensures d <= |a| && d <= |b|
    ensures forall i :: 0 <= i < d ==> a[i] == b[i]
    ensures d < |a| && d < |b| ==> a[d] != b[d]
  {
    FirstDiffFrom(a, b, 0)
  }

  /** First difference at or after position i, given that a and b agree before i. */
  function FirstDiffFrom<T(==)>(a: seq<T>, b: seq<T>, i: nat): (d: nat)
    requires i <= |a| && i <= |b|
    requires forall k :: 0 <= k < i ==> a[k] == b[k]
    ensures i <= d <= |a| && d <= |b|
    ensures forall k :: 0 <= k < d ==> a[k] == b[k]
    ensures d < |a| && d < |b| ==> a[d] != b[d]
    decreases |a| - i
  {
    if i == |a| || i == |b| || a[i] != b[i] then i else FirstDiffFrom(a, b, i + 1)
  }

  /** The first-difference position is determined by its defining property. */
  lemma FirstDiffUnique<T>(a: seq<T>, b: seq<T>, d: nat)
    requires d <= |a| && d <= |b|
    requires forall i :: 0 <= i < d ==> a[i] == b[i]
    requires d < |a| && d < |b| ==> a[d] != b[d]
    ensures FirstDiff(a, b) == d
  {
    var e := FirstDiff(a, b);
    if e < d {
      assert false;
    } else if d < e {
      assert false;
    }
  }

  /** a comes strictly before b in the lexicographic order induced by the element order lt. */
  predicate Less<T(==)>(a: seq<T>, b: seq<T>, lt: (T, T) -> bool) {
    var d := FirstDiff(a, b);
    if d < |a| && d < |b| then lt(a[d], b[d]) else d == |a| && d < |b|
  }

  /** lt is a strict total order on T. */
  ghost predicate StrictTotal<T(!new)>(lt: (T, T) -> bool) {
    && (forall x :: !lt(x, x))
    && (forall x, y, z :: lt(x, y) && lt(y, z) ==> lt(x, z))
    && (forall x, y :: x == y || lt(x, y) || lt(y, x))
  }

  function NatLt(x: nat, y: nat): bool {
    x < y
  }

  /** Lexicographic order on count vectors (std::vector<uint8_t> comparison): Less over NatLt, written out. */
  predicate NatLess(a: seq<nat>, b: seq<nat>) {
    var d := FirstDiff(a, b);
    if d < |a| && d < |b| then a[d] < b[d] else d == |a| && d < |b|
  }

  /** a is not lexicographically greater than b. */
  predicate NatLessEq(a: seq<nat>, b: seq<nat>) {
    a == b || NatLess(a, b)
  }

  lemma NatLtStrictTotal()
    ensures StrictTotal(NatLt)
  {
  }

  lemma LessIrreflexive<T(!new)>(a: seq<T>, lt: (T, T) -> bool)
    requires StrictTotal(lt)
    ensures !Less(a, a, lt)
  {
    FirstDiffUnique(a, a, |a|);
  }

  /** Equal prefixes before d and a smaller element at d put a before b. */
  lemma LessAt<T(!new)>(a: seq<T>, b: seq<T>, d: nat, lt: (T, T) -> bool)
    requires StrictTotal(lt)
    requires d < |a| && d < |b|
    requires forall i :: 0 <= i < d ==> a[i] == b[i]
    requires lt(a[d], b[d])
    ensures Less(a, b, lt)
  {
    FirstDiffUnique(a, b, d);
  }

  /** A proper prefix comes first. */
  lemma LessPrefix<T>(a: seq<T>, b: seq<T>, lt: (T, T) -> bool)
    requires |a| < |b|
    requires forall i :: 0 <= i < |a| ==> a[i] == b[i]
    ensures Less(a, b, lt)
  {
    FirstDiffUnique(a, b, |a|);
  }

  /** Ordered sequences of equal length differ first at a position where the element order agrees. */
  lemma LessWitness<T>(a: seq<T>, b: seq<T>, lt: (T, T) -> bool) returns (d: nat)
    requires |a| == |b|
    requires Less(a, b, lt)
    ensures d < |a|
    ensures forall i :: 0 <= i < d ==> a[i] == b[i]
    ensures lt(a[d], b[d])
  {
    d := FirstDiff(a, b);
  }

  lemma {:induction false} LessTransitive<T(!new)>(a: seq<T>, b: seq<T>, c: seq<T>, lt: (T, T) -> bool)
    requires StrictTotal(lt)
    requires Less(a, b, lt) && Less(b, c, lt)
    ensures Less(a, c, lt)
  {
    var d1 := FirstDiff(a, b);
    var d2 := FirstDiff(b, c);
    if d1 < d2 {
      if d1 < |a| && d1 < |b| {
        LessAt(a, c, d1, lt);
      } else {
        LessPrefix(a, c, lt);
      }
    } else if d2 < d1 {
      if d2 < |b| && d2 < |c| {
        LessAt(a, c, d2, lt);
      } else {
        assert false;
      }
    } else {
      if d1 < |a| && d1 < |b| {
        if d1 < |c| {
          LessAt(a, c, d1, lt);
        } else {
          assert false;
        }
      } else {
        LessPrefix(a, c, lt);
      }
    }
  }

  lemma LessAsymmetric<T(!new)>(a: seq<T>, b: seq<T>, lt: (T, T) -> bool)
    requires StrictTotal(lt)
    requires Less(a, b, lt)
    ensures !Less(b, a, lt)
  {
    if Less(b, a, lt) {
      LessTransitive(a, b, a, lt);
      LessIrreflexive(a, lt);
    }
  }

  /** Any two sequences are equal or ordered one way or the other. */
  lemma LessTrichotomy<T(!new)>(a: seq<T>, b: seq<T>, lt: (T, T) -> bool)
    requires StrictTotal(lt)
    ensures a == b || Less(a, b, lt) || Less(b, a, lt)
  {
    var d := FirstDiff(a, b);
    FirstDiffUnique(b, a, d);
    if d == |a| && d == |b| {
      assert a == b;
    }
  }

  /** The lexicographic order over a strict total order is itself a strict total order. */
  lemma LessStrictTotal<T(!new)>(lt: (T, T) -> bool)
    requires StrictTotal(lt)
    ensures StrictTotal((a: seq<T>, b: seq<T>) => Less(a, b, lt))
  {
    forall a: seq<T> ensures !Less(a, a, lt) {
      LessIrreflexive(a, lt);
    }
    forall a: seq<T>, b: seq<T>, c: seq<T> | Less(a, b, lt) && Less(b, c, lt) ensures Less(a, c, lt) {
      LessTransitive(a, b, c, lt);
    }
    forall a: seq<T>, b: seq<T> ensures a == b || Less(a, b, lt) || Less(b, a, lt) {
      LessTrichotomy(a, b, lt);
    }
  }

  // Count-vector specialisations used throughout the weighing proofs.

  /** NatLess is Less over the order of the naturals. */
  lemma NatLessIsLess(a: seq<nat>, b: seq<nat>)
    ensures NatLess(a, b) == Less(a, b, NatLt)
  {
  }

  lemma NatLessAt(a: seq<nat>, b: seq<nat>, d: nat)
    requires d < |a| && d < |b|
    requires forall i :: 0 <= i < d ==> a[i] == b[i]
    requires a[d] < b[d]
    ensures NatLess(a, b)
  {
    FirstDiffUnique(a, b, d);
  }

  lemma NatLessWitness(a: seq<nat>, b: seq<nat>) returns (d: nat)
    requires |a| == |b|
    requires NatLess(a, b)
    ensures d < |a|
    ensures forall i :: 0 <= i < d ==> a[i] == b[i]
    ensures a[d] < b[d]
  {
    d := FirstDiff(a, b);
  }

  lemma NatLessTransitive(a: seq<nat>, b: seq<nat>, c: seq<nat>)
    requires NatLess(a, b) && NatLess(b, c)
    ensures NatLess(a, c)
  {
    NatLtStrictTotal();
    NatLessIsLess(a, b);
    NatLessIsLess(b, c);
    NatLessIsLess(a, c);
    LessTransitive(a, b, c, NatLt);
  }

  lemma NatLessAsymmetric(a: seq<nat>, b: seq<nat>)
    requires NatLess(a, b)
    ensures !NatLess(b, a) && a != b
  {
    NatLtStrictTotal();
    NatLessIsLess(a, b);
    NatLessIsLess(b, a);
    LessAsymmetric(a, b, NatLt);
    if a == b {
      LessIrreflexive(a, NatLt);
    }
  }

  lemma NatLessTrichotomy(a: seq<nat>, b: seq<nat>)
    ensures a == b || NatLess(a, b) || NatLess(b, a)
  {
    NatLtStrictTotal();
    NatLessIsLess(a, b);
    NatLessIsLess(b, a);
    LessTrichotomy(a, b, NatLt);
  }

  /** NatLess is a strict total order on count vectors. */
  lemma NatLessStrictTotal()
    ensures StrictTotal(NatLess)
  {
    forall x: seq<nat> ensures !NatLess(x, x) {
      if NatLess(x, x) {
        NatLessAsymmetric(x, x);
      }
    }
    forall x: seq<nat>, y: seq<nat>, z: seq<nat> | NatLess(x, y) && NatLess(y, z) ensures NatLess(x, z) {
      NatLessTransitive(x, y, z);
    }
    forall x: seq<nat>, y: seq<nat> ensures x == y || NatLess(x, y) || NatLess(y, x) {
      NatLessTrichotomy(x, y);
    }
  }

  /** Pointwise smaller or equal vectors of equal length are lexicographically smaller or equal. */
  lemma NatLessEqPointwise(a: seq<nat>, b: seq<nat>)
    requires |a| == |b|
    requires forall i :: 0 <= i < |a| ==> a[i] <= b[i]
    ensures NatLessEq(a, b)
  {
    var d := FirstDiff(a, b);
    if d < |a| {
      NatLessAt(a, b, d);
    } else {
      assert a == b;
    }
  }

  /** Of two count vectors of equal length, the one not larger at their first difference is not
      lexicographically larger. */
  lemma NatLessEqAtDiff(a: seq<nat>, b: seq<nat>)
    requires |a| == |b|
    requires FirstDiff(a, b) < |a| ==> a[FirstDiff(a, b)] <= b[FirstDiff(a, b)]
    ensures NatLessEq(a, b)
  {
    if FirstDiff(a, b) == |a| {
      assert a == b;
    }
  }
}
