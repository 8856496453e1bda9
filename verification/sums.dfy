/** Prefix sums of count vectors, and the range-sum facts the coin-counting proofs rest on.
    A range sum over [m, n) is written Prefix(s, n) - Prefix(s, m). */
module Sums {

  /** Sum of the first n entries of s. */
  function Prefix(s: seq<nat>, n: nat): nat
    requires n <= |s|
  {
    if n == 0 then 0 else Prefix(s, n - 1) + s[n - 1]
  }

  /** Sum of all entries of s (std::reduce over the vector). */
  function Sum(s: seq<nat>): nat {
    Prefix(s, |s|)
  }

  function Min(a: int, b: int): int {
    if a <= b then a else b
  }

  /** Prefix extended by one entry. */
  lemma PrefixStep(s: seq<nat>, n: nat)
    requires n < |s|
    ensures Prefix(s, n + 1) == Prefix(s, n) + s[n]
  {
  }

  lemma {:induction false} PrefixMono(s: seq<nat>, m: nat, n: nat)
    requires m <= n <= |s|
    ensures Prefix(s, m) <= Prefix(s, n)
    decreases n - m
  {
    if m < n {
      PrefixMono(s, m, n - 1);
    }
  }

  /** Entries outside [0, n) do not influence Prefix(_, n). */
  lemma {:induction false} PrefixAgree(a: seq<nat>, b: seq<nat>, n: nat)
    requires n <= |a| && n <= |b|
    requires forall i :: 0 <= i < n ==> a[i] == b[i]
    ensures Prefix(a, n) == Prefix(b, n)
  {
    if n > 0 {
      PrefixAgree(a, b, n - 1);
    }
  }

  /** Pointwise equal entries on [m, n) give equal range sums. */
  lemma {:induction false} RangeEq(a: seq<nat>, b: seq<nat>, m: nat, n: nat)
    requires m <= n <= |a| && n <= |b|
    requires forall i :: m <= i < n ==> a[i] == b[i]
    ensures Prefix(a, n) - Prefix(a, m) == Prefix(b, n) - Prefix(b, m)
    decreases n - m
  {
    if m < n {
      RangeEq(a, b, m, n - 1);
    }
  }

  /** A range of zeros sums to zero. */
  lemma {:induction false} RangeZero(s: seq<nat>, m: nat, n: nat)
    requires m <= n <= |s|
    requires forall i :: m <= i < n ==> s[i] == 0
    ensures Prefix(s, n) == Prefix(s, m)
    decreases n - m
  {
    if m < n {
      RangeZero(s, m, n - 1);
    }
  }

  /** Pointwise a + b <= c on [m, n) carries over to the range sums. */
  lemma {:induction false} RangeAddLe(a: seq<nat>, b: seq<nat>, c: seq<nat>, m: nat, n: nat)
    requires m <= n <= |a| && n <= |b| && n <= |c|
    requires forall i :: m <= i < n ==> a[i] + b[i] <= c[i]
    ensures (Prefix(a, n) - Prefix(a, m)) + (Prefix(b, n) - Prefix(b, m)) <= Prefix(c, n) - Prefix(c, m)
    decreases n - m
  {
    if m < n {
      RangeAddLe(a, b, c, m, n - 1);
    }
  }

  /** As RangeAddLe, with one index of strict inequality. */
  lemma {:induction false} RangeAddLt(a: seq<nat>, b: seq<nat>, c: seq<nat>, m: nat, n: nat, k: nat)
    requires m <= k < n <= |a| && n <= |b| && n <= |c|
    requires forall i :: m <= i < n ==> a[i] + b[i] <= c[i]
    requires a[k] + b[k] < c[k]
    ensures (Prefix(a, n) - Prefix(a, m)) + (Prefix(b, n) - Prefix(b, m)) < Prefix(c, n) - Prefix(c, m)
    decreases n - m
  {
    if k == n - 1 {
      RangeAddLe(a, b, c, m, n - 1);
    } else {
      RangeAddLt(a, b, c, m, n - 1, k);
    }
  }

  /** Pointwise a + b == c on [m, n) carries over to the range sums. */
  lemma {:induction false} RangeAddEq(a: seq<nat>, b: seq<nat>, c: seq<nat>, m: nat, n: nat)
    requires m <= n <= |a| && n <= |b| && n <= |c|
    requires forall i :: m <= i < n ==> a[i] + b[i] == c[i]
    ensures (Prefix(a, n) - Prefix(a, m)) + (Prefix(b, n) - Prefix(b, m)) == Prefix(c, n) - Prefix(c, m)
    decreases n - m
  {
    if m < n {
      RangeAddEq(a, b, c, m, n - 1);
    }
  }

  /** Pointwise a <= c on [m, n) carries over to the range sums. */
  lemma {:induction false} RangeLe(a: seq<nat>, c: seq<nat>, m: nat, n: nat)
    requires m <= n <= |a| && n <= |c|
    requires forall i :: m <= i < n ==> a[i] <= c[i]
    ensures Prefix(a, n) - Prefix(a, m) <= Prefix(c, n) - Prefix(c, m)
    decreases n - m
  {
    if m < n {
      RangeLe(a, c, m, n - 1);
    }
  }

  lemma SumSingle(v: nat)
    ensures Sum([v]) == v
  {
    assert Prefix([v], 1) == Prefix([v], 0) + v;
  }

  /** Sum of a one-element extension at the front. */
  lemma {:induction false} SumCons(v: nat, s: seq<nat>)
    ensures Sum([v] + s) == v + Sum(s)
    decreases |s|
  {
    if |s| > 0 {
      var t := s[..|s| - 1];
      assert s == t + [s[|s| - 1]];
      assert [v] + s == ([v] + t) + [s[|s| - 1]];
      SumCons(v, t);
      assert Prefix([v] + s, |s|) == Sum([v] + t) by {
        PrefixAgree([v] + s, [v] + t, |s|);
      }
      assert Prefix(s, |s| - 1) == Sum(t) by {
        PrefixAgree(s, t, |s| - 1);
      }
      assert ([v] + s)[|s|] == s[|s| - 1];
      assert Sum([v] + s) == Prefix([v] + s, |s|) + s[|s| - 1];
    } else {
      assert [v] + s == [v];
    }
  }

  /** Sum split after the first entry. */
  lemma SumTail(s: seq<nat>)
    requires |s| > 0
    ensures Sum(s) == s[0] + Sum(s[1..])
  {
    assert s == [s[0]] + s[1..];
    SumCons(s[0], s[1..]);
  }

  /** Sum of a concatenation. */
  lemma {:induction false} SumAppend(s: seq<nat>, t: seq<nat>)
    ensures Sum(s + t) == Sum(s) + Sum(t)
    decreases |t|
  {
    if |t| > 0 {
      var u := t[..|t| - 1];
      assert t == u + [t[|t| - 1]];
      assert s + t == (s + u) + [t[|t| - 1]];
      SumAppend(s, u);
      PrefixAgree(s + t, s + u, |s + u|);
      PrefixAgree(t, u, |u|);
    } else {
      assert s + t == s;
    }
  }

  /** A positive prefix sum has a positive entry. */
  lemma {:induction false} SomePositive(s: seq<nat>, n: nat)
    requires n <= |s| && Prefix(s, n) > 0
    ensures exists i :: 0 <= i < n && s[i] > 0
  {
    if s[n - 1] == 0 {
      SomePositive(s, n - 1);
    }
  }

  /** Pointwise a <= c on [m, n), strict at k, gives a strictly smaller range sum. */
  lemma {:induction false} RangeLt(a: seq<nat>, c: seq<nat>, m: nat, n: nat, k: nat)
    requires m <= k < n <= |a| && n <= |c|
    requires forall i :: m <= i < n ==> a[i] <= c[i]
    requires a[k] < c[k]
    ensures Prefix(a, n) - Prefix(a, m) < Prefix(c, n) - Prefix(c, m)
    decreases n - m
  {
    if k == n - 1 {
      RangeLe(a, c, m, n - 1);
    } else {
      RangeLt(a, c, m, n - 1, k);
    }
  }
}
