/** Selections of coins from parts with limited room: the greedy fill that fill_left, fill_right and
    select_right use, and the step to the next smaller selection that advance_left and advance_right
    share. A selection x takes x[i] coins from part i, which has room for cap[i]. */
module Selection {
  import opened Sums
  import opened Lex

  /** x takes no more than cap[i] coins from part i. */
  predicate Within(cap: seq<nat>, x: seq<nat>) {
    |x| == |cap| && forall i {:trigger x[i]} :: 0 <= i < |x| ==> x[i] <= cap[i]
  }

  /** v limited to the range 0 .. c. */
  function Clamp(v: int, c: nat): nat {
    if v <= 0 then 0 else if v >= c then c else v
  }

  /** From part `from` on, r places `count` coins greedily: each part takes as many of the coins
      that the parts before it left over as its room allows. */
  predicate GreedyFrom(cap: seq<nat>, r: seq<nat>, from: nat, count: nat)
    requires |r| == |cap| && from <= |r|
  {
    forall i {:trigger GreedyAt(cap, from, count, i)} :: from <= i < |r| ==> r[i] == GreedyAt(cap, from, count, i)
  }

  /** The coins the greedy placement puts in part i: what the parts from `from` to i left over, as
      far as part i has room. */
  function GreedyAt(cap: seq<nat>, from: nat, count: nat, i: nat): nat
    requires from <= i < |cap|
  {
    Clamp(count - (Prefix(cap, i) - Prefix(cap, from)), cap[i])
  }

  /** The greedy placement has placed min(count, room) coins before every part. */
  lemma {:induction false} GreedyPlaced(cap: seq<nat>, r: seq<nat>, from: nat, count: nat, i: nat)
    requires |r| == |cap| && from <= i <= |cap|
    requires GreedyFrom(cap, r, from, count)
    ensures Prefix(r, i) - Prefix(r, from) == Min(count, Prefix(cap, i) - Prefix(cap, from))
    decreases i - from
  {
    if i > from {
      GreedyPlaced(cap, r, from, count, i - 1);
      PrefixMono(cap, from, i - 1);
      var placed := Prefix(cap, i - 1) - Prefix(cap, from);
      assert r[i - 1] == GreedyAt(cap, from, count, i - 1);
      assert Prefix(r, i) == Prefix(r, i - 1) + r[i - 1];
      assert Prefix(cap, i) - Prefix(cap, from) == placed + cap[i - 1];
      ClampStep(count, placed, cap[i - 1]);
    }
  }

  /** The greedy placement stays within the room of every part. */
  lemma GreedyWithin(cap: seq<nat>, r: seq<nat>, from: nat, count: nat)
    requires |r| == |cap| && from <= |r|
    requires GreedyFrom(cap, r, from, count)
    ensures forall i :: from <= i < |r| ==> r[i] <= cap[i]
  {
    forall i | from <= i < |r| ensures r[i] <= cap[i] {
      assert r[i] == GreedyAt(cap, from, count, i);
    }
  }

  lemma ClampStep(count: nat, placed: nat, c: nat)
    ensures Min(count, placed) + Clamp(count - placed, c) == Min(count, placed + c)
  {
  }

  /** Places up to `count` coins greedily from part `from` on, at most cap[i] in part i, and returns
      the coins that found no room. Entries before `from` are kept. */
  method Fill(cap: seq<nat>, r0: seq<nat>, count: nat, from: nat) returns (r: seq<nat>, rest: nat)
    requires |r0| == |cap| && from <= |cap|
    ensures |r| == |cap|
    ensures forall i :: 0 <= i < from ==> r[i] == r0[i]
    ensures forall i :: from <= i < |r| ==> r[i] <= cap[i]
    ensures GreedyFrom(cap, r, from, count)
    ensures Sum(r) - Prefix(r, from) == Min(count, Sum(cap) - Prefix(cap, from))
    ensures rest == count - (Sum(r) - Prefix(r, from))
  {
    r := r0;
    rest := count;
    var i := from;
    while i < |r|
      invariant from <= i <= |r| == |cap|
      invariant forall k :: 0 <= k < from ==> r[k] == r0[k]
      invariant forall k {:trigger GreedyAt(cap, from, count, k)} :: from <= k < i ==> r[k] == GreedyAt(cap, from, count, k)
      invariant rest == count - Min(count, Prefix(cap, i) - Prefix(cap, from))
    {
      var take := if rest <= cap[i] then rest else cap[i];
      FillStep(cap, from, count, i, rest);
      r := r[i := take];
      rest := rest - take;
      i := i + 1;
    }
    FillDone(cap, r, from, count);
  }

  /** One part of Fill: what it takes is the greedy amount, and the coins left over stay in step. */
  lemma FillStep(cap: seq<nat>, from: nat, count: nat, i: nat, rest: nat)
    requires from <= i < |cap|
    requires rest == count - Min(count, Prefix(cap, i) - Prefix(cap, from))
    ensures (if rest <= cap[i] then rest else cap[i]) == GreedyAt(cap, from, count, i)
    ensures rest - (if rest <= cap[i] then rest else cap[i]) == count - Min(count, Prefix(cap, i + 1) - Prefix(cap, from))
  {
    PrefixMono(cap, from, i);
    var placed := Prefix(cap, i) - Prefix(cap, from);
    ClampStep(count, placed, cap[i]);
    assert Prefix(cap, i + 1) - Prefix(cap, from) == placed + cap[i];
  }

  /** A complete greedy placement stays within the room and places min(count, room) coins. */
  lemma FillDone(cap: seq<nat>, r: seq<nat>, from: nat, count: nat)
    requires |r| == |cap| && from <= |cap|
    requires GreedyFrom(cap, r, from, count)
    ensures forall i :: from <= i < |r| ==> r[i] <= cap[i]
    ensures Sum(r) - Prefix(r, from) == Min(count, Sum(cap) - Prefix(cap, from))
  {
    GreedyWithin(cap, r, from, count);
    GreedyPlaced(cap, r, from, count, |r|);
  }

  /** Where z first departs from the greedy placement r it places fewer coins: more would overshoot
      the coins r has left to place. */
  lemma GreedyNoOvershoot(cap: seq<nat>, r: seq<nat>, z: seq<nat>, from: nat, count: nat, d: nat)
    requires |r| == |cap| && |z| == |cap| && from <= d < |cap|
    requires GreedyFrom(cap, r, from, count)
    requires forall i :: 0 <= i < d ==> z[i] == r[i]
    requires z[d] <= cap[d]
    requires Sum(z) - Prefix(z, from) == count
    ensures z[d] <= r[d]
  {
    if z[d] > r[d] {
      GreedyPlaced(cap, r, from, count, d);
      GreedyPlaced(cap, r, from, count, d + 1);
      assert Prefix(r, d + 1) == Prefix(r, d) + r[d];
      assert Prefix(r, d + 1) - Prefix(r, from) == count;
      PrefixAgree(z, r, d);
      PrefixAgree(z, r, from);
      PrefixMono(z, d + 1, |z|);
      assert false;
    }
  }

  /** The greedy placement is the lexicographically largest way to place `count` coins from part
      `from` on: any other placement that agrees before `from` and respects the room is not greater. */
  lemma GreedyIsLexMax(cap: seq<nat>, r: seq<nat>, z: seq<nat>, from: nat, count: nat)
    requires |r| == |cap| && |z| == |cap| && from <= |cap|
    requires GreedyFrom(cap, r, from, count)
    requires forall i :: 0 <= i < from ==> z[i] == r[i]
    requires forall i :: from <= i < |z| ==> z[i] <= cap[i]
    requires Sum(z) - Prefix(z, from) == count
    ensures NatLessEq(z, r)
  {
    var d := FirstDiff(z, r);
    if d < |z| {
      GreedyNoOvershoot(cap, r, z, from, count, d);
    }
    NatLessEqAtDiff(z, r);
  }

  /** Falling behind x at d cannot be made up when x already fills every part after d. */
  lemma TailShort(cap: seq<nat>, x: seq<nat>, z: seq<nat>, d: nat)
    requires Within(cap, x) && Within(cap, z) && d < |cap|
    requires forall i :: 0 <= i < d ==> z[i] == x[i]
    requires z[d] < x[d]
    requires forall i :: d < i < |cap| ==> x[i] == cap[i]
    ensures Sum(z) < Sum(x)
  {
    PrefixAgree(z, x, d);
    RangeLe(z, x, d + 1, |cap|);
  }

  /** x' is the selection of the same size that comes right after x in descending lexicographic order. */
  ghost predicate NextBelow(cap: seq<nat>, x: seq<nat>, x': seq<nat>) {
    && Within(cap, x') && Sum(x') == Sum(x) && NatLess(x', x)
    && forall z :: Within(cap, z) && Sum(z) == Sum(x) && NatLess(z, x) ==> NatLessEq(z, x')
  }

  /** No selection of the same size is lexicographically smaller than x. */
  ghost predicate LowestOfSize(cap: seq<nat>, x: seq<nat>) {
    forall z :: Within(cap, z) && Sum(z) == Sum(x) ==> !NatLess(z, x)
  }

  /** Every selection of the same size is lexicographically not greater than x. */
  ghost predicate HighestOfSize(cap: seq<nat>, x: seq<nat>) {
    forall z :: Within(cap, z) && Sum(z) == Sum(x) ==> NatLessEq(z, x)
  }

  /** A selection that is empty before j and full after j is the smallest of its size. */
  lemma LexMinimal(cap: seq<nat>, x: seq<nat>, j: nat)
    requires Within(cap, x) && j < |cap|
    requires forall i :: 0 <= i < j ==> x[i] == 0
    requires forall i :: j < i < |cap| ==> x[i] == cap[i]
    ensures forall z :: Within(cap, z) && NatLess(z, x) ==> Sum(z) < Sum(x)
    ensures LowestOfSize(cap, x)
  {
    forall z | Within(cap, z) && NatLess(z, x) ensures Sum(z) < Sum(x) {
      var d := NatLessWitness(z, x);
      TailShort(cap, x, z, d);
    }
  }

  /** The greedy placement of count coins from part 0 is the largest selection of that size. */
  lemma GreedyHighest(cap: seq<nat>, r: seq<nat>, count: nat)
    requires |r| == |cap| && GreedyFrom(cap, r, 0, count) && count <= Sum(cap)
    ensures Within(cap, r) && Sum(r) == count
    ensures HighestOfSize(cap, r)
  {
    GreedyWithin(cap, r, 0, count);
    GreedyPlaced(cap, r, 0, count, |r|);
    assert Sum(r) == count;
    forall z | Within(cap, z) && Sum(z) == count ensures NatLessEq(z, r) {
      assert Prefix(z, 0) == 0;
      GreedyIsLexMax(cap, r, z, 0, count);
    }
  }

  /** Taking one coin from part m and re-placing the coins after m greedily gives the next selection
      below x, when x is empty strictly between m and j, has room at j and is full after j. */
  lemma StepDownNext(cap: seq<nat>, x: seq<nat>, x': seq<nat>, m: nat, j: nat, passed: nat)
    requires Within(cap, x) && |x'| == |x| && m < j < |x|
    requires x[m] > 0 && x[j] < cap[j]
    requires forall i :: m < i < j ==> x[i] == 0
    requires forall i :: j < i < |x| ==> x[i] == cap[i]
    requires passed == Sum(x) - Prefix(x, j)
    requires forall i :: 0 <= i < m ==> x'[i] == x[i]
    requires x'[m] == x[m] - 1
    requires GreedyFrom(cap, x', m + 1, passed + 1)
    ensures NextBelow(cap, x, x')
  {
    StepDownRoom(cap, x, m, j, passed);
    StepDownShape(cap, x, x', m, passed);
    NatLessAt(x', x, m);
    forall z | Within(cap, z) && Sum(z) == Sum(x) && NatLess(z, x) ensures NatLessEq(z, x') {
      StepDownBelow(cap, x, x', m, j, passed, z);
    }
  }

  /** The step-down result respects the room and keeps the size. */
  lemma StepDownShape(cap: seq<nat>, x: seq<nat>, x': seq<nat>, m: nat, passed: nat)
    requires Within(cap, x) && |x'| == |x| && m < |x|
    requires x[m] > 0 && x'[m] == x[m] - 1
    requires forall i :: 0 <= i < m ==> x'[i] == x[i]
    requires passed == Sum(x) - Prefix(x, m + 1)
    requires passed + 1 <= Sum(cap) - Prefix(cap, m + 1)
    requires GreedyFrom(cap, x', m + 1, passed + 1)
    ensures Within(cap, x') && Sum(x') == Sum(x)
  {
    GreedyWithin(cap, x', m + 1, passed + 1);
    WithinBelowUpTo(cap, x, x', m);
    GreedyAll(cap, x', m + 1, passed + 1);
    SumFromTail(x, x', m, passed);
  }

  /** When the parts from `from` on have room for all of them, the greedy placement places all count coins. */
  lemma GreedyAll(cap: seq<nat>, r: seq<nat>, from: nat, count: nat)
    requires |r| == |cap| && from <= |cap|
    requires GreedyFrom(cap, r, from, count)
    requires count <= Sum(cap) - Prefix(cap, from)
    ensures Sum(r) - Prefix(r, from) == count
  {
    GreedyPlaced(cap, r, from, count, |r|);
  }

  /** One coin fewer than x at m and passed + 1 coins after m: as many coins as x. */
  lemma SumFromTail(x: seq<nat>, z: seq<nat>, m: nat, passed: nat)
    requires |z| == |x| && m < |x|
    requires forall i :: 0 <= i < m ==> z[i] == x[i]
    requires x[m] > 0 && z[m] == x[m] - 1
    requires passed == Sum(x) - Prefix(x, m + 1)
    requires Sum(z) - Prefix(z, m + 1) == passed + 1
    ensures Sum(z) == Sum(x)
  {
    OneFewer(x, z, m);
  }

  /** One coin fewer than x at m and as many coins as x: passed + 1 coins after m. */
  lemma TailFromSum(x: seq<nat>, z: seq<nat>, m: nat, passed: nat)
    requires |z| == |x| && m < |x|
    requires forall i :: 0 <= i < m ==> z[i] == x[i]
    requires x[m] > 0 && z[m] == x[m] - 1
    requires passed == Sum(x) - Prefix(x, m + 1)
    requires Sum(z) == Sum(x)
    ensures Sum(z) - Prefix(z, m + 1) == passed + 1
  {
    OneFewer(x, z, m);
  }

  /** x' stays within the room when it takes no more than x up to part m and stays within the room
      after m. */
  lemma WithinBelowUpTo(cap: seq<nat>, x: seq<nat>, x': seq<nat>, m: nat)
    requires Within(cap, x) && |x'| == |x| && m < |x|
    requires forall i :: 0 <= i < m ==> x'[i] == x[i]
    requires x'[m] <= x[m]
    requires forall i :: m + 1 <= i < |x'| ==> x'[i] <= cap[i]
    ensures Within(cap, x')
  {
    forall i | 0 <= i <= m ensures x'[i] <= cap[i] {
      assert x'[i] <= x[i];
    }
  }

  /** A selection within the room is within it from any part on. */
  lemma WithinFrom(cap: seq<nat>, z: seq<nat>, from: nat)
    requires Within(cap, z)
    ensures forall i :: from <= i < |z| ==> z[i] <= cap[i]
  {
  }

  /** Two selections that both match x before m and match each other at m agree on parts 0..m. */
  lemma AgreeThrough(x: seq<nat>, y: seq<nat>, z: seq<nat>, m: nat)
    requires m <= |x| && m < |y| && m < |z|
    requires forall i :: 0 <= i < m ==> y[i] == x[i]
    requires forall i :: 0 <= i < m ==> z[i] == x[i]
    requires z[m] == y[m]
    ensures forall i :: 0 <= i < m + 1 ==> z[i] == y[i]
  {
  }

  /** A selection that matches x before m and has one coin fewer at m has one coin fewer in parts 0..m. */
  lemma OneFewer(x: seq<nat>, z: seq<nat>, m: nat)
    requires |z| == |x| && m < |x|
    requires forall i :: 0 <= i < m ==> z[i] == x[i]
    requires x[m] > 0 && z[m] == x[m] - 1
    ensures Prefix(z, m + 1) + 1 == Prefix(x, m + 1)
  {
    PrefixAgree(z, x, m);
    assert Prefix(z, m + 1) == Prefix(z, m) + z[m];
    assert Prefix(x, m + 1) == Prefix(x, m) + x[m];
  }

  /** The parts after m have room for the coins passed over plus the one taken from part m. */
  lemma StepDownRoom(cap: seq<nat>, x: seq<nat>, m: nat, j: nat, passed: nat)
    requires Within(cap, x) && m < j < |x|
    requires x[j] < cap[j]
    requires forall i :: m < i < j ==> x[i] == 0
    requires passed == Sum(x) - Prefix(x, j)
    ensures passed == Sum(x) - Prefix(x, m + 1)
    ensures passed + 1 <= Sum(cap) - Prefix(cap, m + 1)
  {
    RangeZero(x, m + 1, j);
    RangeLt(x, cap, m + 1, |x|, j);
  }

  /** One selection z below x: it is not above the step-down result x'. */
  lemma StepDownBelow(cap: seq<nat>, x: seq<nat>, x': seq<nat>, m: nat, j: nat, passed: nat, z: seq<nat>)
    requires Within(cap, x) && Within(cap, x') && m < j < |x|
    requires forall i :: m < i < j ==> x[i] == 0
    requires forall i :: j < i < |x| ==> x[i] == cap[i]
    requires passed == Sum(x) - Prefix(x, m + 1)
    requires x[m] > 0
    requires forall i :: 0 <= i < m ==> x'[i] == x[i]
    requires x'[m] == x[m] - 1
    requires GreedyFrom(cap, x', m + 1, passed + 1)
    requires Within(cap, z) && Sum(z) == Sum(x) && NatLess(z, x)
    ensures NatLessEq(z, x')
  {
    var d := NatLessWitness(z, x);
    if d < m {
      NatLessAt(z, x', d);
    } else if d == m {
      if z[m] < x'[m] {
        NatLessAt(z, x', m);
      } else {
        StepDownTail(cap, x, x', m, passed, z);
      }
    } else {
      TailShort(cap, x, z, d);
      assert false;
    }
  }

  /** A selection that agrees with the step-down result x' up to part m is not above it. */
  lemma StepDownTail(cap: seq<nat>, x: seq<nat>, x': seq<nat>, m: nat, passed: nat, z: seq<nat>)
    requires |x| == |cap| && |x'| == |cap| && Within(cap, z) && m < |x|
    requires passed == Sum(x) - Prefix(x, m + 1)
    requires x[m] > 0 && x'[m] == x[m] - 1 && z[m] == x'[m]
    requires forall i :: 0 <= i < m ==> x'[i] == x[i]
    requires forall i :: 0 <= i < m ==> z[i] == x[i]
    requires GreedyFrom(cap, x', m + 1, passed + 1)
    requires Sum(z) == Sum(x)
    ensures NatLessEq(z, x')
  {
    TailFromSum(x, z, m, passed);
    AgreeThrough(x, x', z, m);
    WithinFrom(cap, z, m + 1);
    GreedyIsLexMax(cap, x', z, m + 1, passed + 1);
  }

  /** The loop shared by advance_left and advance_right. Scanning from the back it passes over the
      full parts and the first part with room, then looks for the nearest earlier non-empty part; it
      takes one coin from that part and places the coins passed over, plus that one, greedily after
      it. When there is no such part it reports failure and the number of coins passed over. */
  method StepDown(cap: seq<nat>, x: seq<nat>) returns (found: bool, x': seq<nat>, passed: nat)
    requires Within(cap, x) && |x| > 0
    ensures found ==> NextBelow(cap, x, x')
    ensures !found ==> LowestOfSize(cap, x) && passed == Sum(x)
  {
    passed := 0;
    var index := |x| - 1;
    while x[index] == cap[index]
      invariant 0 <= index < |x|
      decreases index
      invariant forall i :: index < i < |x| ==> x[i] == cap[i]
      invariant passed == Sum(x) - Prefix(x, index + 1)
    {
      passed := passed + x[index];
      if index == 0 {
        assert Prefix(x, 1) == x[0];
        LexMinimal(cap, x, 0);
        return false, x, passed;
      }
      index := index - 1;
    }
    var j := index;
    passed := passed + x[index];
    while index > 0
      invariant 0 <= index <= j
      invariant forall i :: index <= i < j ==> x[i] == 0
    {
      index := index - 1;
      if x[index] > 0 {
        var m := index;
        var rest;
        x', rest := Fill(cap, x[m := x[m] - 1], passed + 1, m + 1);
        StepDownNext(cap, x, x', m, j, passed);
        return true, x', passed;
      }
    }
    RangeZero(x, 0, j);
    LexMinimal(cap, x, j);
    return false, x, passed;
  }
}
