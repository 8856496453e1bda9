/** The Partition(provenance, weighing, base) constructor of Balance/Partition.cpp: the part sizes of a
    child partition, read off its provenance, the weighing and the base partition. */
module Partition {
  import opened Sums
  import opened Selection
  import opened Pans
  import opened Provenance

  /** uint8_t subtraction: the difference modulo 256. */
  function ByteSub(a: nat, b: nat): (r: nat)
    ensures r <= MaxCoins
    ensures b <= a <= MaxCoins ==> r == a - b
  {
    (a - b) % (MaxCoins + 1)
  }

  /** Every provenance entry names a part of a base with n parts. */
  predicate InRange(prov: seq<PartProvenance>, n: nat) {
    forall k :: 0 <= k < |prov| ==> prov[k].part < n
  }

  /** base_count on reaching part j: taken afresh from the base on entering a new base part. */
  function CountAt(base: seq<nat>, basePart: int, baseCount: nat, j: nat): nat
    requires j < |base|
  {
    if basePart != j then base[j] else baseCount
  }

  /** The loop of the constructor from state (basePart, baseCount) on: one part per provenance entry,
      a pan entry sized by the weighing, a set-aside entry sized by what the pans left of base_count. */
  function DeriveFrom(prov: seq<PartProvenance>, left: seq<nat>, right: seq<nat>, base: seq<nat>,
                      basePart: int, baseCount: nat): (parts: seq<nat>)
    requires InRange(prov, |base|) && |left| == |base| && |right| == |base|
    ensures |parts| == |prov|
    decreases |prov|
  {
    if |prov| == 0 then []
    else
      var j := prov[0].part;
      var c := CountAt(base, basePart, baseCount, j);
      match prov[0].placement
      case LeftPan => [left[j]] + DeriveFrom(prov[1..], left, right, base, j, ByteSub(c, left[j]))
      case RightPan => [right[j]] + DeriveFrom(prov[1..], left, right, base, j, ByteSub(c, right[j]))
      case SetAside => [c] + DeriveFrom(prov[1..], left, right, base, j, c)
  }

  /** The state (basePart, baseCount) after the loop has read prov. */
  function StateAfter(prov: seq<PartProvenance>, left: seq<nat>, right: seq<nat>, base: seq<nat>,
                      basePart: int, baseCount: nat): (int, nat)
    requires InRange(prov, |base|) && |left| == |base| && |right| == |base|
    decreases |prov|
  {
    if |prov| == 0 then (basePart, baseCount)
    else
      var j := prov[0].part;
      var c := CountAt(base, basePart, baseCount, j);
      match prov[0].placement
      case LeftPan => StateAfter(prov[1..], left, right, base, j, ByteSub(c, left[j]))
      case RightPan => StateAfter(prov[1..], left, right, base, j, ByteSub(c, right[j]))
      case SetAside => StateAfter(prov[1..], left, right, base, j, c)
  }

  /** The constructor: parts of the child partition for `provenance` under weighing w of `base`. */
  function Derive(provenance: seq<PartProvenance>, w: Weighing, base: seq<nat>): (parts: seq<nat>)
    requires InRange(provenance, |base|) && |w.left| == |base| && |w.right| == |base|
    ensures |parts| == |provenance|
    ensures forall k :: 0 <= k < |provenance| && provenance[k].placement == LeftPan ==> parts[k] == w.left[provenance[k].part]
    ensures forall k :: 0 <= k < |provenance| && provenance[k].placement == RightPan ==> parts[k] == w.right[provenance[k].part]
  {
    DeriveFromPans(provenance, w.left, w.right, base, -1, 0);
    DeriveFrom(provenance, w.left, w.right, base, -1, 0)
  }

  /** Pan entries take their sizes from the weighing, whatever state the loop is in. */
  lemma {:induction false} DeriveFromPans(prov: seq<PartProvenance>, left: seq<nat>, right: seq<nat>, base: seq<nat>,
                                          basePart: int, baseCount: nat)
    requires InRange(prov, |base|) && |left| == |base| && |right| == |base|
    ensures var parts := DeriveFrom(prov, left, right, base, basePart, baseCount);
            && (forall k :: 0 <= k < |prov| && prov[k].placement == LeftPan ==> parts[k] == left[prov[k].part])
            && (forall k :: 0 <= k < |prov| && prov[k].placement == RightPan ==> parts[k] == right[prov[k].part])
    decreases |prov|
  {
    if |prov| > 0 {
      var j := prov[0].part;
      var c := CountAt(base, basePart, baseCount, j);
      var next := match prov[0].placement
        case LeftPan => ByteSub(c, left[j])
        case RightPan => ByteSub(c, right[j])
        case SetAside => c;
      DeriveFromPans(prov[1..], left, right, base, j, next);
    }
  }

  /** Reading a provenance in two pieces: the second piece starts from the state the first leaves. */
  lemma {:induction false} DeriveAppend(a: seq<PartProvenance>, b: seq<PartProvenance>, left: seq<nat>, right: seq<nat>,
                                        base: seq<nat>, basePart: int, baseCount: nat)
    requires InRange(a, |base|) && InRange(b, |base|) && |left| == |base| && |right| == |base|
    ensures InRange(a + b, |base|)
    ensures var (bp, bc) := StateAfter(a, left, right, base, basePart, baseCount);
            && DeriveFrom(a + b, left, right, base, basePart, baseCount)
               == DeriveFrom(a, left, right, base, basePart, baseCount) + DeriveFrom(b, left, right, base, bp, bc)
            && StateAfter(a + b, left, right, base, basePart, baseCount) == StateAfter(b, left, right, base, bp, bc)
    decreases |a|
  {
    if |a| > 0 {
      assert (a + b)[0] == a[0];
      assert (a + b)[1..] == a[1..] + b;
      var j := a[0].part;
      var c := CountAt(base, basePart, baseCount, j);
      match a[0].placement
      case LeftPan => DeriveAppend(a[1..], b, left, right, base, j, ByteSub(c, left[j]));
      case RightPan => DeriveAppend(a[1..], b, left, right, base, j, ByteSub(c, right[j]));
      case SetAside => DeriveAppend(a[1..], b, left, right, base, j, c);
    } else {
      assert a + b == b;
    }
  }

  /** The pan entries of one base part, entered from another part: they get the pans' counts and
      leave base_count at the base count minus both pans. */
  lemma DerivePans(p: seq<nat>, left: seq<nat>, right: seq<nat>, i: nat, basePart: int, baseCount: nat)
    requires |left| == |p| && |right| == |p| && i < |p| && p[i] <= MaxCoins && basePart != i
    requires left[i] + right[i] <= p[i]
    ensures var A: seq<Item> := if left[i] > 0 then [Item(i, LeftPan, left[i])] else [];
            var B: seq<Item> := if right[i] > 0 then [Item(i, RightPan, right[i])] else [];
            var st := StateAfter(Provs(A + B), left, right, p, basePart, baseCount);
            && InRange(Provs(A + B), |p|)
            && DeriveFrom(Provs(A + B), left, right, p, basePart, baseCount) == Sizes(A + B)
            && (st.0 == basePart || st.0 == i)
            && CountAt(p, st.0, st.1, i) == p[i] - left[i] - right[i]
  {
    var l, r := left[i], right[i];
    var A: seq<Item> := if l > 0 then [Item(i, LeftPan, l)] else [];
    var B: seq<Item> := if r > 0 then [Item(i, RightPan, r)] else [];
    ProvsAppend(A, B);
    SizesAppend(A, B);
    var pa, pb := Provs(A), Provs(B);
    if l > 0 { DeriveOne(PartProvenance(i, LeftPan), left, right, p, basePart, baseCount); }
    DeriveAppend(pa, pb, left, right, p, basePart, baseCount);
    var st1 := StateAfter(pa, left, right, p, basePart, baseCount);
    if r > 0 { DeriveOne(PartProvenance(i, RightPan), left, right, p, st1.0, st1.1); }
    assert DeriveFrom(pa, left, right, p, basePart, baseCount) == Sizes(A);
    assert DeriveFrom(pb, left, right, p, st1.0, st1.1) == Sizes(B);
  }

  /** The entries of one base part, entered from another part: the pans get their counts, the
      set-aside entry gets the base count minus both pans, and the loop ends on that part. */
  lemma DeriveRun(p: seq<nat>, left: seq<nat>, right: seq<nat>, i: nat, basePart: int, baseCount: nat)
    requires |left| == |p| && |right| == |p| && i < |p| && p[i] <= MaxCoins && basePart != i
    requires left[i] + right[i] <= p[i]
    ensures InRange(Provs(PartItems(i, p[i], left[i], right[i])), |p|)
    ensures DeriveFrom(Provs(PartItems(i, p[i], left[i], right[i])), left, right, p, basePart, baseCount)
            == Sizes(PartItems(i, p[i], left[i], right[i]))
    ensures var st := StateAfter(Provs(PartItems(i, p[i], left[i], right[i])), left, right, p, basePart, baseCount);
            st.0 == basePart || st.0 == i
  {
    var l, r := left[i], right[i];
    var A: seq<Item> := if l > 0 then [Item(i, LeftPan, l)] else [];
    var B: seq<Item> := if r > 0 then [Item(i, RightPan, r)] else [];
    var C: seq<Item> := if p[i] - l - r > 0 then [Item(i, SetAside, p[i] - l - r)] else [];
    assert PartItems(i, p[i], l, r) == (A + B) + C;
    ProvsAppend(A + B, C);
    SizesAppend(A + B, C);
    DerivePans(p, left, right, i, basePart, baseCount);
    var st := StateAfter(Provs(A + B), left, right, p, basePart, baseCount);
    DeriveSetAside(p, left, right, i, st.0, st.1);
    DeriveAppend(Provs(A + B), Provs(C), left, right, p, basePart, baseCount);
  }

  /** The set-aside entry of a part, read when base_count holds what the pans left of it. */
  lemma DeriveSetAside(p: seq<nat>, left: seq<nat>, right: seq<nat>, i: nat, basePart: int, baseCount: nat)
    requires |left| == |p| && |right| == |p| && i < |p| && left[i] + right[i] <= p[i]
    requires CountAt(p, basePart, baseCount, i) == p[i] - left[i] - right[i]
    ensures var C: seq<Item> := if p[i] - left[i] - right[i] > 0 then [Item(i, SetAside, p[i] - left[i] - right[i])] else [];
            var st := StateAfter(Provs(C), left, right, p, basePart, baseCount);
            && InRange(Provs(C), |p|)
            && DeriveFrom(Provs(C), left, right, p, basePart, baseCount) == Sizes(C)
            && (st.0 == basePart || st.0 == i)
  {
    if p[i] - left[i] - right[i] > 0 {
      DeriveOne(PartProvenance(i, SetAside), left, right, p, basePart, baseCount);
    }
  }

  /** One step of the loop. */
  lemma DeriveOne(e: PartProvenance, left: seq<nat>, right: seq<nat>, base: seq<nat>, basePart: int, baseCount: nat)
    requires e.part < |base| && |left| == |base| && |right| == |base|
    ensures InRange([e], |base|)
    ensures var c := CountAt(base, basePart, baseCount, e.part);
            match e.placement
            case LeftPan =>
              && DeriveFrom([e], left, right, base, basePart, baseCount) == [left[e.part]]
              && StateAfter([e], left, right, base, basePart, baseCount) == (e.part as int, ByteSub(c, left[e.part]))
            case RightPan =>
              && DeriveFrom([e], left, right, base, basePart, baseCount) == [right[e.part]]
              && StateAfter([e], left, right, base, basePart, baseCount) == (e.part as int, ByteSub(c, right[e.part]))
            case SetAside =>
              && DeriveFrom([e], left, right, base, basePart, baseCount) == [c]
              && StateAfter([e], left, right, base, basePart, baseCount) == (e.part as int, c)
  {
    assert [e][1..] == [];
  }

  /** Every part count of p fits a uint8_t. */
  predicate ByteCounts(p: seq<nat>) {
    forall j :: 0 <= j < |p| ==> p[j] <= MaxCoins
  }

  /** Reading the items of parts i.. from any earlier state yields their sizes. */
  lemma {:induction false} DeriveItemsFrom(p: seq<nat>, left: seq<nat>, right: seq<nat>, i: nat, basePart: int, baseCount: nat)
    requires Placeable(p, left, right) && ByteCounts(p) && i <= |p| && basePart < i
    ensures InRange(Provs(ItemsFrom(p, left, right, i)), |p|)
    ensures DeriveFrom(Provs(ItemsFrom(p, left, right, i)), left, right, p, basePart, baseCount)
            == Sizes(ItemsFrom(p, left, right, i))
    decreases |p| - i
  {
    if i < |p| {
      var run := PartItems(i, p[i], left[i], right[i]);
      var rest := ItemsFrom(p, left, right, i + 1);
      ProvsAppend(run, rest);
      SizesAppend(run, rest);
      DeriveRun(p, left, right, i, basePart, baseCount);
      var st := StateAfter(Provs(run), left, right, p, basePart, baseCount);
      DeriveItemsFrom(p, left, right, i + 1, st.0, st.1);
      DeriveAppend(Provs(run), Provs(rest), left, right, p, basePart, baseCount);
    }
  }

  /** The provenance of weighing w of p in part-by-part order, as Generator::get of
      Balance2/Partition2.cpp builds it: the left-pan coins, the right-pan coins, then the coins set
      aside, empty groups omitted. One of the layouts DeriveLaid covers. */
  function CanonicalProvenance(p: seq<nat>, w: Weighing): (prov: seq<PartProvenance>)
    requires Placeable(p, w.left, w.right)
    ensures InRange(prov, |p|)
  {
    Provs(Items(p, w.left, w.right))
  }

  /** On that layout the constructor rebuilds the item sizes: a set-aside part gets the base count
      less both pans, and the child partition has as many coins as the base (the closing assert). */
  lemma DeriveCanonical(p: seq<nat>, w: Weighing)
    requires Placeable(p, w.left, w.right) && ByteCounts(p)
    ensures var prov := CanonicalProvenance(p, w);
            var parts := Derive(prov, w, p);
            && parts == Sizes(Items(p, w.left, w.right))
            && (forall k :: 0 <= k < |prov| && prov[k].placement == SetAside ==>
                  parts[k] == p[prov[k].part] - w.left[prov[k].part] - w.right[prov[k].part])
            && Sum(parts) == Sum(p)
  {
    DeriveItemsFrom(p, w.left, w.right, 0, -1, 0);
    ItemsSum(p, w.left, w.right);
  }

  /** The layout the loop relies on (Balance/Partition.cpp:22), first half: the entries of one base
      part are adjacent. */
  predicate Adjacent(prov: seq<PartProvenance>) {
    forall a, b, c :: 0 <= a < b < c < |prov| && prov[a].part == prov[c].part ==> prov[b].part == prov[a].part
  }

  /** Second half: within a base part no placement repeats and the set-aside entry comes last. */
  predicate SetAsideLast(prov: seq<PartProvenance>) {
    forall a, b :: 0 <= a < b < |prov| && prov[a].part == prov[b].part ==>
      prov[a].placement != prov[b].placement && prov[a].placement != SetAside
  }

  /** Every non-empty group of part j under the weighing (left, right) has its entry in prov. */
  predicate GroupsIn(prov: seq<PartProvenance>, p: seq<nat>, left: seq<nat>, right: seq<nat>, j: nat)
    requires |left| == |p| && |right| == |p|
  {
    && j < |p|
    && (left[j] > 0 ==> PartProvenance(j, LeftPan) in prov)
    && (right[j] > 0 ==> PartProvenance(j, RightPan) in prov)
    && (left[j] + right[j] < p[j] ==> PartProvenance(j, SetAside) in prov)
  }

  /** prov is a provenance of weighing w of p: it lists every non-empty group of coins. */
  predicate Covers(prov: seq<PartProvenance>, p: seq<nat>, w: Weighing)
    requires |w.left| == |p| && |w.right| == |p|
  {
    forall j :: 0 <= j < |p| ==> GroupsIn(prov, p, w.left, w.right, j)
  }

  /** No entry of prov names part j. */
  predicate Avoids(prov: seq<PartProvenance>, j: int) {
    forall k :: 0 <= k < |prov| ==> prov[k].part != j
  }

  /** The same layout read entry by entry: an entry followed by one of its own part is a pan entry
      that does not recur, and any other entry's part never appears again. */
  predicate Laid(prov: seq<PartProvenance>)
    decreases |prov|
  {
    || |prov| == 0
    || (&& Laid(prov[1..])
        && if |prov| > 1 && prov[1].part == prov[0].part
           then prov[0].placement != SetAside && prov[0] !in prov[1..]
           else Avoids(prov[1..], prov[0].part))
  }

  /** The two readings of the layout agree. */
  lemma {:induction false} LaidOf(prov: seq<PartProvenance>)
    requires Adjacent(prov) && SetAsideLast(prov)
    ensures Laid(prov)
    decreases |prov|
  {
    if |prov| > 0 {
      var rest := prov[1..];
      assert Adjacent(rest) && SetAsideLast(rest) by {
        forall a, b | 0 <= a < b < |rest|
          ensures rest[a] == prov[a + 1] && rest[b] == prov[b + 1]
        {
        }
      }
      LaidOf(rest);
      if |prov| > 1 && prov[1].part == prov[0].part {
        forall k | 0 <= k < |rest|
          ensures rest[k] != prov[0]
        {
          assert rest[k] == prov[k + 1];
        }
      } else {
        forall k | 0 <= k < |rest|
          ensures rest[k].part != prov[0].part
        {
          assert rest[k] == prov[k + 1] && rest[0] == prov[1];
        }
      }
    }
  }

  /** The parts prov names, other than j. */
  function PartsBut(prov: seq<PartProvenance>, j: int): set<nat> {
    set k | 0 <= k < |prov| && prov[k].part != j :: prov[k].part
  }

  /** p with every part outside `parts` emptied. */
  function Through(p: seq<nat>, parts: set<nat>): (q: seq<nat>)
    ensures |q| == |p|
    ensures forall i :: 0 <= i < |p| ==> q[i] == if i in parts then p[i] else 0
  {
    seq(|p|, i requires 0 <= i < |p| => if i in parts then p[i] else 0)
  }

  /** Pans of part j whose entries prov lacks. */
  function Gone(prov: seq<PartProvenance>, left: seq<nat>, right: seq<nat>, j: nat): nat
    requires j < |left| && j < |right|
  {
    (if PartProvenance(j, LeftPan) in prov then 0 else left[j])
    + (if PartProvenance(j, RightPan) in prov then 0 else right[j])
  }

  /** The loop is inside the entries of base part j. */
  predicate Continues(prov: seq<PartProvenance>, j: int) {
    |prov| > 0 && prov[0].part == j
  }

  /** At the entries of part j = prov[0].part with base_count c: c is p[j] less the pans of j already
      read, and a set-aside entry is still to come when the pans leave coins. */
  predicate MidBlock(prov: seq<PartProvenance>, p: seq<nat>, left: seq<nat>, right: seq<nat>, c: nat)
    requires |prov| > 0 && prov[0].part < |p| && |left| == |p| && |right| == |p|
  {
    var j := prov[0].part;
    && c + Gone(prov, left, right, j) == p[j]
    && (left[j] + right[j] < p[j] ==> PartProvenance(j, SetAside) in prov)
  }

  /** Every set-aside entry of prov got what the weighing's two pans leave of its base part. */
  predicate SetAsideSized(prov: seq<PartProvenance>, parts: seq<nat>, p: seq<nat>, left: seq<nat>, right: seq<nat>)
    requires InRange(prov, |p|) && |parts| == |prov| && |left| == |p| && |right| == |p|
  {
    forall k :: 0 <= k < |prov| && prov[k].placement == SetAside ==>
      parts[k] + left[prov[k].part] + right[prov[k].part] == p[prov[k].part]
  }

  lemma SetAsideSizedAppend(a: seq<PartProvenance>, b: seq<PartProvenance>, x: seq<nat>, y: seq<nat>,
                            p: seq<nat>, left: seq<nat>, right: seq<nat>)
    requires InRange(a, |p|) && InRange(b, |p|) && |x| == |a| && |y| == |b| && |left| == |p| && |right| == |p|
    requires SetAsideSized(a, x, p, left, right) && SetAsideSized(b, y, p, left, right)
    ensures InRange(a + b, |p|)
    ensures SetAsideSized(a + b, x + y, p, left, right)
  {
    forall k | 0 <= k < |a + b| && (a + b)[k].placement == SetAside
      ensures (x + y)[k] + left[(a + b)[k].part] + right[(a + b)[k].part] == p[(a + b)[k].part]
    {
      if k < |a| {
        assert (a + b)[k] == a[k] && (x + y)[k] == x[k];
      } else {
        assert (a + b)[k] == b[k - |a|] && (x + y)[k] == y[k - |a|];
      }
    }
  }

  /** Membership in a sequence with a known first element. */
  lemma InCons(e: PartProvenance, s: seq<PartProvenance>)
    requires |s| > 0
    ensures e in s <==> e == s[0] || e in s[1..]
  {
    assert s == [s[0]] + s[1..];
  }

  /** One entry of part j, read mid-way through j's entries: the part it yields and what base_count
      is left for the rest of j's entries add up to the base_count it was read with. */
  lemma EntryStep(prov: seq<PartProvenance>, left: seq<nat>, right: seq<nat>, p: seq<nat>, basePart: int, baseCount: nat)
    requires Placeable(p, left, right) && ByteCounts(p) && InRange(prov, |p|) && |prov| > 0 && Laid(prov)
    requires MidBlock(prov, p, left, right, CountAt(p, basePart, baseCount, prov[0].part))
    ensures var j := prov[0].part;
            var d := DeriveFrom([prov[0]], left, right, p, basePart, baseCount);
            var st := StateAfter([prov[0]], left, right, p, basePart, baseCount);
            && |d| == 1 && st.0 == j
            && (Continues(prov[1..], j) ==> MidBlock(prov[1..], p, left, right, st.1))
            && (Continues(prov[1..], j) || Avoids(prov[1..], j))
            && d[0] + (if Continues(prov[1..], j) then st.1 else 0) == CountAt(p, basePart, baseCount, j)
            && SetAsideSized([prov[0]], d, p, left, right)
  {
    var e, rest := prov[0], prov[1..];
    var j := e.part;
    assert e == PartProvenance(j, e.placement);
    InCons(PartProvenance(j, LeftPan), prov);
    InCons(PartProvenance(j, RightPan), prov);
    InCons(PartProvenance(j, SetAside), prov);
    DeriveOne(e, left, right, p, basePart, baseCount);
  }

  /** Reading a provenance laid out as the loop assumes, from a state that is either inside the
      entries of prov's first part or clear of every part prov names: the set-aside entries get what
      the pans leave, and the parts sum to the named parts of p plus the base_count carried in. */
  lemma {:induction false} DeriveEntries(prov: seq<PartProvenance>, left: seq<nat>, right: seq<nat>, p: seq<nat>,
                                         basePart: int, baseCount: nat)
    requires Placeable(p, left, right) && ByteCounts(p) && InRange(prov, |p|) && Laid(prov)
    requires forall j :: j in PartsBut(prov, basePart) ==> GroupsIn(prov, p, left, right, j)
    requires Continues(prov, basePart) || Avoids(prov, basePart)
    requires Continues(prov, basePart) ==> MidBlock(prov, p, left, right, baseCount)
    ensures var parts := DeriveFrom(prov, left, right, p, basePart, baseCount);
            && Sum(parts) == Sum(Through(p, PartsBut(prov, basePart))) + (if Continues(prov, basePart) then baseCount else 0)
            && SetAsideSized(prov, parts, p, left, right)
    decreases |prov|
  {
    if |prov| == 0 {
      RangeZero(Through(p, PartsBut(prov, basePart)), 0, |p|);
    } else {
      var j := prov[0].part;
      var rest := prov[1..];
      if j != basePart {
        assert j in PartsBut(prov, basePart);
      }
      EntryStep(prov, left, right, p, basePart, baseCount);
      var st := StateAfter([prov[0]], left, right, p, basePart, baseCount);
      PartsStep(prov, left, right, p, basePart);
      DeriveEntries(rest, left, right, p, st.0, st.1);
      assert prov == [prov[0]] + rest;
      DeriveAppend([prov[0]], rest, left, right, p, basePart, baseCount);
      var d := DeriveFrom([prov[0]], left, right, p, basePart, baseCount);
      var tail := DeriveFrom(rest, left, right, p, st.0, st.1);
      assert d == [d[0]];
      SumCons(d[0], tail);
      if j != basePart {
        ThroughAdd(p, PartsBut(rest, j), j);
      }
      SetAsideSizedAppend([prov[0]], rest, d, tail, p, left, right);
    }
  }

  /** How the named parts change across the first entry, and that the rest stays covered. */
  lemma PartsStep(prov: seq<PartProvenance>, left: seq<nat>, right: seq<nat>, p: seq<nat>, basePart: int)
    requires |left| == |p| && |right| == |p| && |prov| > 0
    requires forall j :: j in PartsBut(prov, basePart) ==> GroupsIn(prov, p, left, right, j)
    requires Continues(prov, basePart) || Avoids(prov, basePart)
    ensures var j := prov[0].part;
            && (j == basePart ==> PartsBut(prov, basePart) == PartsBut(prov[1..], j))
            && (j != basePart ==> PartsBut(prov, basePart) == PartsBut(prov[1..], j) + {j})
            && j !in PartsBut(prov[1..], j)
            && forall i :: i in PartsBut(prov[1..], j) ==> GroupsIn(prov[1..], p, left, right, i)
  {
    var j, rest := prov[0].part, prov[1..];
    forall i | i in PartsBut(prov, basePart)
      ensures i == j || i in PartsBut(rest, j)
    {
      var k :| 0 <= k < |prov| && prov[k].part != basePart && prov[k].part == i;
      if k > 0 { assert rest[k - 1].part == i; }
    }
    forall i | i in PartsBut(rest, j)
      ensures i in PartsBut(prov, basePart) && GroupsIn(rest, p, left, right, i)
    {
      var k :| 0 <= k < |rest| && rest[k].part != j && rest[k].part == i;
      assert prov[k + 1].part == i;
      InCons(PartProvenance(i, LeftPan), prov);
      InCons(PartProvenance(i, RightPan), prov);
      InCons(PartProvenance(i, SetAside), prov);
    }
    if j != basePart {
      assert prov[0].part == j;
      assert j in PartsBut(prov, basePart);
    }
  }

  /** Only part j survives in Through(p, {j}). */
  lemma SumUnit(p: seq<nat>, j: nat)
    requires j < |p|
    ensures Sum(Through(p, {j})) == p[j]
  {
    var q := Through(p, {j});
    RangeZero(q, 0, j);
    PrefixStep(q, j);
    RangeZero(q, j + 1, |p|);
  }

  /** Adding a part to the kept set adds its count to the sum. */
  lemma ThroughAdd(p: seq<nat>, parts: set<nat>, j: nat)
    requires j < |p| && j !in parts
    ensures Sum(Through(p, parts + {j})) == Sum(Through(p, parts)) + p[j]
  {
    RangeAddEq(Through(p, parts), Through(p, {j}), Through(p, parts + {j}), 0, |p|);
    SumUnit(p, j);
  }

  /** On every provenance laid out as the constructor's comment at line 22 assumes (adjacent entries
      per base part, no placement twice, set-aside last) that lists every non-empty group of the
      weighing, a set-aside entry gets the base count less both pans and the child holds as many
      coins as the base (the assert at line 47). */
  lemma DeriveLaid(prov: seq<PartProvenance>, w: Weighing, p: seq<nat>)
    requires Placeable(p, w.left, w.right) && ByteCounts(p)
    requires InRange(prov, |p|) && Adjacent(prov) && SetAsideLast(prov) && Covers(prov, p, w)
    ensures var parts := Derive(prov, w, p);
            && (forall k :: 0 <= k < |prov| && prov[k].placement == SetAside ==>
                  parts[k] == p[prov[k].part] - w.left[prov[k].part] - w.right[prov[k].part])
            && Sum(parts) == Sum(p)
  {
    LaidOf(prov);
    forall j | j in PartsBut(prov, -1)
      ensures GroupsIn(prov, p, w.left, w.right, j)
    {
      var k :| 0 <= k < |prov| && prov[k].part == j;
    }
    DeriveEntries(prov, w.left, w.right, p, -1, 0);
    forall i | 0 <= i < |p| && i !in PartsBut(prov, -1)
      ensures p[i] == 0
    {
      assert GroupsIn(prov, p, w.left, w.right, i);
    }
    assert Through(p, PartsBut(prov, -1)) == p;
  }

  /** A layout other than the part-by-part one: part 1 first, and part 0's right pan before its left
      pan. It meets the hypotheses of DeriveLaid. */
  lemma MixedLayout()
    ensures Adjacent(MixedProvenance()) && SetAsideLast(MixedProvenance())
    ensures Covers(MixedProvenance(), [4, 3], Weighing([1, 1], [2, 0]))
  {
    var prov := MixedProvenance();
    forall a, b, c | 0 <= a < b < c < |prov| && prov[a].part == prov[c].part
      ensures prov[b].part == prov[a].part
    {
    }
    MixedCovers();
  }

  lemma MixedCovers()
    ensures Covers(MixedProvenance(), [4, 3], Weighing([1, 1], [2, 0]))
  {
    var prov, l, r, p := MixedProvenance(), [1, 1], [2, 0], [4, 3];
    assert prov[0] == PartProvenance(1, LeftPan) && prov[1] == PartProvenance(1, SetAside);
    assert GroupsIn(prov, p, l, r, 1);
    assert prov[2] == PartProvenance(0, RightPan) && prov[3] == PartProvenance(0, LeftPan);
    assert prov[4] == PartProvenance(0, SetAside);
    assert GroupsIn(prov, p, l, r, 0);
  }

  /** On that layout the constructor rebuilds the sizes 1, 2 (part 1) and 2, 1, 1 (part 0). */
  lemma MixedLayoutDerive()
    ensures Derive(MixedProvenance(), Weighing([1, 1], [2, 0]), [4, 3]) == [1, 2, 2, 1, 1]
  {
    var prov, l, r, p := MixedProvenance(), [1, 1], [2, 0], [4, 3];
    assert prov[4..][1..] == [];
    assert DeriveFrom(prov[4..], l, r, p, 0, 1) == [1];
    assert prov[3..][1..] == prov[4..];
    assert DeriveFrom(prov[3..], l, r, p, 0, 2) == [1, 1];
    assert prov[2..][1..] == prov[3..];
    assert DeriveFrom(prov[2..], l, r, p, 1, 2) == [2, 1, 1];
    assert prov[1..][1..] == prov[2..];
    assert DeriveFrom(prov[1..], l, r, p, 1, 2) == [2, 2, 1, 1];
  }

  function MixedProvenance(): seq<PartProvenance> {
    [PartProvenance(1, LeftPan), PartProvenance(1, SetAside), PartProvenance(0, RightPan),
     PartProvenance(0, LeftPan), PartProvenance(0, SetAside)]
  }
}
