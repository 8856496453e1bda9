/** Where the parts of a child partition come from.

    A weighing splits input part i into up to three output parts: the coins put in the left pan, the
    coins put in the right pan and the coins set aside, each present only when non-empty. Both program
    versions can list them part by part in that order: Generator::get (Balance2/Partition2.cpp) builds
    its items so before sorting them, and it is one of the layouts the Partition constructor of
    Balance/Partition.cpp accepts. */
module Provenance {
  import opened Sums
  import opened Selection
  import opened Pans

  /** Placement (Balance/Types.h, Balance2/Types2.h), in enumerator order. */
  datatype Placement = LeftPan | RightPan | SetAside

  /** The enumerator value of a placement, the key std::sort compares. */
  function Rank(pl: Placement): nat {
    match pl
    case LeftPan => 0
    case RightPan => 1
    case SetAside => 2
  }

  /** PartProvenance / Weighing2::Part: the input part an output part comes from and where its coins went. */
  datatype PartProvenance = PartProvenance(part: nat, placement: Placement)

  /** An output part before it is split into size and provenance (Generator::get's local Item). */
  datatype Item = Item(part: nat, placement: Placement, size: nat)

  function Sizes(items: seq<Item>): (s: seq<nat>)
    ensures |s| == |items|
    ensures forall k :: 0 <= k < |items| ==> s[k] == items[k].size
  {
    seq(|items|, k requires 0 <= k < |items| => items[k].size)
  }

  function Provs(items: seq<Item>): (s: seq<PartProvenance>)
    ensures |s| == |items|
    ensures forall k :: 0 <= k < |items| ==> s[k] == PartProvenance(items[k].part, items[k].placement)
  {
    seq(|items|, k requires 0 <= k < |items| => PartProvenance(items[k].part, items[k].placement))
  }

  lemma SizesAppend(a: seq<Item>, b: seq<Item>)
    ensures Sizes(a + b) == Sizes(a) + Sizes(b)
  {
  }

  lemma ProvsAppend(a: seq<Item>, b: seq<Item>)
    ensures Provs(a + b) == Provs(a) + Provs(b)
  {
  }

  /** Coins of part j that a weighing (left, right) puts at placement pl. */
  function PlacedCount(p: seq<nat>, left: seq<nat>, right: seq<nat>, j: nat, pl: Placement): nat
    requires Placeable(p, left, right) && j < |p|
  {
    match pl
    case LeftPan => left[j]
    case RightPan => right[j]
    case SetAside => p[j] - left[j] - right[j]
  }

  /** The items of part i holding `count` coins, l of them in the left pan and r in the right pan. */
  function PartItems(i: nat, count: nat, l: nat, r: nat): (items: seq<Item>)
    requires l + r <= count
    ensures count > 0 ==> 1 <= |items| <= 3
    ensures forall k :: 0 <= k < |items| ==> items[k].part == i && items[k].size > 0
  {
    (if l > 0 then [Item(i, LeftPan, l)] else [])
    + (if r > 0 then [Item(i, RightPan, r)] else [])
    + (if count - l - r > 0 then [Item(i, SetAside, count - l - r)] else [])
  }

  /** The items of part i account for all of its coins. */
  lemma PartItemsSum(i: nat, count: nat, l: nat, r: nat)
    requires l + r <= count
    ensures Sum(Sizes(PartItems(i, count, l, r))) == count
  {
    var a := if l > 0 then [Item(i, LeftPan, l)] else [];
    var b := if r > 0 then [Item(i, RightPan, r)] else [];
    var c := if count - l - r > 0 then [Item(i, SetAside, count - l - r)] else [];
    assert PartItems(i, count, l, r) == a + b + c;
    assert Sizes(a) == (if l > 0 then [l] else []);
    assert Sizes(b) == (if r > 0 then [r] else []);
    assert Sizes(c) == (if count - l - r > 0 then [count - l - r] else []);
    SizesAppend(a + b, c);
    SizesAppend(a, b);
    SumAppend(Sizes(a) + Sizes(b), Sizes(c));
    SumAppend(Sizes(a), Sizes(b));
    SumSingle(l);
    SumSingle(r);
    SumSingle(count - l - r);
  }

  /** The items of parts i.. in part order, as the loop of Generator::get emits them. */
  function ItemsFrom(p: seq<nat>, left: seq<nat>, right: seq<nat>, i: nat): (items: seq<Item>)
    requires Placeable(p, left, right) && i <= |p|
    ensures forall k :: 0 <= k < |items| ==> i <= items[k].part < |p| && items[k].size > 0
    ensures forall k :: 0 <= k < |items| ==> items[k].size == PlacedCount(p, left, right, items[k].part, items[k].placement)
    decreases |p| - i
  {
    if i == |p| then []
    else
      PartItems(i, p[i], left[i], right[i]) + ItemsFrom(p, left, right, i + 1)
  }

  function Items(p: seq<nat>, left: seq<nat>, right: seq<nat>): seq<Item>
    requires Placeable(p, left, right)
  {
    ItemsFrom(p, left, right, 0)
  }

  /** The items of parts i.. hold exactly the coins of those parts. */
  lemma {:induction false} ItemsFromSum(p: seq<nat>, left: seq<nat>, right: seq<nat>, i: nat)
    requires Placeable(p, left, right) && i <= |p|
    ensures Sum(Sizes(ItemsFrom(p, left, right, i))) == Sum(p) - Prefix(p, i)
    decreases |p| - i
  {
    PrefixMono(p, i, |p|);
    if i < |p| {
      var run: seq<Item> := PartItems(i, p[i], left[i], right[i]);
      var rest: seq<Item> := ItemsFrom(p, left, right, i + 1);
      ItemsFromSum(p, left, right, i + 1);
      PartItemsSum(i, p[i], left[i], right[i]);
      SizesAppend(run, rest);
      SumAppend(Sizes(run), Sizes(rest));
      assert Prefix(p, i + 1) == Prefix(p, i) + p[i];
    }
  }

  /** Splitting by a weighing neither creates nor loses coins. */
  lemma ItemsSum(p: seq<nat>, left: seq<nat>, right: seq<nat>)
    requires Placeable(p, left, right)
    ensures Sum(Sizes(Items(p, left, right))) == Sum(p)
  {
    ItemsFromSum(p, left, right, 0);
  }

  /** Every part with coins appears among the items, and every item names a part with coins. */
  lemma {:induction false} ItemsFromCover(p: seq<nat>, left: seq<nat>, right: seq<nat>, i: nat, j: nat)
    requires Placeable(p, left, right) && i <= j < |p| && p[j] > 0
    ensures exists k :: 0 <= k < |ItemsFrom(p, left, right, i)| && ItemsFrom(p, left, right, i)[k].part == j
    decreases |p| - i
  {
    var run: seq<Item> := PartItems(i, p[i], left[i], right[i]);
    var rest: seq<Item> := ItemsFrom(p, left, right, i + 1);
    assert ItemsFrom(p, left, right, i) == run + rest;
    if j == i {
      assert (run + rest)[0].part == j;
    } else {
      ItemsFromCover(p, left, right, i + 1, j);
      var k :| 0 <= k < |rest| && rest[k].part == j;
      assert (run + rest)[|run| + k].part == j;
    }
  }
}
