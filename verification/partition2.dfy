/** Partition2 of Balance2/Partition2.hpp and its child generator (Balance2/Partition2.cpp): a
    partition as a non-decreasing list of part sizes, interned by value, and the conversion of one
    weighing of it into a child partition plus the provenance of each child part. */
module Partition2 {
  import opened Sums
  import opened Lex
  import opened Selection
  import opened Pans
  import opened Provenance
  import Intern
  import Weighing2
  import Enumerator

  datatype Partition2 = Partition2(parts: seq<nat>)

  /** Partition2(uint8_t count): all coins in one part. */
  function Single(count: nat): (p: Partition2)
    ensures |p.parts| == 1 && p.parts[0] == count
    ensures count <= MaxCoins ==> CoinCount(p) == count
  {
    SumSingle(count);
    Partition2([count])
  }

  /** coin_count(): std::reduce accumulates in uint8_t, so the total is taken modulo 256. */
  function CoinCount(p: Partition2): (c: nat)
    ensures c <= MaxCoins
    ensures Sum(p.parts) <= MaxCoins ==> c == Sum(p.parts)
  {
    Sum(p.parts) % (MaxCoins + 1)
  }

  /** The class invariant: more than two coins, all parts non-empty and non-decreasing, and a coin
      count that fits a uint8_t. */
  predicate Valid(p: Partition2) {
    && 2 < Sum(p.parts) <= MaxCoins
    && (forall i :: 0 <= i < |p.parts| ==> p.parts[i] > 0)
    && (forall i, j :: 0 <= i < j < |p.parts| ==> p.parts[i] <= p.parts[j])
  }

  /** operator<=>: lexicographic order of the part vectors (equality is equality of the vectors). */
  predicate Less(a: Partition2, b: Partition2) {
    NatLess(a.parts, b.parts)
  }

  /** The order the cache is keyed by is a strict total order in which only equal partitions are
      equivalent, so a lookup by order finds the value-equal instance. */
  lemma LessStrictTotal(a: Partition2, b: Partition2, c: Partition2)
    ensures !Less(a, a)
    ensures Less(a, b) && Less(b, c) ==> Less(a, c)
    ensures a == b || Less(a, b) || Less(b, a)
  {
    if Less(a, a) {
      NatLessAsymmetric(a.parts, a.parts);
    }
    if Less(a, b) && Less(b, c) {
      NatLessTransitive(a.parts, b.parts, c.parts);
    }
    NatLessTrichotomy(a.parts, b.parts);
  }

  /** A single part of more than two coins is a valid partition. */
  lemma SingleValid(count: nat)
    requires 2 < count <= MaxCoins
    ensures Valid(Single(count))
  {
    SumSingle(count);
  }

  /** Partition2::get_instance: the cached partition with these parts, inserted on a miss. */
  function GetInstance(cache: Intern.Cache<Partition2>, parts: seq<nat>): (r: (Intern.Cache<Partition2>, nat))
    ensures Intern.IsHandle(r.0, r.1) && r.0.values[r.1] == Partition2(parts)
    ensures Partition2(parts) in cache.values ==> r.0 == cache
    ensures Partition2(parts) !in cache.values ==> r.0.values == cache.values + [Partition2(parts)]
    ensures Intern.Valid(cache) ==> Intern.Valid(r.0)
  {
    Intern.GetInstance(cache, Partition2(parts))
  }

  // ---------------------------------------------------------------------------------------------
  // Generator

  /** A generator holds the input partition and the pans of its current weighing. */
  datatype Generator = Generator(input: seq<nat>, left: seq<nat>, right: seq<nat>)

  /** The Generator constructor: the first weighing of the enumerator, one coin in each pan. */
  function NewGenerator(input: Partition2): (g: Generator)
    requires IsPartition(input.parts) && Sum(input.parts) >= 2
    ensures g.input == input.parts
    ensures IsFirst(input.parts, Pans.Weighing(g.left, g.right))
    ensures Sum(g.left) == 1 && Sum(g.right) == 1
    ensures Placeable(g.input, g.left, g.right)
  {
    Enumerator.StartIsFirst(input.parts);
    Enumerator.StartLeft(input.parts);
    var w := Enumerator.Start(input.parts);
    FitsIffPlaceable(input.parts, w.left, w.right);
    Generator(input.parts, w.left, w.right)
  }

  /** Item::operator<: by size, then input part, then placement. */
  predicate ItemLess(a: Item, b: Item) {
    if a.size != b.size then a.size < b.size
    else if a.part != b.part then a.part < b.part
    else Rank(a.placement) < Rank(b.placement)
  }

  /** No item is less than one before it. */
  predicate Sorted(s: seq<Item>) {
    forall i, j :: 0 <= i < j < |s| ==> !ItemLess(s[j], s[i])
  }

  /** "Not less" is transitive: ItemLess compares the keys (size, part, placement) lexicographically. */
  lemma ItemLessEqTransitive(a: Item, b: Item, c: Item)
    requires !ItemLess(b, a) && !ItemLess(c, b)
    ensures !ItemLess(c, a)
  {
  }

  /** One insertion step of a sort by ItemLess. */
  function Insert(x: Item, s: seq<Item>): (r: seq<Item>)
    ensures multiset(r) == multiset(s) + multiset{x}
  {
    if |s| == 0 then [x]
    else if !ItemLess(s[0], x) then [x] + s
    else
      assert s == [s[0]] + s[1..];
      [s[0]] + Insert(x, s[1..])
  }

  lemma {:induction false} InsertSorted(x: Item, s: seq<Item>)
    requires Sorted(s)
    ensures Sorted(Insert(x, s))
  {
    if |s| == 0 {
    } else if !ItemLess(s[0], x) {
      var r := [x] + s;
      forall i, j | 0 <= i < j < |r| ensures !ItemLess(r[j], r[i]) {
        if i == 0 {
          if j > 1 {
            ItemLessEqTransitive(x, s[0], s[j - 1]);
          }
        }
      }
    } else {
      var t := Insert(x, s[1..]);
      InsertSorted(x, s[1..]);
      assert s == [s[0]] + s[1..];
      var r := [s[0]] + t;
      forall j | 0 < j < |r| ensures !ItemLess(r[j], s[0]) {
        assert r[j] in multiset(t);
        if r[j] != x {
          assert r[j] in multiset(s[1..]);
          var k :| 0 <= k < |s[1..]| && s[1..][k] == r[j];
          assert s[k + 1] == r[j];
        }
      }
    }
  }

  /** std::sort of the items; being a sort, the result is a sorted permutation. */
  function Sort(s: seq<Item>): (r: seq<Item>)
    ensures multiset(r) == multiset(s)
  {
    if |s| == 0 then []
    else
      assert s == [s[0]] + s[1..];
      Insert(s[0], Sort(s[1..]))
  }

  lemma {:induction false} SortSorted(s: seq<Item>)
    ensures Sorted(Sort(s))
  {
    if |s| > 0 {
      SortSorted(s[1..]);
      InsertSorted(s[0], Sort(s[1..]));
    }
  }

  /** The value of a child: the provenance of each child part and the child's part sizes. */
  datatype Child = Child(provenances: seq<PartProvenance>, outputParts: seq<nat>)

  /** Generator::get without the interning: the items of the current weighing, sorted, then split
      into the part sizes and their provenances. */
  function Get(g: Generator): (c: Child)
    requires Placeable(g.input, g.left, g.right)
    ensures |c.outputParts| == |c.provenances|
  {
    var items := Sort(Items(g.input, g.left, g.right));
    Child(Provs(items), Sizes(items))
  }

  lemma SizesCons(x: Item, s: seq<Item>)
    ensures Sum(Sizes([x] + s)) == x.size + Sum(Sizes(s))
  {
    assert Sizes([x] + s) == [x.size] + Sizes(s);
    SumCons(x.size, Sizes(s));
  }

  lemma {:induction false} InsertSum(x: Item, s: seq<Item>)
    ensures Sum(Sizes(Insert(x, s))) == x.size + Sum(Sizes(s))
  {
    if |s| == 0 {
      SizesCons(x, s);
      assert [x] + s == [x];
    } else if !ItemLess(s[0], x) {
      SizesCons(x, s);
    } else {
      InsertSum(x, s[1..]);
      SizesCons(s[0], Insert(x, s[1..]));
      SizesTail(s);
    }
  }

  lemma SizesTail(s: seq<Item>)
    requires |s| > 0
    ensures Sum(Sizes(s)) == s[0].size + Sum(Sizes(s[1..]))
  {
    assert s == [s[0]] + s[1..];
    SizesCons(s[0], s[1..]);
  }

  /** Sorting keeps the total of the sizes. */
  lemma {:induction false} SortSum(s: seq<Item>)
    ensures Sum(Sizes(Sort(s))) == Sum(Sizes(s))
  {
    if |s| > 0 {
      SortSum(s[1..]);
      InsertSum(s[0], Sort(s[1..]));
      SizesTail(s);
    }
  }

  /** Index k of the sizes and of the provenances describe the same item of the weighing: one of
      its parts, in one pan or set aside, with the number of coins the weighing put there. */
  lemma GetSameItem(g: Generator, k: nat)
    requires Placeable(g.input, g.left, g.right) && k < |Get(g).outputParts|
    ensures var c := Get(g);
            var it := Item(c.provenances[k].part, c.provenances[k].placement, c.outputParts[k]);
            && it in Items(g.input, g.left, g.right)
            && it.part < |g.input|
            && it.size == PlacedCount(g.input, g.left, g.right, it.part, it.placement)
            && it.size > 0
  {
    var items := Sort(Items(g.input, g.left, g.right));
    assert items[k] in multiset(items);
  }

  /** The child holds as many coins as the input. */
  lemma GetCoinCount(g: Generator)
    requires Placeable(g.input, g.left, g.right)
    ensures Sum(Get(g).outputParts) == Sum(g.input)
  {
    SortSum(Items(g.input, g.left, g.right));
    ItemsSum(g.input, g.left, g.right);
  }

  /** The child's parts are in non-decreasing order. */
  lemma GetNonDecreasing(g: Generator)
    requires Placeable(g.input, g.left, g.right)
    ensures forall i, j :: 0 <= i < j < |Get(g).outputParts| ==> Get(g).outputParts[i] <= Get(g).outputParts[j]
  {
    SortSorted(Items(g.input, g.left, g.right));
  }

  /** The child of a valid partition is a valid partition. */
  lemma GetValid(g: Generator)
    requires Placeable(g.input, g.left, g.right) && Valid(Partition2(g.input))
    ensures Valid(Partition2(Get(g).outputParts))
  {
    GetCoinCount(g);
    GetNonDecreasing(g);
    forall k | 0 <= k < |Get(g).outputParts| ensures Get(g).outputParts[k] > 0 {
      GetSameItem(g, k);
    }
  }

  /** Generator::get: the child with its weighing and partition switched to their cached instances. */
  function GetInterned(weighings: Intern.Cache<Weighing2.Weighing2>, partitions: Intern.Cache<Partition2>, g: Generator)
    : (r: (Intern.Cache<Weighing2.Weighing2>, Intern.Cache<Partition2>, nat, nat))
    requires Placeable(g.input, g.left, g.right)
    ensures Intern.IsHandle(r.0, r.2) && r.0.values[r.2] == Weighing2.Weighing2(Get(g).provenances)
    ensures Intern.IsHandle(r.1, r.3) && r.1.values[r.3] == Partition2(Get(g).outputParts)
    ensures Intern.Valid(weighings) ==> Intern.Valid(r.0)
    ensures Intern.Valid(partitions) ==> Intern.Valid(r.1)
  {
    var c := Get(g);
    var (w', wh) := Weighing2.GetInstance(weighings, c.provenances);
    var (p', ph) := GetInstance(partitions, c.outputParts);
    (w', p', wh, ph)
  }
}
