/** PartitionCache of Balance/PartitionCache.cpp: the owner of every partition, weighing and
    provenance met while solving, with the weighings of a partition and the child partition of each
    computed once and kept.

    Each std::map / std::set keyed by value is an Intern cache, and a pointer is a handle into it.
    The map from partitions to their Item is the partition cache plus `items`, the Item of each
    partition handle. Item lists handles, as the C++ Item lists pointers. */
module PartitionCache {
  import opened Sums
  import opened Pans
  import Provenance
  import Intern
  import Partition
  import Enumerator

  datatype Option<T> = None | Some(value: T)

  /** Item: the weighings of a partition, and for each the provenance and the child partition;
      all three empty until computed. */
  datatype Item = Item(weighings: seq<nat>, provenances: seq<nat>, partitions: seq<nat>)

  const EmptyItem: Item := Item([], [], [])

  datatype State = State(
    partitions: Intern.Cache<seq<nat>>,
    items: seq<Item>,
    roots: map<nat, nat>,
    weighings: Intern.Cache<Weighing>,
    provenances: Intern.Cache<seq<Provenance.PartProvenance>>)

  /** The cache a solver starts with. */
  function Empty(): (s: State)
    ensures Valid(s)
  {
    State(Intern.Empty(), [], map[], Intern.Empty(), Intern.Empty())
  }

  /** The lists of an item run in parallel, and hold handles of s. */
  predicate ItemValid(s: State, it: Item) {
    && |it.weighings| == |it.provenances| == |it.partitions|
    && (forall k :: 0 <= k < |it.weighings| ==> it.weighings[k] < |s.weighings.values|)
    && (forall k :: 0 <= k < |it.provenances| ==> it.provenances[k] < |s.provenances.values|)
    && (forall k :: 0 <= k < |it.partitions| ==> it.partitions[k] < |s.partitions.values|)
  }

  /** What the containers of the class guarantee: one instance per value, an Item per partition,
      and each root entry of c naming the one-part partition [c]. */
  predicate Valid(s: State) {
    && Intern.Valid(s.partitions) && Intern.Valid(s.weighings) && Intern.Valid(s.provenances)
    && |s.items| == |s.partitions.values|
    && (forall c :: c in s.roots ==> s.roots[c] < |s.partitions.values| && s.partitions.values[s.roots[c]] == [c])
    && (forall h :: 0 <= h < |s.items| ==> ItemValid(s, s.items[h]))
  }

  /** s' only adds to s: every cache keeps its instances at their handles. */
  predicate Grows(s: State, s': State) {
    && s.partitions.values <= s'.partitions.values
    && s.weighings.values <= s'.weighings.values
    && s.provenances.values <= s'.provenances.values
    && |s.items| <= |s'.items|
  }

  lemma ItemValidGrows(s: State, s': State, it: Item)
    requires ItemValid(s, it) && Grows(s, s')
    ensures ItemValid(s', it)
  {
  }

  // ---------------------------------------------------------------------------------------------
  // get_root

  /** try_emplace / emplace of a partition with an empty Item: an existing entry and its Item stay. */
  function AddPartition(s: State, parts: seq<nat>): (r: (State, nat))
    requires Valid(s)
    ensures Valid(r.0) && Grows(s, r.0) && r.0.roots == s.roots
    ensures r.1 < |r.0.partitions.values| && r.0.partitions.values[r.1] == parts
    ensures parts in s.partitions.values ==> r.0 == s
    ensures parts !in s.partitions.values ==> r.0.items == s.items + [EmptyItem]
  {
    var (c', h) := Intern.GetInstance(s.partitions, parts);
    if c' == s.partitions then (s, h)
    else
      var s' := s.(partitions := c', items := s.items + [EmptyItem]);
      assert forall h :: 0 <= h < |s.items| ==> s'.items[h] == s.items[h];
      assert forall h :: 0 <= h < |s.items| ==> ItemValid(s', s.items[h]);
      (s', h)
  }

  /** get_root(coin_count): the partition of coin_count coins in one part, made and stored with an
      empty Item on the first call for that count. */
  function GetRoot(s: State, coinCount: nat): (r: (State, nat))
    requires Valid(s) && coinCount <= MaxCoins
    ensures Valid(r.0) && Grows(s, r.0)
    ensures r.1 < |r.0.partitions.values| && r.0.partitions.values[r.1] == [coinCount]
    ensures coinCount in r.0.roots && r.0.roots[coinCount] == r.1
    ensures coinCount in s.roots ==> r.0 == s
    ensures [coinCount] !in s.partitions.values ==> r.0.items[r.1] == EmptyItem
  {
    if coinCount in s.roots then (s, s.roots[coinCount])
    else
      var (s', h) := AddPartition(s, [coinCount]);
      (s'.(roots := s'.roots[coinCount := h]), h)
  }

  /** get_root returns the same handle every time it is asked for the same coin count. */
  lemma GetRootStable(s: State, coinCount: nat)
    requires Valid(s) && coinCount <= MaxCoins
    ensures GetRoot(GetRoot(s, coinCount).0, coinCount) == GetRoot(s, coinCount)
  {
  }

  // ---------------------------------------------------------------------------------------------
  // get_weighings

  /** Lines 39-51 as written: a hit returns the cached instance, but a miss copies the weighing
      *weighing_entry points at, and weighing_entry is end() there; None marks that undefined read. */
  function LookupWeighingAsWritten(cache: Intern.Cache<Weighing>, w: Weighing): (r: Option<(Intern.Cache<Weighing>, nat)>)
    ensures r.None? <==> w !in cache.values
    ensures r.Some? ==> r.value.0 == cache && r.value.1 < |cache.values| && cache.values[r.value.1] == w
  {
    var i := Intern.Find(cache.values, w);
    if i < |cache.values| then Some((cache, i)) else None
  }

  /** The first call of get_weighings on a new cache reaches the undefined read with the very first
      weighing of the partition. */
  lemma AsWrittenFirstLookupFails(p: seq<nat>)
    requires IsPartition(p) && Sum(p) >= 2
    ensures LookupWeighingAsWritten(Empty().weighings, Enumerator.Start(p)).None?
  {
  }

  /** The evident intent of lines 39-51: the handle of the cached weighing equal to w, a copy of w
      being cached on a miss. */
  function InternWeighing(cache: Intern.Cache<Weighing>, w: Weighing): (r: (Intern.Cache<Weighing>, nat))
    ensures r.1 < |r.0.values| && r.0.values[r.1] == w
    ensures w in cache.values ==> r.0 == cache
    ensures cache.values <= r.0.values
    ensures Intern.Valid(cache) ==> Intern.Valid(r.0)
  {
    Intern.GetInstance(cache, w)
  }

  /** One pass of the loop of get_weighings for weighing w of partition p: the handles of the
      cached weighing, of the cached provenance and of the child partition, each cached if new. */
  function Step(s: State, p: seq<nat>, w: Weighing, provenance: seq<Provenance.PartProvenance>): (r: (State, nat, nat, nat))
    requires Valid(s)
    requires |w.left| == |p| && |w.right| == |p| && Partition.InRange(provenance, |p|)
    ensures Valid(r.0) && Grows(s, r.0) && r.0.roots == s.roots
    ensures r.1 < |r.0.weighings.values| && r.0.weighings.values[r.1] == w
    ensures r.2 < |r.0.provenances.values| && r.0.provenances.values[r.2] == provenance
    ensures r.3 < |r.0.partitions.values| && r.0.partitions.values[r.3] == Partition.Derive(provenance, w, p)
    ensures forall h :: 0 <= h < |s.items| ==> r.0.items[h] == s.items[h]
  {
    var (wc, wh) := InternWeighing(s.weighings, w);
    var (pc, ph) := Intern.GetInstance(s.provenances, provenance);
    var s1 := s.(weighings := wc, provenances := pc);
    assert forall h :: 0 <= h < |s1.items| ==> ItemValid(s1, s1.items[h]) by {
      forall h | 0 <= h < |s1.items| ensures ItemValid(s1, s1.items[h]) {
        ItemValidGrows(s, s1, s.items[h]);
      }
    }
    var (s2, ch) := AddPartition(s1, Partition.Derive(provenance, w, p));
    (s2, wh, ph, ch)
  }

  /** it records, in s, the first n weighings of ws with their provenances and child partitions. */
  predicate Recorded(s: State, it: Item, p: seq<nat>, ws: seq<Weighing>,
                     provenanceOf: Weighing -> seq<Provenance.PartProvenance>, n: nat)
    requires forall k :: 0 <= k < |ws| ==> |ws[k].left| == |p| && |ws[k].right| == |p|
    requires forall w: Weighing :: Partition.InRange(provenanceOf(w), |p|)
  {
    && n <= |ws| && ItemValid(s, it) && |it.weighings| == n
    && forall k :: 0 <= k < n ==>
         && s.weighings.values[it.weighings[k]] == ws[k]
         && s.provenances.values[it.provenances[k]] == provenanceOf(ws[k])
         && s.partitions.values[it.partitions[k]] == Partition.Derive(provenanceOf(ws[k]), ws[k], p)
  }

  /** One pass of the loop records one more weighing. */
  lemma RecordedStep(s: State, it: Item, p: seq<nat>, ws: seq<Weighing>,
                     provenanceOf: Weighing -> seq<Provenance.PartProvenance>, n: nat)
    requires Valid(s) && n < |ws|
    requires forall k :: 0 <= k < |ws| ==> |ws[k].left| == |p| && |ws[k].right| == |p|
    requires forall w: Weighing :: Partition.InRange(provenanceOf(w), |p|)
    requires Recorded(s, it, p, ws, provenanceOf, n)
    ensures var r := Step(s, p, ws[n], provenanceOf(ws[n]));
            Recorded(r.0, Item(it.weighings + [r.1], it.provenances + [r.2], it.partitions + [r.3]), p, ws, provenanceOf, n + 1)
  {
    var r := Step(s, p, ws[n], provenanceOf(ws[n]));
    RecordedExtend(s, r.0, it, p, ws, provenanceOf, n, r.1, r.2, r.3);
  }

  lemma RecordedExtend(s: State, s': State, it: Item, p: seq<nat>, ws: seq<Weighing>,
                       provenanceOf: Weighing -> seq<Provenance.PartProvenance>, n: nat, wh: nat, ph: nat, ch: nat)
    requires n < |ws|
    requires forall k :: 0 <= k < |ws| ==> |ws[k].left| == |p| && |ws[k].right| == |p|
    requires forall w: Weighing :: Partition.InRange(provenanceOf(w), |p|)
    requires Recorded(s, it, p, ws, provenanceOf, n) && Grows(s, s')
    requires wh < |s'.weighings.values| && s'.weighings.values[wh] == ws[n]
    requires ph < |s'.provenances.values| && s'.provenances.values[ph] == provenanceOf(ws[n])
    requires ch < |s'.partitions.values| && s'.partitions.values[ch] == Partition.Derive(provenanceOf(ws[n]), ws[n], p)
    ensures Recorded(s', Item(it.weighings + [wh], it.provenances + [ph], it.partitions + [ch]), p, ws, provenanceOf, n + 1)
  {
    var it' := Item(it.weighings + [wh], it.provenances + [ph], it.partitions + [ch]);
    ItemValidGrows(s, s', it);
    forall k | 0 <= k < n + 1
      ensures && s'.weighings.values[it'.weighings[k]] == ws[k]
              && s'.provenances.values[it'.provenances[k]] == provenanceOf(ws[k])
              && s'.partitions.values[it'.partitions[k]] == Partition.Derive(provenanceOf(ws[k]), ws[k], p)
    {
      if k < n {
        assert it'.weighings[k] == it.weighings[k] && it'.provenances[k] == it.provenances[k];
        assert it'.partitions[k] == it.partitions[k];
      }
    }
  }

  /** The loop of get_weighings over the weighings ws of p, building the item it. */
  method Collect(s: State, p: seq<nat>, ws: seq<Weighing>, provenanceOf: Weighing -> seq<Provenance.PartProvenance>)
    returns (s': State, it: Item)
    requires Valid(s)
    requires forall k :: 0 <= k < |ws| ==> |ws[k].left| == |p| && |ws[k].right| == |p|
    requires forall w: Weighing :: Partition.InRange(provenanceOf(w), |p|)
    ensures Valid(s') && Grows(s, s') && s'.roots == s.roots
    ensures Recorded(s', it, p, ws, provenanceOf, |ws|)
    ensures forall g :: 0 <= g < |s.items| ==> s'.items[g] == s.items[g]
  {
    s' := s;
    it := EmptyItem;
    var i := 0;
    while i < |ws|
      invariant 0 <= i <= |ws|
      invariant Valid(s') && Grows(s, s') && s'.roots == s.roots
      invariant Recorded(s', it, p, ws, provenanceOf, i)
      invariant forall g :: 0 <= g < |s.items| ==> s'.items[g] == s.items[g]
    {
      RecordedStep(s', it, p, ws, provenanceOf, i);
      var r := Step(s', p, ws[i], provenanceOf(ws[i]));
      s', it := r.0, Item(it.weighings + [r.1], it.provenances + [r.2], it.partitions + [r.3]);
      i := i + 1;
    }
  }

  /** Storing a valid item for a partition keeps the state valid. */
  lemma SetItemValid(s: State, h: nat, it: Item)
    requires Valid(s) && h < |s.items| && ItemValid(s, it)
    ensures Valid(s.(items := s.items[h := it]))
  {
    var s' := s.(items := s.items[h := it]);
    forall g | 0 <= g < |s'.items| ensures ItemValid(s', s'.items[g]) {
      if g != h {
        assert ItemValid(s, s.items[g]);
      }
    }
  }

  /** get_weighings(partition) for partition handle h: its Item, the lists filled on the first call
      with every weighing of the partition in the enumerator's order, the provenance of each and
      the child partition each leads to. compute_provenance is not part of this model: it comes in
      as provenanceOf. */
  method GetWeighings(s: State, h: nat, provenanceOf: Weighing -> seq<Provenance.PartProvenance>) returns (s': State, item: Item)
    requires Valid(s) && h < |s.partitions.values|
    requires IsPartition(s.partitions.values[h]) && Sum(s.partitions.values[h]) >= 2
    requires forall w: Weighing :: Partition.InRange(provenanceOf(w), |s.partitions.values[h]|)
    ensures Valid(s') && Grows(s, s') && s'.roots == s.roots
    ensures item == s'.items[h] && |item.weighings| > 0
    ensures s.items[h].weighings != [] ==> s' == s
    ensures forall g :: 0 <= g < |s.items| && g != h ==> s'.items[g] == s.items[g]
    ensures s.items[h].weighings == [] ==>
              var p := s.partitions.values[h];
              && (forall k :: 0 <= k < |item.weighings| ==>
                    var w := s'.weighings.values[item.weighings[k]];
                    && IsWeighing(p, w)
                    && s'.provenances.values[item.provenances[k]] == provenanceOf(w)
                    && s'.partitions.values[item.partitions[k]] == Partition.Derive(provenanceOf(w), w, p))
              && (forall v :: IsWeighing(p, v) ==>
                    exists k :: 0 <= k < |item.weighings| && s'.weighings.values[item.weighings[k]] == v)
              && (forall i, j :: 0 <= i < j < |item.weighings| ==>
                    Precedes(s'.weighings.values[item.weighings[i]], s'.weighings.values[item.weighings[j]]))
  {
    var p := s.partitions.values[h];
    if s.items[h].weighings != [] {
      return s, s.items[h];
    }
    var ws := Enumerator.Enumerate(p);
    var it;
    s', it := Collect(s, p, ws, provenanceOf);
    SetItemValid(s', h, it);
    assert |it.weighings| == |ws|;
    s' := s'.(items := s'.items[h := it]);
    item := it;
  }
}
