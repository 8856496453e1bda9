/** Weighing2 of Balance2/Weighing2.hpp: a weighing recorded as the provenance of each output part,
    interned by value in a static cache (Weighing2::get_instance, Balance2/Weighing2.cpp). */
module Weighing2 {
  import opened Lex
  import opened Provenance
  import Intern

  datatype Weighing2 = Weighing2(provenances: seq<PartProvenance>)

  /** The defaulted operator<=> of Weighing2::Part: by input part, then by placement. */
  predicate PartLess(a: PartProvenance, b: PartProvenance) {
    a.part < b.part || (a.part == b.part && Rank(a.placement) < Rank(b.placement))
  }

  /** The defaulted operator<=> of Weighing2: lexicographic over the provenance vector. */
  predicate Less(a: Weighing2, b: Weighing2) {
    Lex.Less(a.provenances, b.provenances, PartLess)
  }

  lemma PartLessStrictTotal()
    ensures StrictTotal(PartLess)
  {
    forall x: PartProvenance, y: PartProvenance | Rank(x.placement) == Rank(y.placement)
      ensures x.placement == y.placement
    {
    }
  }

  /** The cache is a set ordered by Less, and Less is a strict total order in which two weighings
      are equivalent only when equal: a lookup by order is a lookup by value. */
  lemma LessStrictTotal(a: Weighing2, b: Weighing2, c: Weighing2)
    ensures !Less(a, a)
    ensures Less(a, b) && Less(b, c) ==> Less(a, c)
    ensures a == b || Less(a, b) || Less(b, a)
  {
    PartLessStrictTotal();
    LessIrreflexive(a.provenances, PartLess);
    if Less(a, b) && Less(b, c) {
      LessTransitive(a.provenances, b.provenances, c.provenances, PartLess);
    }
    LessTrichotomy(a.provenances, b.provenances, PartLess);
  }

  /** Weighing2::get_instance: the cached weighing with these provenances, inserted on a miss. */
  function GetInstance(cache: Intern.Cache<Weighing2>, provenances: seq<PartProvenance>): (r: (Intern.Cache<Weighing2>, nat))
    ensures Intern.IsHandle(r.0, r.1) && r.0.values[r.1] == Weighing2(provenances)
    ensures Weighing2(provenances) in cache.values ==> r.0 == cache
    ensures Weighing2(provenances) !in cache.values ==> r.0.values == cache.values + [Weighing2(provenances)]
    ensures Intern.Valid(cache) ==> Intern.Valid(r.0)
  {
    Intern.GetInstance(cache, Weighing2(provenances))
  }
}
