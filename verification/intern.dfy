/** Value-keyed interning, the pattern shared by Partition2::get_instance (Balance2/Partition2.cpp),
    Weighing2::get_instance (Balance2/Weighing2.cpp) and the partition map of Balance/PartitionCache.cpp.

    The C++ caches are std::set / std::map keyed by the pointed-to value and own one heap instance per
    distinct value; callers keep raw pointers. Here a cache is the sequence of its instances in insertion
    order and a handle (the pointer) is a position in it. Nothing is ever removed, so a handle stays valid
    and keeps meaning the same value. */
module Intern {

  datatype Cache<T> = Cache(values: seq<T>)

  /** The empty cache a program starts with. */
  function Empty<T>(): (c: Cache<T>)
    ensures |c.values| == 0
  {
    Cache([])
  }

  /** h names an instance of c. */
  predicate IsHandle<T>(c: Cache<T>, h: nat) {
    h < |c.values|
  }

  /** The cache holds each value once: what keying a set by value guarantees. */
  predicate Valid<T(==)>(c: Cache<T>) {
    forall i, j :: 0 <= i < j < |c.values| ==> c.values[i] != c.values[j]
  }

  /** Position of v in values, or |values| when absent (cache.find, end() on a miss). */
  function Find<T(==)>(values: seq<T>, v: T): (i: nat)
    ensures i <= |values|
    ensures i < |values| ==> values[i] == v
    ensures i == |values| <==> v !in values
  {
    if |values| == 0 then 0
    else if values[0] == v then 0
    else 1 + Find(values[1..], v)
  }

  /** get_instance: the handle of the instance equal to v, creating it when there is none. */
  function GetInstance<T(==)>(c: Cache<T>, v: T): (r: (Cache<T>, nat))
    ensures IsHandle(r.0, r.1) && r.0.values[r.1] == v
    ensures v in c.values ==> r.0 == c
    ensures v !in c.values ==> r.0.values == c.values + [v] && r.1 == |c.values|
    ensures Valid(c) ==> Valid(r.0)
  {
    var i := Find(c.values, v);
    if i < |c.values| then (c, i) else (Cache(c.values + [v]), |c.values|)
  }

  /** Find on a valid cache returns the only position holding v. */
  lemma FindUnique<T>(values: seq<T>, v: T, h: nat)
    requires Valid(Cache(values))
    requires h < |values| && values[h] == v
    ensures Find(values, v) == h
  {
  }

  /** Interning the same value again returns the same handle and leaves the cache as it is. */
  lemma GetInstanceIdempotent<T>(c: Cache<T>, v: T)
    requires Valid(c)
    ensures GetInstance(GetInstance(c, v).0, v) == GetInstance(c, v)
  {
    var (c', h) := GetInstance(c, v);
    FindUnique(c'.values, v, h);
  }

  /** Interning never moves or changes an existing instance: old handles keep their values. */
  lemma GetInstanceKeepsHandles<T>(c: Cache<T>, v: T, h: nat)
    requires IsHandle(c, h)
    ensures IsHandle(GetInstance(c, v).0, h)
    ensures GetInstance(c, v).0.values[h] == c.values[h]
  {
  }

  /** In a valid cache two handles are equal exactly when their values are equal, so comparing
      pointers compares values. */
  lemma HandleEqIffValueEq<T>(c: Cache<T>, h1: nat, h2: nat)
    requires Valid(c) && IsHandle(c, h1) && IsHandle(c, h2)
    ensures h1 == h2 <==> c.values[h1] == c.values[h2]
  {
    if h1 < h2 {
      assert c.values[h1] != c.values[h2];
    } else if h2 < h1 {
      assert c.values[h2] != c.values[h1];
    }
  }

  /** Interning two values yields the same handle exactly when the values are equal. */
  lemma SameHandleIffSameValue<T>(c: Cache<T>, v: T, w: T)
    requires Valid(c)
    ensures var (c1, h1) := GetInstance(c, v);
            var (c2, h2) := GetInstance(c1, w);
            h1 == h2 <==> v == w
  {
    var (c1, h1) := GetInstance(c, v);
    var (c2, h2) := GetInstance(c1, w);
    GetInstanceKeepsHandles(c1, w, h1);
    HandleEqIffValueEq(c2, h1, h2);
  }
}
