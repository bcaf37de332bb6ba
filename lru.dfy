/**
 * The behaviour `src/main.rs` relies on from the `lru` crate's `LruCache`,
 * stated on values: the entries, and their keys ordered from least to most
 * recently used. `contains` reads the entries only; `put` and `get` make the
 * key the most recently used; `put` of a new key into a full cache first
 * drops the least recently used entry.
 */
module Lru {
  import opened Wrappers

  datatype LruCache<K(==, !new), V> = LruCache(cap: nat, entries: map<K, V>, order: seq<K>)

  predicate Distinct<K(==, !new)>(s: seq<K>) {
    forall i, j :: 0 <= i < j < |s| ==> s[i] != s[j]
  }

  /** order lists each key of entries exactly once, and there are at most cap of them. */
  ghost predicate Valid<K(!new), V>(c: LruCache<K, V>) {
    && 0 < c.cap
    && Distinct(c.order)
    && |c.order| <= c.cap
    && (forall k :: k in c.entries <==> k in c.order)
  }

  /** `LruCache::new(cap)`. */
  function New<K(==, !new), V>(cap: nat): (c: LruCache<K, V>)
    requires 0 < cap
    ensures Valid(c) && c.cap == cap && c.entries == map[] && c.order == []
  {
    LruCache(cap, map[], [])
  }

  /** s without k, the other keys in their order. */
  function Without<K(==, !new)>(s: seq<K>, k: K): (r: seq<K>)
    ensures forall x :: x in r <==> x in s && x != k
    ensures |r| <= |s|
    ensures Distinct(s) ==> Distinct(r)
    ensures k !in s ==> r == s
  {
    if s == [] then []
    else if s[0] == k then Without(s[1..], k)
    else
      var rest := Without(s[1..], k);
      assert Distinct(s) ==> s[0] !in s[1..] && Distinct(s[1..]);
      DistinctCons(s[0], rest);
      [s[0]] + rest
  }

  lemma DistinctCons<K(!new)>(x: K, s: seq<K>)
    ensures x !in s && Distinct(s) ==> Distinct([x] + s)
  {
  }

  lemma {:induction false} WithoutAppend<K(!new)>(s: seq<K>, k: K)
    ensures Without(s + [k], k) == Without(s, k)
  {
    if s != [] {
      assert (s + [k])[1..] == s[1..] + [k];
      WithoutAppend(s[1..], k);
    } else {
      assert Without([k], k) == Without([], k);
    }
  }

  /** A distinct list without one of its keys is one shorter. */
  lemma {:induction false} WithoutLength<K(!new)>(s: seq<K>, k: K)
    requires Distinct(s) && k in s
    ensures |Without(s, k)| == |s| - 1
  {
    if s[0] != k {
      WithoutLength(s[1..], k);
    }
  }

  /** The number of entries is the length of the recency order, so at most cap. */
  lemma {:induction false} EntriesBound<K(!new), V>(c: LruCache<K, V>)
    requires Valid(c)
    ensures |c.entries| == |c.order| <= c.cap
  {
    DistinctCard(c.order);
    assert c.entries.Keys == set x | x in c.order;
  }

  lemma {:induction false} DistinctCard<K(!new)>(s: seq<K>)
    requires Distinct(s)
    ensures |set x | x in s| == |s|
  {
    if s != [] {
      DistinctCard(s[1..]);
      assert (set x | x in s) == (set x | x in s[1..]) + {s[0]};
    }
  }

  /**
   * `LruCache::put`: k maps to v and becomes the most recently used key.
   * A present key keeps its place among the others; a new key is appended,
   * after dropping the least recently used key when the cache is full.
   */
  function Put<K(==, !new), V>(c: LruCache<K, V>, k: K, v: V): (r: LruCache<K, V>)
    requires Valid(c)
    ensures Valid(r) && r.cap == c.cap
    ensures k in r.entries && r.entries[k] == v
    ensures forall x :: x in r.entries && x != k ==> x in c.entries && r.entries[x] == c.entries[x]
    ensures k in c.entries ==> r.order == Without(c.order, k) + [k]
    ensures k !in c.entries && |c.order| < c.cap ==> r.order == c.order + [k]
    ensures k !in c.entries && |c.order| == c.cap ==> r.order == c.order[1..] + [k]
  {
    if k in c.entries then
      WithoutLength(c.order, k);
      LruCache(c.cap, c.entries[k := v], Without(c.order, k) + [k])
    else if |c.order| == c.cap then
      var lru := c.order[0];
      LruCache(c.cap, (c.entries - {lru})[k := v], c.order[1..] + [k])
    else
      LruCache(c.cap, c.entries[k := v], c.order + [k])
  }

  /**
   * `LruCache::get`: the value under k, if any; a present k becomes the
   * most recently used key and the other keys keep their order.
   */
  function Get<K(==, !new), V>(c: LruCache<K, V>, k: K): (r: (Option<V>, LruCache<K, V>))
    requires Valid(c)
    ensures Valid(r.1) && r.1.cap == c.cap && r.1.entries == c.entries
    ensures k in c.entries ==> r.0 == Some(c.entries[k]) && r.1.order == Without(c.order, k) + [k]
    ensures k !in c.entries ==> r.0 == None && r.1 == c
  {
    if k in c.entries then
      WithoutLength(c.order, k);
      (Some(c.entries[k]), LruCache(c.cap, c.entries, Without(c.order, k) + [k]))
    else (None, c)
  }

  /** `get` moves only its key: the order of the other keys stays as it was. */
  lemma GetKeepsOthersOrder<K(!new), V>(c: LruCache<K, V>, k: K)
    requires Valid(c)
    ensures Without(Get(c, k).1.order, k) == Without(c.order, k)
  {
    if k in c.entries {
      WithoutAppend(Without(c.order, k), k);
    }
  }
}
