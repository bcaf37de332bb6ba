/**
 * `PageCache` of `src/main.rs`: an LRU cache of at most 256 decoded pages
 * keyed by `PageKey`. `get` loads a page only when its key is absent, then
 * reads it through the LRU so that it becomes the most recently used.
 */
module Caching {
  import opened Wrappers
  import opened Lru
  import PageCodec
  import ProtoPage

  /** `(collection id, page id)`. */
  type PageKey = (PageCodec.Uuid, PageCodec.Uuid)

  type Pages = LruCache<PageKey, ProtoPage.Page>

  /** `PageCache::SIZE`. */
  const Size: nat := 256

  /**
   * `PageCache::get` on the LRU's state, where `loaded` is the page a miss
   * loads: the result is the page stored under key, key is the most recently
   * used key afterwards, and a miss returns `loaded`.
   */
  function Fetch(c: Pages, key: PageKey, loaded: ProtoPage.Page): (r: (Pages, ProtoPage.Page))
    requires Valid(c)
    ensures Valid(r.0) && r.0.cap == c.cap
    ensures key in r.0.entries && r.1 == r.0.entries[key]
    ensures |r.0.order| > 0 && r.0.order[|r.0.order| - 1] == key
    ensures key in c.entries ==> r.1 == c.entries[key]
    ensures key !in c.entries ==> r.1 == loaded
  {
    var stored := if key in c.entries then c else Put(c, key, loaded);
    (Get(stored, key).1, Get(stored, key).0.value)
  }

  /** A hit loads nothing and changes no entry; it only moves key to the most recently used end. */
  lemma FetchHit(c: Pages, key: PageKey, loaded: ProtoPage.Page)
    requires Valid(c) && key in c.entries
    ensures Fetch(c, key, loaded).0 == LruCache(c.cap, c.entries, Without(c.order, key) + [key])
  {
  }

  /**
   * A miss stores `loaded` under key as the most recently used entry; when
   * the cache is full it first drops the least recently used entry, and only
   * that one.
   */
  lemma FetchMiss(c: Pages, key: PageKey, loaded: ProtoPage.Page)
    requires Valid(c) && key !in c.entries
    ensures |c.order| < c.cap ==>
              Fetch(c, key, loaded).0 == LruCache(c.cap, c.entries[key := loaded], c.order + [key])
    ensures |c.order| == c.cap ==>
              Fetch(c, key, loaded).0 == LruCache(c.cap, (c.entries - {c.order[0]})[key := loaded], c.order[1..] + [key])
  {
    var stored := Put(c, key, loaded);
    var init := stored.order[..|stored.order| - 1];
    assert key !in init;
    assert stored.order == init + [key];
    WithoutAppend(init, key);
  }

  /** The recency order after a miss: the new key is appended, after the least recently used key when full. */
  lemma FetchMissOrder(c: Pages, key: PageKey, loaded: ProtoPage.Page)
    requires Valid(c) && key !in c.entries
    ensures Fetch(c, key, loaded).0.order == (if |c.order| < c.cap then c.order else c.order[1..]) + [key]
  {
    FetchMiss(c, key, loaded);
  }

  class PageCache {
    var pages: Pages
    /** Every key `get` was called with, in order. */
    ghost var history: seq<PageKey>
    /** How many times `get` loaded a page from its file. */
    ghost var loads: nat

    ghost predicate Valid()
      reads this
    {
      Lru.Valid(pages) && pages.cap == Size
    }

    /** `PageCache::new`: an empty cache of capacity `SIZE`. */
    constructor ()
      ensures Valid() && pages.entries == map[] && history == [] && loads == 0
    {
      pages := New(Size);
      history := [];
      loads := 0;
    }

    /**
     * `PageCache::get`; `load` stands for `PageMeta::load`, the file read
     * that builds a page's data from its meta.
     */
    method Get(key: PageKey, meta: PageCodec.PageMeta, load: PageCodec.PageMeta -> ProtoPage.PageData)
      returns (page: ProtoPage.Page)
      requires Valid()
      modifies this
      ensures Valid()
      ensures (pages, page) == Fetch(old(pages), key, ProtoPage.NewPage(meta, load(meta)))
      ensures |pages.entries| <= Size
      ensures key !in old(pages.entries) ==> page.meta == meta && page.data == load(meta)
      ensures loads == if key in old(pages.entries) then old(loads) else old(loads) + 1
      ensures history == old(history) + [key]
    {
      ghost var before := pages;
      if key !in pages.entries {
        var data := load(meta);
        loads := loads + 1;
        pages := Put(pages, key, ProtoPage.NewPage(meta, data));
      }
      var (found, touched) := Lru.Get(pages, key);
      pages := touched;
      page := found.value;
      history := history + [key];
      EntriesBound(pages);
    }
  }

  // ----- Sequences of accesses -----

  /** The LRU state after `get` of each key in turn, where `load` gives the page each key loads. */
  function FetchAll(c: Pages, keys: seq<PageKey>, load: PageKey -> ProtoPage.Page): (r: Pages)
    requires Valid(c)
    ensures Valid(r) && r.cap == c.cap
  {
    if keys == [] then c
    else
      var last := keys[|keys| - 1];
      Fetch(FetchAll(c, keys[..|keys| - 1], load), last, load(last)).0
  }

  /** The prefix and the last key of a sequence of distinct keys. */
  lemma DistinctSplit(keys: seq<PageKey>)
    requires keys != [] && Distinct(keys)
    ensures Distinct(keys[..|keys| - 1]) && keys[|keys| - 1] !in keys[..|keys| - 1]
  {
    var init := keys[..|keys| - 1];
    forall i, j | 0 <= i < j < |init|
      ensures init[i] != init[j]
    {
      assert init[i] == keys[i] && init[j] == keys[j];
    }
    forall i | 0 <= i < |init|
      ensures init[i] != keys[|keys| - 1]
    {
      assert init[i] == keys[i];
    }
  }

  /** One more step of `FetchAll`. */
  lemma FetchAllStep(c: Pages, keys: seq<PageKey>, load: PageKey -> ProtoPage.Page)
    requires Valid(c) && keys != []
    ensures FetchAll(c, keys, load)
         == Fetch(FetchAll(c, keys[..|keys| - 1], load), keys[|keys| - 1], load(keys[|keys| - 1])).0
  {
  }

  /** Up to capacity, distinct keys fetched into an empty cache are all kept, in access order. */
  lemma {:induction false} FetchDistinctKeeps(cap: nat, keys: seq<PageKey>, load: PageKey -> ProtoPage.Page)
    requires 0 < cap && |keys| <= cap && Distinct(keys)
    ensures FetchAll(New(cap), keys, load).order == keys
  {
    if keys != [] {
      var init, last := keys[..|keys| - 1], keys[|keys| - 1];
      DistinctSplit(keys);
      FetchDistinctKeeps(cap, init, load);
      var prev := FetchAll(New(cap), init, load);
      FetchAllStep(New(cap), keys, load);
      assert last !in prev.entries && |prev.order| < prev.cap;
      FetchMissOrder(prev, last, load(last));
      assert init + [last] == keys;
    }
  }

  lemma DropFirstOfInit(keys: seq<PageKey>)
    requires |keys| >= 2
    ensures keys[..|keys| - 1][1..] + [keys[|keys| - 1]] == keys[1..]
  {
  }

  /** Fetching a key absent from a full cache whose order is init leaves init[1..] and the key. */
  lemma FetchIntoFull(prev: Pages, init: seq<PageKey>, last: PageKey, loaded: ProtoPage.Page)
    requires Valid(prev) && prev.order == init && |init| == prev.cap && last !in init
    ensures Fetch(prev, last, loaded).0.order == init[1..] + [last]
  {
    FetchMissOrder(prev, last, loaded);
  }

  /** With capacity cap, fetching cap + 1 distinct keys into an empty cache leaves all but the first, in order. */
  lemma {:induction false} FetchOneTooManyOrder(cap: nat, keys: seq<PageKey>, load: PageKey -> ProtoPage.Page)
    requires 0 < cap && |keys| == cap + 1 && Distinct(keys)
    ensures FetchAll(New(cap), keys, load).order == keys[1..]
  {
    var init, last := keys[..|keys| - 1], keys[|keys| - 1];
    DistinctSplit(keys);
    FetchDistinctKeeps(cap, init, load);
    FetchAllStep(New(cap), keys, load);
    FetchIntoFull(FetchAll(New(cap), init, load), init, last, load(last));
    DropFirstOfInit(keys);
  }

  /**
   * With capacity cap, fetching cap + 1 distinct keys in order into an empty
   * cache drops the first key and keeps the other cap.
   */
  lemma FetchOneTooMany(cap: nat, keys: seq<PageKey>, load: PageKey -> ProtoPage.Page)
    requires 0 < cap && |keys| == cap + 1 && Distinct(keys)
    ensures keys[0] !in FetchAll(New(cap), keys, load).entries
    ensures forall i :: 1 <= i < |keys| ==> keys[i] in FetchAll(New(cap), keys, load).entries
  {
    FetchOneTooManyOrder(cap, keys, load);
    var r := FetchAll(New(cap), keys, load);
    assert keys[0] !in r.order;
    forall i | 1 <= i < |keys|
      ensures keys[i] in r.entries
    {
      assert keys[i] == r.order[i - 1];
    }
  }
}
