/**
 * `Collection::get_int` of `src/main.rs`: a scan over a collection's pages
 * in key order, reading a row through the page cache. The scan as written
 * advances its running `count` by one per page and drops the value it
 * reads; `GetIntCorrected` advances `count` by each page's size and returns
 * the value.
 */
module Collections {
  import opened Wrappers
  import opened Bytes
  import PageCodec
  import ProtoPage
  import Lru
  import opened Caching

  /** `PageMeta::load`: the data read back from a page's file. */
  type Loader = PageCodec.PageMeta -> ProtoPage.PageData

  type Entry = (PageKey, PageCodec.PageMeta)

  /** `page_metas` is a `BTreeMap`, held here as its entries in iteration order. */
  datatype Collection = Collection(id: PageCodec.Uuid, pageMetas: seq<Entry>, typ: PageCodec.Type)

  /** The order of `PageKey` tuples: by collection id, then by page id. */
  predicate KeyLess(a: PageKey, b: PageKey) {
    a.0 < b.0 || (a.0 == b.0 && a.1 < b.1)
  }

  /** A map iterates its keys in strictly increasing order. */
  predicate Valid(c: Collection) {
    forall i, j :: 0 <= i < j < |c.pageMetas| ==> KeyLess(c.pageMetas[i].0, c.pageMetas[j].0)
  }

  /** `Page::new(meta, meta.load())`: the page a cache miss stores. */
  function Loaded(load: Loader, meta: PageCodec.PageMeta): (p: ProtoPage.Page)
    ensures p.meta == meta && p.data == load(meta)
  {
    ProtoPage.NewPage(meta, load(meta))
  }

  /** Whatever the cache holds under one of c's keys is that page as loaded from its meta. */
  ghost predicate Coherent(c: Collection, pages: Pages, load: Loader) {
    forall j :: 0 <= j < |c.pageMetas| && c.pageMetas[j].0 in pages.entries ==>
      pages.entries[c.pageMetas[j].0] == Loaded(load, c.pageMetas[j].1)
  }

  /** `Page::get_int(row)` on this page neither fails its type assertion nor indexes out of range. */
  predicate IntReadable(meta: PageCodec.PageMeta, data: ProtoPage.PageData, row: nat) {
    && meta.typ == PageCodec.Int
    && row < |data.nulls|
    && (!data.nulls[row] ==> 8 * row + 8 <= |data.bytes|)
  }

  /** A `get` through the cache for c's k-th page returns that page as loaded, and the cache stays coherent. */
  lemma FetchCoherent(c: Collection, pages: Pages, load: Loader, k: nat)
    requires Valid(c) && Lru.Valid(pages) && Coherent(c, pages, load) && k < |c.pageMetas|
    ensures Fetch(pages, c.pageMetas[k].0, Loaded(load, c.pageMetas[k].1)).1 == Loaded(load, c.pageMetas[k].1)
    ensures Coherent(c, Fetch(pages, c.pageMetas[k].0, Loaded(load, c.pageMetas[k].1)).0, load)
  {
    var key, loaded := c.pageMetas[k].0, Loaded(load, c.pageMetas[k].1);
    if key in pages.entries {
      FetchHit(pages, key, loaded);
    } else {
      FetchMiss(pages, key, loaded);
    }
    var after := Fetch(pages, key, loaded).0;
    forall j | 0 <= j < |c.pageMetas| && c.pageMetas[j].0 in after.entries
      ensures after.entries[c.pageMetas[j].0] == Loaded(load, c.pageMetas[j].1)
    {
      if j < k {
        assert KeyLess(c.pageMetas[j].0, key);
      } else if k < j {
        assert KeyLess(key, c.pageMetas[j].0);
      }
    }
  }

  // ----- The scan as written -----

  /** With `count` advancing by one per page, page k is read for idx exactly when k <= idx < k + size. */
  predicate Probed(idx: nat, k: nat, size: nat) {
    k <= idx < k + size
  }

  /** The keys of the pages among the first n that the scan as written reads, in order. */
  function ProbesUpTo(metas: seq<Entry>, idx: nat, n: nat): seq<PageKey>
    requires n <= |metas|
  {
    if n == 0 then []
    else
      ProbesUpTo(metas, idx, n - 1)
        + (if Probed(idx, n - 1, metas[n - 1].1.size) then [metas[n - 1].0] else [])
  }

  function Probes(c: Collection, idx: nat): seq<PageKey> {
    ProbesUpTo(c.pageMetas, idx, |c.pageMetas|)
  }

  /** Every page the scan as written reads can be read without a panic. */
  predicate ProbesReadable(c: Collection, load: Loader, idx: nat) {
    forall k :: 0 <= k < |c.pageMetas| && Probed(idx, k, c.pageMetas[k].1.size) ==>
      IntReadable(c.pageMetas[k].1, load(c.pageMetas[k].1), idx - k)
  }

  /**
   * The cache after the scan as written has looked at the first n pages,
   * fetching in turn each page whose range test holds, and how many of those
   * fetches missed and so loaded their page.
   */
  function Scan(c: Collection, pages: Pages, load: Loader, idx: nat, n: nat): (r: (Pages, nat))
    requires Lru.Valid(pages) && n <= |c.pageMetas|
    ensures Lru.Valid(r.0) && r.0.cap == pages.cap && r.1 <= n
  {
    if n == 0 then (pages, 0)
    else
      var (before, misses) := Scan(c, pages, load, idx, n - 1);
      var (key, meta) := c.pageMetas[n - 1];
      if Probed(idx, n - 1, meta.size) then
        (Fetch(before, key, Loaded(load, meta)).0, misses + (if key in before.entries then 0 else 1))
      else (before, misses)
  }

  /**
   * `Collection::get_int` as written: the k-th page is read at its row
   * idx - k when k <= idx < k + size, the value read is dropped, and the
   * result is None.
   */
  method GetInt(c: Collection, cache: PageCache, idx: USize, load: Loader) returns (r: Option<I64>)
    requires Valid(c) && cache.Valid() && Coherent(c, cache.pages, load)
    requires ProbesReadable(c, load, idx)
    modifies cache
    ensures cache.Valid() && Coherent(c, cache.pages, load)
    ensures cache.history == old(cache.history) + Probes(c, idx)
    ensures cache.pages == Scan(c, old(cache.pages), load, idx, |c.pageMetas|).0
    ensures cache.loads == old(cache.loads) + Scan(c, old(cache.pages), load, idx, |c.pageMetas|).1
    ensures r == None
  {
    var count := 0;
    for k := 0 to |c.pageMetas|
      invariant count == k
      invariant cache.Valid() && Coherent(c, cache.pages, load)
      invariant cache.history == old(cache.history) + ProbesUpTo(c.pageMetas, idx, k)
      invariant cache.pages == Scan(c, old(cache.pages), load, idx, k).0
      invariant cache.loads == old(cache.loads) + Scan(c, old(cache.pages), load, idx, k).1
    {
      var (key, meta) := c.pageMetas[k];
      if idx >= count && idx < count + meta.size {
        FetchCoherent(c, cache.pages, load, k);
        var page := cache.Get(key, meta, load);
        var dropped := ProtoPage.PageGetInt(page, idx - count);
      }
      count := count + 1;
    }
    r := None;
  }

  lemma {:induction false} ProbesUpToRange(c: Collection, idx: nat, n: nat)
    requires Valid(c) && n <= |c.pageMetas|
    ensures forall k :: 0 <= k < |c.pageMetas| ==>
              (c.pageMetas[k].0 in ProbesUpTo(c.pageMetas, idx, n) <==> k < n && Probed(idx, k, c.pageMetas[k].1.size))
  {
    if n > 0 {
      ProbesUpToRange(c, idx, n - 1);
      forall k | 0 <= k < |c.pageMetas|
        ensures c.pageMetas[k].0 in ProbesUpTo(c.pageMetas, idx, n) <==> k < n && Probed(idx, k, c.pageMetas[k].1.size)
      {
        if k != n - 1 {
          if k < n - 1 {
            assert KeyLess(c.pageMetas[k].0, c.pageMetas[n - 1].0);
          } else {
            assert KeyLess(c.pageMetas[n - 1].0, c.pageMetas[k].0);
          }
        }
      }
    }
  }

  /** The range test as written: the k-th page in key order is read iff k <= idx < k + size_k. */
  lemma ProbesRange(c: Collection, idx: nat)
    requires Valid(c)
    ensures forall k :: 0 <= k < |c.pageMetas| ==>
              (c.pageMetas[k].0 in Probes(c, idx) <==> Probed(idx, k, c.pageMetas[k].1.size))
  {
    ProbesUpToRange(c, idx, |c.pageMetas|);
  }

  /** Whatever the page sizes, the scan as written reads at most idx + 1 pages. */
  lemma {:induction false} ProbesBound(metas: seq<Entry>, idx: nat, n: nat)
    requires n <= |metas|
    ensures |ProbesUpTo(metas, idx, n)| <= n && |ProbesUpTo(metas, idx, n)| <= idx + 1
  {
    if n > 0 {
      ProbesBound(metas, idx, n - 1);
    }
  }

  // ----- The scan with count advancing by page size -----

  /** The number of rows before page k: the sizes of pages 0 .. k-1 added up. */
  function Start(metas: seq<Entry>, k: nat): nat
    requires k <= |metas|
  {
    if k == 0 then 0 else Start(metas, k - 1) + metas[k - 1].1.size
  }

  /** The number of rows of all pages together. */
  function Total(metas: seq<Entry>): nat {
    Start(metas, |metas|)
  }

  /**
   * Scanning from page k, whose first row is row count of the collection:
   * the page that holds row idx and the row within that page.
   */
  function LocateFrom(metas: seq<Entry>, idx: nat, k: nat, count: nat): (r: Option<(nat, nat)>)
    requires k <= |metas|
    ensures r.Some? ==> k <= r.value.0 < |metas| && r.value.1 < metas[r.value.0].1.size
    decreases |metas| - k
  {
    if k == |metas| then None
    else if count <= idx < count + metas[k].1.size then Some((k, idx - count))
    else LocateFrom(metas, idx, k + 1, count + metas[k].1.size)
  }

  function Locate(metas: seq<Entry>, idx: nat): Option<(nat, nat)> {
    LocateFrom(metas, idx, 0, 0)
  }

  lemma {:induction false} StartMonotone(metas: seq<Entry>, i: nat, j: nat)
    requires i <= j <= |metas|
    ensures Start(metas, i) <= Start(metas, j)
    decreases j - i
  {
    if i < j {
      StartMonotone(metas, i, j - 1);
    }
  }

  lemma {:induction false} LocateFromCorrect(metas: seq<Entry>, idx: nat, k0: nat, k: nat, row: nat)
    requires k0 <= |metas|
    ensures LocateFrom(metas, idx, k0, Start(metas, k0)) == Some((k, row))
        <==> k0 <= k < |metas| && row < metas[k].1.size && Start(metas, k) + row == idx
    decreases |metas| - k0
  {
    if k0 < |metas| {
      var count := Start(metas, k0);
      if count <= idx < count + metas[k0].1.size {
        if k0 < k < |metas| {
          StartMonotone(metas, k0 + 1, k);
        }
      } else {
        assert Start(metas, k0 + 1) == count + metas[k0].1.size;
        LocateFromCorrect(metas, idx, k0 + 1, k, row);
      }
    }
  }

  /** Locate finds row idx in page k at row `row` exactly when page k's rows include idx there. */
  lemma LocateCorrect(metas: seq<Entry>, idx: nat, k: nat, row: nat)
    ensures Locate(metas, idx) == Some((k, row))
        <==> k < |metas| && row < metas[k].1.size && Start(metas, k) + row == idx
  {
    LocateFromCorrect(metas, idx, 0, k, row);
  }

  lemma {:induction false} LocateFromMissing(metas: seq<Entry>, idx: nat, k0: nat)
    requires k0 <= |metas| && Start(metas, k0) <= idx
    ensures LocateFrom(metas, idx, k0, Start(metas, k0)) == None <==> Total(metas) <= idx
    decreases |metas| - k0
  {
    if k0 < |metas| {
      var count := Start(metas, k0);
      if count <= idx < count + metas[k0].1.size {
        StartMonotone(metas, k0 + 1, |metas|);
      } else {
        assert Start(metas, k0 + 1) == count + metas[k0].1.size;
        LocateFromMissing(metas, idx, k0 + 1);
      }
    }
  }

  /** Only an index past the last row of the last page is found nowhere. */
  lemma LocateMissing(metas: seq<Entry>, idx: nat)
    ensures Locate(metas, idx) == None <==> Total(metas) <= idx
  {
    LocateFromMissing(metas, idx, 0);
  }

  /** The page holding row idx, if any, can be read at that row without a panic. */
  predicate LocatedReadable(c: Collection, load: Loader, idx: nat) {
    match Locate(c.pageMetas, idx)
    case None => true
    case Some((k, row)) => IntReadable(c.pageMetas[k].1, load(c.pageMetas[k].1), row)
  }

  /** Row idx of the collection: the row of the page that holds it, read from the page's file. */
  function ValueAt(c: Collection, load: Loader, idx: nat): Option<I64>
    requires LocatedReadable(c, load, idx)
  {
    match Locate(c.pageMetas, idx)
    case None => None
    case Some((k, row)) => ProtoPage.GetInt(load(c.pageMetas[k].1), row)
  }

  /** The key of the page holding row idx, if any. */
  function LocatedKeys(c: Collection, idx: nat): seq<PageKey> {
    match Locate(c.pageMetas, idx)
    case None => []
    case Some((k, _)) => [c.pageMetas[k].0]
  }

  /**
   * The cache after the corrected scan, and how many pages it loaded: only
   * the page holding row idx, if any, is fetched.
   */
  function LocatedFetch(c: Collection, pages: Pages, load: Loader, idx: nat): (r: (Pages, nat))
    requires Lru.Valid(pages)
    ensures Lru.Valid(r.0) && r.0.cap == pages.cap && r.1 <= 1
  {
    match Locate(c.pageMetas, idx)
    case None => (pages, 0)
    case Some((k, _)) =>
      var (key, meta) := c.pageMetas[k];
      (Fetch(pages, key, Loaded(load, meta)).0, if key in pages.entries then 0 else 1)
  }

  /**
   * `Collection::get_int` with `count` advancing by each page's size and
   * the value read returned: only the page holding row idx is read, and
   * the result is that row.
   */
  method GetIntCorrected(c: Collection, cache: PageCache, idx: USize, load: Loader) returns (r: Option<I64>)
    requires Valid(c) && cache.Valid() && Coherent(c, cache.pages, load)
    requires LocatedReadable(c, load, idx)
    modifies cache
    ensures cache.Valid() && Coherent(c, cache.pages, load)
    ensures cache.history == old(cache.history) + LocatedKeys(c, idx)
    ensures cache.pages == LocatedFetch(c, old(cache.pages), load, idx).0
    ensures cache.loads == old(cache.loads) + LocatedFetch(c, old(cache.pages), load, idx).1
    ensures r == ValueAt(c, load, idx)
  {
    var count := 0;
    for k := 0 to |c.pageMetas|
      invariant count == Start(c.pageMetas, k)
      invariant Locate(c.pageMetas, idx) == LocateFrom(c.pageMetas, idx, k, count)
      invariant cache.Valid() && Coherent(c, cache.pages, load)
      invariant cache.history == old(cache.history)
      invariant cache.pages == old(cache.pages) && cache.loads == old(cache.loads)
    {
      var (key, meta) := c.pageMetas[k];
      if idx >= count && idx < count + meta.size {
        assert Locate(c.pageMetas, idx) == Some((k, idx - count));
        FetchCoherent(c, cache.pages, load, k);
        var page := cache.Get(key, meta, load);
        assert page == Loaded(load, meta);
        r := ProtoPage.PageGetInt(page, idx - count);
        return;
      }
      count := count + meta.size;
    }
    assert Locate(c.pageMetas, idx) == None;
    r := None;
  }

  // ----- Row idx is the idx-th value of the pages' rows laid end to end -----

  function Flatten(rows: seq<seq<Option<I64>>>): (r: seq<Option<I64>>)
  {
    if rows == [] then [] else Flatten(rows[..|rows| - 1]) + rows[|rows| - 1]
  }

  /** Each page k was written by `PageData::from_ints(rows[k])` and its meta records that many rows. */
  ghost predicate WrittenFrom(c: Collection, load: Loader, rows: seq<seq<Option<I64>>>) {
    && |rows| == |c.pageMetas|
    && forall k :: 0 <= k < |rows| ==>
         && c.pageMetas[k].1.typ == PageCodec.Int
         && c.pageMetas[k].1.size == |rows[k]|
         && PageCodec.IntRows(rows[k], load(c.pageMetas[k].1).bytes, load(c.pageMetas[k].1).nulls)
  }

  lemma {:induction false} FlattenAt(rows: seq<seq<Option<I64>>>, c: Collection, load: Loader, k: nat, row: nat)
    requires WrittenFrom(c, load, rows) && k < |rows| && row < |rows[k]|
    ensures |Flatten(rows)| == Total(c.pageMetas)
    ensures Start(c.pageMetas, k) + row < |Flatten(rows)|
    ensures Flatten(rows)[Start(c.pageMetas, k) + row] == rows[k][row]
    decreases |rows|
  {
    var n := |rows| - 1;
    var init := c.(pageMetas := c.pageMetas[..n]);
    assert WrittenFrom(init, load, rows[..n]) by {
      forall j | 0 <= j < n
        ensures init.pageMetas[j] == c.pageMetas[j] && rows[..n][j] == rows[j]
      {
      }
    }
    StartPrefix(c.pageMetas, n);
    if k < n {
      FlattenAt(rows[..n], init, load, k, row);
      StartPrefix(c.pageMetas, k);
      StartPrefixOf(c.pageMetas, n, k);
    } else {
      FlattenLength(rows[..n], init, load);
    }
  }

  lemma {:induction false} FlattenLength(rows: seq<seq<Option<I64>>>, c: Collection, load: Loader)
    requires WrittenFrom(c, load, rows)
    ensures |Flatten(rows)| == Total(c.pageMetas)
    decreases |rows|
  {
    if rows != [] {
      var n := |rows| - 1;
      var init := c.(pageMetas := c.pageMetas[..n]);
      assert WrittenFrom(init, load, rows[..n]) by {
        forall j | 0 <= j < n
          ensures init.pageMetas[j] == c.pageMetas[j] && rows[..n][j] == rows[j]
        {
        }
      }
      FlattenLength(rows[..n], init, load);
      StartPrefix(c.pageMetas, n);
    }
  }

  /** Start depends only on the pages before k. */
  lemma {:induction false} StartPrefixOf(metas: seq<Entry>, n: nat, k: nat)
    requires k <= n <= |metas|
    ensures Start(metas[..n], k) == Start(metas, k)
  {
    if k > 0 {
      StartPrefixOf(metas, n, k - 1);
    }
  }

  lemma StartPrefix(metas: seq<Entry>, n: nat)
    requires n <= |metas|
    ensures Total(metas[..n]) == Start(metas, n)
  {
    StartPrefixOf(metas, n, n);
  }

  /**
   * For pages written from `rows`, the corrected scan's result is the
   * idx-th value of the rows laid end to end, and past the end it is None.
   */
  lemma ValueAtFlatten(c: Collection, load: Loader, rows: seq<seq<Option<I64>>>, idx: nat)
    requires WrittenFrom(c, load, rows)
    ensures LocatedReadable(c, load, idx)
    ensures ValueAt(c, load, idx) == if idx < |Flatten(rows)| then Flatten(rows)[idx] else None
  {
    FlattenLength(rows, c, load);
    LocateMissing(c.pageMetas, idx);
    match Locate(c.pageMetas, idx)
    case None =>
    case Some((k, row)) =>
      LocateCorrect(c.pageMetas, idx, k, row);
      FlattenAt(rows, c, load, k, row);
      var pd := load(c.pageMetas[k].1);
      ProtoPage.IntsRoundTrip(rows[k], pd);
  }

  // ----- A collection that shows both differences -----

  /** Two Int pages of three rows each, both holding [2, null, 4]. */
  function SampleMeta(page: PageCodec.Uuid): PageCodec.PageMeta {
    PageCodec.NewMeta(page, PageCodec.Int, "./example", 0, 3)
  }

  function Sample(): Collection {
    Collection(1, [((1, 1), SampleMeta(1)), ((1, 2), SampleMeta(2))], PageCodec.Int)
  }

  function SampleData(meta: PageCodec.PageMeta): ProtoPage.PageData {
    ProtoPage.PageData(I64Bytes(2) + I64Bytes(0) + I64Bytes(4), [false, true, false])
  }

  /**
   * Row 4 (page 1, row 1) is not read by the scan as written, while for
   * row 1 (page 0) it reads page 1 as well.
   */
  lemma SampleProbes()
    ensures Valid(Sample())
    ensures Probes(Sample(), 4) == [] && Locate(Sample().pageMetas, 4) == Some((1, 1))
    ensures Probes(Sample(), 1) == [(1, 1), (1, 2)] && Locate(Sample().pageMetas, 1) == Some((0, 1))
  {
    ProbesRange(Sample(), 4);
    ProbesRange(Sample(), 1);
    LocateCorrect(Sample().pageMetas, 4, 1, 1);
    LocateCorrect(Sample().pageMetas, 1, 0, 1);
  }

  /**
   * Row 0 of the sample holds 2, and the sample satisfies what the scan as
   * written requires, yet that scan returns None for it.
   */
  lemma SampleValue()
    ensures ProbesReadable(Sample(), SampleData, 0) && LocatedReadable(Sample(), SampleData, 0)
    ensures ValueAt(Sample(), SampleData, 0) == Some(2)
  {
    var rows := [Some(2), None, Some(4)];
    var pd := SampleData(SampleMeta(1));
    assert PageCodec.IntRows(rows, pd.bytes, pd.nulls) by {
      assert PageCodec.Word(pd.bytes, 0) == I64Bytes(2);
      assert PageCodec.Word(pd.bytes, 1) == I64Bytes(0);
      assert PageCodec.Word(pd.bytes, 2) == I64Bytes(4);
    }
    assert WrittenFrom(Sample(), SampleData, [rows, rows]);
    FlattenAt([rows, rows], Sample(), SampleData, 0, 0);
    ValueAtFlatten(Sample(), SampleData, [rows, rows], 0);
  }
}
