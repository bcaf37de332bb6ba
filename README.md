# eadb page codec, page files, page cache and collection lookup in Dafny

This project models the storage core of eadb, a small column store written in Rust.

- **Value codec** (`src/page.rs`). A column of optional values (`bool`, `i64`, `f64` or string) becomes a `PageData`:
  - a value buffer;
  - a null bitmap in `bitvec`'s least-significant-bit-first order, where a set bit means null;
  - for strings, a table of `n + 1` cumulative byte offsets.
  Positional accessors read the column back; a `Page` pairs the data with its `PageMeta` and checks the value type before each read.
- **Page file** (`src/page.rs`, `PageWriter` and `PageReader`). A page is stored as:
  - the bitmap's byte length, as an 8-byte little-endian `u64`;
  - the bitmap;
  - the offsets as 8-byte words, for String pages only;
  - the compressed value bytes.
  Writing and reading are modelled as a pure `Serialize` and `Parse` over byte sequences.
- **Prototype page, page cache and collection** (`src/main.rs`):
  - an Int-only `PageData`;
  - a `PageCache` holding at most 256 pages in least-recently-used order;
  - `Collection::get_int`, which scans a collection's pages in key order and reads rows through the cache.

Modules and files:

| file | module | what it holds |
|---|---|---|
| `wrappers.dfy` | `Wrappers` | `Option` |
| `bytes.dfy` | `Bytes` | bytes, `u64`/`i64`, little-endian words, two's complement |
| `bitmap.dfy` | `Bitmap` | `BitVec<LittleEndian, u8>`: `as_slice` as `PackBits`, `from_slice` as `UnpackBits` |
| `page.dfy` | `PageCodec` | `src/page.rs` value codec, `PageMeta`, `Page` |
| `page_file.dfy` | `PageFile` | `PageWriter::write` as `Serialize`, `PageReader::read` as `Parse` |
| `proto_page.dfy` | `ProtoPage` | the `PageData` and `Page` of `src/main.rs` |
| `lru.dfy` | `Lru` | the `lru` crate's `LruCache` behaviour, on values |
| `page_cache.dfy` | `Caching` | `PageCache` as a class over an `LruCache` |
| `collection.dfy` | `Collections` | `Collection::get_int` as written and corrected |

How the Rust code is rendered:

- Builders with loops become methods. Each is proved against a predicate that says what every row encodes.
- Accessors become functions.
- A Rust panic (index out of range, `unwrap` of `None`, `assert!`) becomes a precondition. This covers the type guard of `Page::get_*`.
- The `io::Result` of the builders cannot fail, so they return the data directly.
- `PageCache` is a class whose `get` changes its `pages` field. Two ghost fields record what happened:
  - `history` lists the keys `get` was called with;
  - `loads` counts the file loads.
- The file read in `PageCache::get` is a function parameter `load`.

## Model

| member | source | states |
|---|---|---|
| Bytes.LeBytes | src/page.rs:55 | writing a `u64` little-endian gives exactly n bytes |
| Bytes.LeValue | src/page.rs:220 | reading n little-endian bytes gives a value below 256^n |
| Bytes.LeValueOfBytes | src/page.rs:218-220 | reading back the n-byte little-endian encoding of a value below 256^n gives that value |
| Bytes.LeBytesOfValue | src/page.rs:280 | encoding the value read from a byte string gives that byte string back |
| Bytes.U64Bytes | src/page.rs:280 | a `u64` is written as 8 bytes |
| Bytes.I64Bytes | src/page.rs:55 | an `i64` is written as the 8 bytes of its two's-complement `u64` |
| Bytes.U64RoundTrip | src/page.rs:218-220 | `read_u64(write_u64(u)) == u` |
| Bytes.U64BytesOfValue | src/page.rs:230-233 | every 8-byte word is the encoding of the `u64` read from it |
| Bytes.I64RoundTrip | src/page.rs:113-120 | `read_i64(write_i64(v)) == v`, negative values included |
| Bytes.I64BytesOfValue | src/page.rs:117-118 | every 8-byte word is the encoding of the `i64` read from it |
| Bitmap.PackBits | src/page.rs:43 | `as_slice` of n bits has ceil(n/8) bytes |
| Bitmap.UnpackBits | src/page.rs:224 | `from_slice` of m bytes has 8m bits |
| Bitmap.PackBitsAt | src/page.rs:39-43 | bit i of the packed bytes (byte i/8, position i%8, least significant first) is bit i of the vector; padding bits are zero |
| Bitmap.UnpackPackBits | src/page.rs:224 | `from_slice(as_slice(bits))` is the bits followed by zero bits up to a whole byte |
| PageCodec.FromBools | src/page.rs:34-48 | null bit i is set exactly when row i is None; value bit i is the value or false; ceil(n/8) value bytes with zero padding; type Bool; no offsets |
| PageCodec.FromInts | src/page.rs:50-64 | 8n bytes; word i is the little-endian `i64` of row i, or 0 for a null; null bit i set exactly for None; type Int; no offsets |
| PageCodec.FromFloats | src/page.rs:66-79 | as FromInts, for `f64` bit patterns with 0.0 for a null; type Float |
| PageCodec.FromStrings | src/page.rs:81-102 | n + 1 offsets starting at 0; row i's bytes lie between offsets i and i+1, and a null row is empty; the last offset is the blob's length; type String |
| PageCodec.GetBool | src/page.rs:104-111 | None exactly when the row is null or lies past the value bits; otherwise the row's own bit |
| PageCodec.GetInt | src/page.rs:113-120 | None exactly when the row is null; otherwise the `i64` whose encoding is the row's word |
| PageCodec.GetFloat | src/page.rs:122-129 | None exactly when the row is null; otherwise the 64-bit pattern whose encoding is the row's word |
| PageCodec.GetString | src/page.rs:131-141 | None exactly when the row is null; otherwise the bytes between the row's two offsets |
| PageCodec.BoolsRoundTrip | src/page.rs:34-48 | `get_bool(from_bools(d), i) == d[i]` for every row |
| PageCodec.IntsRoundTrip | src/page.rs:50-64 | `get_int(from_ints(d), i) == d[i]` for every row |
| PageCodec.FloatsRoundTrip | src/page.rs:66-79 | `get_float(from_floats(d), i) == d[i]` for every row |
| PageCodec.StringsRoundTrip | src/page.rs:81-102 | `get_string(from_strings(d), i) == d[i]` for every row |
| PageCodec.OffsetsSorted | src/page.rs:84-94 | string offsets never decrease and never pass the blob's end |
| PageCodec.IntPlaceholderIgnored | src/page.rs:113-120 | overwriting a null row's placeholder word changes no `get_int` answer |
| PageCodec.FloatPlaceholderIgnored | src/page.rs:122-129 | overwriting a null row's placeholder word changes no `get_float` answer |
| PageCodec.BoolPlaceholderIgnored | src/page.rs:104-111 | two Bool pages that agree on nulls and on the bits of non-null rows answer `get_bool` alike |
| PageCodec.NewMeta | src/page.rs:162-173 | the meta records the given type, path, offset and size, with the caller's id and default statistics |
| PageCodec.NewPage | src/page.rs:183-188 | the page holds the given data and an unchanged copy of the meta |
| PageCodec.PageGetBool | src/page.rs:190-193 | callable only when the meta declares Bool; answers as `get_bool` |
| PageCodec.PageGetInt | src/page.rs:195-198 | callable only when the meta declares Int; answers as `get_int` |
| PageCodec.PageGetFloat | src/page.rs:200-203 | callable only when the meta declares Float; answers as `get_float` |
| PageCodec.PageGetString | src/page.rs:205-208 | callable only when the meta declares String; answers as `get_string` |
| PageFile.NullsSection | src/page.rs:266-275 | `write_nulls` writes the bitmap's byte length ceil(n/8) as 8 little-endian bytes, then the packed bitmap |
| PageFile.OffsetsSection | src/page.rs:277-284 | `write_offsets` writes 8 bytes per offset |
| PageFile.OffsetsSectionAt | src/page.rs:279-281 | word k of the offset section encodes offset k |
| PageFile.Serialize | src/page.rs:255-275 | the file is the bitmap length ceil(n/8) as 8 little-endian bytes, the packed bitmap, the offset section, then the compressed value bytes |
| PageFile.ReadInto | src/page.rs:218-229 | a read into a zero-filled buffer fills it with the file's next bytes when enough remain and advances the cursor past them |
| PageFile.ReadOffsets | src/page.rs:230-233 | one offset per 8-byte word |
| PageFile.ReadOffsetsSection | src/page.rs:228-233 | reading the offset section back gives the offsets |
| PageFile.Parse | src/page.rs:214-249 | the page keeps the given meta and its type; the bitmap has a whole number of bytes; a String page has size + 1 offsets and any other page none |
| PageFile.ParseSerialize | src/page.rs:214-284 | reading a written page gives back its meta, type, offsets and value bytes, and its null bits followed by zero padding bits |
| PageFile.BoolPagePersists | src/page.rs:214-275 | a written Bool page read back answers `get_bool` with the original column |
| PageFile.IntPagePersists | src/page.rs:214-275 | a written Int page read back answers `get_int` with the original column |
| PageFile.FloatPagePersists | src/page.rs:214-275 | a written Float page read back answers `get_float` with the original column |
| PageFile.StringPagePersists | src/page.rs:214-284 | a written String page read back answers `get_string` with the original column |
| ProtoPage.FromInts | src/main.rs:35-48 | 8n bytes and n null bits; word i encodes row i or 0; null bit i set exactly for None |
| ProtoPage.GetInt | src/main.rs:50-57 | None exactly when the row is null; otherwise the `i64` whose encoding is the row's word |
| ProtoPage.IntsRoundTrip | src/main.rs:35-57 | `get_int(from_ints(d), i) == d[i]` for every row |
| ProtoPage.GetIntAgrees | src/main.rs:50-57 | the prototype's `get_int` answers as the `src/page.rs` one on the same buffers |
| ProtoPage.NewPage | src/main.rs:128-133 | the page holds the given data and an unchanged copy of the meta |
| ProtoPage.PageGetInt | src/main.rs:121-124 | callable only when the meta declares Int; answers as `get_int` |
| Lru.New | src/main.rs:143-147 | a new cache is empty and has the given capacity |
| Lru.Without | src/main.rs:149-155 | removing a key from the recency order keeps the other keys in order |
| Lru.EntriesBound | src/main.rs:139-146 | a cache never holds more entries than its capacity |
| Lru.Put | src/main.rs:152 | the key maps to the value and is most recently used; a new key in a full cache evicts exactly the least recently used key; no other entry changes |
| Lru.Get | src/main.rs:154 | a present key's value is returned and the key moves to the most recently used end; a missing key changes nothing |
| Lru.GetKeepsOthersOrder | src/main.rs:154 | `get` does not reorder the other keys |
| Caching.Fetch | src/main.rs:149-155 | after `get`, the cache is valid with its capacity, the key is present and most recently used, and the result is the page stored under it: the cached one on a hit, the loaded one on a miss |
| Caching.FetchHit | src/main.rs:149-155 | a hit changes no entry and only moves the key to the most recently used end |
| Caching.FetchMiss | src/main.rs:150-154 | a miss stores the loaded page as most recently used and, when full, evicts only the least recently used entry |
| Caching.PageCache.constructor | src/main.rs:141-147 | a new cache is empty, with capacity 256 |
| Caching.PageCache.Get | src/main.rs:149-155 | `get` updates the cache as Fetch does; at most 256 entries; a miss loads exactly once and stores a page with the supplied meta; a hit loads nothing |
| Caching.FetchAll | src/main.rs:149-155 | a sequence of `get` calls keeps the cache valid at its capacity |
| Caching.FetchDistinctKeeps | src/main.rs:149-155 | up to capacity, distinct keys fetched into an empty cache are all kept, in access order |
| Caching.FetchOneTooManyOrder | src/main.rs:141-155 | after cap + 1 distinct keys, the recency order is the last cap keys in access order |
| Caching.FetchOneTooMany | src/main.rs:141-155 | after cap + 1 distinct keys, the first is evicted and the other cap remain |
| Collections.Loaded | src/main.rs:151-152 | the page a miss stores carries the supplied meta and the loaded data |
| Collections.FetchCoherent | src/main.rs:166-169 | fetching a collection's page returns that page as loaded from its meta, and the cache keeps holding only such pages |
| Collections.Scan | src/main.rs:166-171 | fetching the pages the range test selects, one after another, keeps the cache valid at its capacity and loads at most one page per page scanned |
| Collections.GetInt | src/main.rs:164-175 | as written: reads exactly the pages the range test selects, in key order; the new cache contents, recency order and load count are those of fetching them in turn (Scan); returns None |
| Collections.ProbesRange | src/main.rs:166-171 | the k-th page in key order is read exactly when k <= idx < k + size_k |
| Collections.ProbesBound | src/main.rs:166-171 | the scan as written reads at most idx + 1 pages, whatever their sizes |
| Collections.LocateFrom | src/main.rs:166-171 | a found row lies in a page past the scan's start, within that page's size |
| Collections.LocateCorrect | src/main.rs:166-171 | row idx is found in page k at row r exactly when r < size_k and idx is the rows before page k plus r |
| Collections.LocateMissing | src/main.rs:166-174 | row idx is found nowhere exactly when it is at or past the collection's total row count |
| Collections.LocatedFetch | src/main.rs:164-175 | the corrected scan fetches at most the one page holding row idx, so it loads at most one page and leaves the cache valid |
| Collections.GetIntCorrected | src/main.rs:164-175 | with count advanced by page size: reads only the page holding row idx, leaves the cache as fetching that one page does (LocatedFetch), and returns that row's value |
| Collections.ValueAtFlatten | src/main.rs:164-175 | for pages written by `from_ints`, row idx of the collection is the idx-th value of the pages' rows laid end to end, and None past the end |
| Collections.SampleProbes | src/main.rs:171 | for pages of sizes 3 and 3, the scan as written reads no page for row 4, which lies in page 1, and reads both pages for row 1 |
| Collections.SampleValue | src/main.rs:169-173 | with a loader that reads pages back correctly, a collection whose row 0 holds 2 meets every precondition of the scan as written, which still returns None |

## Left out

- File I/O is left out. The file is a byte sequence. `File::open`, `File::create` and the `io::Result` errors of reading and writing are not modelled.
- Snappy compression (`snap::Writer`, `snap::Reader`) is the identity.
- Short reads: `PageFile.ReadInto` reads all bytes that remain, up to the buffer size. An OS read that stops early for other reasons is not modelled.
- `String::from_utf8(...).unwrap()` in `get_string` is left out. Strings are byte sequences and UTF-8 validity is not checked.
- `f64` values are kept as their 64-bit IEEE-754 bit patterns. No floating-point arithmetic happens in the codec.
- `Uuid::new_v4` is random, so the id is a parameter of `PageCodec.NewMeta`.
- `PageStats` and `Bound` are carried but never computed or read.
- `debug!` logging, `main()` and its printing are left out.
- `PageMeta::load` of `src/main.rs` is a function parameter, so it does not model what the function really does. The real function reads the bitmap into a zero-length `Vec::with_capacity` buffer (src/main.rs:97-98), so it reads no bitmap bytes and its `nulls` is empty. The Snappy reader then starts at the bitmap bytes. So in the program as written, every scan that reads a page panics before returning: at `load().unwrap()` (src/main.rs:151) or at `self.nulls[idx]` (src/main.rs:51). The `Collection::get_int` models assume a loader that reads pages back correctly.
- `write_int_page` of `src/main.rs` (file I/O) is left out. Its layout is the one `PageFile.Serialize` gives an Int page.
- `usize` overflow is not modelled:
  - of `(meta.size + 1) * 8` in `PageReader::read` (src/page.rs:228), which `Parse` computes unbounded;
  - of `(idx + 1) * 8` in `get_int`/`get_float`;
  - of the running `offset` in `from_strings`, where `FromStrings` instead requires a total length below 2^64;
  - of `count + meta.size` in `Collection::get_int`.
- The `lru` crate's internals (hash map and linked list) are replaced by a map plus a recency sequence with the same observable behaviour.
- The repository's code has no `find_page`, no collection iterator and no per-collection type check, so none is modelled; `Collection::get_int` is modelled as it is written.
- A write that fails halfway, which would leave a partial file, is not modelled.

## Findings

| source | as written | input that shows it | evidently intended | confidence | as-written member | corrected member |
|---|---|---|---|---|---|---|
| src/main.rs:171 | the running count advances by 1 per page, so page k is read when k <= idx < k + size_k | two pages of 3 rows: row 4 reads no page; row 1 also reads page 1 at its row 0 | advance count by `meta.size`, so that the one page holding row idx is read at row idx - start | not executed | Collections.SampleProbes | Collections.GetIntCorrected |
| src/main.rs:169-173 | the value `get_int` reads is dropped and the function always returns None | pages written from [Some(2), None, Some(4)] and a loader that reads them back correctly: row 0 holds 2, the scan returns None (with the real `PageMeta::load`, the scan panics before returning) | return the value read from the page holding row idx | not executed | Collections.SampleValue | Collections.ValueAtFlatten |
