/**
 * The value codec of `src/page.rs`: a column of optional values becomes a
 * `PageData` (a value buffer, a null bitmap and, for strings, an offset
 * table), read back by positional, null-aware accessors; a `Page` pairs the
 * data with its metadata and checks the value type before each read.
 */
module PageCodec {
  import opened Wrappers
  import opened Bytes
  import opened Bitmap

  /** The value type of a page or collection. */
  datatype Type = Bool | Int | Float | String

  /** A 128-bit UUID, ordered as `Uuid`'s `Ord` orders it (by value). */
  type Uuid = x: int | 0 <= x < 0x1_0000_0000_0000_0000_0000_0000_0000_0000

  /** An `f64` kept as its IEEE-754 bit pattern; the codec never does arithmetic on it. */
  type F64Bits = U64

  /** Reserved statistics; nothing in the core computes or reads them. */
  datatype Bound<T> = Bound(min: T, max: T)
  datatype PageStats = PageStats(
    containsNulls: bool,
    intBound: Option<Bound<USize>>,
    floatBound: Option<Bound<F64Bits>>,
    stringBound: Option<Bound<string>>)

  const DefaultStats := PageStats(false, None, None, None)

  datatype PageMeta = PageMeta(
    id: Uuid,
    path: string,
    size: USize,
    typ: Type,
    offset: USize,
    stats: PageStats)

  /**
   * The decoded body of a page. `nulls` holds the null bitmap's bits (true
   * means null); `bytes` the packed bits, the 8-byte words or the string
   * bytes; `offsets` the string boundaries (empty for the other types).
   */
  datatype PageData = PageData(bytes: seq<Byte>, nulls: seq<bool>, offsets: seq<USize>, typ: Type)

  datatype Page = Page(data: PageData, meta: PageMeta)

  /** The 8-byte word of row i. */
  function Word(bytes: seq<Byte>, i: nat): seq<Byte>
    requires 8 * i + 8 <= |bytes|
  {
    bytes[8 * i .. 8 * i + 8]
  }

  /** The bytes a string row contributes: its value, or nothing for a null. */
  function Row(entry: Option<seq<Byte>>): seq<Byte> {
    entry.GetOr([])
  }

  // ----- What each builder produces -----

  /**
   * bytes and nulls encode data as 8-byte little-endian `i64` words, one per
   * row, with word 0 for a null row and null bit i set exactly for a None.
   */
  ghost predicate IntRows(data: seq<Option<I64>>, bytes: seq<Byte>, nulls: seq<bool>) {
    && |nulls| == |data|
    && |bytes| == 8 * |data|
    && forall i :: 0 <= i < |data| ==>
         nulls[i] == data[i].None? && Word(bytes, i) == I64Bytes(data[i].GetOr(0))
  }

  ghost predicate FloatRows(data: seq<Option<F64Bits>>, bytes: seq<Byte>, nulls: seq<bool>) {
    && |nulls| == |data|
    && |bytes| == 8 * |data|
    && forall i :: 0 <= i < |data| ==>
         nulls[i] == data[i].None? && Word(bytes, i) == U64Bytes(data[i].GetOr(0))
  }

  /**
   * pd is a Bool page for data: one value bit per row (false for a null),
   * packed eight to a byte with zero padding, and null bit i set exactly for
   * a None.
   */
  ghost predicate BoolsEncoded(data: seq<Option<bool>>, pd: PageData) {
    && pd.typ == Bool
    && pd.offsets == []
    && |pd.nulls| == |data|
    && |pd.bytes| == (|data| + 7) / 8
    && (forall i :: 0 <= i < |data| ==>
          pd.nulls[i] == data[i].None? && BitAt(pd.bytes, i) == data[i].GetOr(false))
    && (forall i :: |data| <= i < 8 * |pd.bytes| ==> !BitAt(pd.bytes, i))
  }

  ghost predicate IntsEncoded(data: seq<Option<I64>>, pd: PageData) {
    pd.typ == Int && pd.offsets == [] && IntRows(data, pd.bytes, pd.nulls)
  }

  ghost predicate FloatsEncoded(data: seq<Option<F64Bits>>, pd: PageData) {
    pd.typ == Float && pd.offsets == [] && FloatRows(data, pd.bytes, pd.nulls)
  }

  /**
   * offsets cut bytes into the first n rows of data: offsets starts at 0,
   * ends at |bytes|, and row j is bytes[offsets[j] .. offsets[j + 1]].
   */
  ghost predicate RowSlices(data: seq<Option<seq<Byte>>>, n: nat, bytes: seq<Byte>, offsets: seq<int>)
    requires n <= |data|
  {
    && |offsets| == n + 1
    && offsets[0] == 0
    && offsets[n] == |bytes|
    && forall j :: 0 <= j < n ==> RowAt(data, j, bytes, offsets)
  }

  /** Row j of data lies between offsets[j] and offsets[j + 1] in bytes. */
  ghost predicate RowAt(data: seq<Option<seq<Byte>>>, j: nat, bytes: seq<Byte>, offsets: seq<int>)
    requires j < |data| && j + 1 < |offsets|
  {
    0 <= offsets[j] <= offsets[j + 1] <= |bytes| && bytes[offsets[j] .. offsets[j + 1]] == Row(data[j])
  }

  ghost predicate StringsEncoded(data: seq<Option<seq<Byte>>>, pd: PageData) {
    && pd.typ == String
    && |pd.nulls| == |data|
    && (forall i :: 0 <= i < |data| ==> pd.nulls[i] == data[i].None?)
    && RowSlices(data, |data|, pd.bytes, pd.offsets)
  }

  // ----- Builders -----

  /** `PageData::from_bools`. */
  method FromBools(data: seq<Option<bool>>) returns (pd: PageData)
    ensures BoolsEncoded(data, pd)
  {
    var bits: seq<bool> := [];
    var nulls: seq<bool> := [];
    for i := 0 to |data|
      invariant |bits| == i && |nulls| == i
      invariant forall j :: 0 <= j < i ==> bits[j] == data[j].GetOr(false) && nulls[j] == data[j].None?
    {
      bits := bits + [data[i].GetOr(false)];
      nulls := nulls + [data[i].None?];
    }
    pd := PageData(PackBits(bits), nulls, [], Bool);
    forall i | 0 <= i < 8 * |pd.bytes|
      ensures BitAt(pd.bytes, i) == (i < |bits| && bits[i])
    {
      PackBitsAt(bits, i);
    }
  }

  /** `PageData::from_ints`. */
  method FromInts(data: seq<Option<I64>>) returns (pd: PageData)
    ensures IntsEncoded(data, pd)
  {
    var bytes: seq<Byte> := [];
    var nulls: seq<bool> := [];
    for i := 0 to |data|
      invariant IntRows(data[..i], bytes, nulls)
    {
      ghost var before := bytes;
      bytes := bytes + I64Bytes(data[i].GetOr(0));
      nulls := nulls + [data[i].None?];
      WordsKept(before, bytes, i);
    }
    assert data[..|data|] == data;
    pd := PageData(bytes, nulls, [], Int);
  }

  /** `PageData::from_floats`, over bit patterns. */
  method FromFloats(data: seq<Option<F64Bits>>) returns (pd: PageData)
    ensures FloatsEncoded(data, pd)
  {
    var nulls: seq<bool> := [];
    var bytes: seq<Byte> := [];
    for i := 0 to |data|
      invariant FloatRows(data[..i], bytes, nulls)
    {
      nulls := nulls + [data[i].None?];
      ghost var before := bytes;
      bytes := bytes + U64Bytes(data[i].GetOr(0));
      WordsKept(before, bytes, i);
    }
    assert data[..|data|] == data;
    pd := PageData(bytes, nulls, [], Float);
  }

  /**
   * `PageData::from_strings`. The running byte count must stay a `usize`,
   * which any in-memory input guarantees.
   */
  method FromStrings(data: seq<Option<seq<Byte>>>) returns (pd: PageData)
    requires TotalLength(data) < TwoTo64
    ensures StringsEncoded(data, pd)
  {
    var bytes: seq<Byte> := [];
    var nulls: seq<bool> := [];
    var offset: USize := 0;
    var offsets: seq<USize> := [];
    for i := 0 to |data|
      invariant |nulls| == i && forall j :: 0 <= j < i ==> nulls[j] == data[j].None?
      invariant offset == |bytes| == TotalLength(data[..i])
      invariant RowSlices(data, i, bytes, offsets + [offset])
    {
      var value := Row(data[i]);
      TotalLengthPrefix(data, i + 1);
      assert data[..i + 1][..i] == data[..i];
      RowSlicesExtend(data, i, bytes, offsets + [offset]);
      bytes := bytes + value;
      nulls := nulls + [data[i].None?];
      offsets := offsets + [offset];
      offset := offset + |value|;
    }
    assert data[..|data|] == data;
    offsets := offsets + [offset];
    pd := PageData(bytes, nulls, offsets, String);
  }

  /** The number of value bytes the rows of data take together. */
  function TotalLength(data: seq<Option<seq<Byte>>>): nat {
    if data == [] then 0 else TotalLength(data[..|data| - 1]) + |Row(data[|data| - 1])|
  }

  lemma {:induction false} TotalLengthPrefix(data: seq<Option<seq<Byte>>>, n: nat)
    requires n <= |data|
    ensures TotalLength(data[..n]) <= TotalLength(data)
    decreases |data|
  {
    if n < |data| {
      assert data[..|data| - 1][..n] == data[..n];
      TotalLengthPrefix(data[..|data| - 1], n);
    } else {
      assert data[..n] == data;
    }
  }

  /** Appending the bytes of row n to the first n rows' bytes extends the offset table by one entry. */
  lemma RowSlicesExtend(data: seq<Option<seq<Byte>>>, n: nat, bytes: seq<Byte>, offsets: seq<int>)
    requires n < |data| && RowSlices(data, n, bytes, offsets)
    ensures RowSlices(data, n + 1, bytes + Row(data[n]), offsets + [|bytes| + |Row(data[n])|])
  {
    var bytes', offsets' := bytes + Row(data[n]), offsets + [|bytes| + |Row(data[n])|];
    assert RowAt(data, n, bytes', offsets') by {
      assert bytes'[offsets'[n] .. offsets'[n + 1]] == Row(data[n]);
    }
    forall j | 0 <= j < n
      ensures RowAt(data, j, bytes', offsets')
    {
      assert RowAt(data, j, bytes, offsets);
      assert bytes'[..|bytes|] == bytes;
    }
  }

  /** Appending to a value buffer keeps the words already in it. */
  lemma WordsKept(before: seq<Byte>, after: seq<Byte>, n: nat)
    requires |before| == 8 * n && |after| >= |before| && after[..|before|] == before
    ensures forall j :: 0 <= j < n ==> Word(after, j) == Word(before, j)
  {
    forall j | 0 <= j < n
      ensures Word(after, j) == Word(before, j)
    {
      assert Word(after, j) == after[..|before|][8 * j .. 8 * j + 8];
    }
  }

  // ----- Accessors -----

  /**
   * `PageData::get_bool`: None for a null row; otherwise bit idx of the value
   * bytes, or None when the bytes hold fewer than idx + 1 bits.
   */
  function GetBool(pd: PageData, idx: nat): (r: Option<bool>)
    requires idx < |pd.nulls|
    ensures r.None? <==> pd.nulls[idx] || 8 * |pd.bytes| <= idx
    ensures r.Some? ==> idx < 8 * |pd.bytes| && r.value == BitAt(pd.bytes, idx)
  {
    if pd.nulls[idx] then None
    else if idx < 8 * |pd.bytes| then Some(BitAt(pd.bytes, idx))
    else None
  }

  /** `PageData::get_int`: None for a null row, otherwise the `i64` whose encoding is row idx's word. */
  function GetInt(pd: PageData, idx: nat): (r: Option<I64>)
    requires idx < |pd.nulls|
    requires !pd.nulls[idx] ==> 8 * idx + 8 <= |pd.bytes|
    ensures r.None? <==> pd.nulls[idx]
    ensures r.Some? ==> I64Bytes(r.value) == Word(pd.bytes, idx)
  {
    if pd.nulls[idx] then None
    else
      I64BytesOfValue(Word(pd.bytes, idx));
      Some(I64Of(Word(pd.bytes, idx)))
  }

  /** `PageData::get_float`: None for a null row, otherwise the bit pattern stored in row idx's word. */
  function GetFloat(pd: PageData, idx: nat): (r: Option<F64Bits>)
    requires idx < |pd.nulls|
    requires !pd.nulls[idx] ==> 8 * idx + 8 <= |pd.bytes|
    ensures r.None? <==> pd.nulls[idx]
    ensures r.Some? ==> U64Bytes(r.value) == Word(pd.bytes, idx)
  {
    if pd.nulls[idx] then None
    else
      U64BytesOfValue(Word(pd.bytes, idx));
      Some(U64Of(Word(pd.bytes, idx)))
  }

  /**
   * `PageData::get_string`, over bytes: None for a null row, otherwise the
   * slice between the row's two offsets.
   */
  function GetString(pd: PageData, idx: nat): (r: Option<seq<Byte>>)
    requires idx < |pd.nulls|
    requires !pd.nulls[idx] ==> idx + 1 < |pd.offsets| && pd.offsets[idx] <= pd.offsets[idx + 1] <= |pd.bytes|
    ensures r.None? <==> pd.nulls[idx]
    ensures r.Some? ==> |r.value| == pd.offsets[idx + 1] - pd.offsets[idx]
    ensures r.Some? ==> forall k :: 0 <= k < |r.value| ==> r.value[k] == pd.bytes[pd.offsets[idx] + k]
  {
    if pd.nulls[idx] then None
    else Some(pd.bytes[pd.offsets[idx] .. pd.offsets[idx + 1]])
  }

  // ----- Round trips -----

  lemma BoolsRoundTrip(data: seq<Option<bool>>, pd: PageData)
    requires BoolsEncoded(data, pd)
    ensures forall i :: 0 <= i < |data| ==> GetBool(pd, i) == data[i]
  {
  }

  lemma IntsRoundTrip(data: seq<Option<I64>>, pd: PageData)
    requires IntsEncoded(data, pd)
    ensures forall i :: 0 <= i < |data| ==> GetInt(pd, i) == data[i]
  {
    forall i | 0 <= i < |data|
      ensures GetInt(pd, i) == data[i]
    {
      I64RoundTrip(data[i].GetOr(0));
    }
  }

  lemma FloatsRoundTrip(data: seq<Option<F64Bits>>, pd: PageData)
    requires FloatsEncoded(data, pd)
    ensures forall i :: 0 <= i < |data| ==> GetFloat(pd, i) == data[i]
  {
    forall i | 0 <= i < |data|
      ensures GetFloat(pd, i) == data[i]
    {
      U64RoundTrip(data[i].GetOr(0));
    }
  }

  lemma StringsRoundTrip(data: seq<Option<seq<Byte>>>, pd: PageData)
    requires StringsEncoded(data, pd)
    ensures forall i :: 0 <= i < |data| ==> RowAt(data, i, pd.bytes, pd.offsets) && GetString(pd, i) == data[i]
  {
    forall i | 0 <= i < |data|
      ensures RowAt(data, i, pd.bytes, pd.offsets) && GetString(pd, i) == data[i]
    {
      assert RowAt(data, i, pd.bytes, pd.offsets);
    }
  }

  /** The offsets of a String page never decrease and the last one is the length of the value bytes. */
  lemma {:induction false} OffsetsSorted(data: seq<Option<seq<Byte>>>, pd: PageData, i: nat, j: nat)
    requires StringsEncoded(data, pd)
    requires i <= j <= |data|
    ensures pd.offsets[i] <= pd.offsets[j] <= |pd.bytes|
    decreases j - i
  {
    if i < j {
      assert RowAt(data, i, pd.bytes, pd.offsets);
      OffsetsSorted(data, pd, i + 1, j);
    } else if j < |data| {
      assert RowAt(data, j, pd.bytes, pd.offsets);
    }
  }

  // ----- Null independence -----

  /** pd with the word of row j replaced by w. */
  function ReplaceWord(pd: PageData, j: nat, w: seq<Byte>): (r: PageData)
    requires 8 * j + 8 <= |pd.bytes| && |w| == 8
    ensures |r.bytes| == |pd.bytes|
  {
    pd.(bytes := pd.bytes[..8 * j] + w + pd.bytes[8 * j + 8 ..])
  }

  /** Overwriting the placeholder word of a null row changes no `get_int` result. */
  lemma IntPlaceholderIgnored(pd: PageData, j: nat, w: seq<Byte>, idx: nat)
    requires j < |pd.nulls| && pd.nulls[j]
    requires 8 * j + 8 <= |pd.bytes| && |w| == 8
    requires idx < |pd.nulls|
    requires !pd.nulls[idx] ==> 8 * idx + 8 <= |pd.bytes|
    ensures GetInt(ReplaceWord(pd, j, w), idx) == GetInt(pd, idx)
  {
    if !pd.nulls[idx] {
      WordUntouched(pd, j, w, idx);
    }
  }

  /** Overwriting the placeholder word of a null row changes no `get_float` result. */
  lemma FloatPlaceholderIgnored(pd: PageData, j: nat, w: seq<Byte>, idx: nat)
    requires j < |pd.nulls| && pd.nulls[j]
    requires 8 * j + 8 <= |pd.bytes| && |w| == 8
    requires idx < |pd.nulls|
    requires !pd.nulls[idx] ==> 8 * idx + 8 <= |pd.bytes|
    ensures GetFloat(ReplaceWord(pd, j, w), idx) == GetFloat(pd, idx)
  {
    if !pd.nulls[idx] {
      WordUntouched(pd, j, w, idx);
    }
  }

  lemma WordUntouched(pd: PageData, j: nat, w: seq<Byte>, idx: nat)
    requires 8 * j + 8 <= |pd.bytes| && |w| == 8
    requires idx != j && 8 * idx + 8 <= |pd.bytes|
    ensures Word(ReplaceWord(pd, j, w).bytes, idx) == Word(pd.bytes, idx)
  {
    var b := ReplaceWord(pd, j, w).bytes;
    if idx < j {
      assert b[..8 * j] == pd.bytes[..8 * j];
      assert Word(b, idx) == b[..8 * j][8 * idx .. 8 * idx + 8];
      assert Word(pd.bytes, idx) == pd.bytes[..8 * j][8 * idx .. 8 * idx + 8];
    } else {
      assert b[8 * j + 8 ..] == pd.bytes[8 * j + 8 ..];
      assert Word(b, idx) == b[8 * j + 8 ..][8 * (idx - j - 1) .. 8 * (idx - j - 1) + 8];
      assert Word(pd.bytes, idx) == pd.bytes[8 * j + 8 ..][8 * (idx - j - 1) .. 8 * (idx - j - 1) + 8];
    }
  }

  /**
   * `get_bool` reads a non-null row's own bit only: two Bool pages with the
   * same null bitmap and the same number of value bytes that agree on the
   * bits of their non-null rows answer alike at every row.
   */
  lemma BoolPlaceholderIgnored(a: PageData, b: PageData, idx: nat)
    requires a.nulls == b.nulls && |a.bytes| == |b.bytes|
    requires forall i :: 0 <= i < |a.nulls| && i < 8 * |a.bytes| && !a.nulls[i] ==> BitAt(a.bytes, i) == BitAt(b.bytes, i)
    requires idx < |a.nulls|
    ensures GetBool(a, idx) == GetBool(b, idx)
  {
  }

  // ----- Page -----

  /** `PageMeta::new`, with the random id supplied by the caller. */
  function NewMeta(id: Uuid, typ: Type, path: string, offset: USize, size: USize): (m: PageMeta)
    ensures m.id == id && m.typ == typ && m.path == path && m.offset == offset && m.size == size
    ensures m.stats == DefaultStats
  {
    PageMeta(id, path, size, typ, offset, DefaultStats)
  }

  /** `Page::new`: the page keeps a copy of the given meta and the data. */
  function NewPage(meta: PageMeta, data: PageData): (p: Page)
    ensures p.meta == meta && p.data == data
  {
    Page(data, meta)
  }

  /** `Page::get_bool`: only for a page whose meta declares Bool. */
  function PageGetBool(p: Page, idx: nat): (r: Option<bool>)
    requires p.meta.typ == Bool
    requires idx < |p.data.nulls|
    ensures r == GetBool(p.data, idx)
  {
    GetBool(p.data, idx)
  }

  /** `Page::get_int`: only for a page whose meta declares Int. */
  function PageGetInt(p: Page, idx: nat): (r: Option<I64>)
    requires p.meta.typ == Int
    requires idx < |p.data.nulls|
    requires !p.data.nulls[idx] ==> 8 * idx + 8 <= |p.data.bytes|
    ensures r == GetInt(p.data, idx)
  {
    GetInt(p.data, idx)
  }

  /** `Page::get_float`: only for a page whose meta declares Float. */
  function PageGetFloat(p: Page, idx: nat): (r: Option<F64Bits>)
    requires p.meta.typ == Float
    requires idx < |p.data.nulls|
    requires !p.data.nulls[idx] ==> 8 * idx + 8 <= |p.data.bytes|
    ensures r == GetFloat(p.data, idx)
  {
    GetFloat(p.data, idx)
  }

  /** `Page::get_string`: only for a page whose meta declares String. */
  function PageGetString(p: Page, idx: nat): (r: Option<seq<Byte>>)
    requires p.meta.typ == String
    requires idx < |p.data.nulls|
    requires !p.data.nulls[idx] ==>
               idx + 1 < |p.data.offsets| && p.data.offsets[idx] <= p.data.offsets[idx + 1] <= |p.data.bytes|
    ensures r == GetString(p.data, idx)
  {
    GetString(p.data, idx)
  }
}
