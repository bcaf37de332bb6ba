/**
 * The page file of `src/page.rs` (`PageWriter` and `PageReader`), with the
 * file as a byte sequence:
 *   an 8-byte little-endian u64 L, the byte length of the null bitmap;
 *   the L bitmap bytes;
 *   for String pages, one 8-byte little-endian word per offset;
 *   the value bytes through the Snappy frame encoder.
 */
module PageFile {
  import opened Wrappers
  import opened Bytes
  import opened Bitmap
  import opened PageCodec

  /** The Snappy frame encoder, taken as the identity. */
  function Compress(payload: seq<Byte>): seq<Byte> {
    payload
  }

  /** The Snappy frame decoder, taken as the identity. */
  function Decompress(stream: seq<Byte>): seq<Byte> {
    stream
  }

  // ----- Writer -----

  /** `PageWriter::write_nulls`: the bitmap's byte length as a u64, then the bitmap's bytes. */
  function NullsSection(pd: PageData): (r: seq<Byte>)
    ensures |r| == 8 + (|pd.nulls| + 7) / 8
    ensures r[..8] == LeBytes((|pd.nulls| + 7) / 8, 8) && r[8..] == PackBits(pd.nulls)
  {
    var packed := PackBits(pd.nulls);
    LeBytes(|packed|, 8) + packed
  }

  /** `PageWriter::write_offsets`: every offset as an 8-byte little-endian word, in order. */
  function OffsetsSection(offsets: seq<USize>): (r: seq<Byte>)
    ensures |r| == 8 * |offsets|
  {
    if offsets == [] then [] else U64Bytes(offsets[0]) + OffsetsSection(offsets[1..])
  }

  /** Word k of the offset section is the encoding of offsets[k]. */
  lemma {:induction false} OffsetsSectionAt(offsets: seq<USize>, k: nat)
    requires k < |offsets|
    ensures OffsetsSection(offsets)[8 * k .. 8 * k + 8] == U64Bytes(offsets[k])
  {
    if k > 0 {
      OffsetsSectionAt(offsets[1..], k - 1);
      assert OffsetsSection(offsets)[8 * k .. 8 * k + 8] == OffsetsSection(offsets[1..])[8 * (k - 1) .. 8 * (k - 1) + 8];
    }
  }

  /**
   * `PageWriter::write`: the file holds the bitmap length ceil(n / 8) and the
   * bitmap, then the offset words (none unless the page has offsets), then
   * the compressed value bytes.
   */
  function Serialize(p: Page): (file: seq<Byte>)
    ensures var n, offsets := |p.data.nulls|, p.data.offsets;
      var h := 8 + (n + 7) / 8;
      && |file| == h + 8 * |offsets| + |Compress(p.data.bytes)|
      && file[..h] == NullsSection(p.data)
      && file[..8] == LeBytes((n + 7) / 8, 8)
      && file[8 .. h] == PackBits(p.data.nulls)
      && file[h .. h + 8 * |offsets|] == OffsetsSection(offsets)
      && file[h + 8 * |offsets| ..] == Compress(p.data.bytes)
  {
    var packed, words, payload := PackBits(p.data.nulls), OffsetsSection(p.data.offsets), Compress(p.data.bytes);
    var file := LeBytes(|packed|, 8) + packed + words + payload;
    assert file == NullsSection(p.data) + words + payload;
    Slices(LeBytes(|packed|, 8) + packed, words, payload);
    Slices(LeBytes(|packed|, 8), packed, []);
    assert file[..8 + |packed|] == LeBytes(|packed|, 8) + packed;
    assert file[..8] == (file[..8 + |packed|])[..8];
    assert file[8 .. 8 + |packed|] == (file[..8 + |packed|])[8..];
    file
  }

  lemma Slices<T>(a: seq<T>, b: seq<T>, c: seq<T>)
    ensures (a + b + c)[..|a|] == a && (a + b + c)[|a| .. |a| + |b|] == b && (a + b + c)[|a| + |b| ..] == c
  {
  }

  // ----- Reader -----

  /**
   * `file.read(&mut buf)` for a zero-filled buffer of n bytes with the file
   * cursor at pos: the buffer gets the bytes the file still has, up to n,
   * and keeps zeros after them; the cursor moves past what was read.
   */
  function ReadInto(file: seq<Byte>, pos: nat, n: nat): (r: (seq<Byte>, nat))
    requires pos <= |file|
    ensures |r.0| == n && pos <= r.1 <= |file|
    ensures pos + n <= |file| ==> r.0 == file[pos .. pos + n] && r.1 == pos + n
  {
    var k := if pos + n <= |file| then n else |file| - pos;
    (file[pos .. pos + k] + seq(n - k, _ => 0), pos + k)
  }

  /** `offset_bytes.chunks(8).map(read_u64)`: one offset per 8-byte word. */
  function ReadOffsets(words: seq<Byte>): (r: seq<USize>)
    requires |words| % 8 == 0
    ensures |r| == |words| / 8
  {
    if words == [] then [] else [U64Of(words[..8])] + ReadOffsets(words[8..])
  }

  lemma {:induction false} ReadOffsetsSection(offsets: seq<USize>)
    ensures ReadOffsets(OffsetsSection(offsets)) == offsets
  {
    if offsets != [] {
      var words := OffsetsSection(offsets);
      assert words[..8] == U64Bytes(offsets[0]) && words[8..] == OffsetsSection(offsets[1..]);
      U64RoundTrip(offsets[0]);
      ReadOffsetsSection(offsets[1..]);
    }
  }

  /**
   * `PageReader::read`: the bitmap length, that many bitmap bytes viewed as
   * bits, (meta.size + 1) offset words only for a String page, and the
   * decompressed rest of the file; the page keeps the given meta.
   */
  function Parse(meta: PageMeta, file: seq<Byte>): (p: Page)
    ensures p.meta == meta && p.data.typ == meta.typ
    ensures |p.data.nulls| % 8 == 0
    ensures meta.typ == String ==> |p.data.offsets| == meta.size + 1
    ensures meta.typ != String ==> p.data.offsets == []
  {
    var (header, afterHeader) := ReadInto(file, 0, 8);
    var (nullBytes, afterNulls) := ReadInto(file, afterHeader, U64Of(header));
    var (offsets, afterOffsets) :=
      if meta.typ == String then
        var (words, afterWords) := ReadInto(file, afterNulls, (meta.size + 1) * 8);
        (ReadOffsets(words), afterWords)
      else ([], afterNulls);
    NewPage(meta, PageData(Decompress(file[afterOffsets..]), UnpackBits(nullBytes), offsets, meta.typ))
  }

  // ----- Round trip -----

  /** A page the reader can read back: its meta agrees with its data, and only String pages carry (size + 1) offsets. */
  ghost predicate Storable(p: Page) {
    && p.meta.typ == p.data.typ
    && p.meta.size == |p.data.nulls|
    && (p.data.typ == String ==> |p.data.offsets| == |p.data.nulls| + 1)
    && (p.data.typ != String ==> p.data.offsets == [])
  }

  /** Writing a page and reading its file back. */
  function Reload(p: Page): Page {
    Parse(p.meta, Serialize(p))
  }

  /**
   * Reading back a written page gives its meta, type, offsets and value
   * bytes, and its null bits followed by zero bits up to a whole number of
   * bitmap bytes.
   */
  lemma ParseSerialize(p: Page)
    requires Storable(p)
    ensures Reload(p).meta == p.meta && Reload(p).data.typ == p.data.typ
    ensures Reload(p).data.offsets == p.data.offsets
    ensures Reload(p).data.bytes == p.data.bytes
    ensures |Reload(p).data.nulls| == 8 * ((|p.data.nulls| + 7) / 8)
    ensures forall i :: 0 <= i < |Reload(p).data.nulls| ==>
              Reload(p).data.nulls[i] == (i < |p.data.nulls| && p.data.nulls[i])
  {
    var file := Serialize(p);
    var n, offsets := |p.data.nulls|, p.data.offsets;
    var len := (n + 7) / 8;
    var h := 8 + len;
    var packed := PackBits(p.data.nulls);
    assert ReadInto(file, 0, 8) == (U64Bytes(len), 8);
    U64RoundTrip(len);
    assert ReadInto(file, 8, len) == (packed, h);
    var stored: seq<USize> := [];
    var payloadAt := h;
    if p.meta.typ == String {
      assert ReadInto(file, h, (p.meta.size + 1) * 8) == (OffsetsSection(offsets), h + 8 * |offsets|);
      ReadOffsetsSection(offsets);
      stored, payloadAt := offsets, h + 8 * |offsets|;
    }
    assert Reload(p) == Page(PageData(p.data.bytes, UnpackBits(packed), stored, p.meta.typ), p.meta);
    UnpackPackBits(p.data.nulls);
  }

  /** A Bool page written and read back answers `get_bool` as its column did. */
  lemma BoolPagePersists(values: seq<Option<bool>>, p: Page)
    requires BoolsEncoded(values, p.data) && p.meta.typ == Bool && p.meta.size == |values|
    ensures |Reload(p).data.nulls| >= |values|
    ensures forall i :: 0 <= i < |values| ==> PageGetBool(Reload(p), i) == values[i]
  {
    ParseSerialize(p);
    BoolsRoundTrip(values, p.data);
  }

  /** An Int page written and read back answers `get_int` as its column did. */
  lemma IntPagePersists(values: seq<Option<I64>>, p: Page)
    requires IntsEncoded(values, p.data) && p.meta.typ == Int && p.meta.size == |values|
    ensures |Reload(p).data.nulls| >= |values| && Reload(p).data.bytes == p.data.bytes
    ensures forall i :: 0 <= i < |values| ==> Reload(p).data.nulls[i] == p.data.nulls[i]
    ensures forall i :: 0 <= i < |values| ==> PageGetInt(Reload(p), i) == values[i]
  {
    ParseSerialize(p);
    IntsRoundTrip(values, p.data);
  }

  /** A Float page written and read back answers `get_float` as its column did. */
  lemma FloatPagePersists(values: seq<Option<F64Bits>>, p: Page)
    requires FloatsEncoded(values, p.data) && p.meta.typ == Float && p.meta.size == |values|
    ensures |Reload(p).data.nulls| >= |values| && Reload(p).data.bytes == p.data.bytes
    ensures forall i :: 0 <= i < |values| ==> Reload(p).data.nulls[i] == p.data.nulls[i]
    ensures forall i :: 0 <= i < |values| ==> PageGetFloat(Reload(p), i) == values[i]
  {
    ParseSerialize(p);
    FloatsRoundTrip(values, p.data);
  }

  /** A String page written and read back answers `get_string` as its column did. */
  lemma StringPagePersists(values: seq<Option<seq<Byte>>>, p: Page)
    requires StringsEncoded(values, p.data) && p.meta.typ == String && p.meta.size == |values|
    ensures |Reload(p).data.nulls| >= |values| && Reload(p).data == p.data.(nulls := Reload(p).data.nulls)
    ensures forall i :: 0 <= i < |values| ==> Reload(p).data.nulls[i] == p.data.nulls[i]
    ensures forall i :: 0 <= i < |values| ==>
              RowAt(values, i, p.data.bytes, p.data.offsets) && PageGetString(Reload(p), i) == values[i]
  {
    ParseSerialize(p);
    StringsRoundTrip(values, p.data);
  }
}
