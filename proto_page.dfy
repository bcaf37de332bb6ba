/**
 * The earlier, Int-only page of `src/main.rs`: its `PageData` has a value
 * buffer and a null bitmap but no offsets and no type tag. Its metadata is
 * the same record as in `src/page.rs`.
 */
module ProtoPage {
  import opened Wrappers
  import opened Bytes
  import PageCodec

  datatype PageData = PageData(bytes: seq<Byte>, nulls: seq<bool>)

  datatype Page = Page(data: PageData, meta: PageCodec.PageMeta)

  /** `PageData::from_ints` of `src/main.rs`. */
  method FromInts(data: seq<Option<I64>>) returns (pd: PageData)
    ensures PageCodec.IntRows(data, pd.bytes, pd.nulls)
  {
    var nulls: seq<bool> := [];
    var bytes: seq<Byte> := [];
    for i := 0 to |data|
      invariant PageCodec.IntRows(data[..i], bytes, nulls)
    {
      nulls := nulls + [data[i].None?];
      ghost var before := bytes;
      bytes := bytes + I64Bytes(data[i].GetOr(0));
      PageCodec.WordsKept(before, bytes, i);
    }
    assert data[..|data|] == data;
    pd := PageData(bytes, nulls);
  }

  /** `PageData::get_int` of `src/main.rs`: None for a null row, otherwise the `i64` whose encoding is row idx's word. */
  function GetInt(pd: PageData, idx: nat): (r: Option<I64>)
    requires idx < |pd.nulls|
    requires !pd.nulls[idx] ==> 8 * idx + 8 <= |pd.bytes|
    ensures r.None? <==> pd.nulls[idx]
    ensures r.Some? ==> I64Bytes(r.value) == PageCodec.Word(pd.bytes, idx)
  {
    if pd.nulls[idx] then None
    else
      I64BytesOfValue(PageCodec.Word(pd.bytes, idx));
      Some(I64Of(PageCodec.Word(pd.bytes, idx)))
  }

  lemma IntsRoundTrip(data: seq<Option<I64>>, pd: PageData)
    requires PageCodec.IntRows(data, pd.bytes, pd.nulls)
    ensures forall i :: 0 <= i < |data| ==> GetInt(pd, i) == data[i]
  {
    forall i | 0 <= i < |data|
      ensures GetInt(pd, i) == data[i]
    {
      I64RoundTrip(data[i].GetOr(0));
    }
  }

  /** The prototype's Int codec reads a buffer exactly as the final one does. */
  lemma GetIntAgrees(pd: PageData, idx: nat)
    requires idx < |pd.nulls|
    requires !pd.nulls[idx] ==> 8 * idx + 8 <= |pd.bytes|
    ensures GetInt(pd, idx) == PageCodec.GetInt(PageCodec.PageData(pd.bytes, pd.nulls, [], PageCodec.Int), idx)
  {
  }

  /** `Page::new` of `src/main.rs`: the page keeps a copy of the given meta and the data. */
  function NewPage(meta: PageCodec.PageMeta, data: PageData): (p: Page)
    ensures p.meta == meta && p.data == data
  {
    Page(data, meta)
  }

  /** `Page::get_int` of `src/main.rs`: only for a page whose meta declares Int. */
  function PageGetInt(p: Page, idx: nat): (r: Option<I64>)
    requires p.meta.typ == PageCodec.Int
    requires idx < |p.data.nulls|
    requires !p.data.nulls[idx] ==> 8 * idx + 8 <= |p.data.bytes|
    ensures r == GetInt(p.data, idx)
  {
    GetInt(p.data, idx)
  }
}
