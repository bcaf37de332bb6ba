/**
 * Bytes and fixed-width integers as the `byteorder` crate reads and writes
 * them: unsigned and two's-complement signed 64-bit words, little-endian.
 */
module Bytes {

  /** A Rust `u8`. */
  type Byte = x: int | 0 <= x < 256

  const TwoTo63: nat := 0x8000_0000_0000_0000
  const TwoTo64: nat := 0x1_0000_0000_0000_0000

  /** A Rust `u64`; on the 64-bit targets the source is built for, also a `usize`. */
  type U64 = x: int | 0 <= x < 0x1_0000_0000_0000_0000
  type USize = U64

  /** A Rust `i64`. */
  type I64 = x: int | -0x8000_0000_0000_0000 <= x < 0x8000_0000_0000_0000

  function Pow256(n: nat): (r: nat)
    ensures r > 0
  {
    if n == 0 then 1 else 256 * Pow256(n - 1)
  }

  lemma Pow256Eight()
    ensures Pow256(8) == TwoTo64
  {
  }

  /** The n least significant bytes of u, least significant first (`write_uN::<LittleEndian>`). */
  function LeBytes(u: nat, n: nat): (r: seq<Byte>)
    ensures |r| == n
  {
    if n == 0 then [] else [u % 256] + LeBytes(u / 256, n - 1)
  }

  /** The unsigned value of a little-endian byte string (`read_uN::<LittleEndian>`). */
  function LeValue(s: seq<Byte>): (r: nat)
    ensures r < Pow256(|s|)
  {
    if s == [] then 0 else s[0] + 256 * LeValue(s[1..])
  }

  /** Reading back what was written gives the value, as long as it fits in n bytes. */
  lemma {:induction false} LeValueOfBytes(u: nat, n: nat)
    requires u < Pow256(n)
    ensures LeValue(LeBytes(u, n)) == u
  {
    if n > 0 {
      LeValueOfBytes(u / 256, n - 1);
      assert LeBytes(u, n)[1..] == LeBytes(u / 256, n - 1);
    }
  }

  /** Writing back what was read gives the same bytes. */
  lemma {:induction false} LeBytesOfValue(s: seq<Byte>)
    ensures LeBytes(LeValue(s), |s|) == s
  {
    if s != [] {
      LeBytesOfValue(s[1..]);
      var v := LeValue(s);
      assert v % 256 == s[0] && v / 256 == LeValue(s[1..]);
    }
  }

  /** The bit pattern of an `i64` read as a `u64` (two's complement). */
  function Unsigned(v: I64): U64 {
    if v < 0 then v + TwoTo64 else v
  }

  /** The `i64` whose two's-complement pattern is u. */
  function Signed(u: U64): I64 {
    if u >= TwoTo63 then u - TwoTo64 else u
  }

  /** `write_u64::<LittleEndian>`. */
  function U64Bytes(u: U64): (r: seq<Byte>)
    ensures |r| == 8
  {
    LeBytes(u, 8)
  }

  /** `read_u64::<LittleEndian>` of an 8-byte slice. */
  function U64Of(s: seq<Byte>): U64
    requires |s| == 8
  {
    Pow256Eight();
    LeValue(s)
  }

  /** `write_i64::<LittleEndian>`. */
  function I64Bytes(v: I64): (r: seq<Byte>)
    ensures |r| == 8
  {
    U64Bytes(Unsigned(v))
  }

  /** `read_i64::<LittleEndian>` of an 8-byte slice. */
  function I64Of(s: seq<Byte>): I64
    requires |s| == 8
  {
    Signed(U64Of(s))
  }

  lemma U64RoundTrip(u: U64)
    ensures U64Of(U64Bytes(u)) == u
  {
    Pow256Eight();
    LeValueOfBytes(u, 8);
  }

  lemma U64BytesOfValue(s: seq<Byte>)
    requires |s| == 8
    ensures U64Bytes(U64Of(s)) == s
  {
    LeBytesOfValue(s);
  }

  /** Decoding an encoded `i64` gives it back. */
  lemma I64RoundTrip(v: I64)
    ensures I64Of(I64Bytes(v)) == v
  {
    U64RoundTrip(Unsigned(v));
  }

  /** Every 8-byte word is the encoding of the `i64` read from it. */
  lemma I64BytesOfValue(s: seq<Byte>)
    requires |s| == 8
    ensures I64Bytes(I64Of(s)) == s
  {
    U64BytesOfValue(s);
  }
}
