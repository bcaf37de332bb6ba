/**
 * A `BitVec<LittleEndian, u8>` of the `bitvec` crate: a sequence of bits
 * stored eight to a byte, bit i in byte i / 8 at position i % 8 counted from
 * the least significant bit. `as_slice` gives the storage bytes (the unused
 * high bits of the last byte are zero); `from_slice` views bytes as bits.
 */
module Bitmap {
  import opened Bytes

  function Pow2(n: nat): (r: nat)
    ensures r > 0
  {
    if n == 0 then 1 else 2 * Pow2(n - 1)
  }

  lemma {:induction false} Pow2AtMost256(n: nat)
    requires n <= 8
    ensures Pow2(n) <= 256
    decreases 8 - n
  {
    if n < 8 {
      Pow2AtMost256(n + 1);
    }
  }

  /** The number whose bit k is bits[k], least significant first. */
  function BitsValue(bits: seq<bool>): (r: nat)
    ensures r < Pow2(|bits|)
  {
    if bits == [] then 0 else (if bits[0] then 1 else 0) + 2 * BitsValue(bits[1..])
  }

  /** Bit k of x, counted from the least significant bit. */
  predicate BitOf(x: nat, k: nat) {
    if k == 0 then x % 2 == 1 else BitOf(x / 2, k - 1)
  }

  lemma {:induction false} BitOfBitsValue(bits: seq<bool>, k: nat)
    ensures BitOf(BitsValue(bits), k) == (k < |bits| && bits[k])
  {
    if bits == [] {
      NoBitOfZero(k);
    } else if k > 0 {
      assert BitsValue(bits) / 2 == BitsValue(bits[1..]);
      BitOfBitsValue(bits[1..], k - 1);
    }
  }

  lemma {:induction false} NoBitOfZero(k: nat)
    ensures !BitOf(0, k)
  {
    if k > 0 {
      NoBitOfZero(k - 1);
    }
  }

  /** One storage byte holding up to eight bits. */
  function PackByte(bits: seq<bool>): Byte
    requires |bits| <= 8
  {
    Pow2AtMost256(|bits|);
    BitsValue(bits)
  }

  /** `BitVec::as_slice` of a bit vector with the given bits: ceil(n / 8) bytes. */
  function PackBits(bits: seq<bool>): (r: seq<Byte>)
    ensures |r| == (|bits| + 7) / 8
  {
    if bits == [] then []
    else if |bits| <= 8 then [PackByte(bits)]
    else [PackByte(bits[..8])] + PackBits(bits[8..])
  }

  /** Bit i of a byte slice viewed by `BitVec::from_slice`. */
  predicate BitAt(bytes: seq<Byte>, i: nat)
    requires i < 8 * |bytes|
  {
    BitOf(bytes[i / 8], i % 8)
  }

  /** `BitVec::from_slice`: every bit of every byte, 8 * |bytes| of them. */
  function UnpackBits(bytes: seq<Byte>): (r: seq<bool>)
    ensures |r| == 8 * |bytes|
  {
    seq(8 * |bytes|, i requires 0 <= i < 8 * |bytes| => BitAt(bytes, i))
  }

  /**
   * Bit i of the packed bytes is bits[i] for a stored bit, and zero for a
   * padding bit of the last byte.
   */
  lemma {:induction false} PackBitsAt(bits: seq<bool>, i: nat)
    requires i < 8 * |PackBits(bits)|
    ensures BitAt(PackBits(bits), i) == (i < |bits| && bits[i])
  {
    var packed := PackBits(bits);
    if |bits| <= 8 {
      BitOfBitsValue(bits, i);
    } else if i < 8 {
      BitOfBitsValue(bits[..8], i);
    } else {
      assert packed[i / 8] == PackBits(bits[8..])[(i - 8) / 8];
      PackBitsAt(bits[8..], i - 8);
    }
  }

  /**
   * Viewing the packed bytes of a bit vector as bits gives the bits back,
   * followed by zero padding up to a whole number of bytes.
   */
  lemma UnpackPackBits(bits: seq<bool>)
    ensures |UnpackBits(PackBits(bits))| == 8 * ((|bits| + 7) / 8)
    ensures forall i :: 0 <= i < |UnpackBits(PackBits(bits))| ==>
              UnpackBits(PackBits(bits))[i] == (i < |bits| && bits[i])
  {
    forall i | 0 <= i < |UnpackBits(PackBits(bits))|
      ensures UnpackBits(PackBits(bits))[i] == (i < |bits| && bits[i])
    {
      PackBitsAt(bits, i);
    }
  }
}
