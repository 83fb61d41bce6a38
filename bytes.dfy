/**
 * Big-endian byte packing and the `Converter` union of the packet codec.
 *
 * Bytes are `bv8`; fixed-width C integers are `bv16` and `bv32`.  The union
 * `Converter` overlays a 32-bit integer, a 16-bit integer, an 8-bit integer,
 * a float and four bytes `b[0..3]`; on the little-endian hosts the codec runs
 * on, `b[0]` is the least significant byte of every integer view.  The model
 * keeps the four bytes and rebuilds each view from them explicitly.
 */
module Bytes {

  /** The two bytes of `x`, most significant first. */
  function BE16(x: bv16): (r: seq<bv8>)
    ensures |r| == 2
    ensures FromBE16(r[0], r[1]) == x
  {
    [((x >> 8) & 0xFF) as bv8, (x & 0xFF) as bv8]
  }

  /** The 16-bit value whose big-endian bytes are `hi`, `lo`. */
  function FromBE16(hi: bv8, lo: bv8): bv16
  {
    (hi as bv16 << 8) | lo as bv16
  }

  lemma FromBE16Bytes(hi: bv8, lo: bv8)
    ensures BE16(FromBE16(hi, lo)) == [hi, lo]
  {
  }

  /** Two values with the same big-endian bytes are equal. */
  lemma BE16Injective(x: bv16, y: bv16)
    requires BE16(x) == BE16(y)
    ensures x == y
  {
    assert FromBE16(BE16(x)[0], BE16(x)[1]) == x;
  }

  /** A count below 256 as a byte. */
  function ByteOf(n: nat): (b: bv8)
    requires n < 0x100
    ensures b as nat == n
  {
    if n == 0 then 0 else ByteSucc(ByteOf(n - 1)); ByteOf(n - 1) + 1
  }

  lemma ByteSucc(x: bv8)
    requires x as nat < 0xFF
    ensures (x + 1) as nat == x as nat + 1
  {
  }

  /** A count below 65536 as a `uint16_t`, such as a packet's data length. */
  function Word16(n: nat): (w: bv16)
    requires n < 0x1_0000
    ensures w as nat == n
  {
    FromBE16Value(ByteOf(n / 0x100), ByteOf(n % 0x100));
    FromBE16(ByteOf(n / 0x100), ByteOf(n % 0x100))
  }

  /** A 16-bit word is the `Word16` of its own value. */
  lemma Word16OfValue(x: bv16)
    ensures Word16(x as nat) == x
  {
    assert (x as nat) as bv16 == x;
    assert (Word16(x as nat) as nat) as bv16 == Word16(x as nat);
  }

  /** The value of two big-endian bytes. */
  lemma FromBE16Value(hi: bv8, lo: bv8)
    ensures FromBE16(hi, lo) as nat == hi as nat * 0x100 + lo as nat
  {
    ShiftOrIsSum(hi, lo);
    SumOfBytesValue(hi as bv16, lo as bv16);
    WidenedValue(hi);
    WidenedValue(lo);
  }

  /** Shifting in a byte and or-ing the next is multiplying and adding. */
  lemma ShiftOrIsSum(hi: bv8, lo: bv8)
    ensures FromBE16(hi, lo) == hi as bv16 * 0x100 + lo as bv16
  {
  }

  /** That sum of two byte-sized words does not overflow 16 bits. */
  lemma SumOfBytesValue(h: bv16, l: bv16)
    requires h < 0x100 && l < 0x100
    ensures (h * 0x100 + l) as nat == h as nat * 0x100 + l as nat
  {
  }

  /** Widening a byte keeps its value. */
  lemma WidenedValue(x: bv8)
    ensures (x as bv16) as nat == x as nat
  {
  }

  /** The four bytes of `x`, most significant first. */
  function BE32(x: bv32): (r: seq<bv8>)
    ensures |r| == 4
  {
    [(x >> 24) as bv8, ((x >> 16) & 0xFF) as bv8, ((x >> 8) & 0xFF) as bv8, (x & 0xFF) as bv8]
  }

  /** Reading back the four bytes gives the value. */
  lemma FromBE32OfBE32(x: bv32)
    ensures FromBE32(BE32(x)) == x
  {
  }

  /**
   * The 32-bit word whose bytes, most significant first, are `x0`..`x3`:
   * the one composition both the big-endian reader and the union use.
   */
  function Word32(x0: bv8, x1: bv8, x2: bv8, x3: bv8): bv32
  {
    (x0 as bv32 << 24) | (x1 as bv32 << 16) | (x2 as bv32 << 8) | x3 as bv32
  }

  /** The 32-bit value whose big-endian bytes are `s`. */
  function FromBE32(s: seq<bv8>): bv32
    requires |s| == 4
  {
    Word32(s[0], s[1], s[2], s[3])
  }

  lemma FromBE32Bytes(s: seq<bv8>)
    requires |s| == 4
    ensures BE32(FromBE32(s)) == s
  {
  }

  /**
   * The `Converter` union: four bytes in memory order.  `I32`, `I16` and `I8`
   * are the integer members read on a little-endian host; the `float` member
   * is the same 32 bits as `I32`, kept as an opaque bit pattern.
   */
  datatype Converter = Converter(b0: bv8, b1: bv8, b2: bv8, b3: bv8)
  {
    function I32(): bv32
    {
      Word32(b3, b2, b1, b0)
    }

    function I16(): bv16
    {
      (b1 as bv16 << 8) | b0 as bv16
    }

    function I8(): bv8
    {
      b0
    }

    /** Byte `b[k]` of the union. */
    function B(k: nat): bv8
      requires k < 4
    {
      if k == 0 then b0 else if k == 1 then b1 else if k == 2 then b2 else b3
    }

    /** The union after `i32 = w` (or, with `w` a float's bits, after `f = x`). */
    static function OfI32(w: bv32): (c: Converter)
      ensures c.I32() == w
      ensures [c.B(3), c.B(2), c.B(1), c.B(0)] == BE32(w)
      ensures forall k :: 0 <= k < 4 ==> BE32(w)[k] == c.B(3 - k)
    {
      Converter((w & 0xFF) as bv8, ((w >> 8) & 0xFF) as bv8, ((w >> 16) & 0xFF) as bv8, (w >> 24) as bv8)
    }
  }
}
