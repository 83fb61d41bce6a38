/**
 * The decimal additive checksum of the radio wrapper
 * (`add_checksum` / `check_checksum` in src/RadioLib_wrapper.cpp).
 *
 * The checksum of a message is the sum of its character codes written in
 * decimal and left-padded with '0' to at least `_check_sum_length`
 * characters.  Sending appends it; receiving splits off the last
 * `_check_sum_length` characters, recomputes the checksum of the rest and, on
 * a match, strips it.  Characters are the 8-bit codes 0..255.  The split uses
 * Arduino's `String::substring` on the `unsigned int` difference
 * `length() - _check_sum_length`, which is modelled with its wrap-around, its
 * swap of reversed bounds and its clamping to the string's end.
 */
module RadioChecksum {
  import opened Bytes

  const ZERO_CHAR: bv8 := 0x30

  /** `_check_sum_length` when the constructor is not given one. */
  const DEFAULT_CHECK_SUM_LENGTH: int := 5

  /** `unsigned int` arithmetic is modulo 2^32. */
  const UINT_MODULUS: int := 0x1_0000_0000

  /** The sum of the character codes of `s`, added from the first to the last. */
  function SumCodes(s: seq<bv8>): nat
  {
    if |s| == 0 then 0 else SumCodes(s[..|s| - 1]) + s[|s| - 1] as nat
  }

  /** The character of the decimal digit `d`. */
  function Digit(d: nat): (c: bv8)
    requires d < 10
    ensures c as nat == 0x30 + d
  {
    ByteOf(0x30 + d)
  }

  /** `String(n)` for `n >= 0`: the decimal digits of `n`, without leading zeros. */
  function Decimal(n: nat): seq<bv8>
  {
    if n < 10 then [Digit(n)] else Decimal(n / 10) + [Digit(n % 10)]
  }

  predicate IsDigits(s: seq<bv8>)
  {
    forall i :: 0 <= i < |s| ==> 0x30 <= s[i] <= 0x39
  }

  /** The number a string of decimal digits denotes. */
  function DigitsValue(s: seq<bv8>): nat
    requires IsDigits(s)
  {
    if |s| == 0 then 0 else DigitsValue(s[..|s| - 1]) * 10 + (s[|s| - 1] as nat - 0x30)
  }

  function Pow10(k: nat): nat
  {
    if k == 0 then 1 else 10 * Pow10(k - 1)
  }

  /** `s` with '0' put in front until it is at least `width` characters long. */
  function Padded(s: seq<bv8>, width: int): seq<bv8>
    decreases width - |s|
  {
    if |s| >= width then s else Padded([ZERO_CHAR] + s, width)
  }

  /**
   * The checksum text of `msg`.  The padding loop compares the unsigned
   * `length()` with `_check_sum_length`, which C converts to unsigned first.
   */
  function Checksum(msg: seq<bv8>, width: int): seq<bv8>
  {
    Padded(Decimal(SumCodes(msg)), Unsigned(width))
  }

  /** A C `unsigned int` value of the integer `x`. */
  function Unsigned(x: int): (u: nat)
    ensures u < UINT_MODULUS
  {
    x % UINT_MODULUS
  }

  /**
   * Arduino's `substring(left, right)`: reversed bounds are swapped, a start
   * at or past the end gives "", an end past the end is cut to it.
   */
  function Substring(s: seq<bv8>, left: nat, right: nat): (r: seq<bv8>)
    ensures |r| <= |s|
    ensures left <= right <= |s| ==> r == s[left..right]
    ensures left <= |s| <= right ==> r == s[left..]
    ensures |s| <= left && |s| <= right ==> r == []
  {
    var lo := if left > right then right else left;
    var hi := if left > right then left else right;
    if lo >= |s| then [] else s[lo..if hi > |s| then |s| else hi]
  }

  /** The order of the two bounds does not matter. */
  lemma SubstringSwap(s: seq<bv8>, left: nat, right: nat)
    ensures Substring(s, left, right) == Substring(s, right, left)
  {
  }

  /** `msg.substring(msg.length() - _check_sum_length)`. */
  function ProvidedChecksum(msg: seq<bv8>, width: int): seq<bv8>
  {
    Substring(msg, Unsigned(|msg| - width), |msg|)
  }

  /** `msg.substring(0, msg.length() - _check_sum_length)`. */
  function OriginalMessage(msg: seq<bv8>, width: int): seq<bv8>
  {
    Substring(msg, 0, Unsigned(|msg| - width))
  }

  /** What `check_checksum` decides. */
  predicate Verified(msg: seq<bv8>, width: int)
  {
    Checksum(OriginalMessage(msg, width), width) == ProvidedChecksum(msg, width)
  }

  /** The summing loop of both methods: `sum += msg.charAt(i)` for each `i`. */
  method CharSum(msg: seq<bv8>) returns (sum: nat)
    ensures sum == SumCodes(msg)
  {
    sum := 0;
    var i := 0;
    while i < |msg|
      invariant i <= |msg|
      invariant sum == SumCodes(msg[..i])
    {
      assert msg[..i + 1][..i] == msg[..i];
      sum := sum + msg[i] as nat;
      i := i + 1;
    }
    assert msg[..|msg|] == msg;
  }

  /** The padding loop of both methods: `checksum = "0" + checksum` while it is too short. */
  method PadWithZeros(checksum: seq<bv8>, width: int) returns (padded: seq<bv8>)
    ensures padded == Padded(checksum, Unsigned(width))
  {
    padded := checksum;
    while |padded| < Unsigned(width)
      invariant Padded(padded, Unsigned(width)) == Padded(checksum, Unsigned(width))
      decreases Unsigned(width) - |padded|
    {
      padded := [ZERO_CHAR] + padded;
    }
  }

  /** The part of `RadioLib_Wrapper` the checksum uses. */
  class RadioLibWrapper {
    var checkSumLength: int

    /** The wrapper with the given checksum length (5 by default). */
    constructor(checkSumLength: int)
      ensures this.checkSumLength == checkSumLength
    {
      this.checkSumLength := checkSumLength;
    }

    /** `add_checksum`: the message with its checksum text appended. */
    method AddChecksum(msg: seq<bv8>) returns (newMsg: seq<bv8>)
      ensures newMsg == msg + Checksum(msg, checkSumLength)
    {
      var sum := CharSum(msg);
      var checksum := Decimal(sum);
      checksum := PadWithZeros(checksum, checkSumLength);
      newMsg := msg + checksum;
    }

    /**
     * `check_checksum`: whether the last `checkSumLength` characters are the
     * checksum of the rest; if so the message loses them, otherwise it is
     * left as it was.
     */
    method CheckChecksum(msg: seq<bv8>) returns (ok: bool, newMsg: seq<bv8>)
      requires |msg| < UINT_MODULUS
      ensures ok == Verified(msg, checkSumLength)
      ensures newMsg == if ok then OriginalMessage(msg, checkSumLength) else msg
    {
      var width := checkSumLength;
      var providedChecksum := Substring(msg, Unsigned(|msg| - width), |msg|);
      var originalMsg := Substring(msg, 0, Unsigned(|msg| - width));
      assert providedChecksum == ProvidedChecksum(msg, width) && originalMsg == OriginalMessage(msg, width);
      var sum := CharSum(originalMsg);
      var calculatedChecksum := Decimal(sum);
      calculatedChecksum := PadWithZeros(calculatedChecksum, width);
      assert calculatedChecksum == Checksum(originalMsg, width);
      if calculatedChecksum == providedChecksum {
        newMsg := originalMsg;
        ok := true;
      } else {
        newMsg := msg;
        ok := false;
      }
    }
  }

  /** The sum of a concatenation is the sum of the sums. */
  lemma {:induction false} SumCodesAppend(a: seq<bv8>, b: seq<bv8>)
    ensures SumCodes(a + b) == SumCodes(a) + SumCodes(b)
    decreases |b|
  {
    if |b| > 0 {
      var b' := b[..|b| - 1];
      assert (a + b)[..|a + b| - 1] == a + b';
      SumCodesAppend(a, b');
    } else {
      assert a + b == a;
    }
  }

  /** Each character adds at most 255. */
  lemma {:induction false} SumCodesBound(s: seq<bv8>)
    ensures SumCodes(s) <= 255 * |s|
    decreases |s|
  {
    if |s| > 0 {
      SumCodesBound(s[..|s| - 1]);
    }
  }

  /** `String(n)` is a string of digits denoting `n`, with no leading zero unless it is "0". */
  lemma {:induction false} DecimalDenotes(n: nat)
    ensures IsDigits(Decimal(n)) && DigitsValue(Decimal(n)) == n
    ensures |Decimal(n)| >= 1 && (Decimal(n)[0] == ZERO_CHAR ==> n == 0)
  {
    if n >= 10 {
      DecimalDenotes(n / 10);
      var s := Decimal(n);
      assert s[..|s| - 1] == Decimal(n / 10);
    }
  }

  /** A number below `10^k` has at most `k` digits. */
  lemma {:induction false} DecimalLength(n: nat, k: nat)
    requires k >= 1 && n < Pow10(k)
    ensures |Decimal(n)| <= k
  {
    if n >= 10 {
      DecimalLength(n / 10, k - 1);
    }
  }

  /**
   * Padding puts '0' in front of `s` until it reaches `width`; when `s` is
   * already as long as that, it is left as it is.
   */
  lemma {:induction false} PaddedShape(s: seq<bv8>, width: int)
    ensures var p := Padded(s, width);
      && |p| == (if |s| >= width then |s| else width)
      && p[|p| - |s|..] == s
      && (forall i :: 0 <= i < |p| - |s| ==> p[i] == ZERO_CHAR)
    decreases width - |s|
  {
    if |s| < width {
      PaddedShape([ZERO_CHAR] + s, width);
      var p := Padded(s, width);
      assert p[|p| - |s| - 1..][1..] == p[|p| - |s|..];
    }
  }

  /** A leading '0' does not change the number a digit string denotes. */
  lemma {:induction false} LeadingZeroValue(s: seq<bv8>)
    requires IsDigits(s)
    ensures IsDigits([ZERO_CHAR] + s) && DigitsValue([ZERO_CHAR] + s) == DigitsValue(s)
    decreases |s|
  {
    if |s| > 0 {
      var t := [ZERO_CHAR] + s;
      assert t[..|t| - 1] == [ZERO_CHAR] + s[..|s| - 1];
      LeadingZeroValue(s[..|s| - 1]);
    }
  }

  /** Padding keeps the number the digits denote. */
  lemma {:induction false} PaddedValue(s: seq<bv8>, width: int)
    requires IsDigits(s)
    ensures IsDigits(Padded(s, width)) && DigitsValue(Padded(s, width)) == DigitsValue(s)
    decreases width - |s|
  {
    if |s| < width {
      LeadingZeroValue(s);
      PaddedValue([ZERO_CHAR] + s, width);
    }
  }

  /** Equal checksum texts mean equal sums: the text never hides a difference in the sum. */
  lemma ChecksumDeterminesSum(a: seq<bv8>, b: seq<bv8>, width: int)
    requires Checksum(a, width) == Checksum(b, width)
    ensures SumCodes(a) == SumCodes(b)
  {
    DecimalDenotes(SumCodes(a));
    DecimalDenotes(SumCodes(b));
    PaddedValue(Decimal(SumCodes(a)), Unsigned(width));
    PaddedValue(Decimal(SumCodes(b)), Unsigned(width));
  }

  /**
   * The checksum only sees the sum: swapping two parts of a message leaves it
   * unchanged, so such a corruption goes unnoticed.
   */
  lemma SwapKeepsChecksum(a: seq<bv8>, b: seq<bv8>, width: int)
    ensures Checksum(a + b, width) == Checksum(b + a, width)
  {
    SumCodesAppend(a, b);
    SumCodesAppend(b, a);
  }

  /**
   * A sum with more digits than `width` is appended unpadded, so the text
   * added is longer than `width`.
   */
  lemma LongSumUnpadded(msg: seq<bv8>, width: int)
    requires 0 <= width < UINT_MODULUS && |Decimal(SumCodes(msg))| > width
    ensures Checksum(msg, width) == Decimal(SumCodes(msg)) && |Checksum(msg, width)| > width
  {
    assert Unsigned(width) == width;
  }

  /** With `width` at least one and the sum within `width` digits, the checksum is exactly `width` characters. */
  lemma ChecksumLength(msg: seq<bv8>, width: int)
    requires 1 <= width < UINT_MODULUS && SumCodes(msg) < Pow10(width)
    ensures |Checksum(msg, width)| == width
  {
    assert Unsigned(width) == width;
    DecimalLength(SumCodes(msg), width);
    PaddedShape(Decimal(SumCodes(msg)), width);
  }

  /**
   * The round trip: when the sum fits in `width` digits, checking a message
   * with its checksum appended succeeds and gives the message back.
   */
  lemma AddThenCheck(msg: seq<bv8>, width: int)
    requires width >= 1 && SumCodes(msg) < Pow10(width)
    requires |msg| + width < UINT_MODULUS
    ensures var sent := msg + Checksum(msg, width);
      && OriginalMessage(sent, width) == msg
      && ProvidedChecksum(sent, width) == Checksum(msg, width)
      && Verified(sent, width)
  {
    var c := Checksum(msg, width);
    var sent := msg + c;
    ChecksumLength(msg, width);
    SplitInRange(sent, width);
    assert sent[|msg|..] == c;
    assert sent[..|msg|] == msg;
  }

  /** When the message is at least `width` long, the split is the plain one at `|msg| - width`. */
  lemma SplitInRange(msg: seq<bv8>, width: int)
    requires 1 <= width <= |msg| < UINT_MODULUS
    ensures ProvidedChecksum(msg, width) == msg[|msg| - width..]
    ensures OriginalMessage(msg, width) == msg[..|msg| - width]
  {
    assert Unsigned(|msg| - width) == |msg| - width;
  }

  /** With the default length of 5, every message of up to 392 characters round-trips. */
  lemma DefaultLengthSuffices(msg: seq<bv8>)
    requires |msg| <= 392
    ensures SumCodes(msg) < Pow10(DEFAULT_CHECK_SUM_LENGTH)
  {
    SumCodesBound(msg);
    assert Pow10(5) == 100000 by {
      assert Pow10(1) == 10 && Pow10(2) == 100 && Pow10(3) == 1000 && Pow10(4) == 10000;
    }
  }

  /**
   * A message shorter than the checksum length, or any message when the
   * length is not positive, never checks: the provided part is "" while the
   * computed checksum has at least one digit.
   */
  lemma ShortMessageFails(msg: seq<bv8>, width: int)
    requires |msg| < width < UINT_MODULUS || (width <= 0 && |msg| - width < UINT_MODULUS)
    ensures ProvidedChecksum(msg, width) == [] && OriginalMessage(msg, width) == msg
    ensures !Verified(msg, width)
  {
    var u := Unsigned(|msg| - width);
    WrappedSplitPastEnd(|msg|, width);
    assert ProvidedChecksum(msg, width) == Substring(msg, u, |msg|) == [];
    assert OriginalMessage(msg, width) == Substring(msg, 0, u) == msg[0..|msg|];
    DecimalDenotes(SumCodes(OriginalMessage(msg, width)));
    PaddedShape(Decimal(SumCodes(OriginalMessage(msg, width))), Unsigned(width));
  }

  /** In those cases the unsigned split point lies at or past the end of the message. */
  lemma WrappedSplitPastEnd(n: nat, width: int)
    requires n < width < UINT_MODULUS || (width <= 0 && n - width < UINT_MODULUS)
    ensures Unsigned(n - width) >= n
  {
    if width > n {
      assert Unsigned(n - width) == n - width + UINT_MODULUS;
    } else {
      assert Unsigned(n - width) == n - width;
    }
  }
}
