/**
 * The CRC-16 trailer of telemetry packets (src/Ccsds_packets.cpp).
 *
 * The engine is the reflected CCITT polynomial 0x1021, written 0x8408 for
 * right shifts, starting from 0xFFFF with no final XOR: the catalogue variant
 * CRC-16/MCRF4XX.  The checksum is stored most significant byte first in the
 * last two bytes of the packet and covers every byte before them.
 */
module Crc16 {
  import opened Bytes

  const INIT: bv16 := 0xFFFF
  const POLY: bv16 := 0x8408

  /** One bit step: shift right, folding in the polynomial when the dropped bit was 1. */
  function Step(crc: bv16): bv16
  {
    if crc & 1 == 1 then (crc >> 1) ^ POLY else crc >> 1
  }

  /** `n` bit steps. */
  function Steps(crc: bv16, n: nat): bv16
  {
    if n == 0 then crc else Step(Steps(crc, n - 1))
  }

  /** The register after absorbing one byte: XOR into the low 8 bits, then 8 bit steps. */
  function UpdateByte(crc: bv16, b: bv8): bv16
  {
    Steps(crc ^ b as bv16, 8)
  }

  /** The register after absorbing `s` in order, starting from `crc`. */
  function CrcFrom(crc: bv16, s: seq<bv8>): bv16
    decreases |s|
  {
    if |s| == 0 then crc else UpdateByte(CrcFrom(crc, s[..|s| - 1]), s[|s| - 1])
  }

  /** CRC-16/MCRF4XX of `s`. */
  function Crc16(s: seq<bv8>): bv16
  {
    CrcFrom(INIT, s)
  }

  /** `s` followed by its CRC, most significant byte first. */
  function Stamped(s: seq<bv8>): seq<bv8>
  {
    s + BE16(Crc16(s))
  }

  /** The last two bytes of `p` are the big-endian CRC of the bytes before them. */
  predicate CrcValid(p: seq<bv8>)
  {
    |p| >= 2 && p[|p| - 2..] == BE16(Crc16(p[..|p| - 2]))
  }

  /** `calculate_crc_16_ccitt`: the CRC of `data[0..length)`, and of nothing else. */
  method CalculateCrc16(data: array<bv8>, length: nat) returns (crc: bv16)
    requires length <= data.Length
    ensures crc == Crc16(data[..length])
  {
    crc := INIT;
    var i := 0;
    while i < length
      invariant i <= length
      invariant crc == Crc16(data[..i])
    {
      assert data[..i + 1][..i] == data[..i];
      crc := crc ^ data[i] as bv16;
      ghost var start := crc;
      var j := 0;
      while j < 8
        invariant j <= 8
        invariant crc == Steps(start, j)
      {
        if crc & 0x0001 == 1 {
          crc := crc >> 1;
          crc := crc ^ POLY;
        } else {
          crc := crc >> 1;
        }
        j := j + 1;
      }
      i := i + 1;
    }
  }

  /**
   * `add_crc_16_cciit_to_ccsds_packet`: stamps the CRC of the first
   * `length - 2` bytes into bytes `length - 2` (MSB) and `length - 1` (LSB).
   */
  method AddCrc(packet: array<bv8>, length: nat)
    requires 2 <= length <= packet.Length
    modifies packet
    ensures packet[..] == Stamped(old(packet[..length - 2])) + old(packet[length..])
    ensures CrcValid(packet[..length])
  {
    var crc := CalculateCrc16(packet, length - 2);
    packet[length - 2] := ((crc >> 8) & 0xFF) as bv8;
    packet[length - 1] := (crc & 0xFF) as bv8;
    assert packet[..length - 2] == old(packet[..length - 2]);
    assert packet[..] == packet[..length - 2] + packet[length - 2..length] + packet[length..];
    assert packet[..length][..length - 2] == packet[..length - 2];
  }

  /**
   * `check_crc_16_cciit_of_ccsds_packet`: true exactly when the trailing two
   * bytes are the CRC of the first `length - 2`; the packet is not changed.
   */
  method CheckCrc(packet: array<bv8>, length: nat) returns (ok: bool)
    requires 2 <= length <= packet.Length
    ensures ok <==> CrcValid(packet[..length])
  {
    var crc := CalculateCrc16(packet, length - 2);
    ok := packet[length - 2] == ((crc >> 8) & 0xFF) as bv8 && packet[length - 1] == (crc & 0xFF) as bv8;
    ghost var p := packet[..length];
    assert p[..length - 2] == packet[..length - 2];
    assert p[length - 2..] == [packet[length - 2], packet[length - 1]];
    assert BE16(crc) == [((crc >> 8) & 0xFF) as bv8, (crc & 0xFF) as bv8];
  }

  /** Checking a freshly stamped buffer always succeeds. */
  lemma StampedIsValid(s: seq<bv8>)
    ensures CrcValid(Stamped(s))
  {
    assert Stamped(s)[..|s|] == s;
  }

  /** A valid buffer is its covered bytes, stamped. */
  lemma ValidIsStamped(p: seq<bv8>)
    requires CrcValid(p)
    ensures p == Stamped(p[..|p| - 2])
  {
    assert p == p[..|p| - 2] + p[|p| - 2..];
  }

  /** The CRC of a concatenation continues from the CRC of its first part. */
  lemma {:induction false} CrcAppend(crc: bv16, a: seq<bv8>, b: seq<bv8>)
    ensures CrcFrom(crc, a + b) == CrcFrom(CrcFrom(crc, a), b)
    decreases |b|
  {
    if |b| == 0 {
      assert a + b == a;
    } else {
      assert (a + b)[..|a + b| - 1] == a + b[..|b| - 1];
      CrcAppend(crc, a, b[..|b| - 1]);
    }
  }

  lemma StepInjective(x: bv16, y: bv16)
    requires Step(x) == Step(y)
    ensures x == y
  {
  }

  lemma {:induction false} StepsInjective(x: bv16, y: bv16, n: nat)
    requires Steps(x, n) == Steps(y, n)
    ensures x == y
  {
    if n > 0 {
      StepInjective(Steps(x, n - 1), Steps(y, n - 1));
      StepsInjective(x, y, n - 1);
    }
  }

  /** For a fixed byte, distinct registers stay distinct. */
  lemma UpdateByteInjectiveInCrc(x: bv16, y: bv16, b: bv8)
    requires UpdateByte(x, b) == UpdateByte(y, b)
    ensures x == y
  {
    StepsInjective(x ^ b as bv16, y ^ b as bv16, 8);
  }

  /** For a fixed register, distinct bytes give distinct registers. */
  lemma UpdateByteInjectiveInByte(crc: bv16, b: bv8, c: bv8)
    requires UpdateByte(crc, b) == UpdateByte(crc, c)
    ensures b == c
  {
    StepsInjective(crc ^ b as bv16, crc ^ c as bv16, 8);
  }

  /** Absorbing the same bytes keeps distinct registers distinct. */
  lemma {:induction false} CrcFromInjective(x: bv16, y: bv16, s: seq<bv8>)
    requires CrcFrom(x, s) == CrcFrom(y, s)
    ensures x == y
    decreases |s|
  {
    if |s| > 0 {
      UpdateByteInjectiveInCrc(CrcFrom(x, s[..|s| - 1]), CrcFrom(y, s[..|s| - 1]), s[|s| - 1]);
      CrcFromInjective(x, y, s[..|s| - 1]);
    }
  }

  /** Two buffers that differ in exactly one byte (any number of its bits) have different CRCs. */
  lemma SingleByteErrorChangesCrc(s: seq<bv8>, t: seq<bv8>, k: nat)
    requires |s| == |t| && k < |s|
    requires s[k] != t[k]
    requires forall i :: 0 <= i < |s| && i != k ==> s[i] == t[i]
    ensures Crc16(s) != Crc16(t)
  {
    var prefix, rest := s[..k], s[k + 1..];
    assert t[..k] == prefix && t[k + 1..] == rest;
    assert s == (prefix + [s[k]]) + rest;
    assert t == (prefix + [t[k]]) + rest;
    CrcAppend(INIT, prefix + [s[k]], rest);
    CrcAppend(INIT, prefix + [t[k]], rest);
    assert (prefix + [s[k]])[..k] == prefix;
    assert (prefix + [t[k]])[..k] == prefix;
    var hs, ht := CrcFrom(INIT, prefix + [s[k]]), CrcFrom(INIT, prefix + [t[k]]);
    if hs == ht {
      UpdateByteInjectiveInByte(CrcFrom(INIT, prefix), s[k], t[k]);
    }
    if Crc16(s) == Crc16(t) {
      CrcFromInjective(hs, ht, rest);
    }
  }

  /**
   * A valid packet with exactly one byte changed (in the covered bytes or in
   * the checksum itself) no longer checks.
   */
  lemma SingleByteErrorDetected(p: seq<bv8>, q: seq<bv8>, k: nat)
    requires CrcValid(p)
    requires |q| == |p| && k < |p| && p[k] != q[k]
    requires forall i :: 0 <= i < |p| && i != k ==> p[i] == q[i]
    ensures !CrcValid(q)
  {
    var n := |p| - 2;
    if k < n {
      SingleByteErrorChangesCrc(p[..n], q[..n], k);
      assert q[n..] == p[n..];
      if CrcValid(q) {
        BE16Injective(Crc16(p[..n]), Crc16(q[..n]));
      }
    } else {
      assert p[..n] == q[..n];
      assert p[n..][k - n] != q[n..][k - n];
    }
  }

  /** Eight bit steps, written out. */
  lemma StepsEight(c: bv16)
    ensures Steps(c, 8) == Step(Step(Step(Step(Step(Step(Step(Step(c))))))))
  {
    assert Steps(c, 1) == Step(c);
    assert Steps(c, 2) == Step(Steps(c, 1));
    assert Steps(c, 3) == Step(Steps(c, 2));
    assert Steps(c, 4) == Step(Steps(c, 3));
    assert Steps(c, 5) == Step(Steps(c, 4));
    assert Steps(c, 6) == Step(Steps(c, 5));
    assert Steps(c, 7) == Step(Steps(c, 6));
  }

  /** The catalogue check value of CRC-16/MCRF4XX: the CRC of ASCII "123456789" is 0x6F91. */
  lemma CheckValue()
    ensures Crc16([0x31, 0x32, 0x33, 0x34, 0x35, 0x36, 0x37, 0x38, 0x39]) == 0x6F91
  {
    var s: seq<bv8> := [0x31, 0x32, 0x33, 0x34, 0x35, 0x36, 0x37, 0x38, 0x39];
    assert UpdateByte(0xFFFF, 0x31) == 0x2F8D by { StepsEight(0xFFFF ^ 0x31); }
    assert CrcFrom(INIT, s[..1]) == 0x2F8D;
    assert UpdateByte(0x2F8D, 0x32) == 0x4D53 by { StepsEight(0x2F8D ^ 0x32); }
    assert s[..2][..1] == s[..1];
    assert CrcFrom(INIT, s[..2]) == 0x4D53;
    assert UpdateByte(0x4D53, 0x33) == 0x634B by { StepsEight(0x4D53 ^ 0x33); }
    assert s[..3][..2] == s[..2];
    assert CrcFrom(INIT, s[..3]) == 0x634B;
    assert UpdateByte(0x634B, 0x34) == 0x8B13 by { StepsEight(0x634B ^ 0x34); }
    assert s[..4][..3] == s[..3];
    assert CrcFrom(INIT, s[..4]) == 0x8B13;
    assert UpdateByte(0x8B13, 0x35) == 0x44BF by { StepsEight(0x8B13 ^ 0x35); }
    assert s[..5][..4] == s[..4];
    assert CrcFrom(INIT, s[..5]) == 0x44BF;
    assert UpdateByte(0x44BF, 0x36) == 0x198D by { StepsEight(0x44BF ^ 0x36); }
    assert s[..6][..5] == s[..5];
    assert CrcFrom(INIT, s[..6]) == 0x198D;
    assert UpdateByte(0x198D, 0x37) == 0x1AC8 by { StepsEight(0x198D ^ 0x37); }
    assert s[..7][..6] == s[..6];
    assert CrcFrom(INIT, s[..7]) == 0x1AC8;
    assert UpdateByte(0x1AC8, 0x38) == 0xF795 by { StepsEight(0x1AC8 ^ 0x38); }
    assert s[..8][..7] == s[..7];
    assert CrcFrom(INIT, s[..8]) == 0xF795;
    assert s[..9] == s;
    assert UpdateByte(0xF795, 0x39) == 0x6F91 by { StepsEight(0xF795 ^ 0x39); }
    assert s[..9][..8] == s[..8];
    assert CrcFrom(INIT, s[..9]) == 0x6F91;
  }
}
