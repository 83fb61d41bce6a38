/**
 * Reading typed values back out of a payload (`extract_ccsds_data_values`
 * and `read_position_from_ccsds_telemetry` in src/Ccsds_packets.cpp).
 *
 * A format text such as "float,uint8,uint16,uint32" is split on commas with
 * the same walk as the serialiser.  The k-th tag fills the k-th `Converter`
 * of the caller's array from the payload, most significant byte first: a
 * "float" or "uint32" all four bytes, a "uint16" bytes `b[1]` and `b[0]`, a
 * "uint8" byte `b[0]`.  Bytes a tag does not write keep what the slot held;
 * an unknown tag still takes a slot but reads nothing.
 */
module CcsdsExtract {
  import opened Bytes
  import opened ArduinoString
  import opened CcsdsPayload

  const FLOAT: seq<bv8> := [0x66, 0x6C, 0x6F, 0x61, 0x74]          // "float"
  const UINT8: seq<bv8> := [0x75, 0x69, 0x6E, 0x74, 0x38]          // "uint8"
  const UINT16: seq<bv8> := [0x75, 0x69, 0x6E, 0x74, 0x31, 0x36]   // "uint16"
  const UINT32: seq<bv8> := [0x75, 0x69, 0x6E, 0x74, 0x33, 0x32]   // "uint32"

  /** The format `read_position_from_ccsds_telemetry` passes: "float,float,float". */
  const POSITION_FORMAT: seq<bv8> := FLOAT + [COMMA] + FLOAT + [COMMA] + FLOAT

  /** A format naming each tag once: "float,uint8,uint16,uint32". */
  const MIXED_FORMAT: seq<bv8> := FLOAT + [COMMA] + UINT8 + [COMMA] + UINT16 + [COMMA] + UINT32

  /**
   * How many payload bytes a tag reads: four for "float" and "uint32", two
   * for "uint16", one for "uint8", none for any other text.
   */
  function Width(tag: seq<bv8>): (w: nat)
    ensures w == 0 || w == 1 || w == 2 || w == 4
  {
    if tag == FLOAT || tag == UINT32 then 4
    else if tag == UINT8 then 1
    else if tag == UINT16 then 2
    else 0
  }

  /** Only the four tag names read anything; each names a different width but "float" and "uint32". */
  lemma WidthOfTag(tag: seq<bv8>)
    ensures Width(tag) == 0 <==> tag != FLOAT && tag != UINT32 && tag != UINT16 && tag != UINT8
    ensures Width(tag) == 4 <==> tag == FLOAT || tag == UINT32
  {
  }

  /**
   * The slot `c` after reading `tag` from `data` at `at`: the 32-bit view of
   * a "float" or "uint32" is the big-endian word read, the 16-bit view of a
   * "uint16" and the 8-bit view of a "uint8" are the big-endian value read
   * with the other bytes kept, and an unknown tag leaves the slot as it was.
   */
  function Fill(c: Converter, tag: seq<bv8>, data: seq<bv8>, at: nat): (r: Converter)
    requires at + Width(tag) <= |data|
    ensures (tag == FLOAT || tag == UINT32) ==> r.I32() == FromBE32(data[at..at + 4])
    ensures tag == UINT16 ==> r.I16() == FromBE16(data[at], data[at + 1]) && r.b2 == c.b2 && r.b3 == c.b3
    ensures tag == UINT8 ==> r.I8() == data[at] && r.b1 == c.b1 && r.b2 == c.b2 && r.b3 == c.b3
    ensures Width(tag) == 0 ==> r == c
  {
    if tag == FLOAT || tag == UINT32 then Converter(data[at + 3], data[at + 2], data[at + 1], data[at])
    else if tag == UINT8 then c.(b0 := data[at])
    else if tag == UINT16 then c.(b1 := data[at], b0 := data[at + 1])
    else c
  }

  /**
   * The width of a tag is exactly the span of payload it reads: two payloads
   * that agree on that span fill a slot alike.
   */
  lemma FillFootprint(c: Converter, tag: seq<bv8>, data: seq<bv8>, at: nat, other: seq<bv8>, at': nat)
    requires at + Width(tag) <= |data| && at' + Width(tag) <= |other|
    requires data[at..at + Width(tag)] == other[at'..at' + Width(tag)]
    ensures Fill(c, tag, data, at) == Fill(c, tag, other, at')
  {
    var w := Width(tag);
    var span := data[at..at + w];
    if w >= 1 { assert data[at] == span[0] == other[at']; }
    if w >= 2 { assert data[at + 1] == span[1] == other[at' + 1]; }
    if w == 4 {
      assert data[at + 2] == span[2] == other[at' + 2];
      assert data[at + 3] == span[3] == other[at' + 3];
    }
  }

  /** The bytes the tags read, all together. */
  function Consumed(tags: seq<seq<bv8>>): nat
  {
    if |tags| == 0 then 0 else Consumed(tags[..|tags| - 1]) + Width(tags[|tags| - 1])
  }

  /** One tag more reads its width more. */
  lemma ConsumedStep(tags: seq<seq<bv8>>, k: nat)
    requires k < |tags|
    ensures Consumed(tags[..k + 1]) == Consumed(tags[..k]) + Width(tags[k])
  {
    assert tags[..k + 1][..k] == tags[..k];
  }

  /** The tags before `k` read no more than all the tags. */
  lemma {:induction false} ConsumedPrefix(tags: seq<seq<bv8>>, k: nat)
    requires k <= |tags|
    ensures Consumed(tags[..k]) <= Consumed(tags)
    decreases |tags|
  {
    if k < |tags| {
      var init := tags[..|tags| - 1];
      ConsumedPrefix(init, k);
      assert init[..k] == tags[..k];
    } else {
      assert tags[..k] == tags;
    }
  }

  /** Tag `k` reads inside what all the tags read. */
  lemma ConsumedBound(tags: seq<seq<bv8>>, k: nat)
    requires k < |tags|
    ensures Consumed(tags[..k]) + Width(tags[k]) <= Consumed(tags)
  {
    ConsumedStep(tags, k);
    ConsumedPrefix(tags, k + 1);
  }

  /** What slot `k` holds after the extraction, starting from `c`: tag `k` read where the earlier tags stopped. */
  function Slot(c: Converter, data: seq<bv8>, tags: seq<seq<bv8>>, k: nat): Converter
    requires k < |tags| && Consumed(tags) <= |data|
  {
    ConsumedBound(tags, k);
    Fill(c, tags[k], data, Consumed(tags[..k]))
  }

  /**
   * `extract_ccsds_data_values`.  The caller's array must have a slot for
   * every tag and the payload must hold every byte the tags read; the format
   * stays below 65535 characters, as `start` is a `uint16_t`.  Slot `k` of the
   * tags is filled as `Slot` says; the slots after the last tag are untouched.
   */
  method ExtractDataValues(data: seq<bv8>, dataValues: array<Converter>, dataFormat: seq<bv8>)
    requires |dataFormat| < 0xFFFF
    requires |Fields(dataFormat, 0)| <= dataValues.Length
    requires Consumed(Fields(dataFormat, 0)) <= |data|
    modifies dataValues
    ensures forall k :: 0 <= k < |Fields(dataFormat, 0)| ==>
      dataValues[k] == Slot(old(dataValues[k]), data, Fields(dataFormat, 0), k)
    ensures forall k :: |Fields(dataFormat, 0)| <= k < dataValues.Length ==> dataValues[k] == old(dataValues[k])
  {
    ghost var tags := Fields(dataFormat, 0);
    ghost var before := dataValues[..];
    var start: nat := 0;
    var valueIndex: nat := 0;
    var dataIndex: nat := 0;
    while start < |dataFormat|
      invariant start <= |dataFormat| + 1
      invariant valueIndex <= |tags| && tags[valueIndex..] == Fields(dataFormat, start)
      invariant dataIndex == Consumed(tags[..valueIndex])
      invariant Filled(dataValues, before, data, tags, valueIndex)
      decreases |dataFormat| + 1 - start
    {
      var end;
      end, dataIndex := ExtractField(data, dataValues, dataFormat, start, valueIndex, dataIndex, tags, before);
      start := end + 1;
      valueIndex := valueIndex + 1;
    }
    WalkDone(dataFormat, start, tags, valueIndex);
  }

  /** Once the walk is past the end of the format, every tag has been read. */
  lemma WalkDone(dataFormat: seq<bv8>, start: nat, tags: seq<seq<bv8>>, n: nat)
    requires start >= |dataFormat| && n <= |tags| && tags[n..] == Fields(dataFormat, start)
    ensures n == |tags|
  {
    FieldsPastEnd(dataFormat, start);
  }

  /** Slots before `n` hold what the extraction puts there, the others what they held. */
  ghost predicate Filled(dataValues: array<Converter>, before: seq<Converter>, data: seq<bv8>, tags: seq<seq<bv8>>, n: nat)
    reads dataValues
  {
    && n <= |tags| <= dataValues.Length == |before|
    && Consumed(tags) <= |data|
    && (forall k :: 0 <= k < n ==> dataValues[k] == Slot(before[k], data, tags, k))
    && (forall k :: n <= k < dataValues.Length ==> dataValues[k] == before[k])
  }

  /**
   * One turn of the loop: find the comma that ends the tag at `start` (or the
   * end of the format) and read that tag's value into slot `valueIndex`.
   */
  method ExtractField(data: seq<bv8>, dataValues: array<Converter>, dataFormat: seq<bv8>, start: nat,
                      valueIndex: nat, dataIndex: nat, ghost tags: seq<seq<bv8>>, ghost before: seq<Converter>)
    returns (end: nat, newIndex: nat)
    requires start < |dataFormat|
    requires valueIndex <= |tags| && tags[valueIndex..] == Fields(dataFormat, start)
    requires dataIndex == Consumed(tags[..valueIndex])
    requires Filled(dataValues, before, data, tags, valueIndex)
    modifies dataValues
    ensures start <= end <= |dataFormat|
    ensures valueIndex + 1 <= |tags| && tags[valueIndex + 1..] == Fields(dataFormat, end + 1)
    ensures newIndex == Consumed(tags[..valueIndex + 1])
    ensures Filled(dataValues, before, data, tags, valueIndex + 1)
  {
    var i := IndexOf(dataFormat, COMMA, start);
    end := if i == -1 then |dataFormat| else i;
    var value := dataFormat[start..end];
    NextTag(dataFormat, start, end, tags, valueIndex);
    ConsumedStep(tags, valueIndex);
    ConsumedBound(tags, valueIndex);
    newIndex := ExtractValue(data, dataValues, valueIndex, dataIndex, value);
  }

  /** The tag at `start` is tag `valueIndex`; the ones after its comma are the rest. */
  lemma NextTag(dataFormat: seq<bv8>, start: nat, end: nat, tags: seq<seq<bv8>>, valueIndex: nat)
    requires start < |dataFormat| && end == FieldEnd(dataFormat, start)
    requires valueIndex <= |tags| && tags[valueIndex..] == Fields(dataFormat, start)
    ensures valueIndex < |tags| && tags[valueIndex] == dataFormat[start..end]
    ensures tags[valueIndex + 1..] == Fields(dataFormat, end + 1)
  {
    FieldsCons(dataFormat, start);
    assert tags[valueIndex..][0] == tags[valueIndex];
    assert tags[valueIndex + 1..] == tags[valueIndex..][1..];
  }

  /**
   * The body of the loop for one tag: each byte read goes into the slot's
   * `b[3]`, `b[2]`, ... in turn as `data_index` advances.
   */
  method ExtractValue(data: seq<bv8>, dataValues: array<Converter>, valueIndex: nat, dataIndex: nat, value: seq<bv8>)
    returns (newIndex: nat)
    requires valueIndex < dataValues.Length && dataIndex + Width(value) <= |data|
    modifies dataValues
    ensures newIndex == dataIndex + Width(value)
    ensures dataValues[valueIndex] == Fill(old(dataValues[valueIndex]), value, data, dataIndex)
    ensures forall k :: 0 <= k < dataValues.Length && k != valueIndex ==> dataValues[k] == old(dataValues[k])
  {
    newIndex := dataIndex;
    if value == FLOAT {
      dataValues[valueIndex] := dataValues[valueIndex].(b3 := data[newIndex]);
      newIndex := newIndex + 1;
      dataValues[valueIndex] := dataValues[valueIndex].(b2 := data[newIndex]);
      newIndex := newIndex + 1;
      dataValues[valueIndex] := dataValues[valueIndex].(b1 := data[newIndex]);
      newIndex := newIndex + 1;
      dataValues[valueIndex] := dataValues[valueIndex].(b0 := data[newIndex]);
      newIndex := newIndex + 1;
    } else if value == UINT8 {
      dataValues[valueIndex] := dataValues[valueIndex].(b0 := data[newIndex]);
      newIndex := newIndex + 1;
    } else if value == UINT16 {
      dataValues[valueIndex] := dataValues[valueIndex].(b1 := data[newIndex]);
      newIndex := newIndex + 1;
      dataValues[valueIndex] := dataValues[valueIndex].(b0 := data[newIndex]);
      newIndex := newIndex + 1;
    } else if value == UINT32 {
      dataValues[valueIndex] := dataValues[valueIndex].(b3 := data[newIndex]);
      newIndex := newIndex + 1;
      dataValues[valueIndex] := dataValues[valueIndex].(b2 := data[newIndex]);
      newIndex := newIndex + 1;
      dataValues[valueIndex] := dataValues[valueIndex].(b1 := data[newIndex]);
      newIndex := newIndex + 1;
      dataValues[valueIndex] := dataValues[valueIndex].(b0 := data[newIndex]);
      newIndex := newIndex + 1;
    }
  }

  /** Tags that read a whole 32-bit word: "float" or "uint32". */
  predicate WordTags(tags: seq<seq<bv8>>)
  {
    forall i :: 0 <= i < |tags| ==> tags[i] == FLOAT || tags[i] == UINT32
  }

  /** Word tags read four bytes each. */
  lemma {:induction false} WordTagsConsumed(tags: seq<seq<bv8>>, k: nat)
    requires WordTags(tags) && k <= |tags|
    ensures Consumed(tags[..k]) == 4 * k
    decreases k
  {
    if k > 0 {
      WordTagsConsumed(tags, k - 1);
      ConsumedStep(tags, k - 1);
    }
  }

  /** In a payload of numbers, number `k` sits at bytes `4k` to `4k + 3`. */
  lemma {:induction false} NumericPayloadAt(ts: seq<Token>, k: nat)
    requires forall i :: 0 <= i < |ts| ==> ts[i].Num?
    requires k < |ts|
    ensures 4 * k + 4 <= |Payload(ts)|
    ensures Payload(ts)[4 * k..4 * k + 4] == BE32(ts[k].bits)
    decreases k
  {
    NumericPayloadLength(ts);
    var rest := Payload(ts[1..]);
    assert Payload(ts) == BE32(ts[0].bits) + rest;
    if k > 0 {
      NumericPayloadAt(ts[1..], k - 1);
      SliceAfterPrefix(BE32(ts[0].bits), rest, 4 * k, 4 * k + 4);
    }
  }

  /** A slice lying after the prefix `a` of `a + b` is a slice of `b`. */
  lemma SliceAfterPrefix(a: seq<bv8>, b: seq<bv8>, i: nat, j: nat)
    requires |a| <= i <= j <= |a| + |b|
    ensures (a + b)[i..j] == b[i - |a|..j - |a|]
  {
  }

  /**
   * Reading back numbers: with a "float" or "uint32" tag per number, slot `k`
   * of the extraction holds exactly the bits of number `k` of the payload.
   */
  lemma ExtractNumbers(ts: seq<Token>, tags: seq<seq<bv8>>, c: Converter, k: nat)
    requires forall i :: 0 <= i < |ts| ==> ts[i].Num?
    requires |tags| == |ts| && WordTags(tags) && k < |ts|
    ensures Consumed(tags) <= |Payload(ts)|
    ensures Slot(c, Payload(ts), tags, k).I32() == ts[k].bits
  {
    WordTagsConsumed(tags, |tags|);
    assert tags[..|tags|] == tags;
    NumericPayloadLength(ts);
    WordTagsConsumed(tags, k);
    NumericPayloadAt(ts, k);
    FromBE32OfBE32(ts[k].bits);
  }

  /**
   * The codec's round trip: when every field of a text is a number, the
   * serialiser's payload extracted with a "float" or "uint32" tag per field
   * gives in slot `k` the bits field `k` was classified to.
   */
  lemma ExtractSerialized(data: seq<bv8>, toInt: seq<bv8> -> bv32, toFloatBits: seq<bv8> -> bv32,
                          tags: seq<seq<bv8>>, c: Converter, k: nat)
    requires forall i :: 0 <= i < |Fields(data, 0)| ==> Classify(Fields(data, 0)[i], toInt, toFloatBits).Num?
    requires |tags| == |Fields(data, 0)| && WordTags(tags) && k < |tags|
    ensures Consumed(tags) <= |SerializedData(data, toInt, toFloatBits)|
    ensures Slot(c, SerializedData(data, toInt, toFloatBits), tags, k).I32()
         == Classify(Fields(data, 0)[k], toInt, toFloatBits).bits
  {
    var ts := Tokens(Fields(data, 0), toInt, toFloatBits);
    TokensAt(Fields(data, 0), toInt, toFloatBits);
    PayloadOfTokens(data, toInt, toFloatBits);
    ExtractNumbers(ts, tags, c, k);
  }

  /**
   * `read_position_from_ccsds_telemetry`: the bits of the three floats at
   * payload bytes 0, 4 and 8, most significant byte first.
   */
  method ReadPosition(data: seq<bv8>) returns (latitude: bv32, longitude: bv32, altitude: bv32)
    requires |data| >= 12
    ensures latitude == FromBE32(data[0..4])
    ensures longitude == FromBE32(data[4..8])
    ensures altitude == FromBE32(data[8..12])
  {
    var dataValues := new Converter[3];
    ghost var before := dataValues[..];
    PositionTags();
    ExtractDataValues(data, dataValues, POSITION_FORMAT);
    PositionSlots(dataValues[..], before, data);
    latitude := dataValues[0].I32();
    longitude := dataValues[1].I32();
    altitude := dataValues[2].I32();
  }

  /** The slots the position format fills read the three words of the payload. */
  lemma PositionSlots(after: seq<Converter>, before: seq<Converter>, data: seq<bv8>)
    requires |data| >= 12 && |after| == |before| == 3
    requires Fields(POSITION_FORMAT, 0) == [FLOAT, FLOAT, FLOAT] && Consumed([FLOAT, FLOAT, FLOAT]) == 12
    requires forall k :: 0 <= k < 3 ==> after[k] == Slot(before[k], data, [FLOAT, FLOAT, FLOAT], k)
    ensures after[0].I32() == FromBE32(data[0..4])
    ensures after[1].I32() == FromBE32(data[4..8])
    ensures after[2].I32() == FromBE32(data[8..12])
  {
    var tags := [FLOAT, FLOAT, FLOAT];
    assert Consumed(tags[..0]) == 0;
    assert tags[..1] == [FLOAT] && tags[..2] == [FLOAT, FLOAT];
    assert Consumed(tags[..1]) == 4 && Consumed(tags[..2]) == 8;
  }

  /** "float,float,float" splits into three "float" tags reading twelve bytes. */
  lemma PositionTags()
    ensures Fields(POSITION_FORMAT, 0) == [FLOAT, FLOAT, FLOAT]
    ensures Consumed([FLOAT, FLOAT, FLOAT]) == 12
  {
    var fs := [FLOAT, FLOAT, FLOAT];
    assert Join(fs[2..]) == FLOAT;
    assert Join(fs[1..]) == FLOAT + [COMMA] + Join(fs[2..]) by { assert fs[1..][1..] == fs[2..]; }
    assert Join(fs) == FLOAT + [COMMA] + Join(fs[1..]);
    assert POSITION_FORMAT[0..] == Join(fs);
    FieldsOfJoin(POSITION_FORMAT, 0, fs);
    PositionWidth();
  }

  lemma PositionWidth()
    ensures Consumed([FLOAT, FLOAT, FLOAT]) == 12
  {
    assert Width(FLOAT) == 4;
    assert [FLOAT][..0] == [];
    assert Consumed([FLOAT]) == 4;
    assert [FLOAT, FLOAT][..1] == [FLOAT];
    assert Consumed([FLOAT, FLOAT]) == 8;
    assert [FLOAT, FLOAT, FLOAT][..2] == [FLOAT, FLOAT];
  }

  /** "float,uint8,uint16,uint32" splits into its four tags, reading 4, 1, 2 and 4 bytes. */
  lemma MixedTags()
    ensures Fields(MIXED_FORMAT, 0) == [FLOAT, UINT8, UINT16, UINT32]
  {
    var fs := [FLOAT, UINT8, UINT16, UINT32];
    assert Join(fs[3..]) == UINT32;
    assert Join(fs[2..]) == UINT16 + [COMMA] + Join(fs[3..]) by { assert fs[2..][1..] == fs[3..]; }
    assert Join(fs[1..]) == UINT8 + [COMMA] + Join(fs[2..]) by { assert fs[1..][1..] == fs[2..]; }
    assert Join(fs) == FLOAT + [COMMA] + Join(fs[1..]);
    assert MIXED_FORMAT[0..] == Join(fs);
    FieldsOfJoin(MIXED_FORMAT, 0, fs);
  }

  /** Where each of the four mixed tags starts reading. */
  lemma MixedOffsets()
    ensures var tags := [FLOAT, UINT8, UINT16, UINT32];
      && Consumed(tags[..0]) == 0 && Consumed(tags[..1]) == 4
      && Consumed(tags[..2]) == 5 && Consumed(tags[..3]) == 7 && Consumed(tags) == 11
  {
    var tags := [FLOAT, UINT8, UINT16, UINT32];
    assert tags[..1][..0] == [] && tags[..2][..1] == tags[..1];
    assert tags[..3][..2] == tags[..2] && tags[..3] == tags[..|tags| - 1];
  }

  /**
   * Extraction reads every width exactly: a payload holding a float's bits, a
   * `uint8`, a `uint16` and a `uint32`, each most significant byte first,
   * read with "float,uint8,uint16,uint32" gives back all four values.
   */
  lemma MixedWidthExtract(f: bv32, u8: bv8, u16: bv16, u32: bv32, c0: Converter, c1: Converter, c2: Converter, c3: Converter)
    ensures var data := BE32(f) + [u8] + BE16(u16) + BE32(u32);
      var tags := Fields(MIXED_FORMAT, 0);
      && |tags| == 4 && Consumed(tags) == |data|
      && Slot(c0, data, tags, 0).I32() == f
      && Slot(c1, data, tags, 1).I8() == u8
      && Slot(c2, data, tags, 2).I16() == u16
      && Slot(c3, data, tags, 3).I32() == u32
  {
    var data := BE32(f) + [u8] + BE16(u16) + BE32(u32);
    MixedTags();
    MixedOffsets();
    assert data[0..4] == BE32(f);
    assert data[4] == u8;
    assert data[5] == BE16(u16)[0] && data[6] == BE16(u16)[1];
    assert data[7..11] == BE32(u32);
    FromBE32OfBE32(f);
    FromBE32OfBE32(u32);
  }

  /**
   * The serialiser writes every number as four bytes, so a narrow tag misreads
   * its output: the text "200" becomes 00 00 00 C8, and a "uint8" tag reads
   * the first of those bytes, 0, not 200.
   */
  lemma NarrowTagMisreadsSerialized(toInt: seq<bv8> -> bv32, toFloatBits: seq<bv8> -> bv32, c: Converter)
    requires toInt([0x32, 0x30, 0x30]) == 200
    ensures SerializedData([0x32, 0x30, 0x30], toInt, toFloatBits) == [0, 0, 0, 200]
    ensures Fields(UINT8, 0) == [UINT8]
    ensures Slot(c, [0, 0, 0, 200], [UINT8], 0).I8() == 0
  {
    var text: seq<bv8> := [0x32, 0x30, 0x30];
    IndexOfMisses(text, COMMA, 0);
    FieldsCons(text, 0);
    FieldsPastEnd(text, 4);
    assert text[0..3] == text;
    assert Fields(text, 0) == [text];
    assert Classify(text, toInt, toFloatBits) == Num(200);
    assert Tokens([text], toInt, toFloatBits) == [Num(200)];
    assert Payload([Num(200)]) == BE32(200) + Payload([]);
    PayloadOfTokens(text, toInt, toFloatBits);
    IndexOfMisses(UINT8, COMMA, 0);
    FieldsCons(UINT8, 0);
    FieldsPastEnd(UINT8, 6);
    assert UINT8[0..5] == UINT8;
    assert [UINT8][..0] == [];
  }
}
