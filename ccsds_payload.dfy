/**
 * The text-to-payload serialiser at the heart of `create_ccsds_telemetry_packet`
 * (and of its older twin `create_ccsds_packet`).  The input text is split on
 * commas; each field is classified by its shape:
 *   - it contains a '.': a float, sent as the 4 bytes of its IEEE-754 bits;
 *   - `toInt()` is nonzero, or the field is exactly "0": a 32-bit integer;
 *   - anything else: text, sent byte for byte followed by '\n'.
 * Numbers go out most significant byte first.
 *
 * Arduino's `String::toInt` and `String::toFloat` are not modelled: they are
 * parameters.  `toInt` gives the 32 bits of the C `long` it returns (two's
 * complement, as `Converter::i32` stores it; the `long` is zero exactly when
 * its bits are), and `toFloatBits` the IEEE-754 bits of the float.
 */
module CcsdsPayload {
  import opened Bytes
  import opened ArduinoString

  const DOT: bv8 := 0x2E
  const NEWLINE: bv8 := 0x0A
  const ZERO: bv8 := 0x30

  /** Size of the local `packet_data` buffer: a 256-byte LoRa frame less the two 6-byte headers. */
  const PACKET_DATA_CAPACITY: nat := 244

  /** A classified field. */
  datatype Token = Num(bits: bv32) | Text(s: seq<bv8>)

  /**
   * How one field is classified.  A field is text exactly when it has no '.',
   * `toInt` reads zero from it and it is not "0"; text is kept as it is, a
   * field with a '.' is a float and any other number takes the `toInt` bits.
   */
  function Classify(value: seq<bv8>, toInt: seq<bv8> -> bv32, toFloatBits: seq<bv8> -> bv32): (t: Token)
    ensures t.Text? <==> DOT !in value && toInt(value) == 0 && value != [ZERO]
    ensures t.Text? ==> t.s == value
    ensures DOT in value ==> t.bits == toFloatBits(value)
    ensures DOT !in value && t.Num? ==> t.bits == toInt(value)
  {
    IndexOfFirst(value, DOT, 0);
    if IndexOf(value, DOT, 0) != -1 then Num(toFloatBits(value))
    else if toInt(value) != 0 || value == [ZERO] then Num(toInt(value))
    else Text(value)
  }

  /** The bytes one token adds to the payload. */
  function Encode(t: Token): seq<bv8>
  {
    match t
    case Num(bits) => BE32(bits)
    case Text(s) => s + [NEWLINE]
  }

  /** A number is its four bytes, most significant first; a text is its bytes and a newline. */
  lemma EncodeDecodes(t: Token)
    ensures t.Num? ==> |Encode(t)| == 4 && FromBE32(Encode(t)) == t.bits
    ensures t.Text? ==> |Encode(t)| == |t.s| + 1 && Encode(t)[..|t.s|] == t.s && Encode(t)[|t.s|] == NEWLINE
  {
    if t.Num? {
      FromBE32OfBE32(t.bits);
    }
  }

  /** The tokens, in order, that a list of fields classifies into. */
  function Tokens(fs: seq<seq<bv8>>, toInt: seq<bv8> -> bv32, toFloatBits: seq<bv8> -> bv32): seq<Token>
  {
    if |fs| == 0 then [] else [Classify(fs[0], toInt, toFloatBits)] + Tokens(fs[1..], toInt, toFloatBits)
  }

  /** Token `k` is field `k` classified. */
  lemma {:induction false} TokensAt(fs: seq<seq<bv8>>, toInt: seq<bv8> -> bv32, toFloatBits: seq<bv8> -> bv32)
    ensures |Tokens(fs, toInt, toFloatBits)| == |fs|
    ensures forall k :: 0 <= k < |fs| ==> Tokens(fs, toInt, toFloatBits)[k] == Classify(fs[k], toInt, toFloatBits)
    decreases |fs|
  {
    if |fs| > 0 {
      TokensAt(fs[1..], toInt, toFloatBits);
      forall k | 1 <= k < |fs|
        ensures Tokens(fs, toInt, toFloatBits)[k] == Classify(fs[k], toInt, toFloatBits)
      {
        assert fs[1..][k - 1] == fs[k];
      }
    }
  }

  /** The payload a token list encodes to: each token's bytes, in order. */
  function Payload(ts: seq<Token>): seq<bv8>
  {
    if |ts| == 0 then [] else Encode(ts[0]) + Payload(ts[1..])
  }

  /** The bytes one field adds to the payload. */
  function FieldBytes(value: seq<bv8>, toInt: seq<bv8> -> bv32, toFloatBits: seq<bv8> -> bv32): seq<bv8>
  {
    Encode(Classify(value, toInt, toFloatBits))
  }

  /** The payload of the fields the walk visits from `start` on. */
  function PayloadFrom(data: seq<bv8>, start: nat, toInt: seq<bv8> -> bv32, toFloatBits: seq<bv8> -> bv32): seq<bv8>
    decreases |data| - start
  {
    if start >= |data| then []
    else
      var e := FieldEnd(data, start);
      FieldBytes(data[start..e], toInt, toFloatBits) + PayloadFrom(data, e + 1, toInt, toFloatBits)
  }

  /** The payload the serialiser produces for `data`. */
  function SerializedData(data: seq<bv8>, toInt: seq<bv8> -> bv32, toFloatBits: seq<bv8> -> bv32): seq<bv8>
  {
    PayloadFrom(data, 0, toInt, toFloatBits)
  }

  /** The payload of a list of fields: each field's bytes, in order. */
  function FieldsPayload(fs: seq<seq<bv8>>, toInt: seq<bv8> -> bv32, toFloatBits: seq<bv8> -> bv32): seq<bv8>
  {
    if |fs| == 0 then [] else FieldBytes(fs[0], toInt, toFloatBits) + FieldsPayload(fs[1..], toInt, toFloatBits)
  }

  /** The walk from `start` emits the bytes of the fields it visits, in order. */
  lemma {:induction false} PayloadFromFields(data: seq<bv8>, start: nat, toInt: seq<bv8> -> bv32, toFloatBits: seq<bv8> -> bv32)
    ensures PayloadFrom(data, start, toInt, toFloatBits) == FieldsPayload(Fields(data, start), toInt, toFloatBits)
    decreases |data| - start
  {
    if start < |data| {
      var e := FieldEnd(data, start);
      PayloadFromFields(data, e + 1, toInt, toFloatBits);
      PayloadFromFieldsStep(data, start, e, toInt, toFloatBits);
    } else {
      FieldsPastEnd(data, start);
    }
  }

  lemma PayloadFromFieldsStep(data: seq<bv8>, start: nat, e: nat, toInt: seq<bv8> -> bv32, toFloatBits: seq<bv8> -> bv32)
    requires start < |data| && e == FieldEnd(data, start)
    requires PayloadFrom(data, e + 1, toInt, toFloatBits) == FieldsPayload(Fields(data, e + 1), toInt, toFloatBits)
    ensures PayloadFrom(data, start, toInt, toFloatBits) == FieldsPayload(Fields(data, start), toInt, toFloatBits)
  {
    FieldsCons(data, start);
    FieldsPayloadCons(data[start..e], Fields(data, e + 1), toInt, toFloatBits);
    PayloadFromCons(data, start, toInt, toFloatBits);
  }

  lemma PayloadFromCons(data: seq<bv8>, start: nat, toInt: seq<bv8> -> bv32, toFloatBits: seq<bv8> -> bv32)
    requires start < |data|
    ensures PayloadFrom(data, start, toInt, toFloatBits)
         == FieldBytes(data[start..FieldEnd(data, start)], toInt, toFloatBits) + PayloadFrom(data, FieldEnd(data, start) + 1, toInt, toFloatBits)
  {
  }

  lemma FieldsPayloadCons(f: seq<bv8>, fs: seq<seq<bv8>>, toInt: seq<bv8> -> bv32, toFloatBits: seq<bv8> -> bv32)
    ensures FieldsPayload([f] + fs, toInt, toFloatBits) == FieldBytes(f, toInt, toFloatBits) + FieldsPayload(fs, toInt, toFloatBits)
  {
    assert ([f] + fs)[1..] == fs;
  }

  /** Emitting each field's bytes is encoding the token list the fields classify into. */
  lemma {:induction false} FieldsPayloadIsPayload(fs: seq<seq<bv8>>, toInt: seq<bv8> -> bv32, toFloatBits: seq<bv8> -> bv32)
    ensures FieldsPayload(fs, toInt, toFloatBits) == Payload(Tokens(fs, toInt, toFloatBits))
    decreases |fs|
  {
    if |fs| > 0 {
      FieldsPayloadIsPayload(fs[1..], toInt, toFloatBits);
      PayloadCons(Classify(fs[0], toInt, toFloatBits), Tokens(fs[1..], toInt, toFloatBits));
    }
  }

  /** The serialiser's payload is the encoding of the fields' tokens, in input order. */
  lemma PayloadOfTokens(data: seq<bv8>, toInt: seq<bv8> -> bv32, toFloatBits: seq<bv8> -> bv32)
    ensures SerializedData(data, toInt, toFloatBits) == Payload(Tokens(Fields(data, 0), toInt, toFloatBits))
  {
    PayloadFromFields(data, 0, toInt, toFloatBits);
    FieldsPayloadIsPayload(Fields(data, 0), toInt, toFloatBits);
  }

  lemma PayloadCons(t: Token, ts: seq<Token>)
    ensures Payload([t] + ts) == Encode(t) + Payload(ts)
  {
    assert ([t] + ts)[1..] == ts;
  }

  /** Where `w` from `n` on is `e` then `r`, the bytes of `w` from `n` are those of `e`, then `r`. */
  lemma SuffixSplit(w: seq<bv8>, n: nat, e: seq<bv8>, r: seq<bv8>)
    requires n <= |w| && w[n..] == e + r
    ensures n + |e| <= |w|
    ensures forall j :: n <= j < n + |e| ==> w[j] == e[j - n]
    ensures w[n + |e|..] == r
  {
    forall j | n <= j < n + |e|
      ensures w[j] == e[j - n]
    {
      assert w[j] == w[n..][j - n];
    }
    assert w[n + |e|..] == w[n..][|e|..];
  }

  /**
   * The loop of `create_ccsds_telemetry_packet` that fills `packet_data`.
   * `start` is a `uint16_t`, so the text must stay below 65535 characters for
   * `start = end + 1` not to wrap; the payload must fit the buffer.
   */
  method SerializeData(data: seq<bv8>, toInt: seq<bv8> -> bv32, toFloatBits: seq<bv8> -> bv32, packetData: array<bv8>)
    returns (packetDataLength: nat)
    requires |data| < 0xFFFF
    requires |SerializedData(data, toInt, toFloatBits)| <= packetData.Length
    modifies packetData
    ensures packetDataLength == |SerializedData(data, toInt, toFloatBits)|
    ensures forall j :: 0 <= j < packetDataLength ==> packetData[j] == SerializedData(data, toInt, toFloatBits)[j]
  {
    ghost var whole := SerializedData(data, toInt, toFloatBits);
    packetDataLength := 0;
    var start: nat := 0;
    while start < |data|
      invariant start <= |data| + 1
      invariant Owes(data, start, whole, packetDataLength, toInt, toFloatBits)
      invariant Holds(packetData, packetDataLength, whole)
      decreases |data| + 1 - start
    {
      var end;
      end, packetDataLength := SerializeField(data, start, toInt, toFloatBits, packetData, packetDataLength, whole);
      start := end + 1;
    }
    OwesNothing(data, start, whole, packetDataLength, toInt, toFloatBits);
  }

  lemma OwesNothing(data: seq<bv8>, start: nat, whole: seq<bv8>, n: nat, toInt: seq<bv8> -> bv32, toFloatBits: seq<bv8> -> bv32)
    requires start >= |data| && Owes(data, start, whole, n, toInt, toFloatBits)
    ensures n == |whole|
  {
    assert PayloadFrom(data, start, toInt, toFloatBits) == [];
  }

  ghost predicate Owes(data: seq<bv8>, start: nat, whole: seq<bv8>, n: nat, toInt: seq<bv8> -> bv32, toFloatBits: seq<bv8> -> bv32)
  {
    n <= |whole| && whole[n..] == PayloadFrom(data, start, toInt, toFloatBits)
  }

  ghost predicate Holds(packetData: array<bv8>, n: nat, whole: seq<bv8>)
    reads packetData
  {
    n <= |whole| <= packetData.Length && forall j :: 0 <= j < n ==> packetData[j] == whole[j]
  }

  /**
   * One turn of the loop: find the comma that ends the field at `start` (or
   * the end of the text), and append that field's bytes.  `whole` is the
   * payload being written; its part from `packetDataLength` on is what the
   * fields from `start` on still owe.
   */
  method SerializeField(data: seq<bv8>, start: nat, toInt: seq<bv8> -> bv32, toFloatBits: seq<bv8> -> bv32,
                        packetData: array<bv8>, packetDataLength: nat, ghost whole: seq<bv8>)
    returns (end: nat, newLength: nat)
    requires start < |data|
    requires Owes(data, start, whole, packetDataLength, toInt, toFloatBits)
    requires Holds(packetData, packetDataLength, whole)
    modifies packetData
    ensures start <= end <= |data|
    ensures Owes(data, end + 1, whole, newLength, toInt, toFloatBits)
    ensures Holds(packetData, newLength, whole)
  {
    var i := IndexOf(data, COMMA, start);
    end := if i == -1 then |data| else i;
    var value := data[start..end];
    NextField(data, start, end, whole, packetDataLength, toInt, toFloatBits);
    newLength := AppendField(packetData, packetDataLength, value, toInt, toFloatBits);
  }

  /**
   * Where the payload still to write, from `n` on, starts at the field
   * `data[start..end]`: that field's bytes come next, then the rest.
   */
  lemma NextField(data: seq<bv8>, start: nat, end: nat, whole: seq<bv8>, n: nat,
                  toInt: seq<bv8> -> bv32, toFloatBits: seq<bv8> -> bv32)
    requires start < |data| && end == FieldEnd(data, start)
    requires n <= |whole| && whole[n..] == PayloadFrom(data, start, toInt, toFloatBits)
    ensures var e := FieldBytes(data[start..end], toInt, toFloatBits);
      && n + |e| <= |whole|
      && (forall j :: n <= j < n + |e| ==> whole[j] == e[j - n])
      && whole[n + |e|..] == PayloadFrom(data, end + 1, toInt, toFloatBits)
  {
    SuffixSplit(whole, n, FieldBytes(data[start..end], toInt, toFloatBits), PayloadFrom(data, end + 1, toInt, toFloatBits));
  }

  /**
   * The body of the loop for one field `value`: classify it, then append its
   * four bytes most significant first, or its text and a newline.  The
   * `Converter` is rewritten in full before each number is written, so it is
   * local here.
   */
  method AppendField(packetData: array<bv8>, packetDataLength: nat, value: seq<bv8>,
                     toInt: seq<bv8> -> bv32, toFloatBits: seq<bv8> -> bv32) returns (newLength: nat)
    requires packetDataLength + |FieldBytes(value, toInt, toFloatBits)| <= packetData.Length
    modifies packetData
    ensures newLength == packetDataLength + |FieldBytes(value, toInt, toFloatBits)|
    ensures forall j :: 0 <= j < packetDataLength ==> packetData[j] == old(packetData[j])
    ensures forall j :: packetDataLength <= j < newLength ==>
      packetData[j] == FieldBytes(value, toInt, toFloatBits)[j - packetDataLength]
  {
    var converter: Converter;
    if IndexOf(value, DOT, 0) != -1 {
      converter := Converter.OfI32(toFloatBits(value));
    } else if toInt(value) != 0 || value == [ZERO] {
      converter := Converter.OfI32(toInt(value));
    } else {
      var text := value + [NEWLINE];
      newLength := AppendBytes(packetData, packetDataLength, text);
      return;
    }
    newLength := AppendMsbFirst(packetData, packetDataLength, converter);
  }

  /** `packet_data[packet_data_length++] = value[i]` for each byte of `value`. */
  method AppendBytes(packetData: array<bv8>, packetDataLength: nat, value: seq<bv8>) returns (newLength: nat)
    requires packetDataLength + |value| <= packetData.Length
    modifies packetData
    ensures newLength == packetDataLength + |value|
    ensures forall j :: 0 <= j < packetDataLength ==> packetData[j] == old(packetData[j])
    ensures forall j :: packetDataLength <= j < newLength ==> packetData[j] == value[j - packetDataLength]
  {
    newLength := packetDataLength;
    var i := 0;
    while i < |value|
      invariant 0 <= i <= |value|
      invariant newLength == packetDataLength + i
      invariant forall j :: 0 <= j < packetDataLength ==> packetData[j] == old(packetData[j])
      invariant forall j :: packetDataLength <= j < newLength ==> packetData[j] == value[j - packetDataLength]
    {
      packetData[newLength] := value[i];
      newLength := newLength + 1;
      i := i + 1;
    }
  }

  /** `packet_data[packet_data_length++] = converter.b[i]` for `i` from 3 down to 0. */
  method AppendMsbFirst(packetData: array<bv8>, packetDataLength: nat, converter: Converter) returns (newLength: nat)
    requires packetDataLength + 4 <= packetData.Length
    modifies packetData
    ensures newLength == packetDataLength + 4
    ensures forall j :: 0 <= j < packetDataLength ==> packetData[j] == old(packetData[j])
    ensures forall j :: packetDataLength <= j < newLength ==> packetData[j] == converter.B(3 - (j - packetDataLength))
  {
    newLength := packetDataLength;
    var i := 3;
    while i >= 0
      invariant -1 <= i <= 3
      invariant newLength == packetDataLength + 3 - i
      invariant forall j :: 0 <= j < packetDataLength ==> packetData[j] == old(packetData[j])
      invariant forall j :: packetDataLength <= j < newLength ==> packetData[j] == converter.B(3 - (j - packetDataLength))
    {
      packetData[newLength] := converter.B(i);
      newLength := newLength + 1;
      i := i - 1;
    }
  }

  /** Encoding is in input order: the payload of a concatenation is the concatenation of the payloads. */
  lemma {:induction false} PayloadAppend(a: seq<Token>, b: seq<Token>)
    ensures Payload(a + b) == Payload(a) + Payload(b)
    decreases |a|
  {
    if |a| > 0 {
      assert (a + b)[1..] == a[1..] + b;
      PayloadAppend(a[1..], b);
    } else {
      assert a + b == b;
    }
  }

  /** A payload of numbers only is four bytes per number. */
  lemma {:induction false} NumericPayloadLength(ts: seq<Token>)
    requires forall k :: 0 <= k < |ts| ==> ts[k].Num?
    ensures |Payload(ts)| == 4 * |ts|
    decreases |ts|
  {
    if |ts| > 0 {
      NumericPayloadLength(ts[1..]);
    }
  }

  /** A trailing comma adds no field: the fields of `s` and of `s` plus a comma are the same. */
  lemma {:induction false} TrailingCommaAddsNoField(s: seq<bv8>, start: nat)
    requires start < |s| && s[|s| - 1] != COMMA
    ensures Fields(s + [COMMA], start) == Fields(s, start)
    decreases |s| - start
  {
    var t := s + [COMMA];
    var e := FieldEnd(s, start);
    FieldEndExtended(s, start);
    FieldsCons(t, start);
    FieldsCons(s, start);
    SliceExtended(s, start, e);
    if e < |s| {
      TrailingCommaAddsNoField(s, e + 1);
    } else {
      FieldsPastEnd(t, e + 1);
      FieldsPastEnd(s, e + 1);
    }
  }

  lemma SliceExtended(s: seq<bv8>, i: nat, j: nat)
    requires i <= j <= |s|
    ensures (s + [COMMA])[i..j] == s[i..j]
  {
  }

  /** A comma appended to the text does not move the end of any field. */
  lemma FieldEndExtended(s: seq<bv8>, start: nat)
    requires start <= |s|
    ensures FieldEnd(s + [COMMA], start) == FieldEnd(s, start)
  {
    IndexOfPrefix(s, s + [COMMA], start);
  }

  /** Extending a text after its first comma from `from` does not move that comma. */
  lemma {:induction false} IndexOfPrefix(s: seq<bv8>, t: seq<bv8>, from: nat)
    requires from <= |s| < |t| && t[..|s|] == s && t[|s|] == COMMA
    ensures IndexOf(t, COMMA, from) == (if IndexOf(s, COMMA, from) == -1 then |s| else IndexOf(s, COMMA, from))
    decreases |s| - from
  {
    if from < |s| {
      assert t[from] == s[from];
      if s[from] != COMMA {
        IndexOfPrefix(s, t, from + 1);
      }
    }
  }

  /** The serialiser's output is unchanged by a trailing comma. */
  lemma TrailingCommaAddsNothing(data: seq<bv8>, toInt: seq<bv8> -> bv32, toFloatBits: seq<bv8> -> bv32)
    requires |data| > 0 && data[|data| - 1] != COMMA
    ensures SerializedData(data + [COMMA], toInt, toFloatBits) == SerializedData(data, toInt, toFloatBits)
  {
    TrailingCommaAddsNoField(data, 0);
    PayloadFromFields(data, 0, toInt, toFloatBits);
    PayloadFromFields(data + [COMMA], 0, toInt, toFloatBits);
  }

  /**
   * An empty field between two commas is text and adds a lone '\n':
   * "a,,b" (with `toInt` zero on the three fields) gives "a\n\nb\n".
   */
  lemma EmptyFieldExample(toInt: seq<bv8> -> bv32, toFloatBits: seq<bv8> -> bv32)
    requires toInt([0x61]) == 0 && toInt([]) == 0 && toInt([0x62]) == 0
    ensures SerializedData([0x61, COMMA, COMMA, 0x62], toInt, toFloatBits) == [0x61, NEWLINE, NEWLINE, 0x62, NEWLINE]
  {
    var s: seq<bv8> := [0x61, COMMA, COMMA, 0x62];
    assert IndexOf(s, COMMA, 3) == -1 by { assert IndexOf(s, COMMA, 4) == -1; }
    assert IndexOf(s, COMMA, 0) == 1 by { assert IndexOf(s, COMMA, 1) == 1; }
    assert s[3..4] == [0x62] && s[2..2] == [] && s[0..1] == [0x61];
    assert IndexOf([0x61], DOT, 0) == -1 by { assert IndexOf([0x61], DOT, 1) == -1; }
    assert IndexOf([0x62], DOT, 0) == -1 by { assert IndexOf([0x62], DOT, 1) == -1; }
    assert IndexOf([], DOT, 0) == -1;
    assert PayloadFrom(s, 3, toInt, toFloatBits) == [0x62, NEWLINE];
    assert PayloadFrom(s, 2, toInt, toFloatBits) == [NEWLINE, 0x62, NEWLINE];
  }

  /** A field "0" is the number zero, not text: four zero bytes. */
  lemma ZeroIsANumber(toInt: seq<bv8> -> bv32, toFloatBits: seq<bv8> -> bv32)
    requires toInt([ZERO]) == 0
    ensures SerializedData([ZERO], toInt, toFloatBits) == [0, 0, 0, 0]
  {
    assert IndexOf([ZERO], COMMA, 0) == -1 by { assert IndexOf([ZERO], COMMA, 1) == -1; }
    assert [ZERO][0..1] == [ZERO];
    assert IndexOf([ZERO], DOT, 0) == -1 by { assert IndexOf([ZERO], DOT, 1) == -1; }
    assert Classify([ZERO], toInt, toFloatBits) == Num(0);
    assert BE32(0) == [0, 0, 0, 0];
    assert PayloadFrom([ZERO], 0, toInt, toFloatBits) == BE32(0) + PayloadFrom([ZERO], 1, toInt, toFloatBits);
  }
}
