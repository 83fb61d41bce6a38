/**
 * The parts of Arduino's `String` that the codec's loops rely on, over 8-bit
 * characters: `indexOf(ch, from)` and the comma walk both loops perform
 * (`end = indexOf(',', start)`, `substring(start, end)`, `start = end + 1`,
 * until `start` reaches the length).
 */
module ArduinoString {

  const COMMA: bv8 := 0x2C

  /** `indexOf(c, from)`: the first position at or after `from` holding `c`, or -1. */
  function IndexOf(s: seq<bv8>, c: bv8, from: nat): (r: int)
    ensures r == -1 || (from <= r < |s| && s[r] == c)
    decreases |s| - from
  {
    if from >= |s| then -1 else if s[from] == c then from else IndexOf(s, c, from + 1)
  }

  /** `indexOf` finds the first occurrence: none of `c` lies between `from` and the result. */
  lemma {:induction false} IndexOfFirst(s: seq<bv8>, c: bv8, from: nat)
    ensures IndexOf(s, c, from) == -1 ==> forall i :: from <= i < |s| ==> s[i] != c
    ensures IndexOf(s, c, from) != -1 ==> forall i :: from <= i < IndexOf(s, c, from) ==> s[i] != c
    decreases |s| - from
  {
    if from < |s| && s[from] != c {
      IndexOfFirst(s, c, from + 1);
    }
  }

  /** Conversely, the first `c` at or after `from` is what `indexOf` finds. */
  lemma {:induction false} IndexOfFinds(s: seq<bv8>, c: bv8, from: nat, at: nat)
    requires from <= at < |s| && s[at] == c
    requires forall i :: from <= i < at ==> s[i] != c
    ensures IndexOf(s, c, from) == at
    decreases at - from
  {
    if from < at {
      IndexOfFinds(s, c, from + 1, at);
    }
  }

  /** With no `c` at or after `from`, `indexOf` gives -1. */
  lemma {:induction false} IndexOfMisses(s: seq<bv8>, c: bv8, from: nat)
    requires forall i :: from <= i < |s| ==> s[i] != c
    ensures IndexOf(s, c, from) == -1
    decreases |s| - from
  {
    if from < |s| {
      IndexOfMisses(s, c, from + 1);
    }
  }

  /** Where the field starting at `start` ends: the next comma, or the end of the text. */
  function FieldEnd(s: seq<bv8>, start: nat): (e: nat)
    requires start <= |s|
    ensures start <= e <= |s|
    ensures e < |s| ==> s[e] == COMMA
  {
    var i := IndexOf(s, COMMA, start);
    if i == -1 then |s| else i
  }

  /** A field holds no comma. */
  lemma FieldEndNoComma(s: seq<bv8>, start: nat)
    requires start <= |s|
    ensures forall i :: start <= i < FieldEnd(s, start) ==> s[i] != COMMA
  {
    IndexOfFirst(s, COMMA, start);
  }

  /**
   * The fields the comma walk visits from `start` on, in order.  A field may be
   * empty (two adjacent commas); a comma at the very end opens no field.
   */
  function Fields(s: seq<bv8>, start: nat): seq<seq<bv8>>
    decreases |s| - start
  {
    if start >= |s| then []
    else
      var e := FieldEnd(s, start);
      [s[start..e]] + Fields(s, e + 1)
  }

  /** The walk visits at most one field per character left. */
  lemma {:induction false} FieldsCount(s: seq<bv8>, start: nat)
    requires start <= |s|
    ensures |Fields(s, start)| <= |s| - start
    decreases |s| - start
  {
    if start < |s| {
      var e := FieldEnd(s, start);
      FieldsCons(s, start);
      if e + 1 <= |s| {
        FieldsCount(s, e + 1);
      } else {
        FieldsPastEnd(s, e + 1);
      }
    }
  }

  /** The first field, then the fields after its comma. */
  lemma FieldsCons(s: seq<bv8>, start: nat)
    requires start < |s|
    ensures Fields(s, start) == [s[start..FieldEnd(s, start)]] + Fields(s, FieldEnd(s, start) + 1)
  {
  }

  /** Past the end of the text there are no fields. */
  lemma FieldsPastEnd(s: seq<bv8>, start: nat)
    requires start >= |s|
    ensures Fields(s, start) == []
  {
  }

  /** No field holds a comma. */
  lemma {:induction false} FieldsHaveNoComma(s: seq<bv8>, start: nat)
    ensures forall k :: 0 <= k < |Fields(s, start)| ==> COMMA !in Fields(s, start)[k]
    decreases |s| - start
  {
    if start < |s| {
      var e := FieldEnd(s, start);
      FieldEndNoComma(s, start);
      assert COMMA !in s[start..e];
      FieldsHaveNoComma(s, e + 1);
    }
  }

  /** Texts joined with a comma between each two. */
  function Join(fs: seq<seq<bv8>>): seq<bv8>
  {
    if |fs| == 0 then [] else if |fs| == 1 then fs[0] else fs[0] + [COMMA] + Join(fs[1..])
  }

  /**
   * The walk loses nothing but a trailing comma: joining the fields with
   * commas gives back the text from `start`, without its last byte exactly
   * when that byte is a comma.
   */
  lemma {:induction false} FieldsJoin(s: seq<bv8>, start: nat)
    requires start <= |s|
    ensures Join(Fields(s, start)) == if start < |s| && s[|s| - 1] == COMMA then s[start..|s| - 1] else s[start..]
    decreases |s| - start
  {
    if start < |s| {
      var e := FieldEnd(s, start);
      FieldsCons(s, start);
      if e == |s| {
        LastField(s, start);
      } else if e + 1 == |s| {
        FieldsPastEnd(s, e + 1);
        assert Fields(s, start) == [s[start..e]];
      } else {
        FieldsJoin(s, e + 1);
        JoinCons(s[start..e], Fields(s, e + 1));
        SplitAtComma(s, start, e);
      }
    }
  }

  /** A field that runs to the end of the text is the last one, and the text does not end in a comma. */
  lemma LastField(s: seq<bv8>, start: nat)
    requires start < |s| && FieldEnd(s, start) == |s|
    ensures Fields(s, start) == [s[start..]]
    ensures s[|s| - 1] != COMMA
  {
    FieldEndNoComma(s, start);
    FieldsCons(s, start);
    FieldsPastEnd(s, |s| + 1);
    assert s[start..FieldEnd(s, start)] == s[start..];
  }

  lemma JoinCons(f: seq<bv8>, rest: seq<seq<bv8>>)
    requires |rest| > 0
    ensures Join([f] + rest) == f + [COMMA] + Join(rest)
  {
    assert ([f] + rest)[1..] == rest;
  }

  lemma SplitAtComma(s: seq<bv8>, start: nat, e: nat)
    requires start <= e && e + 1 < |s| && s[e] == COMMA
    ensures s[start..|s| - 1] == s[start..e] + [COMMA] + s[e + 1..|s| - 1]
    ensures s[start..] == s[start..e] + [COMMA] + s[e + 1..]
  {
  }

  /** A text with no comma in it. */
  predicate CommaFree(t: seq<bv8>)
  {
    forall i :: 0 <= i < |t| ==> t[i] != COMMA
  }

  /** A comma at `e`, the first from `start`, ends the field at `start`. */
  lemma FieldBeforeComma(s: seq<bv8>, start: nat, e: nat)
    requires start <= e < |s| && s[e] == COMMA && CommaFree(s[start..e])
    ensures Fields(s, start) == [s[start..e]] + Fields(s, e + 1)
  {
    assert forall i :: start <= i < e ==> s[i] == s[start..e][i - start];
    IndexOfFinds(s, COMMA, start, e);
    FieldsCons(s, start);
  }

  /** With no comma from `start` on, the rest of the text is the last field. */
  lemma FieldToEnd(s: seq<bv8>, start: nat)
    requires start < |s| && CommaFree(s[start..])
    ensures Fields(s, start) == [s[start..]]
  {
    assert forall i :: start <= i < |s| ==> s[i] == s[start..][i - start];
    IndexOfMisses(s, COMMA, start);
    FieldsCons(s, start);
    FieldsPastEnd(s, |s| + 1);
    assert s[start..|s|] == s[start..];
  }

  /**
   * The other way round: comma-free texts joined with commas split back into
   * themselves, as long as the last one is not empty (a trailing comma opens
   * no field).
   */
  lemma FieldsOfJoin(s: seq<bv8>, start: nat, fs: seq<seq<bv8>>)
    requires start <= |s| && s[start..] == Join(fs)
    requires |fs| > 0 && fs[|fs| - 1] != []
    requires forall k :: 0 <= k < |fs| ==> CommaFree(fs[k])
    ensures Fields(s, start) == fs
  {
    JoinIsLaidOut(s, start, fs);
    FieldsOfLaidOut(s, start, fs);
  }

  /** The parts `fs` lie in `s` from `start` on, one after another, each but the last followed by a comma. */
  ghost predicate LaidOut(s: seq<bv8>, start: nat, fs: seq<seq<bv8>>)
    decreases |fs|
  {
    && |fs| > 0 && start <= |s|
    && if |fs| == 1 then s[start..] == fs[0]
       else
         var e := start + |fs[0]|;
         e < |s| && s[start..e] == fs[0] && s[e] == COMMA && LaidOut(s, e + 1, fs[1..])
  }

  lemma {:induction false} JoinIsLaidOut(s: seq<bv8>, start: nat, fs: seq<seq<bv8>>)
    requires start <= |s| && s[start..] == Join(fs) && |fs| > 0
    ensures LaidOut(s, start, fs)
    decreases |fs|
  {
    if |fs| > 1 {
      JoinedFirst(s, start, fs);
      JoinIsLaidOut(s, start + |fs[0]| + 1, fs[1..]);
    }
  }

  lemma {:induction false} FieldsOfLaidOut(s: seq<bv8>, start: nat, fs: seq<seq<bv8>>)
    requires LaidOut(s, start, fs) && fs[|fs| - 1] != []
    requires forall k :: 0 <= k < |fs| ==> CommaFree(fs[k])
    ensures Fields(s, start) == fs
    decreases |fs|
  {
    if |fs| == 1 {
      SingleJoined(s, start, fs);
    } else {
      var e := start + |fs[0]|;
      TailParts(fs);
      FieldBeforeComma(s, start, e);
      FieldsOfLaidOut(s, e + 1, fs[1..]);
      ConsParts(Fields(s, start), s[start..e], Fields(s, e + 1), fs);
    }
  }

  /** The parts after the first keep the premises. */
  lemma TailParts(fs: seq<seq<bv8>>)
    requires |fs| > 1 && fs[|fs| - 1] != []
    requires forall k :: 0 <= k < |fs| ==> CommaFree(fs[k])
    ensures fs[1..][|fs[1..]| - 1] != []
    ensures forall k :: 0 <= k < |fs[1..]| ==> CommaFree(fs[1..][k])
  {
    assert forall k :: 0 <= k < |fs[1..]| ==> fs[1..][k] == fs[k + 1];
  }

  /** A single comma-free, non-empty part is the one field. */
  lemma SingleJoined(s: seq<bv8>, start: nat, fs: seq<seq<bv8>>)
    requires start <= |s| && |fs| == 1 && s[start..] == fs[0] && fs[0] != [] && CommaFree(fs[0])
    ensures Fields(s, start) == fs
  {
    FieldToEnd(s, start);
    assert fs == [fs[0]];
  }

  lemma ConsParts(r: seq<seq<bv8>>, head: seq<bv8>, tail: seq<seq<bv8>>, fs: seq<seq<bv8>>)
    requires r == [head] + tail && |fs| > 0 && head == fs[0] && tail == fs[1..]
    ensures r == fs
  {
  }

  /** In a joined text the first part is followed by a comma and the join of the rest. */
  lemma JoinedFirst(s: seq<bv8>, start: nat, fs: seq<seq<bv8>>)
    requires start <= |s| && s[start..] == Join(fs) && |fs| > 1
    ensures start + |fs[0]| < |s|
    ensures s[start..start + |fs[0]|] == fs[0] && s[start + |fs[0]|] == COMMA
    ensures s[start + |fs[0]| + 1..] == Join(fs[1..])
  {
    var t := s[start..];
    SplitJoined(t, fs[0], Join(fs[1..]));
    assert t[..|fs[0]|] == s[start..start + |fs[0]|];
    assert t[|fs[0]| + 1..] == s[start + |fs[0]| + 1..];
  }

  lemma SplitJoined(t: seq<bv8>, a: seq<bv8>, b: seq<bv8>)
    requires t == a + [COMMA] + b
    ensures t[..|a|] == a && t[|a|] == COMMA && t[|a| + 1..] == b
  {
  }
}
