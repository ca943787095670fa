/**
  The subscriber's message handler: a payload `deviceID:room:type:energy`
  is split on `:`, decoded into a reading and folded into the metrics store.
 */
module Ingest {
  import opened Wrappers
  import opened Text
  import opened Decimal
  import opened Metrics

  datatype DecodeError = MalformedPayload

  const Delimiter: char := ':'

  /**
    The energy the handler applies for number field `n`: trimmed, parsed, and
    0 when ParseFloat reports a syntax error (the handler drops that error).
   */
  function EnergyOf(n: string): (v: real)
    ensures TrimSpace(n) == "" ==> v == 0.0
  {
    ParseFloatOrZero(TrimSpace(n))
  }

  /** The text for labels `a`, `b`, `c` followed by the rest of the payload `n`. */
  function Fields(a: string, b: string, c: string, n: string): string {
    a + ([Delimiter] + (b + ([Delimiter] + (c + ([Delimiter] + n)))))
  }

  /**
    `payload` is the reading's three delimiter-free labels, each followed by
    the delimiter, then a rest whose first segment is the reading's number text.
   */
  ghost predicate DecodedFrom(payload: string, r: Reading) {
    && Delimiter !in r.device && Delimiter !in r.room && Delimiter !in r.kind
    && exists rest :: payload == Fields(r.device, r.room, r.kind, rest)
                      && r.energy == EnergyOf(Split(rest, Delimiter)[0])
  }

  lemma JoinFirstThree(parts: seq<string>, sep: char)
    requires |parts| >= 4
    ensures Join(parts, sep) == parts[0] + ([sep] + (parts[1] + ([sep] + (parts[2] + ([sep] + Join(parts[3..], sep))))))
  {
    assert parts[1..][1..] == parts[2..];
    assert parts[2..][1..] == parts[3..];
    assert Join(parts, sep) == parts[0] + ([sep] + Join(parts[1..], sep));
    assert Join(parts[1..], sep) == parts[1] + ([sep] + Join(parts[2..], sep));
    assert Join(parts[2..], sep) == parts[2] + ([sep] + Join(parts[3..], sep));
  }

  /**
    The handler's decoding step. Labels are segments 0, 1 and 2 of the split,
    the energy is segment 3 trimmed and parsed, with a syntax error read as 0
    because the handler discards ParseFloat's error. Fewer than three
    delimiters leave no segment 3: that is reported as an error.
   */
  function Decode(payload: string): (r: Result<Reading, DecodeError>)
    ensures r.Ok? <==> CountChar(payload, Delimiter) >= 3
  {
    var parts := Split(payload, Delimiter);
    if |parts| < 4 then Err(MalformedPayload)
    else Ok(Reading(parts[0], parts[1], parts[2], EnergyOf(parts[3])))
  }

  /**
    A decoded reading's labels are the text before the first three
    delimiters, and its energy comes from the segment after the third.
   */
  lemma DecodeSound(payload: string)
    requires Decode(payload).Ok?
    ensures DecodedFrom(payload, Decode(payload).value)
  {
    var parts := Split(payload, Delimiter);
    var r := Decode(payload).value;
    var rest := Join(parts[3..], Delimiter);
    SplitSegmentsFree(payload, Delimiter);
    JoinSplit(payload, Delimiter);
    JoinFirstThree(parts, Delimiter);
    SplitJoin(parts[3..], Delimiter);
    assert payload == Fields(r.device, r.room, r.kind, rest);
  }

  /** A delimiter-free label splits off as the first segment. */
  lemma SplitLabel(a: string, rest: string)
    requires Delimiter !in a
    ensures Split(a + ([Delimiter] + rest), Delimiter) == [a] + Split(rest, Delimiter)
  {
    SplitNoSeparator(a, Delimiter);
    SplitAppend(a, rest, Delimiter);
  }

  /** The number field is the first segment of what follows the third delimiter. */
  lemma SplitNumberField(n: string, tail: string)
    requires Delimiter !in n
    requires tail == [] || tail[0] == Delimiter
    ensures |Split(n + tail, Delimiter)| > 0 && Split(n + tail, Delimiter)[0] == n
  {
    SplitNoSeparator(n, Delimiter);
    if tail != [] {
      assert tail == [Delimiter] + tail[1..];
      SplitAppend(n, tail[1..], Delimiter);
    } else {
      assert n + tail == n;
    }
  }

  /**
    Decoding a payload built from delimiter-free labels and a delimiter-free
    number field, possibly followed by further segments, gives those labels and
    the trimmed, parsed number field.
   */
  lemma DecodeFields(a: string, b: string, c: string, n: string, tail: string)
    requires Delimiter !in a && Delimiter !in b && Delimiter !in c && Delimiter !in n
    requires tail == [] || tail[0] == Delimiter
    ensures Decode(Fields(a, b, c, n + tail)) == Ok(Reading(a, b, c, EnergyOf(n)))
  {
    var last := n + tail;
    SplitLabel(c, last);
    SplitLabel(b, c + ([Delimiter] + last));
    SplitLabel(a, b + ([Delimiter] + (c + ([Delimiter] + last))));
    SplitNumberField(n, tail);
    var parts := Split(Fields(a, b, c, last), Delimiter);
    assert parts == [a] + ([b] + ([c] + Split(last, Delimiter)));
    assert parts[0] == a && parts[1] == b && parts[2] == c && parts[3] == n;
  }

  /** Four delimiter-free fields joined by the delimiter split into exactly those four segments. */
  lemma SplitFourFields(a: string, b: string, c: string, n: string)
    requires Delimiter !in a && Delimiter !in b && Delimiter !in c && Delimiter !in n
    ensures Split(Fields(a, b, c, n), Delimiter) == [a, b, c, n]
  {
    SplitLabel(c, n);
    SplitLabel(b, c + ([Delimiter] + n));
    SplitLabel(a, b + ([Delimiter] + (c + ([Delimiter] + n))));
    SplitNoSeparator(n, Delimiter);
  }

  /** Decoding a payload that is exactly four delimiter-free fields. */
  lemma DecodeFourFields(a: string, b: string, c: string, n: string)
    requires Delimiter !in a && Delimiter !in b && Delimiter !in c && Delimiter !in n
    ensures Decode(Fields(a, b, c, n)) == Ok(Reading(a, b, c, EnergyOf(n)))
  {
    DecodeFields(a, b, c, n, []);
    assert n + [] == n;
  }

  /** Segments after the fourth are ignored. */
  lemma DecodeIgnoresExtraSegments(payload: string, extra: string)
    requires CountChar(payload, Delimiter) >= 3
    ensures Decode(payload + ([Delimiter] + extra)) == Decode(payload)
  {
    SplitAppend(payload, extra, Delimiter);
  }

  /** Whitespace around the number field does not change the decoded reading. */
  lemma DecodeTrimsNumber(a: string, b: string, c: string, n: string, left: string, right: string)
    requires Delimiter !in a && Delimiter !in b && Delimiter !in c && Delimiter !in n
    requires AllSpace(left) && AllSpace(right)
    ensures Decode(Fields(a, b, c, left + n + right)) == Decode(Fields(a, b, c, n))
  {
    assert !IsSpace(Delimiter);
    assert Delimiter !in left + n + right;
    DecodeFourFields(a, b, c, left + n + right);
    DecodeFourFields(a, b, c, n);
    TrimSpacePadding(left, n, right);
  }

  /** `"a:b:c"` has no fourth segment and is rejected. */
  lemma DecodeRejectsThreeFields()
    ensures |Split("a:b:c", Delimiter)| == 3
    ensures Decode("a:b:c") == Err(MalformedPayload)
  {
  }

  /**
    A number field that ParseFloat rejects, once trimmed, is applied as 0,
    because the handler discards ParseFloat's error.
   */
  lemma DecodeBadNumberIsZero(a: string, b: string, c: string, n: string)
    requires Delimiter !in a && Delimiter !in b && Delimiter !in c && Delimiter !in n
    requires ParseFloat(TrimSpace(n)).None?
    ensures Decode(Fields(a, b, c, n)) == Ok(Reading(a, b, c, 0.0))
  {
    DecodeFourFields(a, b, c, n);
  }

  /** A field such as `xyz`, whose first character can begin no number, is one ParseFloat rejects. */
  lemma DecodeLetterNumberIsZero(a: string, b: string, c: string, n: string)
    requires Delimiter !in a && Delimiter !in b && Delimiter !in c && Delimiter !in n
    requires |n| > 0 && NoEdgeSpace(n) && !IsDigit(n[0]) && n[0] !in "+-.eEiInN"
    ensures Decode(Fields(a, b, c, n)) == Ok(Reading(a, b, c, 0.0))
  {
    TrimSpaceOfPadded([], n, []);
    assert [] + n + [] == n;
    ParseFloatRejectsLetter(n);
    DecodeBadNumberIsZero(a, b, c, n);
  }

  /** A number field that ParseFloat accepts, once trimmed, is applied as the value it reads. */
  lemma DecodeParsedNumber(a: string, b: string, c: string, n: string, x: real)
    requires Delimiter !in a && Delimiter !in b && Delimiter !in c && Delimiter !in n
    requires ParseFloat(TrimSpace(n)) == Some(x)
    ensures Decode(Fields(a, b, c, n)) == Ok(Reading(a, b, c, x))
  {
    DecodeFourFields(a, b, c, n);
  }

  /**
    `msgHandler`: a decodable payload is applied to the store; a payload the
    source cannot index leaves it unchanged.
   */
  function Handle(s: Store, payload: string): (s': Store)
    ensures CountChar(payload, Delimiter) < 3 ==> s' == s
    ensures CountChar(payload, Delimiter) >= 3 ==> s' == Apply(s, Decode(payload).value)
  {
    match Decode(payload)
    case Ok(r) => Apply(s, r)
    case Err(_) => s
  }

  /**
    `msgHandler` as written: it indexes segment 3 without checking the split's
    length, so it is defined only for payloads with at least three delimiters.
   */
  function HandleAsWritten(s: Store, payload: string): (s': Store)
    requires CountChar(payload, Delimiter) >= 3
    ensures s' == Handle(s, payload)
  {
    var parts := Split(payload, Delimiter);
    Apply(s, Reading(parts[0], parts[1], parts[2], EnergyOf(parts[3])))
  }

  /** The payload the as-written handler cannot index: `"a:b:c"` has three segments. */
  lemma ShortPayloadIndexFault(s: Store)
    ensures CountChar("a:b:c", Delimiter) < 3
    ensures |Split("a:b:c", Delimiter)| <= 3
    ensures Handle(s, "a:b:c") == s
  {
  }

  /** Messages handled one after another, in delivery order. */
  function HandleAll(s: Store, payloads: seq<string>): (s': Store)
    ensures s.Keys <= s'.Keys
    decreases |payloads|
  {
    if |payloads| == 0 then s else HandleAll(Handle(s, payloads[0]), payloads[1..])
  }

  /** The readings of the payloads that decode, in order. */
  function DecodedReadings(payloads: seq<string>): (rs: seq<Reading>)
    ensures |rs| <= |payloads|
  {
    if |payloads| == 0 then []
    else
      match Decode(payloads[0])
      case Ok(r) => [r] + DecodedReadings(payloads[1..])
      case Err(_) => DecodedReadings(payloads[1..])
  }

  /** `payloads` decode one by one to `rs`. */
  predicate DecodesTo(payloads: seq<string>, rs: seq<Reading>) {
    && |rs| == |payloads|
    && forall i :: 0 <= i < |payloads| ==> Decode(payloads[i]) == Ok(rs[i])
  }

  /** A stream whose payloads all decode is handled as the run of their readings. */
  lemma {:induction false} HandleAllDecoded(s: Store, payloads: seq<string>, rs: seq<Reading>)
    requires DecodesTo(payloads, rs)
    ensures HandleAll(s, payloads) == ApplyAll(s, rs)
    decreases |payloads|
  {
    if |payloads| > 0 {
      var s1 := Apply(s, rs[0]);
      assert HandleAll(s, payloads) == HandleAll(s1, payloads[1..]) by {
        HandleAllStep(s, payloads, rs);
      }
      assert DecodesTo(payloads[1..], rs[1..]) by {
        DecodesToTail(payloads, rs);
      }
      HandleAllDecoded(s1, payloads[1..], rs[1..]);
    }
  }

  lemma HandleAllStep(s: Store, payloads: seq<string>, rs: seq<Reading>)
    requires DecodesTo(payloads, rs) && |payloads| > 0
    ensures HandleAll(s, payloads) == HandleAll(Apply(s, rs[0]), payloads[1..])
  {
    HandleStep(s, payloads[0], rs[0]);
  }

  lemma DecodesToTail(payloads: seq<string>, rs: seq<Reading>)
    requires DecodesTo(payloads, rs) && |payloads| > 0
    ensures DecodesTo(payloads[1..], rs[1..])
  {
    assert forall i :: 0 <= i < |payloads[1..]| ==> payloads[1..][i] == payloads[i + 1] && rs[1..][i] == rs[i + 1];
  }

  lemma HandleStep(s: Store, p: string, r: Reading)
    requires Decode(p) == Ok(r)
    ensures Handle(s, p) == Apply(s, r)
  {
  }

  /** Handling a message stream is applying its decodable readings; malformed ones are skipped. */
  lemma {:induction false} HandleAllIsApplyAll(s: Store, payloads: seq<string>)
    ensures HandleAll(s, payloads) == ApplyAll(s, DecodedReadings(payloads))
    decreases |payloads|
  {
    if |payloads| > 0 {
      HandleAllIsApplyAll(Handle(s, payloads[0]), payloads[1..]);
      var rest := DecodedReadings(payloads[1..]);
      match Decode(payloads[0])
      case Ok(r) =>
        assert ([r] + rest)[0] == r;
        assert ([r] + rest)[1..] == rest;
      case Err(_) =>
    }
  }

  /**
    Two messages for one series handled on a fresh store: the counter holds
    their sum and the gauge the second value.
   */
  lemma HandleTwoReadings(a: string, b: string, c: string, n1: string, n2: string)
    requires Delimiter !in a && Delimiter !in b && Delimiter !in c
    requires Delimiter !in n1 && Delimiter !in n2
    ensures var k := LabelKey(a, b, c);
            var v1 := EnergyOf(n1);
            var v2 := EnergyOf(n2);
            var s := HandleAll(map[], [Fields(a, b, c, n1), Fields(a, b, c, n2)]);
            k in s && s[k] == Series(v1 + v2, v2)
  {
    var p1 := Fields(a, b, c, n1);
    var p2 := Fields(a, b, c, n2);
    var r1 := Reading(a, b, c, EnergyOf(n1));
    var r2 := Reading(a, b, c, EnergyOf(n2));
    var s1 := Apply(map[], r1);
    assert Handle(map[], p1) == s1 by {
      DecodeFourFields(a, b, c, n1);
    }
    assert Handle(s1, p2) == Apply(s1, r2) by {
      DecodeFourFields(a, b, c, n2);
    }
    HandleAllPair(map[], p1, p2);
  }

  lemma HandleAllPair(s: Store, p1: string, p2: string)
    ensures HandleAll(s, [p1, p2]) == Handle(Handle(s, p1), p2)
  {
    var s1 := Handle(s, p1);
    assert [p1, p2][0] == p1 && [p1, p2][1..] == [p2];
    assert HandleAll(s, [p1, p2]) == HandleAll(s1, [p2]);
    assert [p2][0] == p2 && [p2][1..] == [];
    assert HandleAll(s1, [p2]) == HandleAll(Handle(s1, p2), []);
  }

  lemma CentsFieldNoDelimiter(c: nat)
    ensures Delimiter !in FormatCents(c)
  {
    var n := FormatCents(c);
    FormatCentsShape(c);
    forall i | 0 <= i < |n| ensures n[i] != Delimiter {
      assert IsDigit(n[i]) || n[i] == '.';
    }
  }

  lemma CentsFieldTrimmed(c: nat)
    ensures TrimSpace(FormatCents(c)) == FormatCents(c)
  {
    var n := FormatCents(c);
    FormatCentsShape(c);
    assert NoEdgeSpace(n);
    TrimSpaceOfPadded([], n, []);
    assert [] + n + [] == n;
  }

  /** A `%.2f` number field carries no delimiter and reads back as its hundredths. */
  lemma CentsFieldValue(c: nat)
    ensures Delimiter !in FormatCents(c)
    ensures EnergyOf(FormatCents(c)) == Hundredths(c)
  {
    CentsFieldNoDelimiter(c);
    CentsFieldTrimmed(c);
    assert ParseFloatOrZero(FormatCents(c)) == Hundredths(c) by {
      ParseFormatCents(c);
    }
  }

  /**
    Two `%.2f` readings for one series on a fresh store: the counter holds the
    sum of the printed values and the gauge the second one.
   */
  lemma EndToEndCents(device: string, room: string, kind: string, c1: nat, c2: nat)
    requires Delimiter !in device && Delimiter !in room && Delimiter !in kind
    ensures var k := LabelKey(device, room, kind);
            var s := HandleAll(map[], [Fields(device, room, kind, FormatCents(c1)), Fields(device, room, kind, FormatCents(c2))]);
            k in s && s[k] == Series(Hundredths(c1) + Hundredths(c2), Hundredths(c2))
  {
    var n1 := FormatCents(c1);
    var n2 := FormatCents(c2);
    assert Delimiter !in n1 && EnergyOf(n1) == Hundredths(c1) by {
      CentsFieldValue(c1);
    }
    assert Delimiter !in n2 && EnergyOf(n2) == Hundredths(c2) by {
      CentsFieldValue(c2);
    }
    HandleTwoReadings(device, room, kind, n1, n2);
  }
}
