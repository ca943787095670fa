/**
  The synthetic publisher: one cycle sends one `%s:%s:%s:%.2f` message per
  device of a fixed device-to-room table, with a random energy in [0, 50).
  Go's map iteration order and `rand.Float64` are parameters here.
 */
module MockPublisher {
  import opened Wrappers
  import opened Text
  import opened Decimal
  import opened Metrics
  import opened Ingest

  /** The fixed device-to-room table. */
  const DeviceRooms: map<string, string> := map[
    "device1" := "living_room",
    "device2" := "living_room",
    "device3" := "bedroom",
    "device4" := "kitchen",
    "device5" := "bedroom",
    "device6" := "bathroom",
    "device7" := "bedroom",
    "device8" := "bathroom"
  ]

  /** Every published reading carries this device type. */
  const DeviceType: string := "sensor"

  /** `rand.Float64() * 50.0` lies in [0, EnergyCeiling). */
  const EnergyCeiling: real := 50.0

  /** MQTT's QoS field is one byte. */
  newtype Byte = x: int | 0 <= x < 256

  /** What `client.Publish` is asked to send. */
  datatype Message = Message(topic: string, qos: Byte, retained: bool, payload: string)

  /** `order` lists every key of `keys` exactly once: one possible map iteration order. */
  predicate IsEnumeration(order: seq<string>, keys: set<string>) {
    && (forall k :: k in keys ==> k in order)
    && (forall i :: 0 <= i < |order| ==> order[i] in keys)
    && (forall i, j :: 0 <= i < j < |order| ==> order[i] != order[j])
  }

  /** The table has eight devices spread over four rooms. */
  lemma DeviceRoomsShape()
    ensures DeviceRooms.Keys == {"device1", "device2", "device3", "device4", "device5", "device6", "device7", "device8"}
    ensures DeviceRooms.Values == {"living_room", "bedroom", "kitchen", "bathroom"}
    ensures |DeviceRooms| == 8
  {
    assert DeviceRooms["device4"] == "kitchen";
    assert DeviceRooms["device6"] == "bathroom";
  }

  /** No device or room name contains the payload delimiter, nor does the device type. */
  lemma TableDelimiterFree()
    ensures forall d :: d in DeviceRooms ==> Delimiter !in d && Delimiter !in DeviceRooms[d]
    ensures Delimiter !in DeviceType
  {
  }

  /**
    The payload `MockPublish` formats: three labels and the energy printed
    with two decimals.
   */
  function EncodePayload(device: string, room: string, kind: string, v: real): (p: string)
    requires v >= 0.0
    ensures |p| >= |device| + |room| + |kind| + 7
  {
    Fields(device, room, kind, FormatCents(RoundCents(v)))
  }

  /**
    The subscriber reads an encoded payload back as the same labels and the
    printed energy, which is within half a hundredth of the value encoded.
   */
  lemma EncodeDecode(device: string, room: string, kind: string, v: real)
    requires Delimiter !in device && Delimiter !in room && Delimiter !in kind
    requires v >= 0.0
    ensures Decode(EncodePayload(device, room, kind, v)) == Ok(Reading(device, room, kind, Hundredths(RoundCents(v))))
    ensures -0.005 <= Hundredths(RoundCents(v)) - v <= 0.005
  {
    var c := RoundCents(v);
    var n := FormatCents(c);
    assert Delimiter !in n && EnergyOf(n) == Hundredths(c) by {
      CentsFieldValue(c);
    }
    DecodeFourFields(device, room, kind, n);
  }

  /**
    A payload built from delimiter-free labels splits into exactly four
    segments: the three labels and the printed number.
   */
  lemma EncodedSegments(device: string, room: string, kind: string, v: real)
    requires Delimiter !in device && Delimiter !in room && Delimiter !in kind
    requires v >= 0.0
    ensures Split(EncodePayload(device, room, kind, v), Delimiter) == [device, room, kind, FormatCents(RoundCents(v))]
  {
    CentsFieldNoDelimiter(RoundCents(v));
    SplitFourFields(device, room, kind, FormatCents(RoundCents(v)));
  }

  /** A value already written with two decimals crosses the wire exactly. */
  lemma EncodeDecodeExact(device: string, room: string, kind: string, c: nat)
    requires Delimiter !in device && Delimiter !in room && Delimiter !in kind
    ensures Decode(EncodePayload(device, room, kind, Hundredths(c))) == Ok(Reading(device, room, kind, Hundredths(c)))
  {
    RoundCentsExact(Hundredths(c), c);
    EncodeDecode(device, room, kind, Hundredths(c));
  }

  /** A printed energy lies in [0, 50.00]: rounding can reach 50.00 itself. */
  lemma PrintedEnergyBound(v: real)
    requires 0.0 <= v < EnergyCeiling
    ensures 0.0 <= Hundredths(RoundCents(v)) <= EnergyCeiling
  {
    RoundCentsBound(v);
  }

  /** The reading the subscriber decodes from the message for `order[i]`. */
  function PublishedReading(device: string, v: real): (r: Reading)
    requires device in DeviceRooms && v >= 0.0
    ensures r.device == device && r.room == DeviceRooms[device] && r.kind == DeviceType
  {
    Reading(device, DeviceRooms[device], DeviceType, Hundredths(RoundCents(v)))
  }

  /** The message published for `device` with random draw `v`. */
  function CycleMessage(topic: string, qos: Byte, device: string, v: real): (m: Message)
    requires device in DeviceRooms && v >= 0.0
    ensures m.topic == topic && m.qos == qos && !m.retained
  {
    Message(topic, qos, false, EncodePayload(device, DeviceRooms[device], DeviceType, v))
  }

  /**
    A cycle message splits into its device, the device's room, `sensor` and the
    printed number, and decodes to its device's reading, with a printed energy
    in [0, 50.00].
   */
  lemma CycleMessageDecodes(topic: string, qos: Byte, device: string, v: real)
    requires device in DeviceRooms && 0.0 <= v < EnergyCeiling
    ensures Split(CycleMessage(topic, qos, device, v).payload, Delimiter)
         == [device, DeviceRooms[device], DeviceType, FormatCents(RoundCents(v))]
    ensures Decode(CycleMessage(topic, qos, device, v).payload) == Ok(PublishedReading(device, v))
    ensures 0.0 <= PublishedReading(device, v).energy <= EnergyCeiling
  {
    TableDelimiterFree();
    EncodedSegments(device, DeviceRooms[device], DeviceType, v);
    EncodeDecode(device, DeviceRooms[device], DeviceType, v);
    PrintedEnergyBound(v);
  }

  /**
    One publishing cycle: for each device, in the iteration order `order`,
    one non-retained message on `topic` with `qos` whose payload is the
    `%s:%s:%s:%.2f` text of the device, its room, the type `sensor` and the
    draw, and decodes to that reading with the printed energy.
   */
  method MockPublish(topic: string, qos: Byte, order: seq<string>, values: seq<real>) returns (msgs: seq<Message>)
    requires IsEnumeration(order, DeviceRooms.Keys)
    requires |values| == |order|
    requires forall i :: 0 <= i < |values| ==> 0.0 <= values[i] < EnergyCeiling
    ensures |msgs| == |order|
    ensures forall i :: 0 <= i < |msgs| ==> msgs[i].topic == topic && msgs[i].qos == qos && !msgs[i].retained
    ensures forall i :: 0 <= i < |msgs| ==> msgs[i].payload == EncodePayload(order[i], DeviceRooms[order[i]], DeviceType, values[i])
    ensures forall i :: 0 <= i < |msgs| ==>
      Split(msgs[i].payload, Delimiter) == [order[i], DeviceRooms[order[i]], DeviceType, FormatCents(RoundCents(values[i]))]
    ensures forall i :: 0 <= i < |msgs| ==> Decode(msgs[i].payload) == Ok(PublishedReading(order[i], values[i]))
    ensures forall i :: 0 <= i < |msgs| ==> 0.0 <= Decode(msgs[i].payload).value.energy <= EnergyCeiling
    ensures PublishedCycle(order, values, msgs)
  {
    msgs := PublishEach(topic, qos, order, values);
    CycleMessagesPublished(topic, qos, order, values, msgs);
  }

  /**
    The loop of `MockPublish`: one `CycleMessage` per device, in iteration
    order, each handed to `Publish` in turn.
   */
  method PublishEach(topic: string, qos: Byte, order: seq<string>, values: seq<real>) returns (msgs: seq<Message>)
    requires |values| == |order|
    requires forall j :: 0 <= j < |order| ==> order[j] in DeviceRooms && values[j] >= 0.0
    ensures |msgs| == |order|
    ensures forall j :: 0 <= j < |msgs| ==> msgs[j] == CycleMessage(topic, qos, order[j], values[j])
  {
    msgs := [];
    var i := 0;
    while i < |order|
      invariant 0 <= i <= |order|
      invariant |msgs| == i
      invariant forall j :: 0 <= j < i ==> msgs[j] == CycleMessage(topic, qos, order[j], values[j])
    {
      msgs := msgs + [CycleMessage(topic, qos, order[i], values[i])];
      i := i + 1;
    }
  }


  /**
    The messages of a cycle, one `CycleMessage` per visited device, form a
    published cycle whose printed energies lie in [0, 50.00].
   */
  lemma CycleMessagesPublished(topic: string, qos: Byte, order: seq<string>, values: seq<real>, msgs: seq<Message>)
    requires IsEnumeration(order, DeviceRooms.Keys)
    requires |values| == |order| == |msgs|
    requires forall i :: 0 <= i < |values| ==> 0.0 <= values[i] < EnergyCeiling
    requires forall j :: 0 <= j < |msgs| ==> msgs[j] == CycleMessage(topic, qos, order[j], values[j])
    ensures forall i :: 0 <= i < |msgs| ==> msgs[i].topic == topic && msgs[i].qos == qos && !msgs[i].retained
    ensures forall i :: 0 <= i < |msgs| ==> msgs[i].payload == EncodePayload(order[i], DeviceRooms[order[i]], DeviceType, values[i])
    ensures forall i :: 0 <= i < |msgs| ==>
      Split(msgs[i].payload, Delimiter) == [order[i], DeviceRooms[order[i]], DeviceType, FormatCents(RoundCents(values[i]))]
    ensures forall i :: 0 <= i < |msgs| ==> Decode(msgs[i].payload) == Ok(PublishedReading(order[i], values[i]))
    ensures forall i :: 0 <= i < |msgs| ==> 0.0 <= Decode(msgs[i].payload).value.energy <= EnergyCeiling
    ensures PublishedCycle(order, values, msgs)
  {
    forall j | 0 <= j < |msgs|
      ensures Split(msgs[j].payload, Delimiter) == [order[j], DeviceRooms[order[j]], DeviceType, FormatCents(RoundCents(values[j]))]
      ensures Decode(msgs[j].payload) == Ok(PublishedReading(order[j], values[j]))
      ensures 0.0 <= Decode(msgs[j].payload).value.energy <= EnergyCeiling
    {
      CycleMessageDecodes(topic, qos, order[j], values[j]);
    }
  }

  /** The set of the elements of `xs`. */
  function Elements(xs: seq<string>): (e: set<string>)
    ensures forall x :: x in e <==> x in xs
    decreases |xs|
  {
    if |xs| == 0 then {} else {xs[0]} + Elements(xs[1..])
  }

  /** A sequence without repetitions has as many elements as its length. */
  lemma {:induction false} DistinctElements(xs: seq<string>)
    requires forall i, j :: 0 <= i < j < |xs| ==> xs[i] != xs[j]
    ensures |Elements(xs)| == |xs|
    decreases |xs|
  {
    if |xs| > 0 {
      var tail := xs[1..];
      forall i, j | 0 <= i < j < |tail| ensures tail[i] != tail[j] {
        assert tail[i] == xs[i + 1] && tail[j] == xs[j + 1];
      }
      DistinctElements(tail);
      assert xs[0] !in Elements(tail) by {
        forall j | 0 <= j < |tail| ensures tail[j] != xs[0] {
          assert tail[j] == xs[j + 1];
        }
      }
      assert Elements(xs) == {xs[0]} + Elements(tail);
    }
  }

  /** Any iteration order of the table visits exactly its eight devices. */
  lemma EnumerationLength(order: seq<string>)
    requires IsEnumeration(order, DeviceRooms.Keys)
    ensures |order| == |DeviceRooms| == 8
  {
    DistinctElements(order);
    assert Elements(order) == DeviceRooms.Keys;
    DeviceRoomsShape();
  }

  /** The series the cycle's message for `device` lands in. */
  function CycleKey(device: string): LabelKey
    requires device in DeviceRooms
  {
    LabelKey(device, DeviceRooms[device], DeviceType)
  }

  /** The payloads of `msgs`, in publishing order. */
  function Payloads(msgs: seq<Message>): (ps: seq<string>)
    ensures |ps| == |msgs|
    ensures forall i :: 0 <= i < |msgs| ==> ps[i] == msgs[i].payload
  {
    seq(|msgs|, i requires 0 <= i < |msgs| => msgs[i].payload)
  }

  /** The readings one cycle's messages decode to. */
  function CycleReadings(order: seq<string>, values: seq<real>): (rs: seq<Reading>)
    requires |values| == |order|
    requires forall i :: 0 <= i < |order| ==> order[i] in DeviceRooms && values[i] >= 0.0
    ensures |rs| == |order|
    ensures forall i :: 0 <= i < |order| ==> rs[i] == PublishedReading(order[i], values[i])
  {
    seq(|order|, i requires 0 <= i < |order| => PublishedReading(order[i], values[i]))
  }

  /**
    `msgs` is what one cycle publishes when the table is visited in `order`
    and the random draws are `values`, as `MockPublish` guarantees.
   */
  predicate PublishedCycle(order: seq<string>, values: seq<real>, msgs: seq<Message>) {
    && IsEnumeration(order, DeviceRooms.Keys)
    && |values| == |order| == |msgs|
    && (forall i :: 0 <= i < |values| ==> 0.0 <= values[i] < EnergyCeiling)
    && (forall i :: 0 <= i < |msgs| ==> msgs[i].payload == EncodePayload(order[i], DeviceRooms[order[i]], DeviceType, values[i]))
    && (forall i :: 0 <= i < |msgs| ==>
          Split(msgs[i].payload, Delimiter) == [order[i], DeviceRooms[order[i]], DeviceType, FormatCents(RoundCents(values[i]))])
    && (forall i :: 0 <= i < |msgs| ==> Decode(msgs[i].payload) == Ok(PublishedReading(order[i], values[i])))
  }

  /** A cycle's messages decode to the cycle's readings, which select eight different series. */
  lemma CycleDecodes(order: seq<string>, values: seq<real>, msgs: seq<Message>)
    requires PublishedCycle(order, values, msgs)
    ensures DecodesTo(Payloads(msgs), CycleReadings(order, values))
    ensures DistinctKeys(CycleReadings(order, values))
  {
    var rs := CycleReadings(order, values);
    forall i, j | 0 <= i < |rs| && 0 <= j < |rs| && i != j ensures KeyOf(rs[i]) != KeyOf(rs[j]) {
      assert KeyOf(rs[i]).device == order[i] && KeyOf(rs[j]).device == order[j];
    }
  }

  /** One cycle publishes eight messages, one per device of the table. */
  lemma CycleLength(order: seq<string>, values: seq<real>, msgs: seq<Message>)
    requires PublishedCycle(order, values, msgs)
    ensures |msgs| == |DeviceRooms| == 8
  {
    EnumerationLength(order);
  }

  /** Every device of the table is reported by some message of a cycle. */
  lemma CycleReachesEveryDevice(order: seq<string>, values: seq<real>, msgs: seq<Message>, d: string)
    requires PublishedCycle(order, values, msgs)
    requires d in DeviceRooms
    ensures exists i :: 0 <= i < |msgs| && Decode(msgs[i].payload).value.device == d
  {
    var i :| 0 <= i < |order| && order[i] == d;
    DecodedDevice(order, values, msgs, i);
  }

  /** No device is reported twice in one cycle. */
  lemma CycleDevicesDistinct(order: seq<string>, values: seq<real>, msgs: seq<Message>, i: nat, j: nat)
    requires PublishedCycle(order, values, msgs)
    requires i < j < |msgs|
    ensures Decode(msgs[i].payload).value.device != Decode(msgs[j].payload).value.device
  {
    DecodedDevice(order, values, msgs, i);
    DecodedDevice(order, values, msgs, j);
  }

  lemma DecodedDevice(order: seq<string>, values: seq<real>, msgs: seq<Message>, i: nat)
    requires PublishedCycle(order, values, msgs) && i < |msgs|
    ensures Decode(msgs[i].payload).Ok? && Decode(msgs[i].payload).value.device == order[i]
  {
  }

  /** Handling a cycle's messages is applying the cycle's readings, each to its own series. */
  lemma CycleRun(s: Store, order: seq<string>, values: seq<real>, msgs: seq<Message>)
    requires PublishedCycle(order, values, msgs)
    ensures HandleAll(s, Payloads(msgs)) == ApplyAll(s, CycleReadings(order, values))
    ensures DistinctKeys(CycleReadings(order, values))
  {
    CycleDecodes(order, values, msgs);
    HandleAllDecoded(s, Payloads(msgs), CycleReadings(order, values));
  }

  /**
    The subscriber handling one published cycle, in order, on any store: the
    series of the `i`-th device gains the printed energy on its counter and
    shows it on its gauge.
   */
  lemma CycleUpdatesSeries(s: Store, order: seq<string>, values: seq<real>, msgs: seq<Message>, i: nat)
    requires PublishedCycle(order, values, msgs)
    requires i < |order|
    ensures var s' := HandleAll(s, Payloads(msgs));
            var k := CycleKey(order[i]);
            var e := PublishedReading(order[i], values[i]).energy;
            k in s' && s'[k] == Series(TotalOf(s, k) + e, e)
  {
    var rs := CycleReadings(order, values);
    CycleRun(s, order, values, msgs);
    DistinctRunAt(s, rs, i);
    assert rs[i] == PublishedReading(order[i], values[i]);
  }

  /** Handling one published cycle leaves every series outside the table untouched. */
  lemma CycleLeavesOthers(s: Store, order: seq<string>, values: seq<real>, msgs: seq<Message>, k: LabelKey)
    requires PublishedCycle(order, values, msgs)
    requires k in s && forall d :: d in DeviceRooms ==> k != CycleKey(d)
    ensures k in HandleAll(s, Payloads(msgs)) && HandleAll(s, Payloads(msgs))[k] == s[k]
  {
    var rs := CycleReadings(order, values);
    CycleRun(s, order, values, msgs);
    assert !Mentions(rs, k) by {
      forall j | 0 <= j < |rs| ensures KeyOf(rs[j]) != k {
        assert KeyOf(rs[j]) == CycleKey(order[j]);
      }
    }
    UntouchedSeries(s, rs, k);
  }
}
