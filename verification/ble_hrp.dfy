/**
 * The Bluetooth Low Energy heart-rate session: scan, find the configured
 * device, connect, discover services, subscribe to the Heart Rate
 * Measurement characteristic, write byte 1 of every notification to the
 * sample sink, and disconnect. Every radio operation is an input outcome.
 */
module BleHrp {
  import opened Options

  /** The Heart Rate Measurement characteristic (0x2A37) in its string form. */
  const HEART_RATE_MEASUREMENT: string := "00002a37-0000-1000-8000-00805f9b34fb"

  /** A device address (`BDAddr`). */
  datatype Address = Address(octets: seq<bv8>)

  /** What asking a peripheral for its advertised properties returns. */
  datatype PropertiesQuery = QueryError | NotAdvertised | Advertised(address: Address)

  /** A peripheral seen by the scan, with the answer its properties query will give. */
  datatype Peripheral = Peripheral(handle: nat, properties: PropertiesQuery)

  /** A GATT characteristic, named by the string form of its UUID. */
  datatype Characteristic = Characteristic(uuid: string)

  predicate HasAddress(device: Peripheral, target: Address) {
    device.properties.Advertised? && device.properties.address == target
  }

  /** `scan`: every peripheral the adapter saw, or none when the scan cannot start. */
  function Scan(scanStarts: bool, observed: seq<Peripheral>): (found: seq<Peripheral>)
    ensures scanStarts ==> found == observed
    ensures !scanStarts ==> found == []
  {
    if scanStarts then observed else []
  }

  /** The device found, and how many devices had their properties queried. */
  datatype Identification = Identification(device: Option<Peripheral>, queried: nat)

  /**
   * The loop of `identify_device`: query each device in turn, skip one whose
   * query fails or has no properties, and stop at the first whose address
   * equals the target.
   */
  function SearchDevices(target: Address, devices: seq<Peripheral>): (r: Identification)
    ensures r.queried <= |devices|
    ensures r.device.Some? ==>
      && 0 < r.queried
      && r.device.value == devices[r.queried - 1]
      && HasAddress(devices[r.queried - 1], target)
      && forall j :: 0 <= j < r.queried - 1 ==> !HasAddress(devices[j], target)
    ensures r.device.None? ==>
      r.queried == |devices| && forall j :: 0 <= j < |devices| ==> !HasAddress(devices[j], target)
  {
    if devices == [] then Identification(None, 0)
    else
      var device := devices[0];
      if device.properties.Advertised? && device.properties.address == target then
        Identification(Some(device), 1)
      else
        var rest := SearchDevices(target, devices[1..]);
        Identification(rest.device, rest.queried + 1)
  }

  /**
   * `identify_device`: `target` is the parsed address, `None` when the
   * configured string is not a valid address; then no device is queried.
   */
  function IdentifyDevice(target: Option<Address>, devices: seq<Peripheral>): (r: Identification)
    ensures target.None? ==> r == Identification(None, 0)
    ensures target.Some? && r.device.Some? ==>
      exists k :: 0 <= k < |devices| && r.device.value == devices[k] && HasAddress(devices[k], target.value)
        && forall j :: 0 <= j < k ==> !HasAddress(devices[j], target.value)
    ensures target.Some? && r.device.None? ==>
      forall j :: 0 <= j < |devices| ==> !HasAddress(devices[j], target.value)
  {
    match target
    case None => Identification(None, 0)
    case Some(address) => SearchDevices(address, devices)
  }

  /** The position of the first characteristic with the given UUID string, or the length when there is none. */
  function FindCharacteristic(uuid: string, characteristics: seq<Characteristic>): (k: nat)
    ensures k <= |characteristics|
    ensures k < |characteristics| ==> characteristics[k].uuid == uuid
    ensures forall j :: 0 <= j < k ==> characteristics[j].uuid != uuid
  {
    if characteristics == [] then 0
    else if characteristics[0].uuid == uuid then 0
    else 1 + FindCharacteristic(uuid, characteristics[1..])
  }

  datatype SubscribeOutcome =
    | NotFound
    | Subscribed(characteristic: Characteristic)
    | SubscribeFailed(characteristic: Characteristic)

  /**
   * `characteristic_subscribe`: find the first characteristic whose UUID
   * string matches, and subscribe to it; without a match nothing is subscribed.
   */
  function CharacteristicSubscribe(uuid: string, characteristics: seq<Characteristic>, subscribes: bool)
    : (r: SubscribeOutcome)
    ensures r.NotFound? <==> forall j :: 0 <= j < |characteristics| ==> characteristics[j].uuid != uuid
    ensures !r.NotFound? ==>
      exists k :: 0 <= k < |characteristics| && r.characteristic == characteristics[k]
        && r.characteristic.uuid == uuid && forall j :: 0 <= j < k ==> characteristics[j].uuid != uuid
    ensures r.Subscribed? ==> subscribes
    ensures r.SubscribeFailed? ==> !subscribes
  {
    var k := FindCharacteristic(uuid, characteristics);
    if k == |characteristics| then NotFound
    else if subscribes then Subscribed(characteristics[k])
    else SubscribeFailed(characteristics[k])
  }

  /** The calls the session makes on the peripheral and on the sample sink. */
  datatype Action =
    | Connect
    | DiscoverServices
    | Subscribe(characteristic: Characteristic)
    | SinkWrite(reading: bv8)
    | Disconnect

  /** The outcome of every radio operation the session performs. */
  datatype Radio = Radio(
    scanStarts: bool,
    observed: seq<Peripheral>,
    connects: bool,
    discovers: bool,
    characteristics: seq<Characteristic>,
    subscribes: bool,
    notifications: seq<seq<bv8>>)

  /** Every payload holds the flags byte and the reading the session indexes. */
  predicate Decodable(payloads: seq<seq<bv8>>) {
    forall i :: 0 <= i < |payloads| ==> |payloads[i]| >= 2
  }

  /** The position of the first payload too short to hold a reading, or the number of payloads. */
  function FirstShort(payloads: seq<seq<bv8>>): (k: nat)
    ensures k <= |payloads|
    ensures k < |payloads| ==> |payloads[k]| < 2
    ensures forall j :: 0 <= j < k ==> |payloads[j]| >= 2
  {
    if payloads == [] then 0
    else if |payloads[0]| < 2 then 0
    else 1 + FirstShort(payloads[1..])
  }

  /** The payloads handled before a short one makes `data.value[1]` panic. */
  function Decoded(payloads: seq<seq<bv8>>): (d: seq<seq<bv8>>)
    ensures Decodable(d)
  {
    payloads[..FirstShort(payloads)]
  }

  /** When every payload holds a reading, all of them are handled. */
  lemma DecodedWhole(payloads: seq<seq<bv8>>)
    requires Decodable(payloads)
    ensures FirstShort(payloads) == |payloads| && Decoded(payloads) == payloads
  {
    assert payloads[..|payloads|] == payloads;
  }

  /** One sink write of byte 1 per payload, in stream order. */
  function Readings(payloads: seq<seq<bv8>>): seq<Action>
    requires Decodable(payloads)
  {
    if payloads == [] then []
    else Readings(payloads[..|payloads| - 1]) + [SinkWrite(payloads[|payloads| - 1][1])]
  }

  /** Reading one more payload appends its sink write. */
  lemma ReadingsStep(payloads: seq<seq<bv8>>, i: nat)
    requires i < |payloads| && Decodable(payloads[..i + 1])
    ensures Readings(payloads[..i + 1]) == Readings(payloads[..i]) + [SinkWrite(payloads[i][1])]
  {
    assert payloads[..i + 1][..i] == payloads[..i];
  }

  /** The subscribe call, when the characteristic is there to subscribe to. */
  function SubscribeStep(characteristics: seq<Characteristic>, subscribes: bool): seq<Action> {
    var outcome := CharacteristicSubscribe(HEART_RATE_MEASUREMENT, characteristics, subscribes);
    if outcome.NotFound? then [] else [Subscribe(outcome.characteristic)]
  }

  /** Whether the session gets past service discovery. */
  predicate Streams(target: Option<Address>, radio: Radio) {
    IdentifyDevice(target, Scan(radio.scanStarts, radio.observed)).device.Some?
    && radio.connects && radio.discovers
  }

  /**
   * The calls `record_hrp_device` makes, in order. A payload shorter than
   * two bytes panics at `data.value[1]`, so the session ends there without
   * a disconnect.
   */
  function SessionTrace(target: Option<Address>, radio: Radio): (trace: seq<Action>)
    ensures trace == [] <==> IdentifyDevice(target, Scan(radio.scanStarts, radio.observed)).device.None?
    ensures trace != [] ==> trace[0] == Connect
    ensures |trace| >= 2 <==> trace != [] && radio.connects
    ensures |trace| >= 2 ==> trace[1] == DiscoverServices
    ensures |trace| > 2 ==> Streams(target, radio)
  {
    var found := IdentifyDevice(target, Scan(radio.scanStarts, radio.observed));
    if found.device.None? then []
    else if !radio.connects then [Connect]
    else if !radio.discovers then [Connect, DiscoverServices]
    else
      [Connect, DiscoverServices] + SubscribeStep(radio.characteristics, radio.subscribes)
      + Readings(Decoded(radio.notifications))
      + (if FirstShort(radio.notifications) == |radio.notifications| then [Disconnect] else [])
  }

  /**
   * `record_hrp_device`: each step that fails ends the session at once; a
   * failed subscribe is only logged; the notification stream is consumed to
   * its end and then the device is disconnected, unless a payload too short
   * to hold a reading panics first.
   */
  method RecordHrpDevice(target: Option<Address>, radio: Radio) returns (trace: seq<Action>, panicked: bool)
    ensures trace == SessionTrace(target, radio)
    ensures panicked <==> Streams(target, radio) && FirstShort(radio.notifications) < |radio.notifications|
  {
    panicked := false;
    var found := IdentifyDevice(target, Scan(radio.scanStarts, radio.observed));
    if found.device.None? {
      return [], false;
    }
    trace := [Connect];
    if !radio.connects {
      return;
    }
    trace := trace + [DiscoverServices];
    assert trace == [Connect, DiscoverServices];
    if !radio.discovers {
      return;
    }
    var outcome := CharacteristicSubscribe(HEART_RATE_MEASUREMENT, radio.characteristics, radio.subscribes);
    if !outcome.NotFound? {
      trace := trace + [Subscribe(outcome.characteristic)];
    }
    assert trace == [Connect, DiscoverServices] + SubscribeStep(radio.characteristics, radio.subscribes);
    var writes, complete := ConsumeNotifications(radio.notifications);
    trace := trace + writes;
    if !complete {
      panicked := true;
      assert trace + [] == trace;
      return;
    }
    trace := trace + [Disconnect];
  }

  /**
   * The `while let` loop over the notification stream: one sink write per
   * payload, until the stream ends or a payload too short to index panics.
   */
  method ConsumeNotifications(stream: seq<seq<bv8>>) returns (writes: seq<Action>, complete: bool)
    ensures writes == Readings(Decoded(stream))
    ensures complete <==> FirstShort(stream) == |stream|
  {
    writes := [];
    var i := 0;
    while i < |stream|
      invariant 0 <= i <= FirstShort(stream)
      invariant writes == Readings(stream[..i])
    {
      var data := stream[i];
      if |data| < 2 {
        return writes, false;
      }
      ReadingsStep(stream, i);
      writes := writes + [SinkWrite(data[1])];
      i := i + 1;
    }
    complete := true;
  }

  function Occurrences(trace: seq<Action>, a: Action): nat {
    if trace == [] then 0
    else Occurrences(trace[..|trace| - 1], a) + (if trace[|trace| - 1] == a then 1 else 0)
  }

  lemma {:induction false} OccurrencesAppend(x: seq<Action>, y: seq<Action>, a: Action)
    ensures Occurrences(x + y, a) == Occurrences(x, a) + Occurrences(y, a)
    decreases |y|
  {
    if y == [] {
      assert x + y == x;
    } else {
      OccurrencesAppend(x, y[..|y| - 1], a);
      assert (x + y)[..|x + y| - 1] == x + y[..|y| - 1];
    }
  }

  lemma OccurrencesOne(x: Action, a: Action)
    ensures Occurrences([x], a) == if x == a then 1 else 0
  {
    assert [x][..0] == [];
  }

  lemma WrittenOne(x: Action)
    ensures Written([x]) == if x.SinkWrite? then [x.reading] else []
  {
    assert [x][..0] == [];
  }

  lemma {:induction false} ReadingsAreWrites(payloads: seq<seq<bv8>>)
    requires Decodable(payloads)
    ensures |Readings(payloads)| == |payloads|
    ensures forall i :: 0 <= i < |payloads| ==> Readings(payloads)[i] == SinkWrite(payloads[i][1])
  {
    if payloads != [] {
      var init := payloads[..|payloads| - 1];
      ReadingsAreWrites(init);
      forall i | 0 <= i < |init| ensures init[i] == payloads[i] { }
    }
  }

  lemma {:induction false} NoDisconnectInReadings(payloads: seq<seq<bv8>>)
    requires Decodable(payloads)
    ensures Occurrences(Readings(payloads), Disconnect) == 0
  {
    if payloads != [] {
      NoDisconnectInReadings(payloads[..|payloads| - 1]);
      OccurrencesAppend(Readings(payloads[..|payloads| - 1]), [SinkWrite(payloads[|payloads| - 1][1])], Disconnect);
    }
  }

  /**
   * The session disconnects exactly once, as its last call, when it gets
   * past service discovery and every payload holds a reading, and never
   * otherwise: an abort after connecting, or a panic on a short payload,
   * leaves the device connected.
   */
  lemma DisconnectOnlyAfterStreaming(target: Option<Address>, radio: Radio)
    ensures var trace := SessionTrace(target, radio);
      var completes := Streams(target, radio) && Decodable(radio.notifications);
      && (completes ==> Occurrences(trace, Disconnect) == 1 && trace[|trace| - 1] == Disconnect)
      && (!completes ==> Occurrences(trace, Disconnect) == 0)
  {
    OccurrencesOne(Connect, Disconnect);
    assert Occurrences([Connect, DiscoverServices], Disconnect) == 0 by {
      OccurrencesOne(DiscoverServices, Disconnect);
      OccurrencesAppend([Connect], [DiscoverServices], Disconnect);
      assert [Connect] + [DiscoverServices] == [Connect, DiscoverServices];
    }
    if Streams(target, radio) {
      var ns := radio.notifications;
      var ending := if FirstShort(ns) == |ns| then [Disconnect] else [];
      StreamedDisconnects(radio.characteristics, radio.subscribes, Decoded(ns), ending);
      if Decodable(ns) {
        DecodedWhole(ns);
      }
    }
  }

  lemma StreamedDisconnects(characteristics: seq<Characteristic>, subscribes: bool, notifications: seq<seq<bv8>>,
                            ending: seq<Action>)
    requires Decodable(notifications)
    requires ending == [] || ending == [Disconnect]
    ensures var trace := [Connect, DiscoverServices] + SubscribeStep(characteristics, subscribes)
                         + Readings(notifications) + ending;
      Occurrences(trace, Disconnect) == |ending| && (ending != [] ==> trace[|trace| - 1] == Disconnect)
  {
    var head := [Connect, DiscoverServices] + SubscribeStep(characteristics, subscribes);
    var body := head + Readings(notifications);
    assert Occurrences(body, Disconnect) == 0 by {
      NoDisconnectBeforeStreaming(characteristics, subscribes);
      NoDisconnectInReadings(notifications);
      OccurrencesAppend(head, Readings(notifications), Disconnect);
    }
    assert Occurrences(ending, Disconnect) == |ending| by {
      OccurrencesOne(Disconnect, Disconnect);
      assert Occurrences([], Disconnect) == 0;
    }
    OccurrencesAppend(body, ending, Disconnect);
  }

  /** Connect, discovery and the subscribe call hold no disconnect. */
  lemma NoDisconnectBeforeStreaming(characteristics: seq<Characteristic>, subscribes: bool)
    ensures Occurrences([Connect, DiscoverServices] + SubscribeStep(characteristics, subscribes), Disconnect) == 0
  {
    var step := SubscribeStep(characteristics, subscribes);
    OccurrencesOne(Connect, Disconnect);
    OccurrencesOne(DiscoverServices, Disconnect);
    OccurrencesAppend([Connect], [DiscoverServices], Disconnect);
    assert [Connect] + [DiscoverServices] == [Connect, DiscoverServices];
    if step != [] {
      OccurrencesOne(step[0], Disconnect);
      assert step == [step[0]];
    }
    OccurrencesAppend([Connect, DiscoverServices], step, Disconnect);
  }

  /**
   * Without a device there is no call at all: not when the adapter cannot
   * scan, not when the address does not parse, not when no device matches.
   * A failed connect is the only call of its session; a failed discovery
   * follows the connect and nothing else follows it.
   */
  lemma EarlyReturns(target: Option<Address>, radio: Radio)
    ensures !radio.scanStarts || target.None? ==> SessionTrace(target, radio) == []
    ensures (target.Some? && forall j :: 0 <= j < |radio.observed| ==> !HasAddress(radio.observed[j], target.value))
      ==> SessionTrace(target, radio) == []
    ensures IdentifyDevice(target, Scan(radio.scanStarts, radio.observed)).device.Some? && !radio.connects
      ==> SessionTrace(target, radio) == [Connect]
    ensures IdentifyDevice(target, Scan(radio.scanStarts, radio.observed)).device.Some? && radio.connects && !radio.discovers
      ==> SessionTrace(target, radio) == [Connect, DiscoverServices]
  {
  }

  /** A subscribe that fails changes nothing the session does afterwards. */
  lemma SubscribeFailureIsOnlyLogged(target: Option<Address>, radio: Radio)
    ensures var failing := SessionTrace(target, radio.(subscribes := false));
      var working := SessionTrace(target, radio.(subscribes := true));
      failing == working
  {
  }

  /** Subscribe is called only with the Heart Rate Measurement characteristic, and never when it is missing. */
  lemma SubscribeOnlyWhenFound(characteristics: seq<Characteristic>, subscribes: bool)
    ensures (forall j :: 0 <= j < |characteristics| ==> characteristics[j].uuid != HEART_RATE_MEASUREMENT)
      <==> SubscribeStep(characteristics, subscribes) == []
    ensures forall c :: Subscribe(c) in SubscribeStep(characteristics, subscribes) ==> c.uuid == HEART_RATE_MEASUREMENT
  {
  }

  /** The readings the sink receives, in the order it receives them. */
  function Written(trace: seq<Action>): seq<bv8> {
    if trace == [] then []
    else Written(trace[..|trace| - 1]) + (if trace[|trace| - 1].SinkWrite? then [trace[|trace| - 1].reading] else [])
  }

  lemma {:induction false} WrittenAppend(x: seq<Action>, y: seq<Action>)
    ensures Written(x + y) == Written(x) + Written(y)
    decreases |y|
  {
    if y == [] {
      assert x + y == x;
    } else {
      WrittenAppend(x, y[..|y| - 1]);
      assert (x + y)[..|x + y| - 1] == x + y[..|y| - 1];
    }
  }

  lemma {:induction false} WrittenReadings(payloads: seq<seq<bv8>>)
    requires Decodable(payloads)
    ensures Written(Readings(payloads)) == seq(|payloads|, i requires 0 <= i < |payloads| => payloads[i][1])
  {
    if payloads != [] {
      var init := payloads[..|payloads| - 1];
      WrittenReadings(init);
      WrittenAppend(Readings(init), [SinkWrite(payloads[|payloads| - 1][1])]);
      assert [SinkWrite(payloads[|payloads| - 1][1])][..0] == [];
    }
  }

  /**
   * Each notification before the first short one gives exactly one sink
   * write of its byte 1, in stream order, whenever the session gets past
   * service discovery; otherwise the sink receives nothing.
   */
  lemma EveryNotificationIsWritten(target: Option<Address>, radio: Radio)
    ensures var ns := Decoded(radio.notifications);
      Written(SessionTrace(target, radio))
        == if Streams(target, radio) then seq(|ns|, i requires 0 <= i < |ns| => ns[i][1]) else []
  {
    if Streams(target, radio) {
      var ns := radio.notifications;
      StreamedWrites(radio.characteristics, radio.subscribes, Decoded(ns),
        if FirstShort(ns) == |ns| then [Disconnect] else []);
    } else {
      WrittenOne(Connect);
      WrittenOne(DiscoverServices);
      WrittenAppend([Connect], [DiscoverServices]);
      assert [Connect] + [DiscoverServices] == [Connect, DiscoverServices];
    }
  }

  lemma StreamedWrites(characteristics: seq<Characteristic>, subscribes: bool, notifications: seq<seq<bv8>>,
                        ending: seq<Action>)
    requires Decodable(notifications)
    requires ending == [] || ending == [Disconnect]
    ensures Written([Connect, DiscoverServices] + SubscribeStep(characteristics, subscribes)
                    + Readings(notifications) + ending)
      == seq(|notifications|, i requires 0 <= i < |notifications| => notifications[i][1])
  {
    var step := SubscribeStep(characteristics, subscribes);
    assert Written([Connect, DiscoverServices] + step) == [] by {
      WrittenOne(Connect);
      WrittenOne(DiscoverServices);
      WrittenAppend([Connect], [DiscoverServices]);
      assert [Connect] + [DiscoverServices] == [Connect, DiscoverServices];
      if step != [] {
        WrittenOne(step[0]);
        assert step == [step[0]];
      }
      WrittenAppend([Connect, DiscoverServices], step);
    }
    var head := [Connect, DiscoverServices] + step;
    WrittenAppend(head, Readings(notifications));
    WrittenOne(Disconnect);
    assert Written([]) == [];
    WrittenAppend(head + Readings(notifications), ending);
    WrittenReadings(notifications);
  }
}
