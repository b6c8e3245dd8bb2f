/**
  * `AdsbSimulator`: a fleet of aircraft, rebuilt from index formulas by
  * `generate_mock_aircrafts`, and turned into a position and a velocity message per aircraft by
  * `generate_all_messages`. The `f64` fields are reals: arithmetic on them is exact here, and
  * `as u64` truncates toward zero and saturates as Rust's cast does.
  */
module Simulator {
  import opened Wrappers
  import opened Numerals
  import opened Bits
  import opened Frame
  import opened Payload

  datatype Aircraft = Aircraft(
    id: string,        // ICAO address as hexadecimal text
    callsign: string,
    lat: real,
    lng: real,
    altitude: real,    // feet
    speed: real,       // knots
    heading: real,     // degrees
    nic: U8)

  datatype AdsbEvent = AdsbEvent(hexMessage: string, aircraftId: string, messageType: string)

  const Airlines: seq<string> := ["CZ", "CA", "MU", "BZ", "FM", "ZH", "HU", "SC", "3U", "GS"]

  /** Rust's `x as u64` for a float: toward zero, negative values to 0, too large ones to the maximum. */
  function CastU64(x: real): (n: U64)
    ensures x < 0.0 ==> n == 0
    ensures 0.0 <= x < 0x1_0000_0000_0000_0000 as real ==> n as real <= x < n as real + 1.0
    ensures 0x1_0000_0000_0000_0000 as real <= x ==> n == 0xFFFF_FFFF_FFFF_FFFF
  {
    if x < 0.0 then 0
    else if x >= 0x1_0000_0000_0000_0000 as real then 0xFFFF_FFFF_FFFF_FFFF
    else x.Floor
  }

  /** `u32::from_str_radix(id, 16).unwrap_or(0)`. */
  function IcaoOf(id: string): (icao: U32)
    ensures id == [] ==> icao == 0
    ensures icao != 0 ==> FromStrRadix(id, 16, 0x1_0000_0000) == Some(icao)
  {
    match FromStrRadix(id, 16, 0x1_0000_0000)
    case Some(v) => v
    case None => 0
  }

  // The field codes of lines 135-137, 157 and 158, before masking.

  /**
    * The altitude in whole 25-foot steps above -1000 feet: below -1000 feet the cast gives 0,
    * and up to 101400 feet the code fits the 12-bit field.
    */
  function AltitudeCode(a: Aircraft): (c: U64)
    ensures a.altitude < -1000.0 ==> c == 0
    ensures -1000.0 <= a.altitude < 101400.0 ==> c == ((a.altitude + 1000.0) / 25.0).Floor && c < 0x1000
  {
    CastU64((a.altitude + 1000.0) / 25.0)
  }

  /** The latitude scaled from [-90, 90] onto [0, 131071]: it fits the 17-bit field; south of -90 it is 0. */
  function LatCode(a: Aircraft): (c: U64)
    ensures a.lat < -90.0 ==> c == 0
    ensures -90.0 <= a.lat <= 90.0 ==> c == ((a.lat + 90.0) / 180.0 * 131071.0).Floor && c <= 0x1FFFF
  {
    CastU64((a.lat + 90.0) / 180.0 * 131071.0)
  }

  /** The longitude scaled from [-180, 180] onto [0, 131071]: it fits the 17-bit field; west of -180 it is 0. */
  function LngCode(a: Aircraft): (c: U64)
    ensures a.lng < -180.0 ==> c == 0
    ensures -180.0 <= a.lng <= 180.0 ==> c == ((a.lng + 180.0) / 360.0 * 131071.0).Floor && c <= 0x1FFFF
  {
    CastU64((a.lng + 180.0) / 360.0 * 131071.0)
  }

  /** The speed in whole knots: 0 for a negative speed, and below 1024 knots it fits the 10-bit field. */
  function SpeedCode(a: Aircraft): (c: U64)
    ensures a.speed < 0.0 ==> c == 0
    ensures 0.0 <= a.speed < 1024.0 ==> c == a.speed.Floor && c < 0x400
  {
    CastU64(a.speed)
  }

  /** The heading in whole 1/127 turns: 0 for a negative heading, and on [0, 360) it fits the 7-bit field. */
  function HeadingCode(a: Aircraft): (c: U64)
    ensures a.heading < 0.0 ==> c == 0
    ensures 0.0 <= a.heading < 360.0 ==> c == (a.heading / 360.0 * 127.0).Floor && c < 0x80
  {
    CastU64(a.heading / 360.0 * 127.0)
  }

  function PositionPayloadOf(a: Aircraft): U64 {
    PositionPayload(a.nic, AltitudeCode(a), LatCode(a), LngCode(a))
  }

  function VelocityPayloadOf(a: Aircraft): U64 {
    VelocityPayload(SpeedCode(a), HeadingCode(a))
  }

  /**
    * `generate_position_message`: a 28-digit DF17, CA5 frame carrying the address parsed from
    * the aircraft's id and its position payload. It reads back as sent exactly when the address
    * fits in 24 bits; the payload reads back as sent whatever the address.
    */
  function PositionMessage(a: Aircraft): (s: string)
    ensures |s| == 28
    ensures ReadFrame(s) == Some(Fields(17, 5, IcaoOf(a.id), PositionPayloadOf(a), Parity)) <==>
      IcaoOf(a.id) < 0x100_0000
    ensures ReadFrame(s).Some? && ReadFrame(s).value.payload == PositionPayloadOf(a)
  {
    AssembleRoundTrip(17, 5, IcaoOf(a.id), PositionPayloadOf(a));
    LowFieldsKept(17, 5, IcaoOf(a.id), PositionPayloadOf(a));
    LargePowersOfTwo();
    LowField(PositionPayloadOf(a), 56);
    AssembleMessage(17, 5, IcaoOf(a.id), PositionPayloadOf(a))
  }

  /** `generate_velocity_message`: as `PositionMessage`, with the velocity payload. */
  function VelocityMessage(a: Aircraft): (s: string)
    ensures |s| == 28
    ensures ReadFrame(s) == Some(Fields(17, 5, IcaoOf(a.id), VelocityPayloadOf(a), Parity)) <==>
      IcaoOf(a.id) < 0x100_0000
    ensures ReadFrame(s).Some? && ReadFrame(s).value.payload == VelocityPayloadOf(a)
  {
    AssembleRoundTrip(17, 5, IcaoOf(a.id), VelocityPayloadOf(a));
    LowFieldsKept(17, 5, IcaoOf(a.id), VelocityPayloadOf(a));
    LargePowersOfTwo();
    LowField(VelocityPayloadOf(a), 56);
    AssembleMessage(17, 5, IcaoOf(a.id), VelocityPayloadOf(a))
  }

  /** The `message_type` tags of the two events. */
  const PositionTag: string := "position"
  const VelocityTag: string := "velocity"

  /** The position event of an aircraft: its id, the tag "position" and a 28-digit frame. */
  function PositionEvent(a: Aircraft): (e: AdsbEvent)
    ensures e.aircraftId == a.id && e.messageType == PositionTag
    ensures |e.hexMessage| == 28
  {
    AdsbEvent(PositionMessage(a), a.id, PositionTag)
  }

  /** The velocity event of an aircraft: its id, the tag "velocity" and a 28-digit frame. */
  function VelocityEvent(a: Aircraft): (e: AdsbEvent)
    ensures e.aircraftId == a.id && e.messageType == VelocityTag
    ensures |e.hexMessage| == 28
  {
    AdsbEvent(VelocityMessage(a), a.id, VelocityTag)
  }

  /** The position and velocity messages of an aircraft always differ: their type codes are 11 and 19. */
  lemma MessagesDiffer(a: Aircraft)
    ensures PositionMessage(a) != VelocityMessage(a)
  {
    PositionFields(a.nic, AltitudeCode(a), LatCode(a), LngCode(a));
    VelocityFields(SpeedCode(a), HeadingCode(a));
  }

  /** For each element in turn, `first` of it and then `second` of it. */
  function Interleave<A, E>(xs: seq<A>, first: A -> E, second: A -> E): (r: seq<E>)
    ensures |r| == 2 * |xs|
  {
    if xs == [] then []
    else Interleave(xs[..|xs| - 1], first, second) + [first(xs[|xs| - 1]), second(xs[|xs| - 1])]
  }

  /** Elements `2k` and `2k + 1` come from element `k`. */
  lemma {:induction false} InterleaveAt<A, E>(xs: seq<A>, first: A -> E, second: A -> E)
    ensures forall k :: 0 <= k < |xs| ==>
      Interleave(xs, first, second)[2 * k] == first(xs[k]) && Interleave(xs, first, second)[2 * k + 1] == second(xs[k])
  {
    if xs != [] {
      var init := xs[..|xs| - 1];
      InterleaveAt(init, first, second);
      forall k | 0 <= k < |init| ensures xs[k] == init[k] {
      }
    }
  }

  /**
    * The loop of `generate_all_messages`, over any element and event type: pushes `first` and
    * then `second` of each element in turn.
    */
  method Interleaving<A, E>(xs: seq<A>, first: A -> E, second: A -> E) returns (r: seq<E>)
    ensures r == Interleave(xs, first, second)
  {
    r := [];
    for k := 0 to |xs|
      invariant r == Interleave(xs[..k], first, second)
    {
      assert xs[..k + 1][..k] == xs[..k];
      r := r + [first(xs[k]), second(xs[k])];
    }
    assert xs[..|xs|] == xs;
  }

  /** Each event's frame reads back with the payload of its kind. */
  lemma EventPayloads(a: Aircraft)
    ensures ReadFrame(PositionEvent(a).hexMessage).Some?
    ensures ReadFrame(PositionEvent(a).hexMessage).value.payload == PositionPayloadOf(a)
    ensures ReadFrame(VelocityEvent(a).hexMessage).Some?
    ensures ReadFrame(VelocityEvent(a).hexMessage).value.payload == VelocityPayloadOf(a)
  {
  }

  /** The events of a fleet: for each aircraft in turn, its position event and then its velocity event. */
  function AllEvents(fleet: seq<Aircraft>): (events: seq<AdsbEvent>)
    ensures |events| == 2 * |fleet|
  {
    Interleave(fleet, PositionEvent, VelocityEvent)
  }

  // The mock fleet.

  /** The address of mock aircraft `i`: 0x780000 plus `i` times 0x1111. */
  function MockIcao(i: nat): (icao: nat)
    ensures icao >= 0x780000
  {
    0x780000 + i * 0x1111
  }

  function FlightNumber(i: nat): (n: nat)
    ensures 1000 <= n <= 9999
  {
    1000 + (i * 111) % 9000
  }

  /** The distance from the centre, in degrees, of mock aircraft `i`: from 0.15 up to 0.6. */
  function Distance(i: nat): (d: real)
    ensures 0.15 <= d < 0.6
  {
    var seed := (i * 7919 + 104729) % 10000;
    0.15 + (seed as real / 10000.0) * 0.45
  }

  /**
    * A coordinate of mock aircraft `i`: `Distance(i)` from the centre along a direction whose
    * component on this axis is `f`. With `f` in [-1, 1] it lies within 0.6 degrees of the centre.
    */
  function Around(center: real, i: nat, f: real): (x: real)
    ensures -1.0 <= f <= 1.0 ==> center - 0.6 < x < center + 0.6
  {
    Scaled(Distance(i), f);
    center + Distance(i) * f
  }

  /** A non-negative `d` scaled by a factor in [-1, 1] stays within `d` of zero. */
  lemma Scaled(d: real, f: real)
    requires 0.0 <= d
    ensures -1.0 <= f <= 1.0 ==> -d <= d * f <= d
  {
    if -1.0 <= f <= 1.0 {
      assert -d <= d * f <= d;
    }
  }

  /**
    * Mock aircraft `i` of `generate_mock_aircrafts`, placed at `Distance(i)` from the centre in
    * the direction whose sine and cosine are `sin` and `cos` (those of `i` times the golden angle).
    */
  function MockAircraft(i: nat, centerLat: real, centerLng: real, sin: real, cos: real): (a: Aircraft)
    ensures a.id == Format(MockIcao(i), 16, 6)
    ensures |a.callsign| == 6 && a.callsign[..2] == Airlines[i % 10]
    ensures Value(a.callsign[2..], 10) == Some(FlightNumber(i))
    ensures 5000.0 <= a.altitude <= 14999.0 && a.altitude.Floor as real == a.altitude
    ensures 400.0 <= a.speed <= 649.0 && a.speed.Floor as real == a.speed
    ensures 0.0 <= a.heading <= 359.0 && a.heading.Floor as real == a.heading
    ensures 5 <= a.nic <= 11
  {
    CallsignDigits(i);
    Aircraft(
      id := Format(MockIcao(i), 16, 6),
      callsign := Airlines[i % 10] + ToDigits(FlightNumber(i), 10),
      lat := Around(centerLat, i, sin),
      lng := Around(centerLng, i, cos),
      altitude := (5000 + (i * 2749) % 10000) as real,
      speed := (400 + (i * 3571) % 250) as real,
      heading := ((i * 6997 + 99991) % 360) as real,
      nic := 5 + i % 7)
  }

  /** A flight number has four digits, which read back as the number. */
  lemma CallsignDigits(i: nat)
    ensures |ToDigits(FlightNumber(i), 10)| == 4
    ensures var c := Airlines[i % 10] + ToDigits(FlightNumber(i), 10);
      c[2..] == ToDigits(FlightNumber(i), 10) && Value(c[2..], 10) == Some(FlightNumber(i))
  {
    ToDigitsFit(FlightNumber(i), 10, 4);
    ToDigitsFit(FlightNumber(i), 10, 3);
    ValueOfToDigits(FlightNumber(i), 10);
    var c := Airlines[i % 10] + ToDigits(FlightNumber(i), 10);
    assert |Airlines[i % 10]| == 2;
    assert c[2..] == ToDigits(FlightNumber(i), 10);
  }

  /** An address rendered in hexadecimal, at any padding, is parsed back when it fits a `u32`, and to 0 otherwise. */
  lemma IcaoOfFormat(n: nat, w: nat)
    ensures IcaoOf(Format(n, 16, w)) == if n < 0x1_0000_0000 then n else 0
  {
    FromStrRadixOfFormat(n, 16, w, 0x1_0000_0000);
  }

  /** An id with a character that is not a hexadecimal digit (other than one leading `+`) gives address 0. */
  lemma IcaoOfInvalid(id: string, k: nat)
    requires k < |id| && DigitValue(id[k], 16).None? && (k > 0 || id[0] != '+')
    ensures IcaoOf(id) == 0
  {
    FromStrRadixRejects(id, 16, 0x1_0000_0000, k);
  }

  /** The id of mock aircraft `i` is parsed back to its address when that fits a `u32`, and to 0 otherwise. */
  lemma MockIdParses(i: nat)
    ensures IcaoOf(Format(MockIcao(i), 16, 6)) == if MockIcao(i) < 0x1_0000_0000 then MockIcao(i) else 0
  {
    IcaoOfFormat(MockIcao(i), 6);
  }

  /** The address of mock aircraft `i` fits the 24-bit ICAO field, and its id six digits, exactly up to aircraft 2040. */
  lemma MockIcaoFits(i: nat)
    ensures MockIcao(i) < 0x100_0000 <==> i <= 2040
    ensures |Format(MockIcao(i), 16, 6)| == 6 <==> i <= 2040
  {
    FormatWidth(MockIcao(i), 16, 6);
    assert Pow(16, 6) == 0x100_0000;
  }

  /** Distinct mock aircraft have distinct ids. */
  lemma MockIdsDistinct(i: nat, j: nat)
    requires i != j
    ensures Format(MockIcao(i), 16, 6) != Format(MockIcao(j), 16, 6)
  {
    if Format(MockIcao(i), 16, 6) == Format(MockIcao(j), 16, 6) {
      FormatInjective(MockIcao(i), MockIcao(j), 16, 6);
    }
  }

  /** The position message carries the address parsed from the id exactly when it fits the 24-bit ICAO field. */
  lemma PositionAddressSent(a: Aircraft)
    ensures ReadFrame(PositionMessage(a)).value.icao == IcaoOf(a.id) <==> IcaoOf(a.id) < 0x100_0000
  {
    LowFieldsKept(17, 5, IcaoOf(a.id), PositionPayloadOf(a));
    SmallPowersOfTwo();
    WordPowersOfTwo();
    if IcaoOf(a.id) < 0x100_0000 {
      LowField(IcaoOf(a.id), 24);
    }
  }

  /** The velocity message carries the address parsed from the id exactly when it fits the 24-bit ICAO field. */
  lemma VelocityAddressSent(a: Aircraft)
    ensures ReadFrame(VelocityMessage(a)).value.icao == IcaoOf(a.id) <==> IcaoOf(a.id) < 0x100_0000
  {
    LowFieldsKept(17, 5, IcaoOf(a.id), VelocityPayloadOf(a));
    SmallPowersOfTwo();
    WordPowersOfTwo();
    if IcaoOf(a.id) < 0x100_0000 {
      LowField(IcaoOf(a.id), 24);
    }
  }

  /**
    * Both messages of mock aircraft `i` carry its address exactly up to aircraft 2040; from 2041
    * on, the address no longer fits the ICAO field and the frame carries another one.
    */
  lemma MockAddressSent(i: nat, centerLat: real, centerLng: real, sin: real, cos: real)
    ensures var a := MockAircraft(i, centerLat, centerLng, sin, cos);
      && (ReadFrame(PositionMessage(a)).value.icao == MockIcao(i) <==> i <= 2040)
      && (ReadFrame(VelocityMessage(a)).value.icao == MockIcao(i) <==> i <= 2040)
  {
    var a := MockAircraft(i, centerLat, centerLng, sin, cos);
    MockIdParses(i);
    MockIcaoFits(i);
    PositionAddressSent(a);
    VelocityAddressSent(a);
  }

  /** A NIC below 16 and an altitude code that fits 12 bits read back unmasked from the position message. */
  lemma PositionFieldsSent(a: Aircraft)
    requires a.nic < 16 && AltitudeCode(a) < 0x1000
    ensures var p := ReadFrame(PositionMessage(a)).value.payload;
      BitsOf(p, 47, 4) == a.nic as int && BitsOf(p, 35, 12) == AltitudeCode(a)
  {
    PositionFields(a.nic, AltitudeCode(a), LatCode(a), LngCode(a));
    SmallPowersOfTwo();
    LowField(a.nic, 4);
    LowField(AltitudeCode(a), 12);
  }

  /** Speed and heading codes that fit 10 and 7 bits read back unmasked from the velocity message. */
  lemma VelocityFieldsSent(a: Aircraft)
    requires SpeedCode(a) < 0x400 && HeadingCode(a) < 0x80
    ensures var p := ReadFrame(VelocityMessage(a)).value.payload;
      BitsOf(p, 30, 10) == SpeedCode(a) && BitsOf(p, 20, 7) == HeadingCode(a)
  {
    VelocityFields(SpeedCode(a), HeadingCode(a));
    SmallPowersOfTwo();
    LowField(SpeedCode(a), 10);
    LowField(HeadingCode(a), 7);
  }

  /**
    * The mock aircraft's NIC and altitude, as `generate_position_message` encodes them, fit their
    * fields and read back unmasked from the transmitted position message.
    */
  lemma MockPositionFieldsSent(i: nat, centerLat: real, centerLng: real, sin: real, cos: real)
    ensures var a := MockAircraft(i, centerLat, centerLng, sin, cos);
      var p := ReadFrame(PositionMessage(a)).value.payload;
      && BitsOf(p, 47, 4) == a.nic as int
      && BitsOf(p, 35, 12) == ((a.altitude + 1000.0) / 25.0).Floor
  {
    var a := MockAircraft(i, centerLat, centerLng, sin, cos);
    PositionFieldsSent(a);
  }

  /**
    * The mock aircraft's speed and heading, as `generate_velocity_message` encodes them, fit their
    * fields and read back unmasked from the transmitted velocity message.
    */
  lemma MockVelocityFieldsSent(i: nat, centerLat: real, centerLng: real, sin: real, cos: real)
    ensures var a := MockAircraft(i, centerLat, centerLng, sin, cos);
      var p := ReadFrame(VelocityMessage(a)).value.payload;
      && BitsOf(p, 30, 10) == a.speed.Floor
      && BitsOf(p, 20, 7) == (a.heading / 360.0 * 127.0).Floor
  {
    var a := MockAircraft(i, centerLat, centerLng, sin, cos);
    VelocityFieldsSent(a);
  }

  /** With a sine and cosine in [-1, 1], mock aircraft lie within 0.6 degrees of the centre on each axis. */
  lemma MockNearCentre(i: nat, centerLat: real, centerLng: real, sin: real, cos: real)
    requires -1.0 <= sin <= 1.0 && -1.0 <= cos <= 1.0
    ensures var a := MockAircraft(i, centerLat, centerLng, sin, cos);
      && centerLat - 0.6 < a.lat < centerLat + 0.6
      && centerLng - 0.6 < a.lng < centerLng + 0.6
  {
  }

  /**
    * East of 0.01 degrees the longitude code is at least 0x10000, so its bit 16 is set: the bit
    * of the position payload that the latitude code's bit 0 shares with it.
    */
  lemma LongitudeSetsSharedBit(a: Aircraft)
    requires 0.01 <= a.lng <= 180.0
    ensures BitsOf(LngCode(a), 16, 1) == 1
  {
    var c := LngCode(a);
    assert 0x1_0000 <= c < 0x2_0000;
    SmallPowersOfTwo();
    assert c / Pow(2, 16) == 1;
  }

  /**
    * East of 0.01 degrees, two latitudes whose codes differ only in bit 0 give the same position
    * message: the latitude's lowest bit never reaches the frame.
    */
  lemma LatitudeBitLost(a: Aircraft, lat': real)
    requires 0.01 <= a.lng <= 180.0
    requires BitsOf(LatCode(a.(lat := lat')), 1, 16) == BitsOf(LatCode(a), 1, 16)
    ensures PositionMessage(a.(lat := lat')) == PositionMessage(a)
  {
    var b := a.(lat := lat');
    assert AltitudeCode(b) == AltitudeCode(a) && LngCode(b) == LngCode(a) by {
      assert b.altitude == a.altitude && b.lng == a.lng;
    }
    assert PositionPayloadOf(b) == PositionPayloadOf(a) by {
      LongitudeSetsSharedBit(a);
      SharedBitHidesLatitude(a.nic, AltitudeCode(a), LatCode(b), LatCode(a), LngCode(a));
    }
    SamePositionMessage(b, a);
  }

  /** Two aircraft with the same id and the same position payload send the same position message. */
  lemma SamePositionMessage(a: Aircraft, b: Aircraft)
    requires a.id == b.id && PositionPayloadOf(a) == PositionPayloadOf(b)
    ensures PositionMessage(a) == PositionMessage(b)
  {
  }

  /**
    * Around a centre between 0.61 and 179.39 degrees east, such as the test's 114.0579, bit 16 of
    * every mock position payload is set, whatever the latitude.
    */
  lemma MockSharedBitSet(i: nat, centerLat: real, centerLng: real, sin: real, cos: real)
    requires -1.0 <= cos <= 1.0 && 0.61 <= centerLng <= 179.39
    ensures var a := MockAircraft(i, centerLat, centerLng, sin, cos);
      BitsOf(ReadFrame(PositionMessage(a)).value.payload, 16, 1) == 1
  {
    var a := MockAircraft(i, centerLat, centerLng, sin, cos);
    LongitudeSetsSharedBit(a);
    PositionFields(a.nic, AltitudeCode(a), LatCode(a), LngCode(a));
  }

  /** `AdsbSimulator`: the fleet and the centre it is placed around. */
  class AdsbSimulator {
    var aircrafts: seq<Aircraft>
    var centerLat: real
    var centerLng: real

    /** `AdsbSimulator::new`: an empty fleet around the given centre. */
    constructor(centerLat: real, centerLng: real)
      ensures aircrafts == [] && this.centerLat == centerLat && this.centerLng == centerLng
    {
      aircrafts := [];
      this.centerLat := centerLat;
      this.centerLng := centerLng;
    }

    /**
      * `generate_mock_aircrafts(count)`: the old fleet is dropped and replaced by mock aircraft
      * 0 to `count - 1`; the centre is untouched. `bearing(i)` is the sine and cosine of `i`
      * times the golden angle.
      */
    method GenerateMockAircrafts(count: nat, bearing: nat -> (real, real))
      modifies this`aircrafts
      ensures |aircrafts| == count
      ensures forall i :: 0 <= i < count ==>
        aircrafts[i] == MockAircraft(i, centerLat, centerLng, bearing(i).0, bearing(i).1)
    {
      aircrafts := [];
      for i := 0 to count
        invariant |aircrafts| == i
        invariant forall j :: 0 <= j < i ==>
          aircrafts[j] == MockAircraft(j, centerLat, centerLng, bearing(j).0, bearing(j).1)
      {
        var (sin, cos) := bearing(i);
        aircrafts := aircrafts + [MockAircraft(i, centerLat, centerLng, sin, cos)];
      }
    }

    /** `get_aircrafts`: the fleet as it stands. */
    method GetAircrafts() returns (fleet: seq<Aircraft>)
      ensures fleet == aircrafts
    {
      fleet := aircrafts;
    }

    /**
      * `generate_all_messages`: two events per aircraft, in fleet order, the position event
      * first; the fleet is left as it is.
      */
    method GenerateAllMessages() returns (events: seq<AdsbEvent>)
      ensures events == AllEvents(aircrafts)
      ensures |events| == 2 * |aircrafts|
      ensures forall k :: 0 <= k < |aircrafts| ==>
        events[2 * k] == PositionEvent(aircrafts[k]) && events[2 * k + 1] == VelocityEvent(aircrafts[k])
    {
      events := Interleaving(aircrafts, PositionEvent, VelocityEvent);
      InterleaveAt(aircrafts, PositionEvent, VelocityEvent);
    }
  }

  /** `test_simulator`: five mock aircraft around Shenzhen give ten messages. */
  method SimulatorTest(bearing: nat -> (real, real)) returns (fleetSize: nat, messageCount: nat)
    ensures fleetSize == 5 && messageCount == 10
  {
    var sim := new AdsbSimulator(22.5431, 114.0579);
    sim.GenerateMockAircrafts(5, bearing);
    var fleet := sim.GetAircrafts();
    var messages := sim.GenerateAllMessages();
    fleetSize, messageCount := |fleet|, |messages|;
  }
}
