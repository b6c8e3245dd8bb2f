# ADS-B frame synthesiser, modelled in Dafny

The model covers the signal simulator behind a desktop ADS-B viewer. `AdsbSimulator` keeps a fleet
of mock aircraft placed around a centre point. For each aircraft it produces two Mode S extended
squitter frames as 28 hexadecimal digits: a "position" message (DF 17, CA 5, type code 11) and a
"velocity" message (DF 17, CA 5, type code 19, subtype 1).

Each frame is built the way `assemble_message` builds it. A `u128` accumulator gets the downlink
format, the capability, the 24-bit ICAO address, the 56-bit ME payload and a fixed stand-in parity
field ORed in at their shifts. The result is printed with `{:028X}`. The two payloads are `u64`
accumulators of masked field codes taken from the aircraft's altitude, latitude, longitude, speed,
heading and NIC.

Modules, one file each:

- `Wrappers` (`wrappers.dfy`): `Option`.
- `Numerals` (`numerals.dfy`):
  - decimal and upper-case hexadecimal rendering, as `format!` does it with `{}`, `{:X}` and `{:0wX}`;
  - the unsigned `from_str_radix`, with its error cases;
  - the round trip between the two.
- `Bits` (`bits.dfy`):
  - fixed-width unsigned integers as bit sequences, least significant bit first;
  - `<<`, `|` and `&` on them, and zero extension (`as u128`);
  - the conversions to and from numbers, and the field arithmetic `BitsOf(n, lo, w)`, the `w`-bit field of `n` at bit `lo`.
- `Frame` (`frame.dfy`): `assemble_message`, and reading a frame back field by field.
- `Payload` (`payload.dfy`): the position and velocity payload accumulators.
- `Simulator` (`simulator.dfy`):
  - the `Aircraft` and `AdsbEvent` records;
  - the float-to-integer casts;
  - the two message generators;
  - the mock fleet;
  - the `AdsbSimulator` class, whose fleet is a field that its methods replace;
  - the unit test.

What is proved, in short:

- `AssembleMessage`: the frame text is always 28 or 29 hexadecimal digits, and exactly 28 when DF fits its 5 bits. Every field reads back unchanged exactly when all of them fit their ranges.
- Whatever the inputs, the parity field always survives and the payload field reads back as the payload modulo 2^56. The address survives, modulo 2^24, when the payload fits.
- Every 112-bit value that carries the parity field is the frame of its own fields.
- Each payload is characterised field by field. The position payload's 17-bit latitude code at bit 16 and 17-bit longitude code at bit 0 overlap in bit 16. Two payloads are equal exactly when a stated set of bits agrees, and there is a concrete pair of distinct positions that collide.
- Every message of a real aircraft is exactly 28 digits. It carries the address parsed from the aircraft's id exactly when that address is below 2^24. Mock aircraft from index 2041 on break this.
- The mock fleet's ids are distinct. Its NIC, altitude, speed and heading codes reach the frame unmasked. Its latitude code does not: east of about 0.01 degrees, and so for every mock aircraft around a centre such as 114.0579 E, the longitude code is at least 0x10000. Its bit 16 is then set, and bit 0 of the latitude code never reaches the frame.
- `generate_all_messages` yields, in fleet order, each aircraft's position event followed by its velocity event.

## Model

All source paths are in `adsb-main/src-tauri/src/adsb.rs`.

| member | source | states |
|---|---|---|
| Numerals.ToDigits | adsb-main/src-tauri/src/adsb.rs:64 | `{}` and `{:X}` of a number: at least one character, each a digit of the radix, upper-case in hexadecimal |
| Numerals.Format | adsb-main/src-tauri/src/adsb.rs:67 | `{:0wX}`: the digits left-padded with zeros to at least `w` characters; the length is the larger of `w` and the digit count |
| Numerals.DigitValue | adsb-main/src-tauri/src/adsb.rs:131 | the value of a digit character, always below the radix; `None` for a character that is not a digit of the radix |
| Numerals.FromStrRadix | adsb-main/src-tauri/src/adsb.rs:131 | `from_str_radix` for an unsigned type: the empty string is an error, and any result lies below the type's limit |
| Numerals.FromStrRadixRejects | adsb-main/src-tauri/src/adsb.rs:131 | a string holding a character that is not a digit of the radix is an error, unless that character is a single leading `+` |
| Numerals.FormatRoundTrip | adsb-main/src-tauri/src/adsb.rs:67 | reading the digits of a rendered number gives back the number, whatever the padding |
| Numerals.FromStrRadixOfFormat | adsb-main/src-tauri/src/adsb.rs:131 | parsing a rendered number returns it exactly when it is below the limit of the target type, and fails otherwise |
| Numerals.FormatWidth | adsb-main/src-tauri/src/adsb.rs:67 | padding to `w` gives exactly `w` characters if and only if the number is below radix^w |
| Numerals.FormatInjective | adsb-main/src-tauri/src/adsb.rs:67 | distinct numbers render to distinct texts |
| Frame.FrameBits | adsb-main/src-tauri/src/adsb.rs:196-201 | the `u128` accumulator is 128 bits wide; its contents are stated by `FrameLayout`, `AssembleRoundTrip` and `FrameOfFields` |
| Frame.FrameValue | adsb-main/src-tauri/src/adsb.rs:196-201 | the `u128` accumulator, read as a number, is below 2^128 |
| Frame.FrameLayout | adsb-main/src-tauri/src/adsb.rs:195-201 | when DF < 32, CA < 8, ICAO < 2^24 and payload < 2^56, the accumulator is exactly the five fields side by side |
| Frame.FrameTop | adsb-main/src-tauri/src/adsb.rs:197 | bits 112 and up are all clear if and only if DF < 32; bits 115 and up are always clear |
| Frame.FrameMagnitude | adsb-main/src-tauri/src/adsb.rs:196-201 | the frame is below 16^28 if and only if DF < 32, and always below 16^29 |
| Frame.FrameLength | adsb-main/src-tauri/src/adsb.rs:203 | `{:028X}` of the frame has 28 or 29 digits, and exactly 28 if and only if DF < 32 |
| Frame.AssembleMessage | adsb-main/src-tauri/src/adsb.rs:194-204 | the text has 28 or 29 upper-case hexadecimal digits, exactly 28 if and only if DF < 32, and parses as a `u128` whose fields are those of the frame built |
| Frame.AssembleRoundTrip | adsb-main/src-tauri/src/adsb.rs:194-204 | reading the message back gives exactly (DF, CA, ICAO, payload, 0xA5A5A5) if and only if every argument fits its field |
| Frame.LowFieldsKept | adsb-main/src-tauri/src/adsb.rs:199-201 | for any arguments, the parity reads back as 0xA5A5A5 and the payload field as `payload` mod 2^56; when the payload fits, the ICAO field reads back as `icao` mod 2^24 |
| Frame.ParityKept | adsb-main/src-tauri/src/adsb.rs:201 | bits 0-23 of every frame are 0xA5A5A5 |
| Frame.PayloadKept | adsb-main/src-tauri/src/adsb.rs:200 | bits 24-79 of every frame are the low 56 bits of the payload |
| Frame.IcaoKept | adsb-main/src-tauri/src/adsb.rs:199-200 | when the payload fits 56 bits, bits 80-103 are the low 24 bits of the address |
| Frame.FrameOfFields | adsb-main/src-tauri/src/adsb.rs:195-201 | every value below 2^112 whose low 24 bits are 0xA5A5A5 is the frame built from its own fields |
| Frame.FieldsLayout | adsb-main/src-tauri/src/adsb.rs:195-201 | the layout of such a value's unpacked fields is its own bit sequence |
| Payload.NicEncoded | adsb-main/src-tauri/src/adsb.rs:134 | `(nic & 0xF) as u64` is the low four bits of the NIC |
| Payload.Masked | adsb-main/src-tauri/src/adsb.rs:135-137 | `code & mask` is no larger than either the code or the mask |
| Payload.NicShifted | adsb-main/src-tauri/src/adsb.rs:134 | `((nic & 0xF) as u64) << k` sets exactly the shifted low four bits of the NIC |
| Payload.MaskedShifted | adsb-main/src-tauri/src/adsb.rs:135-137 | `(code & mask) << k`, with a mask of `w` ones, sets exactly the shifted low `w` bits of the code |
| Payload.PositionPayload | adsb-main/src-tauri/src/adsb.rs:139-144 | the position payload always fits the 56-bit ME field |
| Payload.PositionBits | adsb-main/src-tauri/src/adsb.rs:139-144 | the `u64` position accumulator is 64 bits wide; its contents are stated by `PositionBitAt`, `PositionFields` and `PositionRebuilt` |
| Payload.PositionBitAt | adsb-main/src-tauri/src/adsb.rs:139-144 | bit `i` of the position payload is the OR of the type code, NIC, altitude, latitude and longitude bits shifted there |
| Payload.PositionFields | adsb-main/src-tauri/src/adsb.rs:133-144 | the payload holds type code 11 at 51-55, `nic & 0xF` at 47-50, `alt & 0xFFF` at 35-46, zeros at 33-34, latitude bits 1-16 at 17-32 and longitude bits 0-15 at 0-15; bit 16 is the OR of latitude bit 0 and longitude bit 16 |
| Payload.PositionRebuilt | adsb-main/src-tauri/src/adsb.rs:139-144 | every 56-bit value with type code 11 and a clear gap at 33-34 is the position payload of its own fields, so `PositionFields` describes all position payloads |
| Payload.PositionFieldsDetermine | adsb-main/src-tauri/src/adsb.rs:139-144 | two such values whose fields agree are equal |
| Payload.PositionPayloadsEqual | adsb-main/src-tauri/src/adsb.rs:134-144 | two position payloads are equal if and only if the masked NIC, altitude, latitude bits 1-16 and longitude bits 0-15 agree, and so does the OR held in bit 16 |
| Payload.PositionCollision | adsb-main/src-tauri/src/adsb.rs:143-144 | latitude code 1 with longitude code 0 and latitude code 0 with longitude code 0x10000 produce the same payload |
| Payload.SharedBitHidesLatitude | adsb-main/src-tauri/src/adsb.rs:143-144 | once bit 16 of the longitude code is set, two latitude codes that agree in bits 1-16 give the same payload, whatever their bit 0 |
| Payload.VelocityPayload | adsb-main/src-tauri/src/adsb.rs:160-164 | the velocity payload always fits the 56-bit ME field |
| Payload.VelocityBits | adsb-main/src-tauri/src/adsb.rs:160-164 | the `u64` velocity accumulator is 64 bits wide; its contents are stated by `VelocityBitAt`, `VelocityFields` and `VelocityRebuilt` |
| Payload.VelocityBitAt | adsb-main/src-tauri/src/adsb.rs:160-164 | bit `i` of the velocity payload is the OR of the type code, subtype, speed and heading bits shifted there |
| Payload.VelocityFields | adsb-main/src-tauri/src/adsb.rs:155-164 | the payload holds type code 19 at 51-55, subtype 1 at 48-50, `speed & 0x3FF` at 30-39 and `heading & 0x7F` at 20-26, with zeros elsewhere |
| Payload.VelocityRebuilt | adsb-main/src-tauri/src/adsb.rs:160-164 | every 56-bit value with type code 19, subtype 1 and zeros outside speed and heading is the velocity payload of its own fields |
| Payload.VelocityFieldsDetermine | adsb-main/src-tauri/src/adsb.rs:160-164 | two such values with equal speed and heading fields are equal |
| Payload.VelocityPayloadsEqual | adsb-main/src-tauri/src/adsb.rs:157-164 | two velocity payloads are equal if and only if the low ten speed bits and the low seven heading bits agree |
| Simulator.CastU64 | adsb-main/src-tauri/src/adsb.rs:135-137 | `as u64` from a float: negative values give 0, values of 2^64 and above give `u64::MAX`, and the rest truncate toward zero (`n <= x < n + 1`) |
| Simulator.IcaoOf | adsb-main/src-tauri/src/adsb.rs:131 | `unwrap_or(0)`: the empty id gives 0, and a nonzero address is always the successful parse of the id as a `u32` |
| Simulator.IcaoOfFormat | adsb-main/src-tauri/src/adsb.rs:131 | the id `{:0wX}` of a number gives that number back when it is below 2^32, and 0 otherwise |
| Simulator.IcaoOfInvalid | adsb-main/src-tauri/src/adsb.rs:131 | an id holding a character that is not a hexadecimal digit (other than a single leading `+`) gives 0 |
| Simulator.AltitudeCode | adsb-main/src-tauri/src/adsb.rs:135 | `((alt + 1000) / 25) as u64`: 0 below -1000 ft; from -1000 ft up to below 101400 ft, the floor of (alt + 1000) / 25, which is below 0x1000 so the mask keeps it whole |
| Simulator.LatCode | adsb-main/src-tauri/src/adsb.rs:136 | 0 below -90 degrees; from -90 to 90 degrees, the floor of (lat + 90) / 180 * 131071, at most 0x1FFFF |
| Simulator.LngCode | adsb-main/src-tauri/src/adsb.rs:137 | 0 below -180 degrees; from -180 to 180 degrees, the floor of (lng + 180) / 360 * 131071, at most 0x1FFFF |
| Simulator.SpeedCode | adsb-main/src-tauri/src/adsb.rs:157 | 0 for a negative speed; below 1024 kt, the floor of the speed, which is below 0x400 |
| Simulator.HeadingCode | adsb-main/src-tauri/src/adsb.rs:158 | 0 for a negative heading; for a heading in [0, 360), the floor of heading / 360 * 127, which is below 0x80 |
| Simulator.PositionMessage | adsb-main/src-tauri/src/adsb.rs:128-147 | always exactly 28 digits; reads back as (17, 5, address, position payload, parity) if and only if the parsed address is below 2^24; the payload reads back unchanged in every case |
| Simulator.VelocityMessage | adsb-main/src-tauri/src/adsb.rs:150-167 | the same for the velocity payload |
| Simulator.PositionEvent | adsb-main/src-tauri/src/adsb.rs:175-179 | the position event carries the aircraft's id, the tag "position" and a 28-digit message |
| Simulator.VelocityEvent | adsb-main/src-tauri/src/adsb.rs:182-186 | the velocity event carries the aircraft's id, the tag "velocity" and a 28-digit message |
| Simulator.EventPayloads | adsb-main/src-tauri/src/adsb.rs:174-186 | both events' messages read back, and carry the aircraft's position and velocity payloads |
| Simulator.MessagesDiffer | adsb-main/src-tauri/src/adsb.rs:133-161 | an aircraft's position and velocity messages always differ |
| Simulator.PositionAddressSent | adsb-main/src-tauri/src/adsb.rs:131-146 | the position frame carries the parsed address if and only if it is below 2^24 |
| Simulator.VelocityAddressSent | adsb-main/src-tauri/src/adsb.rs:153-166 | the velocity frame carries the parsed address if and only if it is below 2^24 |
| Simulator.LongitudeSetsSharedBit | adsb-main/src-tauri/src/adsb.rs:137 | from about 0.01 degrees east to 180 degrees, bit 16 of the longitude code is set |
| Simulator.LatitudeBitLost | adsb-main/src-tauri/src/adsb.rs:136-146 | there, changing the latitude so that bits 1-16 of its code are kept leaves the position message unchanged: latitude bit 0 is never sent |
| Simulator.SamePositionMessage | adsb-main/src-tauri/src/adsb.rs:128-147 | two aircraft with the same id and the same position payload send the same position message |
| Simulator.PositionFieldsSent | adsb-main/src-tauri/src/adsb.rs:134-146 | a NIC below 16 and an altitude code below 0x1000 read back unmasked from the transmitted frame |
| Simulator.VelocityFieldsSent | adsb-main/src-tauri/src/adsb.rs:157-166 | speed and heading codes that fit 10 and 7 bits read back unmasked from the transmitted frame |
| Simulator.AllEvents | adsb-main/src-tauri/src/adsb.rs:171-189 | `generate_all_messages` as a value: two events per aircraft; the order is stated by `InterleaveAt` and `GenerateAllMessages` |
| Simulator.Interleave | adsb-main/src-tauri/src/adsb.rs:171-189 | two events per element |
| Simulator.InterleaveAt | adsb-main/src-tauri/src/adsb.rs:173-187 | events `2k` and `2k + 1` are the first and second event of element `k` |
| Simulator.Interleaving | adsb-main/src-tauri/src/adsb.rs:171-189 | the push loop returns exactly `Interleave` of its input |
| Simulator.MockIcao | adsb-main/src-tauri/src/adsb.rs:67 | mock addresses start at 0x780000 |
| Simulator.FlightNumber | adsb-main/src-tauri/src/adsb.rs:63 | flight numbers run from 1000 to 9999 |
| Simulator.Distance | adsb-main/src-tauri/src/adsb.rs:55-56 | the distance from the centre is at least 0.15 and below 0.6 degrees |
| Simulator.Around | adsb-main/src-tauri/src/adsb.rs:58-59 | with a unit-range direction component, the coordinate lies within 0.6 degrees of the centre |
| Simulator.MockAircraft | adsb-main/src-tauri/src/adsb.rs:49-85 | mock aircraft `i` has id `{:06X}` of its address and a six-character call sign: the airline prefix `i % 10` followed by the flight number's digits. Altitude is a whole number in 5000-14999, speed in 400-649, heading in 0-359, and NIC in 5-11 |
| Simulator.CallsignDigits | adsb-main/src-tauri/src/adsb.rs:62-64 | the flight number prints as four digits that read back as the number |
| Simulator.MockIdParses | adsb-main/src-tauri/src/adsb.rs:67 | a mock id parses back to its address when that fits a `u32`, and to 0 otherwise |
| Simulator.MockIcaoFits | adsb-main/src-tauri/src/adsb.rs:67 | the address is below 2^24, and its id exactly six digits, if and only if `i <= 2040` |
| Simulator.MockIdsDistinct | adsb-main/src-tauri/src/adsb.rs:67 | distinct indices give distinct ids |
| Simulator.MockAddressSent | adsb-main/src-tauri/src/adsb.rs:67-74 | both messages of mock aircraft `i` carry its address if and only if `i <= 2040` |
| Simulator.MockPositionFieldsSent | adsb-main/src-tauri/src/adsb.rs:78-81 | the mock NIC and the floor of (altitude + 1000) / 25 read back unmasked from the position frame |
| Simulator.MockVelocityFieldsSent | adsb-main/src-tauri/src/adsb.rs:70-79 | the mock speed and the floor of heading / 360 * 127 read back unmasked from the velocity frame |
| Simulator.MockSharedBitSet | adsb-main/src-tauri/src/adsb.rs:58-59 | for a centre between 0.61 and 179.39 degrees east, bit 16 of every mock aircraft's transmitted position payload is set, so its latitude bit 0 is lost |
| Simulator.MockNearCentre | adsb-main/src-tauri/src/adsb.rs:50-59 | with sine and cosine in [-1, 1], every mock aircraft lies within 0.6 degrees of the centre on each axis |
| Simulator.AdsbSimulator.constructor | adsb-main/src-tauri/src/adsb.rs:33-39 | an empty fleet around the given centre |
| Simulator.AdsbSimulator.GenerateMockAircrafts | adsb-main/src-tauri/src/adsb.rs:42-86 | the fleet is replaced by exactly `count` aircraft, aircraft `i` being mock aircraft `i`; the centre is unchanged |
| Simulator.AdsbSimulator.GetAircrafts | adsb-main/src-tauri/src/adsb.rs:123-125 | returns the fleet as it stands |
| Simulator.AdsbSimulator.GenerateAllMessages | adsb-main/src-tauri/src/adsb.rs:170-190 | `2n` events for `n` aircraft: event `2k` is aircraft `k`'s position event and event `2k + 1` its velocity event; the fleet is unchanged |
| Simulator.SimulatorTest | adsb-main/src-tauri/src/adsb.rs:229-238 | five mock aircraft give a fleet of five and ten messages |

## Left out

- The Tauri application, its commands, the emitter thread and the shared state in `lib.rs` are not part of this model.
- `update_positions`, `rand_simple` and `rand_range` are not modelled. They read the system clock, so their results cannot be described as a function of the inputs.
- `serde` serialisation of `Aircraft` and `AdsbEvent` is left out: it is an external library.
- Floating point: `f64` values are modelled as exact reals. Rounding in `(alt + 1000) / 25`, `(lat + 90) / 180 * 131071`, `heading / 360 * 127` and the distance formula can make an IEEE result differ from the exact one near a whole number. NaN and the infinities are not modelled: reals have neither.
- `sin`, `cos`, `sqrt` and `PI` are not modelled. The sine and cosine of `i` times the golden angle reach `GenerateMockAircrafts` as a parameter, `bearing`.
- Simulator.AdsbSimulator.GenerateMockAircrafts: the placement is proved only for a `bearing` whose values lie in [-1, 1] (`MockNearCentre`); nothing is proved about the angles themselves.
- Simulator.MockAircraft: the contract bounds altitude, speed, heading and NIC instead of giving their index formulas; latitude and longitude are bounded by `MockNearCentre`.
- `usize` overflow in the mock formulas (`i * 7919`, `0x780000 + i * 0x1111`, and so on) is not modelled. Indices are unbounded naturals; on a 64-bit target, `i * 7919` would overflow only past about 2^51 aircraft.
- The parity field is the constant 0xA5A5A5 that the code writes, not the Mode S CRC-24.
- Simulator.Interleaving: the `Vec::push` loop of `generate_all_messages` is a generic method over any element and event type, and `GenerateAllMessages` calls it with the two event builders. The order of the pushes is kept; in-place growth of the vector is not.
- Frame.FrameBits, Payload.PositionBits, Payload.VelocityBits: their own contracts give the width only. Their contents are stated by the lemmas named in their rows, which keeps the accumulator bodies out of every proof that merely uses them.
- Simulator.AllEvents: its own contract gives the event count only. The position of each event is stated by `InterleaveAt` and by `GenerateAllMessages`, which keeps the event builders out of proofs that only need the count.
- No decoder exists in the source. `ReadFrame` and `Unpack` are the model's own readers, used to state what a receiver would recover.
