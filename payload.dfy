/**
  * The 56-bit ME payloads of `generate_position_message` and `generate_velocity_message`, held in
  * a `u64`: integer field codes, each masked to its width and ORed in at a fixed shift. The layout
  * is this simulator's own rather than that of an airborne position or velocity message: latitude
  * and longitude are linear codes, not CPR, and in the position payload the 17-bit latitude code
  * at bit 16 and the 17-bit longitude code at bit 0 share bit 16.
  *
  * `BitsOf(x, 0, w)` is `x & (2^w - 1)`, and `BitsOf(x, lo, w)` is the `w`-bit field of `x` at `lo`.
  */
module Payload {
  import opened Numerals
  import opened Bits

  /** `code & mask` in `u64`: never larger than the code or the mask. */
  function Masked(code: U64, mask: U64): (b: Bits)
    ensures |b| == 64
    ensures ToNat(b) <= code && ToNat(b) <= mask
  {
    ToNatAnd(FromNat(code, 64), FromNat(mask, 64));
    WordBits(code);
    WordBits(mask);
    And(FromNat(code, 64), FromNat(mask, 64))
  }

  /** `b as uW` for a narrower `b`: zero extension to `width` bits. */
  function Widen(b: Bits, width: nat): (r: Bits)
    requires |b| <= width
    ensures |r| == width
  {
    b + ZeroBits(width - |b|)
  }

  /** A `u64` converted to 64 bits and back is unchanged. */
  lemma WordBits(x: U64)
    ensures ToNat(FromNat(x, 64)) == x
  {
    ToNatFromNat(x, 64);
    assert x < Pow(2, 64) by { WordPowersOfTwo(); }
    DivModUnique(x, Pow(2, 64), 0, x);
  }

  /** `(nic & 0xF) as u64`: the mask is applied to the `u8` before widening; the value is the NIC's low four bits. */
  function NicEncoded(nic: U8): (b: Bits)
    ensures |b| == 64
    ensures ToNat(b) == BitsOf(nic, 0, 4)
  {
    SmallPowersOfTwo();
    MaskedBits(nic, 0xF, 4, 8);
    assert Widen(And(FromNat(nic, 8), FromNat(0xF, 8)), 64)[..4] == FromNat(nic, 4);
    LowBitsValue(Widen(And(FromNat(nic, 8), FromNat(0xF, 8)), 64), nic, 4);
    Widen(And(FromNat(nic, 8), FromNat(0xF, 8)), 64)
  }

  /**
    * The `u64` accumulator of `generate_position_message`: type code 11 at bit 51, the NIC at 47,
    * the altitude code masked to 12 bits at 35, the latitude code masked to 17 bits at 16 and the
    * longitude code masked to 17 bits at 0.
    */
  function PositionBits(nic: U8, altitudeCode: U64, latCode: U64, lngCode: U64): (p: Bits)
    ensures |p| == 64
  {
    var p := ZeroBits(64);
    var p := OrShl(p, FromNat(11, 64), 51);
    var p := OrShl(p, NicEncoded(nic), 47);
    var p := OrShl(p, Masked(altitudeCode, 0xFFF), 35);
    var p := OrShl(p, Masked(latCode, 0x1FFFF), 16);
    Or(p, Masked(lngCode, 0x1FFFF))
  }

  /** The position payload as a number; it always fits the 56-bit ME field. */
  function PositionPayload(nic: U8, altitudeCode: U64, latCode: U64, lngCode: U64): (p: U64)
    ensures p < 0x100_0000_0000_0000
  {
    PositionTop(nic, altitudeCode, latCode, lngCode);
    ToNat(PositionBits(nic, altitudeCode, latCode, lngCode))
  }

  /**
    * The `u64` accumulator of `generate_velocity_message`: type code 19 at bit 51, subtype 1 at
    * 48, the speed code masked to 10 bits at 30 and the heading code masked to 7 bits at 20.
    */
  function VelocityBits(speedCode: U64, headingCode: U64): (p: Bits)
    ensures |p| == 64
  {
    var p := ZeroBits(64);
    var p := OrShl(p, FromNat(19, 64), 51);
    var p := OrShl(p, FromNat(1, 64), 48);
    var p := OrShl(p, Masked(speedCode, 0x3FF), 30);
    OrShl(p, Masked(headingCode, 0x7F), 20)
  }

  /** The velocity payload as a number; it always fits the 56-bit ME field. */
  function VelocityPayload(speedCode: U64, headingCode: U64): (p: U64)
    ensures p < 0x100_0000_0000_0000
  {
    VelocityTop(speedCode, headingCode);
    ToNat(VelocityBits(speedCode, headingCode))
  }

  // Bit by bit.

  /** `(code & mask) << k` sets the bits of the low `w` bits of the code, for a mask of `w` ones. */
  lemma MaskedShifted(code: U64, mask: U64, w: nat, k: nat, i: nat)
    requires mask + 1 == Pow(2, w) && w <= 64
    ensures ShiftedBit(Masked(code, mask), k, i) == ShiftedBit(FromNat(code, w), k, i)
  {
    MaskedBits(code, mask, w, 64);
    ShiftedPadded(FromNat(code, w), 64 - w, k, i);
  }

  /** `((nic & 0xF) as u64) << k` sets the bits of the low four bits of the NIC. */
  lemma NicShifted(nic: U8, k: nat, i: nat)
    ensures ShiftedBit(NicEncoded(nic), k, i) == ShiftedBit(FromNat(nic, 4), k, i)
  {
    SmallPowersOfTwo();
    MaskedBits(nic, 0xF, 4, 8);
    ShiftedPadded(FromNat(nic, 4) + ZeroBits(4), 56, k, i);
    ShiftedPadded(FromNat(nic, 4), 4, k, i);
  }

  /** Bit `i` of the position accumulator, one OR at a time. */
  lemma PositionBitsAt(nic: U8, altitudeCode: U64, latCode: U64, lngCode: U64, i: nat)
    requires i < 64
    ensures PositionBits(nic, altitudeCode, latCode, lngCode)[i] ==
      (ShiftedBit(FromNat(11, 64), 51, i) || ShiftedBit(NicEncoded(nic), 47, i) ||
       ShiftedBit(Masked(altitudeCode, 0xFFF), 35, i) || ShiftedBit(Masked(latCode, 0x1FFFF), 16, i) ||
       ShiftedBit(Masked(lngCode, 0x1FFFF), 0, i))
  {
  }

  /**
    * Bit `i` of the position payload: the OR of the type code's five bits at 51, the NIC's low
    * four bits at 47, the altitude code's low twelve bits at 35, the latitude code's low
    * seventeen bits at 16 and the longitude code's low seventeen bits at 0.
    */
  lemma PositionBitAt(nic: U8, altitudeCode: U64, latCode: U64, lngCode: U64, i: nat)
    requires i < 64
    ensures PositionBits(nic, altitudeCode, latCode, lngCode)[i] ==
      (ShiftedBit(FromNat(11, 5), 51, i) || ShiftedBit(FromNat(nic, 4), 47, i) ||
       ShiftedBit(FromNat(altitudeCode, 12), 35, i) || ShiftedBit(FromNat(latCode, 17), 16, i) ||
       ShiftedBit(FromNat(lngCode, 17), 0, i))
  {
    PositionBitsAt(nic, altitudeCode, latCode, lngCode, i);
    PositionBitResolved(nic, altitudeCode, latCode, lngCode, i);
  }

  /** The shifted, masked and widened arguments of the position accumulator, bit `i`. */
  lemma PositionBitResolved(nic: U8, altitudeCode: U64, latCode: U64, lngCode: U64, i: nat)
    ensures ShiftedBit(FromNat(11, 64), 51, i) == ShiftedBit(FromNat(11, 5), 51, i)
    ensures ShiftedBit(NicEncoded(nic), 47, i) == ShiftedBit(FromNat(nic, 4), 47, i)
    ensures ShiftedBit(Masked(altitudeCode, 0xFFF), 35, i) == ShiftedBit(FromNat(altitudeCode, 12), 35, i)
    ensures ShiftedBit(Masked(latCode, 0x1FFFF), 16, i) == ShiftedBit(FromNat(latCode, 17), 16, i)
    ensures ShiftedBit(Masked(lngCode, 0x1FFFF), 0, i) == ShiftedBit(FromNat(lngCode, 17), 0, i)
  {
    SmallPowersOfTwo();
    ShiftedWidened(11, 5, 64, 51, i);
    NicShifted(nic, 47, i);
    MaskedShifted(altitudeCode, 0xFFF, 12, 35, i);
    MaskedShifted(latCode, 0x1FFFF, 17, 16, i);
    MaskedShifted(lngCode, 0x1FFFF, 17, 0, i);
  }

  /** Bit `i` of the velocity accumulator, one OR at a time. */
  lemma VelocityBitsAt(speedCode: U64, headingCode: U64, i: nat)
    requires i < 64
    ensures VelocityBits(speedCode, headingCode)[i] ==
      (ShiftedBit(FromNat(19, 64), 51, i) || ShiftedBit(FromNat(1, 64), 48, i) ||
       ShiftedBit(Masked(speedCode, 0x3FF), 30, i) || ShiftedBit(Masked(headingCode, 0x7F), 20, i))
  {
  }

  /**
    * Bit `i` of the velocity payload: the OR of the type code's five bits at 51, the subtype's
    * three bits at 48, the speed code's low ten bits at 30 and the heading code's low seven bits
    * at 20.
    */
  lemma VelocityBitAt(speedCode: U64, headingCode: U64, i: nat)
    requires i < 64
    ensures VelocityBits(speedCode, headingCode)[i] ==
      (ShiftedBit(FromNat(19, 5), 51, i) || ShiftedBit(FromNat(1, 3), 48, i) ||
       ShiftedBit(FromNat(speedCode, 10), 30, i) || ShiftedBit(FromNat(headingCode, 7), 20, i))
  {
    VelocityBitsAt(speedCode, headingCode, i);
    VelocityBitResolved(speedCode, headingCode, i);
  }

  /** The shifted, masked and widened arguments of the velocity accumulator, bit `i`. */
  lemma VelocityBitResolved(speedCode: U64, headingCode: U64, i: nat)
    ensures ShiftedBit(FromNat(19, 64), 51, i) == ShiftedBit(FromNat(19, 5), 51, i)
    ensures ShiftedBit(FromNat(1, 64), 48, i) == ShiftedBit(FromNat(1, 3), 48, i)
    ensures ShiftedBit(Masked(speedCode, 0x3FF), 30, i) == ShiftedBit(FromNat(speedCode, 10), 30, i)
    ensures ShiftedBit(Masked(headingCode, 0x7F), 20, i) == ShiftedBit(FromNat(headingCode, 7), 20, i)
  {
    SmallPowersOfTwo();
    ShiftedWidened(19, 5, 64, 51, i);
    ShiftedWidened(1, 3, 64, 48, i);
    MaskedShifted(speedCode, 0x3FF, 10, 30, i);
    MaskedShifted(headingCode, 0x7F, 7, 20, i);
  }

  lemma PositionTop(nic: U8, altitudeCode: U64, latCode: U64, lngCode: U64)
    ensures ToNat(PositionBits(nic, altitudeCode, latCode, lngCode)) < 0x100_0000_0000_0000
  {
    var p := PositionBits(nic, altitudeCode, latCode, lngCode);
    forall i | 56 <= i < 64 ensures !p[i] {
      PositionBitAt(nic, altitudeCode, latCode, lngCode, i);
    }
    ToNatBelow(p, 56);
    LargePowersOfTwo();
  }

  lemma VelocityTop(speedCode: U64, headingCode: U64)
    ensures ToNat(VelocityBits(speedCode, headingCode)) < 0x100_0000_0000_0000
  {
    var p := VelocityBits(speedCode, headingCode);
    forall i | 56 <= i < 64 ensures !p[i] {
      VelocityBitAt(speedCode, headingCode, i);
    }
    ToNatBelow(p, 56);
    LargePowersOfTwo();
  }

  // The position payload's fields, read off any 64 bits laid out as `PositionBitAt` says.

  ghost predicate PositionLayout(m: Bits, nic: U8, altitudeCode: U64, latCode: U64, lngCode: U64) {
    |m| == 64 &&
    forall i :: 0 <= i < 64 ==>
      (m[i] ==
       (ShiftedBit(FromNat(11, 5), 51, i) || ShiftedBit(FromNat(nic, 4), 47, i) ||
        ShiftedBit(FromNat(altitudeCode, 12), 35, i) || ShiftedBit(FromNat(latCode, 17), 16, i) ||
        ShiftedBit(FromNat(lngCode, 17), 0, i)))
  }

  lemma PositionBitsLayout(nic: U8, altitudeCode: U64, latCode: U64, lngCode: U64)
    ensures PositionLayout(PositionBits(nic, altitudeCode, latCode, lngCode), nic, altitudeCode, latCode, lngCode)
  {
    forall i | 0 <= i < 64 {
      PositionBitAt(nic, altitudeCode, latCode, lngCode, i);
    }
  }

  lemma PositionLayoutTypeCode(m: Bits, nic: U8, altitudeCode: U64, latCode: U64, lngCode: U64)
    requires PositionLayout(m, nic, altitudeCode, latCode, lngCode)
    ensures BitsOf(ToNat(m), 51, 5) == 11
  {
    SmallPowersOfTwo();
    CopiedField(m, 51, 5, 11, 5, 0);
    LowField(11, 5);
  }

  lemma PositionLayoutNic(m: Bits, nic: U8, altitudeCode: U64, latCode: U64, lngCode: U64)
    requires PositionLayout(m, nic, altitudeCode, latCode, lngCode)
    ensures BitsOf(ToNat(m), 47, 4) == BitsOf(nic, 0, 4)
  {
    CopiedField(m, 47, 4, nic, 4, 0);
  }

  lemma PositionLayoutAltitude(m: Bits, nic: U8, altitudeCode: U64, latCode: U64, lngCode: U64)
    requires PositionLayout(m, nic, altitudeCode, latCode, lngCode)
    ensures BitsOf(ToNat(m), 35, 12) == BitsOf(altitudeCode, 0, 12)
  {
    CopiedField(m, 35, 12, altitudeCode, 12, 0);
  }

  lemma PositionLayoutGap(m: Bits, nic: U8, altitudeCode: U64, latCode: U64, lngCode: U64)
    requires PositionLayout(m, nic, altitudeCode, latCode, lngCode)
    ensures BitsOf(ToNat(m), 33, 2) == 0
  {
    ZeroField(m, 33, 2);
  }

  lemma PositionLayoutLat(m: Bits, nic: U8, altitudeCode: U64, latCode: U64, lngCode: U64)
    requires PositionLayout(m, nic, altitudeCode, latCode, lngCode)
    ensures BitsOf(ToNat(m), 17, 16) == BitsOf(latCode, 1, 16)
  {
    CopiedField(m, 17, 16, latCode, 17, 1);
  }

  lemma PositionLayoutLng(m: Bits, nic: U8, altitudeCode: U64, latCode: U64, lngCode: U64)
    requires PositionLayout(m, nic, altitudeCode, latCode, lngCode)
    ensures BitsOf(ToNat(m), 0, 16) == BitsOf(lngCode, 0, 16)
  {
    assert m[0..16] == FromNat(lngCode, 17)[0..16] by {
      forall j | 0 <= j < 16 ensures m[j] == FromNat(lngCode, 17)[j] {
        assert !ShiftedBit(FromNat(latCode, 17), 16, j);
      }
    }
    FieldOfBits(m, 0, 16);
    FieldOfFromNat(lngCode, 17, 0, 16);
  }

  /** Bit 16 is the OR of the latitude code's bit 0 and the longitude code's bit 16. */
  lemma PositionLayoutSharedBit(m: Bits, nic: U8, altitudeCode: U64, latCode: U64, lngCode: U64)
    requires PositionLayout(m, nic, altitudeCode, latCode, lngCode)
    ensures BitsOf(ToNat(m), 16, 1) == 1 <==> BitsOf(latCode, 0, 1) == 1 || BitsOf(lngCode, 16, 1) == 1
  {
    assert m[16] == (FromNat(latCode, 17)[0] || FromNat(lngCode, 17)[16]);
    FromNatToNat(m);
    BitOfFromNat(ToNat(m), 64, 16);
    BitOfFromNat(latCode, 17, 0);
    BitOfFromNat(lngCode, 17, 16);
  }

  /**
    * What `generate_position_message` puts where: type code 11 in bits 51-55, `nic & 0xF` in
    * 47-50, `alt & 0xFFF` in 35-46, zeros in 33-34, bits 1-16 of the latitude code in 17-32, the
    * low sixteen bits of the longitude code in 0-15, and in bit 16 the OR of the latitude code's
    * bit 0 and the longitude code's bit 16; nothing above bit 55.
    */
  lemma PositionFields(nic: U8, altitudeCode: U64, latCode: U64, lngCode: U64)
    ensures var p := PositionPayload(nic, altitudeCode, latCode, lngCode);
      && p < 0x100_0000_0000_0000
      && BitsOf(p, 51, 5) == 11
      && BitsOf(p, 47, 4) == BitsOf(nic, 0, 4)
      && BitsOf(p, 35, 12) == BitsOf(altitudeCode, 0, 12)
      && BitsOf(p, 33, 2) == 0
      && BitsOf(p, 17, 16) == BitsOf(latCode, 1, 16)
      && (BitsOf(p, 16, 1) == 1 <==> BitsOf(latCode, 0, 1) == 1 || BitsOf(lngCode, 16, 1) == 1)
      && BitsOf(p, 0, 16) == BitsOf(lngCode, 0, 16)
  {
    var m := PositionBits(nic, altitudeCode, latCode, lngCode);
    PositionBitsLayout(nic, altitudeCode, latCode, lngCode);
    PositionLayoutTypeCode(m, nic, altitudeCode, latCode, lngCode);
    PositionLayoutNic(m, nic, altitudeCode, latCode, lngCode);
    PositionLayoutAltitude(m, nic, altitudeCode, latCode, lngCode);
    PositionLayoutGap(m, nic, altitudeCode, latCode, lngCode);
    PositionLayoutLat(m, nic, altitudeCode, latCode, lngCode);
    PositionLayoutSharedBit(m, nic, altitudeCode, latCode, lngCode);
    PositionLayoutLng(m, nic, altitudeCode, latCode, lngCode);
  }

  /** Bits 47-55 of a value with type code 11, rebuilt from its NIC field. */
  lemma PositionRebuiltTypeNicBit(m: Bits, p: nat, nic: U8, altitudeCode: U64, latCode: U64, lngCode: U64, i: nat)
    requires PositionLayout(m, nic, altitudeCode, latCode, lngCode) && 47 <= i < 56
    requires BitsOf(p, 51, 5) == 11 && nic == BitsOf(p, 47, 4)
    ensures m[i] == FromNat(p, 64)[i]
  {
    if 51 <= i {
      FieldBitAt(p, 64, 51, 5, i);
    } else {
      FieldBitAt(p, 64, 47, 4, i);
    }
  }

  /** Bits 33-46 of a value with a clear gap, rebuilt from its altitude field. */
  lemma PositionRebuiltAltitudeGapBit(m: Bits, p: nat, nic: U8, altitudeCode: U64, latCode: U64, lngCode: U64, i: nat)
    requires PositionLayout(m, nic, altitudeCode, latCode, lngCode) && 33 <= i < 47
    requires BitsOf(p, 33, 2) == 0 && altitudeCode == BitsOf(p, 35, 12)
    ensures m[i] == FromNat(p, 64)[i]
  {
    if 35 <= i {
      FieldBitAt(p, 64, 35, 12, i);
    } else {
      FieldBitAt(p, 64, 33, 2, i);
      FromNatHigh(0, 2, 0);
    }
  }

  /** Bits 17-32, rebuilt from the latitude field at 16. */
  lemma PositionRebuiltLatitudeBit(m: Bits, p: nat, nic: U8, altitudeCode: U64, latCode: U64, lngCode: U64, i: nat)
    requires PositionLayout(m, nic, altitudeCode, latCode, lngCode) && 17 <= i < 33
    requires latCode == BitsOf(p, 16, 17)
    ensures m[i] == FromNat(p, 64)[i]
  {
    FieldBitAt(p, 64, 16, 17, i);
  }

  /** Bits 0-16, rebuilt from the 16-bit longitude field at 0 and the low latitude bit at 16. */
  lemma PositionRebuiltLongitudeBit(m: Bits, p: nat, nic: U8, altitudeCode: U64, latCode: U64, lngCode: U64, i: nat)
    requires PositionLayout(m, nic, altitudeCode, latCode, lngCode) && i <= 16
    requires latCode == BitsOf(p, 16, 17) && lngCode == BitsOf(p, 0, 16)
    ensures m[i] == FromNat(p, 64)[i]
  {
    WidenedAt(lngCode, 16, 17, i);
    if i == 16 {
      FieldBitAt(p, 64, 16, 17, i);
    } else {
      FieldBitAt(p, 64, 0, 16, i);
    }
  }

  /** Bit `i` of a 56-bit value with type code 11 and a clear gap, rebuilt from its fields. */
  lemma PositionRebuiltBit(m: Bits, p: nat, nic: U8, altitudeCode: U64, latCode: U64, lngCode: U64, i: nat)
    requires PositionLayout(m, nic, altitudeCode, latCode, lngCode) && i < 64
    requires p < Pow(2, 56) && BitsOf(p, 51, 5) == 11 && BitsOf(p, 33, 2) == 0
    requires nic == BitsOf(p, 47, 4) && altitudeCode == BitsOf(p, 35, 12)
    requires latCode == BitsOf(p, 16, 17) && lngCode == BitsOf(p, 0, 16)
    ensures m[i] == FromNat(p, 64)[i]
  {
    if 56 <= i {
      FromNatHigh(p, 64, 56);
    } else if 47 <= i {
      PositionRebuiltTypeNicBit(m, p, nic, altitudeCode, latCode, lngCode, i);
    } else if 33 <= i {
      PositionRebuiltAltitudeGapBit(m, p, nic, altitudeCode, latCode, lngCode, i);
    } else if 17 <= i {
      PositionRebuiltLatitudeBit(m, p, nic, altitudeCode, latCode, lngCode, i);
    } else {
      PositionRebuiltLongitudeBit(m, p, nic, altitudeCode, latCode, lngCode, i);
    }
  }

  /**
    * Every 56-bit value with type code 11 in bits 51-55 and zeros in 33-34 is the position payload
    * of its own fields; with `PositionFields`, these are exactly the position payloads.
    */
  lemma PositionRebuilt(p: nat, nic: U8, altitudeCode: U64, latCode: U64, lngCode: U64)
    requires p < 0x100_0000_0000_0000 && BitsOf(p, 51, 5) == 11 && BitsOf(p, 33, 2) == 0
    requires nic == BitsOf(p, 47, 4) && altitudeCode == BitsOf(p, 35, 12)
    requires latCode == BitsOf(p, 16, 17) && lngCode == BitsOf(p, 0, 16)
    ensures PositionPayload(nic, altitudeCode, latCode, lngCode) == p
  {
    var m := PositionBits(nic, altitudeCode, latCode, lngCode);
    PositionBitsLayout(nic, altitudeCode, latCode, lngCode);
    LargePowersOfTwo();
    forall i | 0 <= i < 64 ensures m[i] == FromNat(p, 64)[i] {
      PositionRebuiltBit(m, p, nic, altitudeCode, latCode, lngCode, i);
    }
    assert m == FromNat(p, 64);
    ReadField(p, 64);
  }

  /**
    * Two position payloads are equal exactly when the low four NIC bits, the low twelve altitude
    * bits, latitude bits 1-16 and longitude bits 0-15 agree and so does the OR of latitude bit 0
    * with longitude bit 16: that OR is all the payload keeps of those two bits.
    */
  lemma PositionPayloadsEqual(nic: U8, altitudeCode: U64, latCode: U64, lngCode: U64,
                              nic': U8, altitudeCode': U64, latCode': U64, lngCode': U64)
    ensures PositionPayload(nic, altitudeCode, latCode, lngCode) == PositionPayload(nic', altitudeCode', latCode', lngCode') <==>
      (&& BitsOf(nic, 0, 4) == BitsOf(nic', 0, 4)
       && BitsOf(altitudeCode, 0, 12) == BitsOf(altitudeCode', 0, 12)
       && BitsOf(latCode, 1, 16) == BitsOf(latCode', 1, 16)
       && BitsOf(lngCode, 0, 16) == BitsOf(lngCode', 0, 16)
       && (BitsOf(latCode, 0, 1) == 1 || BitsOf(lngCode, 16, 1) == 1) ==
          (BitsOf(latCode', 0, 1) == 1 || BitsOf(lngCode', 16, 1) == 1))
  {
    var p := PositionPayload(nic, altitudeCode, latCode, lngCode);
    var p' := PositionPayload(nic', altitudeCode', latCode', lngCode');
    PositionFields(nic, altitudeCode, latCode, lngCode);
    PositionFields(nic', altitudeCode', latCode', lngCode');
    if BitsOf(p, 47, 4) == BitsOf(p', 47, 4) && BitsOf(p, 35, 12) == BitsOf(p', 35, 12) &&
       BitsOf(p, 17, 16) == BitsOf(p', 17, 16) && BitsOf(p, 0, 16) == BitsOf(p', 0, 16) &&
       (BitsOf(p, 16, 1) == 1 <==> BitsOf(p', 16, 1) == 1)
    {
      PositionFieldsDetermine(p, p');
    }
  }

  /** When the longitude code's bit 16 is set, latitude codes that differ only in bit 0 give the same payload. */
  lemma SharedBitHidesLatitude(nic: U8, altitudeCode: U64, latCode: U64, latCode': U64, lngCode: U64)
    requires BitsOf(lngCode, 16, 1) == 1 && BitsOf(latCode, 1, 16) == BitsOf(latCode', 1, 16)
    ensures PositionPayload(nic, altitudeCode, latCode, lngCode) == PositionPayload(nic, altitudeCode, latCode', lngCode)
  {
    PositionPayloadsEqual(nic, altitudeCode, latCode, lngCode, nic, altitudeCode, latCode', lngCode);
  }

  /** Two position payloads whose fields agree are equal. */
  lemma PositionFieldsDetermine(p: nat, p': nat)
    requires p < 0x100_0000_0000_0000 && BitsOf(p, 51, 5) == 11 && BitsOf(p, 33, 2) == 0
    requires p' < 0x100_0000_0000_0000 && BitsOf(p', 51, 5) == 11 && BitsOf(p', 33, 2) == 0
    requires BitsOf(p, 47, 4) == BitsOf(p', 47, 4) && BitsOf(p, 35, 12) == BitsOf(p', 35, 12)
    requires BitsOf(p, 17, 16) == BitsOf(p', 17, 16) && BitsOf(p, 0, 16) == BitsOf(p', 0, 16)
    requires BitsOf(p, 16, 1) == 1 <==> BitsOf(p', 16, 1) == 1
    ensures p == p'
  {
    LatitudeFieldEqual(p, p');
    var nic, altitudeCode, latCode, lngCode := BitsOf(p, 47, 4), BitsOf(p, 35, 12), BitsOf(p, 16, 17), BitsOf(p, 0, 16);
    PositionRebuilt(p, nic, altitudeCode, latCode, lngCode);
    PositionRebuilt(p', nic, altitudeCode, latCode, lngCode);
  }

  /** Bits 16-32 of two values agree when bits 17-32 do and bit 16 is set in both or in neither. */
  lemma LatitudeFieldEqual(p: nat, p': nat)
    requires BitsOf(p, 17, 16) == BitsOf(p', 17, 16)
    requires BitsOf(p, 16, 1) == 1 <==> BitsOf(p', 16, 1) == 1
    ensures BitsOf(p, 16, 17) == BitsOf(p', 16, 17)
  {
    assert Pow(2, 1) == 2;
    FieldSplit(p, 16, 16);
    FieldSplit(p', 16, 16);
  }

  /**
    * The latitude and longitude fields cannot both be read back: latitude code 1 with longitude
    * code 0 and latitude code 0 with longitude code 0x10000 give the same payload.
    */
  lemma PositionCollision(nic: U8, altitudeCode: U64)
    ensures PositionPayload(nic, altitudeCode, 1, 0) == PositionPayload(nic, altitudeCode, 0, 0x1_0000)
  {
    assert BitsOf(1, 1, 16) == 0 == BitsOf(0, 1, 16) by { SmallPowersOfTwo(); }
    assert BitsOf(0, 0, 16) == 0 == BitsOf(0x1_0000, 0, 16) by { SmallPowersOfTwo(); }
    assert BitsOf(1, 0, 1) == 1 by { SmallPowersOfTwo(); }
    assert BitsOf(0x1_0000, 16, 1) == 1 by { SmallPowersOfTwo(); }
    PositionPayloadsEqual(nic, altitudeCode, 1, 0, nic, altitudeCode, 0, 0x1_0000);
  }

  // The velocity payload's fields, read off any 64 bits laid out as `VelocityBitAt` says.

  ghost predicate VelocityLayout(m: Bits, speedCode: U64, headingCode: U64) {
    |m| == 64 &&
    forall i :: 0 <= i < 64 ==>
      (m[i] ==
       (ShiftedBit(FromNat(19, 5), 51, i) || ShiftedBit(FromNat(1, 3), 48, i) ||
        ShiftedBit(FromNat(speedCode, 10), 30, i) || ShiftedBit(FromNat(headingCode, 7), 20, i)))
  }

  lemma VelocityBitsLayout(speedCode: U64, headingCode: U64)
    ensures VelocityLayout(VelocityBits(speedCode, headingCode), speedCode, headingCode)
  {
    forall i | 0 <= i < 64 {
      VelocityBitAt(speedCode, headingCode, i);
    }
  }

  lemma VelocityLayoutTypeCode(m: Bits, speedCode: U64, headingCode: U64)
    requires VelocityLayout(m, speedCode, headingCode)
    ensures BitsOf(ToNat(m), 51, 5) == 19
  {
    SmallPowersOfTwo();
    CopiedField(m, 51, 5, 19, 5, 0);
    LowField(19, 5);
  }

  lemma VelocityLayoutSubtype(m: Bits, speedCode: U64, headingCode: U64)
    requires VelocityLayout(m, speedCode, headingCode)
    ensures BitsOf(ToNat(m), 48, 3) == 1
  {
    SmallPowersOfTwo();
    CopiedField(m, 48, 3, 1, 3, 0);
    LowField(1, 3);
  }

  lemma VelocityLayoutSpeed(m: Bits, speedCode: U64, headingCode: U64)
    requires VelocityLayout(m, speedCode, headingCode)
    ensures BitsOf(ToNat(m), 30, 10) == BitsOf(speedCode, 0, 10)
  {
    CopiedField(m, 30, 10, speedCode, 10, 0);
  }

  lemma VelocityLayoutHeading(m: Bits, speedCode: U64, headingCode: U64)
    requires VelocityLayout(m, speedCode, headingCode)
    ensures BitsOf(ToNat(m), 20, 7) == BitsOf(headingCode, 0, 7)
  {
    CopiedField(m, 20, 7, headingCode, 7, 0);
  }

  lemma VelocityLayoutZeros(m: Bits, speedCode: U64, headingCode: U64)
    requires VelocityLayout(m, speedCode, headingCode)
    ensures BitsOf(ToNat(m), 40, 8) == 0 && BitsOf(ToNat(m), 27, 3) == 0 && BitsOf(ToNat(m), 0, 20) == 0
  {
    VelocityGap(m, speedCode, headingCode, 40, 8);
    VelocityGap(m, speedCode, headingCode, 27, 3);
    VelocityGap(m, speedCode, headingCode, 0, 20);
  }

  /** A run of bits that no field of the velocity payload covers reads as zero. */
  lemma VelocityGap(m: Bits, speedCode: U64, headingCode: U64, lo: nat, w: nat)
    requires VelocityLayout(m, speedCode, headingCode)
    requires lo + w <= 20 || (27 <= lo && lo + w <= 30) || (40 <= lo && lo + w <= 48)
    ensures BitsOf(ToNat(m), lo, w) == 0
  {
    forall j | lo <= j < lo + w
      ensures !m[j]
    {
      assert !ShiftedBit(FromNat(speedCode, 10), 30, j) && !ShiftedBit(FromNat(headingCode, 7), 20, j);
    }
    ZeroField(m, lo, w);
  }

  /**
    * What `generate_velocity_message` puts where: type code 19 in bits 51-55, subtype 1 in
    * 48-50, `speed & 0x3FF` in 30-39 and `heading & 0x7F` in 20-26; every other bit is zero.
    */
  lemma VelocityFields(speedCode: U64, headingCode: U64)
    ensures var p := VelocityPayload(speedCode, headingCode);
      && p < 0x100_0000_0000_0000
      && BitsOf(p, 51, 5) == 19
      && BitsOf(p, 48, 3) == 1
      && BitsOf(p, 40, 8) == 0
      && BitsOf(p, 30, 10) == BitsOf(speedCode, 0, 10)
      && BitsOf(p, 27, 3) == 0
      && BitsOf(p, 20, 7) == BitsOf(headingCode, 0, 7)
      && BitsOf(p, 0, 20) == 0
  {
    var m := VelocityBits(speedCode, headingCode);
    VelocityBitsLayout(speedCode, headingCode);
    VelocityLayoutTypeCode(m, speedCode, headingCode);
    VelocityLayoutSubtype(m, speedCode, headingCode);
    VelocityLayoutSpeed(m, speedCode, headingCode);
    VelocityLayoutHeading(m, speedCode, headingCode);
    VelocityLayoutZeros(m, speedCode, headingCode);
  }

  /** Bits 48-55 of a value with type code 19 and subtype 1. */
  lemma VelocityRebuiltTypeBit(m: Bits, p: nat, speedCode: U64, headingCode: U64, i: nat)
    requires VelocityLayout(m, speedCode, headingCode) && 48 <= i < 56
    requires BitsOf(p, 51, 5) == 19 && BitsOf(p, 48, 3) == 1
    ensures m[i] == FromNat(p, 64)[i]
  {
    if 51 <= i {
      FieldBitAt(p, 64, 51, 5, i);
    } else {
      FieldBitAt(p, 64, 48, 3, i);
    }
  }

  /** Bits 40-47 of a value with those bits clear. */
  lemma VelocityRebuiltSpareBit(m: Bits, p: nat, speedCode: U64, headingCode: U64, i: nat)
    requires VelocityLayout(m, speedCode, headingCode) && 40 <= i < 48
    requires BitsOf(p, 40, 8) == 0
    ensures m[i] == FromNat(p, 64)[i]
  {
    FieldBitAt(p, 64, 40, 8, i);
    FromNatHigh(0, 8, 0);
  }

  /** Bits 27-39 of a value with bits 27-29 clear, rebuilt from its speed field. */
  lemma VelocityRebuiltSpeedBit(m: Bits, p: nat, speedCode: U64, headingCode: U64, i: nat)
    requires VelocityLayout(m, speedCode, headingCode) && 27 <= i < 40
    requires BitsOf(p, 27, 3) == 0 && speedCode == BitsOf(p, 30, 10)
    ensures m[i] == FromNat(p, 64)[i]
  {
    if 30 <= i {
      FieldBitAt(p, 64, 30, 10, i);
    } else {
      FieldBitAt(p, 64, 27, 3, i);
      FromNatHigh(0, 3, 0);
    }
  }

  /** Bits 0-26 of a value with bits 0-19 clear, rebuilt from its heading field. */
  lemma VelocityRebuiltHeadingBit(m: Bits, p: nat, speedCode: U64, headingCode: U64, i: nat)
    requires VelocityLayout(m, speedCode, headingCode) && i < 27
    requires BitsOf(p, 0, 20) == 0 && headingCode == BitsOf(p, 20, 7)
    ensures m[i] == FromNat(p, 64)[i]
  {
    if 20 <= i {
      FieldBitAt(p, 64, 20, 7, i);
    } else {
      FieldBitAt(p, 64, 0, 20, i);
      FromNatHigh(0, 20, 0);
    }
  }

  lemma VelocityRebuiltBit(m: Bits, p: nat, speedCode: U64, headingCode: U64, i: nat)
    requires VelocityLayout(m, speedCode, headingCode) && i < 64
    requires p < Pow(2, 56) && BitsOf(p, 51, 5) == 19 && BitsOf(p, 48, 3) == 1
    requires BitsOf(p, 40, 8) == 0 && BitsOf(p, 27, 3) == 0 && BitsOf(p, 0, 20) == 0
    requires speedCode == BitsOf(p, 30, 10) && headingCode == BitsOf(p, 20, 7)
    ensures m[i] == FromNat(p, 64)[i]
  {
    if 56 <= i {
      FromNatHigh(p, 64, 56);
    } else if 48 <= i {
      VelocityRebuiltTypeBit(m, p, speedCode, headingCode, i);
    } else if 40 <= i {
      VelocityRebuiltSpareBit(m, p, speedCode, headingCode, i);
    } else if 27 <= i {
      VelocityRebuiltSpeedBit(m, p, speedCode, headingCode, i);
    } else {
      VelocityRebuiltHeadingBit(m, p, speedCode, headingCode, i);
    }
  }

  /**
    * Every 56-bit value with type code 19, subtype 1 and zeros outside the speed and heading
    * fields is the velocity payload of those fields; with `VelocityFields`, these are exactly
    * the velocity payloads.
    */
  lemma VelocityRebuilt(p: nat, speedCode: U64, headingCode: U64)
    requires p < 0x100_0000_0000_0000 && BitsOf(p, 51, 5) == 19 && BitsOf(p, 48, 3) == 1
    requires BitsOf(p, 40, 8) == 0 && BitsOf(p, 27, 3) == 0 && BitsOf(p, 0, 20) == 0
    requires speedCode == BitsOf(p, 30, 10) && headingCode == BitsOf(p, 20, 7)
    ensures VelocityPayload(speedCode, headingCode) == p
  {
    var m := VelocityBits(speedCode, headingCode);
    VelocityBitsLayout(speedCode, headingCode);
    LargePowersOfTwo();
    forall i | 0 <= i < 64 ensures m[i] == FromNat(p, 64)[i] {
      VelocityRebuiltBit(m, p, speedCode, headingCode, i);
    }
    assert m == FromNat(p, 64);
    ReadField(p, 64);
  }

  /** Two velocity payloads are equal exactly when the low ten speed bits and the low seven heading bits agree. */
  lemma VelocityPayloadsEqual(speedCode: U64, headingCode: U64, speedCode': U64, headingCode': U64)
    ensures VelocityPayload(speedCode, headingCode) == VelocityPayload(speedCode', headingCode') <==>
      BitsOf(speedCode, 0, 10) == BitsOf(speedCode', 0, 10) && BitsOf(headingCode, 0, 7) == BitsOf(headingCode', 0, 7)
  {
    var p := VelocityPayload(speedCode, headingCode);
    var p' := VelocityPayload(speedCode', headingCode');
    VelocityFields(speedCode, headingCode);
    VelocityFields(speedCode', headingCode');
    if BitsOf(p, 30, 10) == BitsOf(p', 30, 10) && BitsOf(p, 20, 7) == BitsOf(p', 20, 7) {
      VelocityFieldsDetermine(p, p');
    }
  }

  /** Two velocity payloads whose fields agree are equal. */
  lemma VelocityFieldsDetermine(p: nat, p': nat)
    requires p < 0x100_0000_0000_0000 && BitsOf(p, 51, 5) == 19 && BitsOf(p, 48, 3) == 1
    requires BitsOf(p, 40, 8) == 0 && BitsOf(p, 27, 3) == 0 && BitsOf(p, 0, 20) == 0
    requires p' < 0x100_0000_0000_0000 && BitsOf(p', 51, 5) == 19 && BitsOf(p', 48, 3) == 1
    requires BitsOf(p', 40, 8) == 0 && BitsOf(p', 27, 3) == 0 && BitsOf(p', 0, 20) == 0
    requires BitsOf(p, 30, 10) == BitsOf(p', 30, 10) && BitsOf(p, 20, 7) == BitsOf(p', 20, 7)
    ensures p == p'
  {
    var speedCode, headingCode := BitsOf(p, 30, 10), BitsOf(p, 20, 7);
    VelocityRebuilt(p, speedCode, headingCode);
    VelocityRebuilt(p', speedCode, headingCode);
  }
}
