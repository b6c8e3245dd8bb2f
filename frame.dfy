/**
  * `assemble_message`: the 112-bit extended squitter laid out as DF (5 bits), CA (3), ICAO
  * address (24), ME payload (56) and a parity field (24), built by ORing each argument, widened
  * to `u128`, in at its shift, and printed with `{:028X}`. The parity field is the constant
  * 0xA5A5A5, not a CRC. The arguments keep their Rust widths (`u8`, `u8`, `u32`, `u64`), so
  * nothing stops a caller from passing values wider than their fields; the contracts say what
  * happens then.
  */
module Frame {
  import opened Wrappers
  import opened Numerals
  import opened Bits

  /** The stand-in parity field ORed into the low 24 bits of every frame. */
  const Parity: nat := 0xA5A5A5

  /** The five fields of a 112-bit frame, each read from its own bit range. */
  datatype Fields = Fields(df: nat, ca: nat, icao: nat, payload: nat, parity: nat)

  /** The `u128` accumulator of `assemble_message`, one OR at a time. */
  function FrameBits(df: U8, ca: U8, icao: U32, payload: U64): (m: Bits)
    ensures |m| == 128
  {
    var m := ZeroBits(128);
    var m := OrShl(m, FromNat(df, 128), 107);
    var m := OrShl(m, FromNat(ca, 128), 104);
    var m := OrShl(m, FromNat(icao, 128), 80);
    var m := OrShl(m, FromNat(payload, 128), 24);
    Or(m, FromNat(Parity, 128))
  }

  /** The frame as a number: the value `{:028X}` prints. */
  function FrameValue(df: U8, ca: U8, icao: U32, payload: U64): (v: nat)
    ensures v < Pow(2, 128)
  {
    ToNat(FrameBits(df, ca, icao, payload))
  }

  /**
    * `assemble_message(df, ca, icao, payload)`. The text is at least 28 upper-case hexadecimal
    * digits, and exactly 28 unless DF is 32 or more, which pushes the frame past 112 bits and
    * adds a 29th digit; reading it back yields the fields of the frame that was built.
    */
  function AssembleMessage(df: U8, ca: U8, icao: U32, payload: U64): (s: string)
    ensures 28 <= |s| <= 29
    ensures |s| == 28 <==> df < 32
    ensures forall i :: 0 <= i < |s| ==> IsUpperHexDigit(s[i])
    ensures ReadFrame(s) == Some(Unpack(FrameValue(df, ca, icao, payload)))
  {
    var v := FrameValue(df, ca, icao, payload);
    FrameLength(df, ca, icao, payload);
    FromStrRadixOfFormat(v, 16, 28, Pow(2, 128));
    Format(v, 16, 28)
  }

  /** Splits a frame value into its fields: bits 107-111, 104-106, 80-103, 24-79 and 0-23. */
  function Unpack(v: nat): (f: Fields)
    ensures f.df < 32 && f.ca < 8 && f.icao < 0x100_0000 && f.payload < 0x100_0000_0000_0000
    ensures f.parity < 0x100_0000
  {
    SmallPowersOfTwo();
    LargePowersOfTwo();
    Fields(BitsOf(v, 107, 5), BitsOf(v, 104, 3), BitsOf(v, 80, 24), BitsOf(v, 24, 56), BitsOf(v, 0, 24))
  }

  /**
    * Reads a frame back from its hexadecimal text the way a receiver would: as a `u128`, then
    * field by field; `None` when the text is not a `u128` in hexadecimal.
    */
  function ReadFrame(s: string): (r: Option<Fields>)
    ensures s == [] ==> r == None
  {
    match FromStrRadix(s, 16, Pow(2, 128))
    case Some(v) => Some(Unpack(v))
    case None => None
  }

  /** The bits of a frame whose fields fit: parity, payload, ICAO, CA and DF, then zeros. */
  function Layout(df: nat, ca: nat, icao: nat, payload: nat, parity: nat): (b: Bits)
    ensures |b| == 128
  {
    FromNat(parity, 24) + FromNat(payload, 56) + FromNat(icao, 24) + FromNat(ca, 3) + FromNat(df, 5)
      + ZeroBits(16)
  }

  /** Bit `i` of the accumulator: the ORed-in bit of each shifted argument and of the parity. */
  lemma FrameBitAt(df: U8, ca: U8, icao: U32, payload: U64, i: nat)
    requires i < 128
    ensures FrameBits(df, ca, icao, payload)[i] ==
      (ShiftedBit(FromNat(df, 128), 107, i) || ShiftedBit(FromNat(ca, 128), 104, i) ||
       ShiftedBit(FromNat(icao, 128), 80, i) || ShiftedBit(FromNat(payload, 128), 24, i) ||
       FromNat(Parity, 128)[i])
  {
  }

  /** The accumulator bit by bit, for any bit sequence `m`: `FrameBitAt` for all bits at once. */
  ghost predicate Accumulated(m: Bits, df: nat, ca: nat, icao: nat, payload: nat) {
    |m| == 128 &&
    forall i :: 0 <= i < 128 ==>
      (m[i] ==
       (ShiftedBit(FromNat(df, 128), 107, i) || ShiftedBit(FromNat(ca, 128), 104, i) ||
        ShiftedBit(FromNat(icao, 128), 80, i) || ShiftedBit(FromNat(payload, 128), 24, i) ||
        FromNat(Parity, 128)[i]))
  }

  lemma FrameBitsAccumulated(df: U8, ca: U8, icao: U32, payload: U64)
    ensures Accumulated(FrameBits(df, ca, icao, payload), df, ca, icao, payload)
  {
    forall i | 0 <= i < 128 {
      FrameBitAt(df, ca, icao, payload, i);
    }
  }

  /** Bit `i` of the layout: the bit of the field whose range holds `i`. */
  lemma LayoutAt(df: nat, ca: nat, icao: nat, payload: nat, parity: nat, i: nat)
    requires i < 128
    ensures Layout(df, ca, icao, payload, parity)[i] ==
      if i < 24 then FromNat(parity, 24)[i]
      else if i < 80 then FromNat(payload, 56)[i - 24]
      else if i < 104 then FromNat(icao, 24)[i - 80]
      else if i < 107 then FromNat(ca, 3)[i - 104]
      else if i < 112 then FromNat(df, 5)[i - 107]
      else false
  {
  }

  /** One bit of `FrameLayout`. */
  lemma LayoutBit(m: Bits, df: nat, ca: nat, icao: nat, payload: nat, i: nat)
    requires Accumulated(m, df, ca, icao, payload)
    requires df < 32 && ca < 8 && icao < 0x100_0000 && payload < 0x100_0000_0000_0000
    requires i < 128
    ensures m[i] == Layout(df, ca, icao, payload, Parity)[i]
  {
    SmallPowersOfTwo();
    WordPowersOfTwo();
    LayoutAt(df, ca, icao, payload, Parity, i);
    ShiftedWidened(df, 5, 128, 107, i);
    ShiftedWidened(ca, 3, 128, 104, i);
    ShiftedWidened(icao, 24, 128, 80, i);
    ShiftedWidened(payload, 56, 128, 24, i);
    WidenedAt(Parity, 24, 128, i);
  }

  /** When every field fits, the frame is the fields side by side. */
  lemma FrameLayout(df: U8, ca: U8, icao: U32, payload: U64)
    requires df < 32 && ca < 8 && icao < 0x100_0000 && payload < 0x100_0000_0000_0000
    ensures FrameBits(df, ca, icao, payload) == Layout(df, ca, icao, payload, Parity)
  {
    var m := FrameBits(df, ca, icao, payload);
    FrameBitsAccumulated(df, ca, icao, payload);
    forall i | 0 <= i < 128 ensures m[i] == Layout(df, ca, icao, payload, Parity)[i] {
      LayoutBit(m, df, ca, icao, payload, i);
    }
  }

  /** Bit `i`, from 112 up, of a frame: set only by DF. */
  lemma TopBit(df: U8, ca: U8, icao: U32, payload: U64, i: nat)
    requires 112 <= i < 128
    ensures FrameBits(df, ca, icao, payload)[i] == FromNat(df, 128)[i - 107]
  {
    SmallPowersOfTwo();
    WordPowersOfTwo();
    FrameBitAt(df, ca, icao, payload, i);
    ShiftedWidened(ca, 8, 128, 104, i);
    ShiftedWidened(icao, 32, 128, 80, i);
    ShiftedWidened(payload, 64, 128, 24, i);
    WidenedAt(Parity, 24, 128, i);
  }

  /** The top of a frame: nothing from bit 115 up, and nothing from bit 112 up when DF fits. */
  lemma FrameTop(df: U8, ca: U8, icao: U32, payload: U64)
    ensures var m := FrameBits(df, ca, icao, payload);
      (forall i :: 112 <= i < 128 ==> !m[i]) <==> df < 32
    ensures var m := FrameBits(df, ca, icao, payload);
      forall i :: 115 <= i < 128 ==> !m[i]
  {
    var m := FrameBits(df, ca, icao, payload);
    var d := FromNat(df, 128);
    DfBits(df);
    forall i | 115 <= i < 128 ensures !m[i] {
      TopBit(df, ca, icao, payload, i);
    }
    if df < 32 {
      forall i | 112 <= i < 128 ensures !m[i] {
        TopBit(df, ca, icao, payload, i);
      }
    } else {
      var j :| 5 <= j < 21 && d[j];
      TopBit(df, ca, icao, payload, 107 + j);
    }
  }

  /** DF is below 32 exactly when its bits from 5 up are clear; none is set from 8 up. */
  lemma DfBits(df: U8)
    ensures (forall j :: 5 <= j < 21 ==> !FromNat(df, 128)[j]) <==> df < 32
    ensures forall j :: 8 <= j < 128 ==> !FromNat(df, 128)[j]
  {
    SmallPowersOfTwo();
    WordPowersOfTwo();
    FromNatHigh(df, 128, 8);
    PowMonotone(2, 8, 128);
    ReadField(df, 128);
    ToNatBelow(FromNat(df, 128), 5);
  }

  /** A frame fits in 28 hexadecimal digits exactly when DF fits, and always fits in 29. */
  lemma FrameMagnitude(df: U8, ca: U8, icao: U32, payload: U64)
    ensures FrameValue(df, ca, icao, payload) < Pow(16, 28) <==> df < 32
    ensures FrameValue(df, ca, icao, payload) < Pow(16, 29)
  {
    FrameTop(df, ca, icao, payload);
    DigitsOfBits(FrameBits(df, ca, icao, payload));
  }

  /** 128 bits fit in 28 hexadecimal digits when the top 16 are clear, and in 29 when the top 13 are. */
  lemma DigitsOfBits(m: Bits)
    requires |m| == 128
    ensures ToNat(m) < Pow(16, 28) <==> forall i :: 112 <= i < 128 ==> !m[i]
    ensures (forall i :: 115 <= i < 128 ==> !m[i]) ==> ToNat(m) < Pow(16, 29)
  {
    assert Pow(16, 28) == Pow(2, 112) by { HexDigitsAreNibbles(28); }
    assert Pow(16, 29) == Pow(2, 116) by { HexDigitsAreNibbles(29); }
    assert Pow(2, 115) <= Pow(2, 116) by { PowMonotone(2, 115, 116); }
    ToNatBelow(m, 112);
    ToNatBelow(m, 115);
  }

  /** How long the text of a frame is. */
  lemma FrameLength(df: U8, ca: U8, icao: U32, payload: U64)
    ensures var s := Format(FrameValue(df, ca, icao, payload), 16, 28);
      28 <= |s| <= 29 && (|s| == 28 <==> df < 32)
  {
    var v := FrameValue(df, ca, icao, payload);
    FrameMagnitude(df, ca, icao, payload);
    FormatWidth(v, 16, 28);
    ToDigitsFit(v, 16, 29);
  }

  /** The fields of a layout sit at their bit ranges. */
  lemma LayoutFields(df: nat, ca: nat, icao: nat, payload: nat, parity: nat)
    ensures var l := Layout(df, ca, icao, payload, parity);
      l[107..112] == FromNat(df, 5) && l[104..107] == FromNat(ca, 3) && l[80..104] == FromNat(icao, 24)
      && l[24..80] == FromNat(payload, 56) && l[..24] == FromNat(parity, 24)
  {
    var l := Layout(df, ca, icao, payload, parity);
    forall i | 0 <= i < 5 ensures l[107 + i] == FromNat(df, 5)[i] {
      LayoutAt(df, ca, icao, payload, parity, 107 + i);
    }
    forall i | 0 <= i < 3 ensures l[104 + i] == FromNat(ca, 3)[i] {
      LayoutAt(df, ca, icao, payload, parity, 104 + i);
    }
    forall i | 0 <= i < 24 ensures l[80 + i] == FromNat(icao, 24)[i] {
      LayoutAt(df, ca, icao, payload, parity, 80 + i);
    }
    forall i | 0 <= i < 56 ensures l[24 + i] == FromNat(payload, 56)[i] {
      LayoutAt(df, ca, icao, payload, parity, 24 + i);
    }
    forall i | 0 <= i < 24 ensures l[i] == FromNat(parity, 24)[i] {
      LayoutAt(df, ca, icao, payload, parity, i);
    }
  }

  /**
    * Every field lands in its own place and reads back unchanged exactly when it fits: DF below
    * 32, CA below 8, the ICAO address below `2^24` and the payload below `2^56`. Otherwise the
    * upper bits of one field overwrite the next one up, or lengthen the frame.
    */
  lemma AssembleRoundTrip(df: U8, ca: U8, icao: U32, payload: U64)
    ensures ReadFrame(AssembleMessage(df, ca, icao, payload)) == Some(Fields(df, ca, icao, payload, Parity))
      <==> df < 32 && ca < 8 && icao < 0x100_0000 && payload < 0x100_0000_0000_0000
  {
    if df < 32 && ca < 8 && icao < 0x100_0000 && payload < 0x100_0000_0000_0000 {
      var m := FrameBits(df, ca, icao, payload);
      FrameLayout(df, ca, icao, payload);
      LayoutFields(df, ca, icao, payload, Parity);
      SmallPowersOfTwo();
      WordPowersOfTwo();
      ReadBack(m, 107, 5, df);
      ReadBack(m, 104, 3, ca);
      ReadBack(m, 80, 24, icao);
      ReadBack(m, 24, 56, payload);
      ReadBack(m, 0, 24, Parity);
    }
  }

  /**
    * What survives whatever the inputs: the parity field reads back as 0xA5A5A5, the payload
    * field as the low 56 bits of the payload and, when the payload fits, the ICAO field as the
    * low 24 bits of the address.
    */
  lemma LowFieldsKept(df: U8, ca: U8, icao: U32, payload: U64)
    ensures var f := ReadFrame(AssembleMessage(df, ca, icao, payload)).value;
      && f.parity == Parity
      && f.payload == BitsOf(payload, 0, 56)
      && (payload < 0x100_0000_0000_0000 ==> f.icao == BitsOf(icao, 0, 24))
  {
    ParityKept(df, ca, icao, payload);
    PayloadKept(df, ca, icao, payload);
    if payload < 0x100_0000_0000_0000 {
      IcaoKept(df, ca, icao, payload);
    }
  }

  lemma ParityKept(df: U8, ca: U8, icao: U32, payload: U64)
    ensures BitsOf(FrameValue(df, ca, icao, payload), 0, 24) == Parity
  {
    FrameBitsAccumulated(df, ca, icao, payload);
    ParityField(FrameBits(df, ca, icao, payload), df, ca, icao, payload);
  }

  lemma PayloadKept(df: U8, ca: U8, icao: U32, payload: U64)
    ensures BitsOf(FrameValue(df, ca, icao, payload), 24, 56) == BitsOf(payload, 0, 56)
  {
    FrameBitsAccumulated(df, ca, icao, payload);
    PayloadField(FrameBits(df, ca, icao, payload), df, ca, icao, payload);
  }

  lemma IcaoKept(df: U8, ca: U8, icao: U32, payload: U64)
    requires payload < 0x100_0000_0000_0000
    ensures BitsOf(FrameValue(df, ca, icao, payload), 80, 24) == BitsOf(icao, 0, 24)
  {
    FrameBitsAccumulated(df, ca, icao, payload);
    IcaoField(FrameBits(df, ca, icao, payload), df, ca, icao, payload);
  }

  /** Bits 0-23 of an accumulator are the parity field's. */
  lemma ParityField(m: Bits, df: nat, ca: nat, icao: nat, payload: nat)
    requires Accumulated(m, df, ca, icao, payload)
    ensures BitsOf(ToNat(m), 0, 24) == Parity
  {
    forall i | 0 <= i < 24 ensures m[i] == FromNat(Parity, 128)[i] {
      assert !ShiftedBit(FromNat(payload, 128), 24, i);
    }
    CopiedField(m, 0, 24, Parity, 128, 0);
    SmallPowersOfTwo();
    WordPowersOfTwo();
    LowField(Parity, 24);
  }

  /** Bits 24-79 of an accumulator come from the payload alone. */
  lemma PayloadField(m: Bits, df: nat, ca: nat, icao: nat, payload: nat)
    requires Accumulated(m, df, ca, icao, payload)
    ensures BitsOf(ToNat(m), 24, 56) == BitsOf(payload, 0, 56)
  {
    forall i | 24 <= i < 80 ensures m[i] == FromNat(payload, 128)[i - 24] {
      PayloadBitKept(m, df, ca, icao, payload, i);
    }
    CopiedField(m, 24, 56, payload, 128, 0);
  }

  /** Bits 80-103 of an accumulator whose payload fits come from the ICAO address alone. */
  lemma IcaoField(m: Bits, df: nat, ca: nat, icao: nat, payload: nat)
    requires Accumulated(m, df, ca, icao, payload) && payload < 0x100_0000_0000_0000
    ensures BitsOf(ToNat(m), 80, 24) == BitsOf(icao, 0, 24)
  {
    SmallPowersOfTwo();
    WordPowersOfTwo();
    forall i | 80 <= i < 104 ensures m[i] == FromNat(icao, 128)[i - 80] {
      IcaoBitKept(m, df, ca, icao, payload, i);
    }
    CopiedField(m, 80, 24, icao, 128, 0);
  }

  lemma PayloadBitKept(m: Bits, df: nat, ca: nat, icao: nat, payload: nat, i: nat)
    requires Accumulated(m, df, ca, icao, payload) && 24 <= i < 80
    ensures m[i] == FromNat(payload, 128)[i - 24]
  {
    SmallPowersOfTwo();
    WordPowersOfTwo();
    WidenedAt(Parity, 24, 128, i);
  }

  lemma IcaoBitKept(m: Bits, df: nat, ca: nat, icao: nat, payload: nat, i: nat)
    requires Accumulated(m, df, ca, icao, payload) && payload < Pow(2, 56) && 80 <= i < 104
    ensures m[i] == FromNat(icao, 128)[i - 80]
  {
    ShiftedWidened(payload, 56, 128, 24, i);
    SmallPowersOfTwo();
    WordPowersOfTwo();
    WidenedAt(Parity, 24, 128, i);
  }

  /** One bit of `FrameOfFields`. */
  lemma FieldsBit(v: nat, i: nat)
    requires v < Pow(2, 112) && BitsOf(v, 0, 24) == Parity && i < 128
    ensures var f := Unpack(v);
      Layout(f.df, f.ca, f.icao, f.payload, Parity)[i] == FromNat(v, 128)[i]
  {
    var f := Unpack(v);
    LayoutAt(f.df, f.ca, f.icao, f.payload, Parity, i);
    if i < 24 {
      FieldBitAt(v, 128, 0, 24, i);
    } else if i < 80 {
      FieldBitAt(v, 128, 24, 56, i);
    } else if i < 104 {
      FieldBitAt(v, 128, 80, 24, i);
    } else if i < 107 {
      FieldBitAt(v, 128, 104, 3, i);
    } else if i < 112 {
      FieldBitAt(v, 128, 107, 5, i);
    } else {
      FromNatHigh(v, 128, 112);
    }
  }

  /**
    * Conversely, every 112-bit frame that carries the parity field is the one `assemble_message`
    * builds from its own fields: the layout wastes no bit pattern.
    */
  lemma FrameOfFields(v: nat)
    requires v < Pow(2, 112) && BitsOf(v, 0, 24) == Parity
    ensures var f := Unpack(v); FrameValue(f.df, f.ca, f.icao, f.payload) == v
  {
    var f := Unpack(v);
    FrameLayout(f.df, f.ca, f.icao, f.payload);
    FieldsLayout(v);
    PowMonotone(2, 112, 128);
    ReadField(v, 128);
  }

  /** The layout of the fields of a 112-bit frame that carries the parity field is its bits. */
  lemma FieldsLayout(v: nat)
    requires v < Pow(2, 112) && BitsOf(v, 0, 24) == Parity
    ensures var f := Unpack(v); Layout(f.df, f.ca, f.icao, f.payload, Parity) == FromNat(v, 128)
  {
    var f := Unpack(v);
    forall i | 0 <= i < 128 ensures Layout(f.df, f.ca, f.icao, f.payload, Parity)[i] == FromNat(v, 128)[i] {
      FieldsBit(v, i);
    }
  }
}
