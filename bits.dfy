/**
  * Fixed-width unsigned integers and the bit operations the frame synthesiser applies to its
  * `u64` and `u128` accumulators: widening or truncating casts (`as u64`, `as u128`), `<<`, `|`
  * and `&`. A value of width `w` is held as its `w` bits, least significant first, so that each
  * operation is stated bit by bit; `ToNat` and `FromNat` move between that view and numbers.
  */
module Bits {
  import opened Numerals

  /** Bit `i` weighs `2^i`; the length is the width of the integer type. */
  type Bits = seq<bool>

  type U8 = n: nat | n < 0x100
  type U32 = n: nat | n < 0x1_0000_0000
  type U64 = n: nat | n < 0x1_0000_0000_0000_0000

  /** The number a sequence of bits denotes. */
  function ToNat(b: Bits): (n: nat)
    ensures n < Pow(2, |b|)
  {
    if b == [] then 0 else (if b[0] then 1 else 0) + 2 * ToNat(b[1..])
  }

  /**
    * The `width` low bits of `n`: Rust's `n as uW`, which pads a narrower value with zeros and
    * keeps the low bits of a wider one.
    */
  function FromNat(n: nat, width: nat): (b: Bits)
    ensures |b| == width
    decreases width
  {
    if width == 0 then [] else [n % 2 == 1] + FromNat(n / 2, width - 1)
  }

  /** `(n >> lo) & (2^w - 1)`: the `w`-bit field of `n` that starts at bit `lo`. */
  function BitsOf(n: nat, lo: nat, w: nat): (r: nat)
    ensures r < Pow(2, w)
  {
    (n / Pow(2, lo)) % Pow(2, w)
  }

  function ZeroBits(width: nat): (b: Bits)
    ensures |b| == width && forall i :: 0 <= i < width ==> !b[i]
  {
    seq(width, _ => false)
  }

  /** Bit `i` of `b << k` in a type wide enough to hold it: bit `i - k` of `b`, clear outside. */
  predicate ShiftedBit(b: Bits, k: nat, i: nat) {
    k <= i < k + |b| && b[i - k]
  }

  /** `b << k` in the type of `b`: bits moved past the top are lost. */
  function Shl(b: Bits, k: nat): (r: Bits)
    requires k <= |b|
    ensures |r| == |b| && forall i :: 0 <= i < |b| ==> r[i] == ShiftedBit(b, k, i)
  {
    (ZeroBits(k) + b)[..|b|]
  }

  /** `a | b`. */
  function Or(a: Bits, b: Bits): (r: Bits)
    requires |a| == |b|
    ensures |r| == |a| && forall i :: 0 <= i < |a| ==> r[i] == (a[i] || b[i])
  {
    seq(|a|, i requires 0 <= i < |a| => a[i] || b[i])
  }

  /** `acc | (b << k)`: one step of ORing a shifted field into an accumulator. */
  function OrShl(acc: Bits, b: Bits, k: nat): (r: Bits)
    requires |acc| == |b| && k <= |b|
    ensures |r| == |acc| && forall i :: 0 <= i < |acc| ==> r[i] == (acc[i] || ShiftedBit(b, k, i))
  {
    Or(acc, Shl(b, k))
  }

  /** `a & b`. */
  function And(a: Bits, b: Bits): (r: Bits)
    requires |a| == |b|
    ensures |r| == |a| && forall i :: 0 <= i < |a| ==> r[i] == (a[i] && b[i])
  {
    seq(|a|, i requires 0 <= i < |a| => a[i] && b[i])
  }

  // Arithmetic facts about halving, used by the conversions below.

  lemma MulAtLeast(d: nat, x: int)
    ensures x >= 1 ==> d * x >= d
    ensures x <= -1 ==> d * x <= -(d as int)
  {
  }

  lemma DivModUnique(n: nat, d: nat, a: nat, e: nat)
    requires d > 0 && n == d * a + e && e < d
    ensures n / d == a && n % d == e
  {
    var q, r := n / d, n % d;
    assert d * (a - q) == r - e;
    MulAtLeast(d, a - q);
  }

  /** Dividing by `2p` is halving and then dividing by `p`. */
  lemma DivModDouble(n: nat, p: nat)
    requires p >= 1
    ensures n / (2 * p) == (n / 2) / p
    ensures n % (2 * p) == n % 2 + 2 * ((n / 2) % p)
  {
    var q, r := n / 2, n % 2;
    var a, c := q / p, q % p;
    assert q == p * a + c;
    assert n == (2 * p) * a + (2 * c + r);
    DivModUnique(n, 2 * p, a, 2 * c + r);
  }

  // How the bit view and the number view correspond.

  /** Converting to `width` bits and back keeps `n mod 2^width`. */
  lemma {:induction false} ToNatFromNat(n: nat, width: nat)
    ensures ToNat(FromNat(n, width)) == n % Pow(2, width)
    decreases width
  {
    if width > 0 {
      var b := FromNat(n, width);
      assert b[1..] == FromNat(n / 2, width - 1);
      ToNatFromNat(n / 2, width - 1);
      DivModDouble(n, Pow(2, width - 1));
    }
  }

  /** The bits of the number a bit sequence denotes are that sequence. */
  lemma {:induction false} FromNatToNat(b: Bits)
    ensures FromNat(ToNat(b), |b|) == b
    decreases |b|
  {
    if b != [] {
      FromNatToNat(b[1..]);
      var x := if b[0] then 1 else 0;
      assert (x + 2 * ToNat(b[1..])) / 2 == ToNat(b[1..]);
      assert FromNat(ToNat(b), |b|) == [b[0]] + FromNat(ToNat(b[1..]), |b| - 1);
    }
  }

  /** The low `k` of `width` bits of `n` are the `k`-bit value of `n`. */
  lemma {:induction false} FromNatPrefix(n: nat, width: nat, k: nat)
    requires k <= width
    ensures FromNat(n, width)[..k] == FromNat(n, k)
    decreases k
  {
    if k > 0 {
      FromNatPrefix(n / 2, width - 1, k - 1);
      assert FromNat(n, width)[..k] == [n % 2 == 1] + FromNat(n / 2, width - 1)[..k - 1];
    }
  }

  /** The field of bits `lo .. lo + w - 1` of a `width`-bit value, as a number, is `BitsOf(n, lo, w)`. */
  lemma {:induction false} FieldOfFromNat(n: nat, width: nat, lo: nat, w: nat)
    requires lo + w <= width
    ensures ToNat(FromNat(n, width)[lo..lo + w]) == BitsOf(n, lo, w)
    decreases lo
  {
    if lo == 0 {
      FromNatPrefix(n, width, w);
      assert FromNat(n, width)[0..w] == FromNat(n, width)[..w];
      ToNatFromNat(n, w);
    } else {
      assert FromNat(n, width)[lo..lo + w] == FromNat(n / 2, width - 1)[lo - 1..lo - 1 + w];
      FieldOfFromNat(n / 2, width - 1, lo - 1, w);
      FieldOfHalf(n, lo, w);
    }
  }

  /** The field at `lo` of `n` is the field at `lo - 1` of `n / 2`. */
  lemma FieldOfHalf(n: nat, lo: nat, w: nat)
    requires lo >= 1
    ensures BitsOf(n / 2, lo - 1, w) == BitsOf(n, lo, w)
  {
    DivModDouble(n, Pow(2, lo - 1));
  }

  /** The `w`-bit field of a value at `lo` is the slice of its bits there. */
  lemma FieldBits(v: nat, width: nat, lo: nat, w: nat)
    requires lo + w <= width
    ensures FromNat(BitsOf(v, lo, w), w) == FromNat(v, width)[lo..lo + w]
  {
    FieldOfFromNat(v, width, lo, w);
    FromNatToNat(FromNat(v, width)[lo..lo + w]);
  }

  /** Bit `i` of a value lies at `i - lo` in its field that starts at `lo`. */
  lemma FieldBitAt(v: nat, width: nat, lo: nat, w: nat, i: nat)
    requires lo <= i < lo + w <= width
    ensures FromNat(BitsOf(v, lo, w), w)[i - lo] == FromNat(v, width)[i]
  {
    FieldBits(v, width, lo, w);
    assert FromNat(v, width)[i] == FromNat(v, width)[lo..lo + w][i - lo];
  }

  /** The field of a bit sequence at `lo`, as a number, is the number its slice there denotes. */
  lemma FieldOfBits(m: Bits, lo: nat, w: nat)
    requires lo + w <= |m|
    ensures BitsOf(ToNat(m), lo, w) == ToNat(m[lo..lo + w])
  {
    FromNatToNat(m);
    FieldOfFromNat(ToNat(m), |m|, lo, w);
  }

  /** A value that fits in `w` bits reads back from them unchanged. */
  lemma ReadField(x: nat, w: nat)
    requires x < Pow(2, w)
    ensures ToNat(FromNat(x, w)) == x
  {
    ToNatFromNat(x, w);
    DivModUnique(x, Pow(2, w), 0, x);
  }

  /** Bit `j` of a value below `2^w`, widened to `width` bits: its own bit below `w`, clear above. */
  lemma WidenedAt(x: nat, w: nat, width: nat, j: nat)
    requires x < Pow(2, w) && w <= width && j < width
    ensures FromNat(x, width)[j] == (j < w && FromNat(x, w)[j])
  {
    if j < w {
      FromNatPrefix(x, width, w);
      assert FromNat(x, width)[j] == FromNat(x, width)[..w][j];
    } else {
      FromNatHigh(x, width, w);
    }
  }

  /** A field whose bits are those of `x` reads back as `x`. */
  lemma ReadBack(m: Bits, lo: nat, w: nat, x: nat)
    requires lo + w <= |m| && x < Pow(2, w) && m[lo..lo + w] == FromNat(x, w)
    ensures BitsOf(ToNat(m), lo, w) == x
  {
    FieldOfBits(m, lo, w);
    ReadField(x, w);
  }

  /** A field whose bits are copied from the field of `x` at `a` reads back as that field. */
  lemma CopiedField(m: Bits, lo: nat, w: nat, x: nat, width: nat, a: nat)
    requires lo + w <= |m| && a + w <= width
    requires forall j :: lo <= j < lo + w ==> m[j] == FromNat(x, width)[j - lo + a]
    ensures BitsOf(ToNat(m), lo, w) == BitsOf(x, a, w)
  {
    assert m[lo..lo + w] == FromNat(x, width)[a..a + w];
    FieldOfBits(m, lo, w);
    FieldOfFromNat(x, width, a, w);
  }

  /** The low `w` bits of a value below `2^w` are the value itself. */
  lemma LowField(x: nat, w: nat)
    requires x < Pow(2, w)
    ensures BitsOf(x, 0, w) == x
  {
    DivModUnique(x, Pow(2, w), 0, x);
  }

  /** Bits whose low `w` are those of `x` and whose others are clear denote `x & (2^w - 1)`. */
  lemma LowBitsValue(b: Bits, x: nat, w: nat)
    requires w <= |b| && b[..w] == FromNat(x, w)
    requires forall i :: w <= i < |b| ==> !b[i]
    ensures ToNat(b) == BitsOf(x, 0, w)
  {
    ToNatBelow(b, w);
    LowField(ToNat(b), w);
    FieldOfBits(b, 0, w);
    assert b[0..w] == FromNat(x, w)[0..w];
    FieldOfFromNat(x, w, 0, w);
  }

  /** `a & b` is no larger than either operand. */
  lemma {:induction false} ToNatAnd(a: Bits, b: Bits)
    requires |a| == |b|
    ensures ToNat(And(a, b)) <= ToNat(a) && ToNat(And(a, b)) <= ToNat(b)
    decreases |a|
  {
    if a != [] {
      assert And(a, b)[1..] == And(a[1..], b[1..]);
      ToNatAnd(a[1..], b[1..]);
    }
  }

  /** A field whose bits are all clear reads as zero. */
  lemma ZeroField(m: Bits, lo: nat, w: nat)
    requires lo + w <= |m| && forall j :: lo <= j < lo + w ==> !m[j]
    ensures BitsOf(ToNat(m), lo, w) == 0
  {
    FieldOfBits(m, lo, w);
    ToNatBelow(m[lo..lo + w], 0);
  }

  /** A field of `w + 1` bits is its low bit plus twice the `w` bits above it. */
  lemma FieldSplit(n: nat, lo: nat, w: nat)
    ensures BitsOf(n, lo, w + 1) == BitsOf(n, lo, 1) + 2 * BitsOf(n, lo + 1, w)
  {
    var q := n / Pow(2, lo);
    DivModDouble(q, Pow(2, w));
    DivModDouble(n, Pow(2, lo));
    assert Pow(2, lo + 1) == 2 * Pow(2, lo);
    assert Pow(2, w + 1) == 2 * Pow(2, w);
    assert BitsOf(n, lo, 1) == q % 2;
    DivModSwap(n, Pow(2, lo));
  }

  /** Halving after dividing by `p` is dividing by `p` after halving. */
  lemma DivModSwap(n: nat, p: nat)
    requires p >= 1
    ensures (n / p) / 2 == (n / 2) / p
  {
    var q, r := n / p, n % p;
    var a, c := q / 2, q % 2;
    assert n == (2 * p) * a + (p * c + r);
    assert p * c + r < 2 * p;
    DivModUnique(n, 2 * p, a, p * c + r);
    DivModDouble(n, p);
  }

  /** Shifting the `width`-bit value of `x` below `2^w` sets the same bits as shifting its `w` bits. */
  lemma ShiftedWidened(x: nat, w: nat, width: nat, k: nat, i: nat)
    requires x < Pow(2, w) && w <= width
    ensures ShiftedBit(FromNat(x, width), k, i) == ShiftedBit(FromNat(x, w), k, i)
  {
    if k <= i < k + width {
      WidenedAt(x, w, width, i - k);
    }
  }

  /** Masking with `2^w - 1` keeps the low `w` bits. */
  lemma MaskedBits(x: nat, mask: nat, w: nat, width: nat)
    requires mask + 1 == Pow(2, w) && w <= width
    ensures And(FromNat(x, width), FromNat(mask, width)) == FromNat(x, w) + ZeroBits(width - w)
  {
    LowMask(mask, w, width);
    FromNatPrefix(x, width, w);
    var r, l := And(FromNat(x, width), FromNat(mask, width)), FromNat(x, w) + ZeroBits(width - w);
    forall j | 0 <= j < width ensures r[j] == l[j] {
      if j < w {
        assert FromNat(x, width)[j] == FromNat(x, width)[..w][j];
      }
    }
  }

  /** A bit sequence padded with zeros at the top sets the same bits, shifted, as the sequence. */
  lemma ShiftedPadded(b: Bits, pad: nat, k: nat, i: nat)
    ensures ShiftedBit(b + ZeroBits(pad), k, i) == ShiftedBit(b, k, i)
  {
  }

  /** A value is below `2^k` exactly when all its bits from `k` up are clear. */
  lemma {:induction false} ToNatBelow(b: Bits, k: nat)
    requires k <= |b|
    ensures ToNat(b) < Pow(2, k) <==> forall i :: k <= i < |b| ==> !b[i]
    decreases |b|
  {
    if b != [] {
      var t := b[1..];
      if k == 0 {
        ToNatBelow(t, 0);
        assert (forall i :: 1 <= i < |b| ==> !b[i]) <==> (forall i :: 0 <= i < |t| ==> !t[i]) by {
          forall i | 0 <= i < |t| ensures t[i] == b[i + 1] { }
        }
      } else {
        ToNatBelow(t, k - 1);
        assert (forall i :: k <= i < |b| ==> !b[i]) <==> (forall i :: k - 1 <= i < |t| ==> !t[i]) by {
          forall i | k - 1 <= i < |t| ensures t[i] == b[i + 1] { }
        }
      }
    }
  }

  /** A number below `2^k` has no bit set from `k` up, in any width. */
  lemma FromNatHigh(n: nat, width: nat, k: nat)
    requires n < Pow(2, k)
    ensures forall i :: k <= i < width ==> !FromNat(n, width)[i]
  {
    if k < width {
      var b := FromNat(n, width);
      ToNatFromNat(n, width);
      PowMonotone(2, k, width);
      assert n % Pow(2, width) == n by { DivModUnique(n, Pow(2, width), 0, n); }
      ToNatBelow(b, k);
    }
  }

  /** Bit `i` of a value is set exactly when its one-bit field at `i` is 1. */
  lemma BitOfFromNat(n: nat, width: nat, i: nat)
    requires i < width
    ensures FromNat(n, width)[i] <==> BitsOf(n, i, 1) == 1
  {
    FieldOfFromNat(n, width, i, 1);
    assert FromNat(n, width)[i..i + 1] == [FromNat(n, width)[i]];
    assert ToNat([FromNat(n, width)[i]]) == if FromNat(n, width)[i] then 1 else 0 by {
      assert [FromNat(n, width)[i]][1..] == [];
    }
  }

  /** The `width`-bit value of `mask == 2^w - 1`: the low `w` bits set and the rest clear. */
  lemma {:induction false} LowMask(mask: nat, w: nat, width: nat)
    requires mask + 1 == Pow(2, w)
    ensures forall i :: 0 <= i < width ==> FromNat(mask, width)[i] == (i < w)
    decreases width
  {
    if width > 0 {
      var b := FromNat(mask, width);
      if w == 0 {
        FromNatHigh(0, width, 0);
      } else {
        var half := Pow(2, w - 1) - 1;
        assert mask == 2 * half + 1;
        LowMask(half, w - 1, width - 1);
        assert b[1..] == FromNat(half, width - 1);
        forall i | 1 <= i < width ensures b[i] == (i < w) {
          assert b[i] == b[1..][i - 1];
        }
      }
    }
  }

  lemma {:induction false} PowMonotone(radix: Radix, a: nat, b: nat)
    requires a <= b
    ensures Pow(radix, a) <= Pow(radix, b)
    decreases b
  {
    if a < b {
      PowMonotone(radix, a, b - 1);
    }
  }

  /** The small powers of two this model uses. */
  lemma SmallPowersOfTwo()
    ensures Pow(2, 1) == 2 && Pow(2, 3) == 8 && Pow(2, 4) == 0x10 && Pow(2, 5) == 0x20
    ensures Pow(2, 7) == 0x80 && Pow(2, 8) == 0x100 && Pow(2, 10) == 0x400
    ensures Pow(2, 12) == 0x1000 && Pow(2, 16) == 0x1_0000 && Pow(2, 17) == 0x2_0000
  {
    assert Pow(2, 1) == 2 && Pow(2, 2) == 4 && Pow(2, 3) == 8 && Pow(2, 4) == 0x10;
    assert Pow(2, 5) == 0x20 && Pow(2, 6) == 0x40 && Pow(2, 7) == 0x80 && Pow(2, 8) == 0x100;
    assert Pow(2, 9) == 0x200 && Pow(2, 10) == 0x400 && Pow(2, 11) == 0x800 && Pow(2, 12) == 0x1000;
    PowAdd(2, 8, 8);
    assert Pow(2, 17) == 2 * Pow(2, 16);
  }

  /** The large powers of two this model uses: field limits and frame widths. */
  lemma LargePowersOfTwo()
    ensures Pow(2, 24) == 0x100_0000 && Pow(2, 32) == 0x1_0000_0000
    ensures Pow(2, 56) == 0x100_0000_0000_0000 && Pow(2, 64) == 0x1_0000_0000_0000_0000
    ensures Pow(2, 112) == 0x1_0000_0000_0000_0000_0000_0000_0000
    ensures Pow(2, 115) == 0x8_0000_0000_0000_0000_0000_0000_0000
    ensures Pow(2, 116) == 0x10_0000_0000_0000_0000_0000_0000_0000
    ensures Pow(2, 128) == 0x1_0000_0000_0000_0000_0000_0000_0000_0000
  {
    WordPowersOfTwo();
    WidePowersOfTwo();
  }

  lemma WordPowersOfTwo()
    ensures Pow(2, 24) == 0x100_0000 && Pow(2, 32) == 0x1_0000_0000
    ensures Pow(2, 56) == 0x100_0000_0000_0000 && Pow(2, 64) == 0x1_0000_0000_0000_0000
  {
    SmallPowersOfTwo();
    assert Pow(2, 24) == 0x100_0000 by { PowAdd(2, 16, 8); }
    assert Pow(2, 32) == 0x1_0000_0000 by { PowAdd(2, 16, 16); }
    assert Pow(2, 56) == 0x100_0000_0000_0000 by { PowAdd(2, 32, 24); }
    assert Pow(2, 64) == 0x1_0000_0000_0000_0000 by { PowAdd(2, 32, 32); }
  }

  lemma WidePowersOfTwo()
    ensures Pow(2, 112) == 0x1_0000_0000_0000_0000_0000_0000_0000
    ensures Pow(2, 115) == 0x8_0000_0000_0000_0000_0000_0000_0000
    ensures Pow(2, 116) == 0x10_0000_0000_0000_0000_0000_0000_0000
    ensures Pow(2, 128) == 0x1_0000_0000_0000_0000_0000_0000_0000_0000
  {
    assert Pow(2, 112) == 0x1_0000_0000_0000_0000_0000_0000_0000 by {
      WordPowersOfTwo();
      SmallPowersOfTwo();
      PowAdd(2, 64, 32);
      PowAdd(2, 96, 16);
    }
    SmallPowersOfTwo();
    PowAdd(2, 112, 3);
    PowAdd(2, 112, 4);
    PowAdd(2, 112, 16);
  }

  /** A hexadecimal digit is four bits. */
  lemma {:induction false} HexDigitsAreNibbles(n: nat)
    ensures Pow(16, n) == Pow(2, 4 * n)
  {
    if n > 0 {
      HexDigitsAreNibbles(n - 1);
      SmallPowersOfTwo();
      PowAdd(2, 4, 4 * (n - 1));
    }
  }
}
