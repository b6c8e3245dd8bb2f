/**
  * Unsigned integers as digit strings: rendering as Rust's `format!` does with `{}` (decimal),
  * `{:X}` and `{:0wX}` (upper-case hexadecimal, zero-padded to at least `w` digits), and
  * parsing back as the unsigned `from_str_radix` does.
  */
module Numerals {
  import opened Wrappers

  /** The radixes used here: decimal for call signs, sixteen for addresses and frames. */
  type Radix = r: nat | 2 <= r <= 16 witness 10

  function Pow(radix: Radix, n: nat): (r: nat)
    ensures r >= 1
  {
    if n == 0 then 1 else radix * Pow(radix, n - 1)
  }

  /** The character Rust prints for digit `d`: `0`-`9`, then upper-case `A`-`F`. */
  function DigitChar(d: nat): (c: char)
    requires d < 16
    ensures IsUpperHexDigit(c)
    ensures forall radix: Radix :: d < radix ==> DigitValue(c, radix) == Some(d)
  {
    if d < 10 then ('0' as int + d) as char else ('A' as int + d - 10) as char
  }

  predicate IsUpperHexDigit(c: char) {
    '0' <= c <= '9' || 'A' <= c <= 'F'
  }

  /** `char::to_digit(radix)`: `0`-`9`, then letters of either case, below the radix. */
  function DigitValue(c: char, radix: Radix): (r: Option<nat>)
    ensures r.Some? ==> r.value < radix
  {
    var v := if '0' <= c <= '9' then c as int - '0' as int
             else if 'a' <= c <= 'z' then c as int - 'a' as int + 10
             else if 'A' <= c <= 'Z' then c as int - 'A' as int + 10
             else 36;
    if v < radix then Some(v) else None
  }

  /** The digits of `n` without leading zeros (a single `0` for zero), as `{}` and `{:X}` print them. */
  function ToDigits(n: nat, radix: Radix): (s: string)
    ensures |s| >= 1
    ensures forall i :: 0 <= i < |s| ==> DigitValue(s[i], radix).Some?
    ensures radix == 16 ==> forall i :: 0 <= i < |s| ==> IsUpperHexDigit(s[i])
    decreases n
  {
    if n < radix then [DigitChar(n)]
    else
      var high, low := ToDigits(n / radix, radix), DigitChar(n % radix);
      assert DigitValue(low, radix).Some?;
      high + [low]
  }

  function Zeros(k: nat): (s: string)
    ensures |s| == k && forall i :: 0 <= i < k ==> s[i] == '0'
  {
    seq(k, _ => '0')
  }

  /** `{:0wX}` for radix 16: the digits of `n`, left-padded with zeros to at least `width` characters. */
  function Format(n: nat, radix: Radix, width: nat): (s: string)
    ensures |s| == if |ToDigits(n, radix)| >= width then |ToDigits(n, radix)| else width
    ensures forall i :: 0 <= i < |s| ==> DigitValue(s[i], radix).Some?
    ensures radix == 16 ==> forall i :: 0 <= i < |s| ==> IsUpperHexDigit(s[i])
  {
    var digits := ToDigits(n, radix);
    if |digits| >= width then digits else Zeros(width - |digits|) + digits
  }

  /** The number a string of digits denotes; `None` when some character is not a digit. */
  function Value(s: string, radix: Radix): (r: Option<nat>)
    decreases |s|
  {
    if s == [] then Some(0)
    else match (Value(s[..|s| - 1], radix), DigitValue(s[|s| - 1], radix))
      case (Some(v), Some(d)) => Some(v * radix + d)
      case _ => None
  }

  /**
    * The unsigned `from_str_radix`: the empty string, a lone sign, a non-digit (a `-` included,
    * the type being unsigned) and a value of `limit` or more (overflow of the target type) are
    * errors; one leading `+` is allowed.
    */
  function FromStrRadix(s: string, radix: Radix, limit: nat): (r: Option<nat>)
    ensures r.Some? ==> r.value < limit
    ensures s == [] ==> r == None
  {
    if s == [] || s == "+" || s == "-" then None
    else
      var digits := if s[0] == '+' then s[1..] else s;
      match Value(digits, radix)
      case Some(v) => if v < limit then Some(v) else None
      case None => None
  }

  lemma {:induction false} ValueAppend(a: string, b: string, radix: Radix)
    ensures Value(a + b, radix) ==
      if Value(a, radix).Some? && Value(b, radix).Some?
      then Some(Value(a, radix).value * Pow(radix, |b|) + Value(b, radix).value)
      else None
    decreases |b|
  {
    if b == [] {
      assert a + b == a;
    } else {
      var b' := b[..|b| - 1];
      var c := b[|b| - 1];
      assert (a + b)[..|a + b| - 1] == a + b';
      assert (a + b)[|a + b| - 1] == c;
      ValueAppend(a, b', radix);
      if Value(a, radix).Some? && Value(b, radix).Some? {
        var va, vb' := Value(a, radix).value, Value(b', radix).value;
        var d := DigitValue(c, radix).value;
        assert Value(b, radix).value == vb' * radix + d;
        assert Pow(radix, |b|) == radix * Pow(radix, |b'|);
        ShiftDigit(va, Pow(radix, |b'|), vb', radix, d);
      }
    }
  }

  lemma ShiftDigit(va: nat, p: nat, vb: nat, radix: nat, d: nat)
    ensures (va * p + vb) * radix + d == va * (radix * p) + (vb * radix + d)
  {
    calc {
      (va * p + vb) * radix + d;
      va * p * radix + vb * radix + d;
      { assert va * p * radix == va * (radix * p); }
      va * (radix * p) + (vb * radix + d);
    }
  }

  lemma {:induction false} ValueOfToDigits(n: nat, radix: Radix)
    ensures Value(ToDigits(n, radix), radix) == Some(n)
    decreases n
  {
    if n < radix {
      ValueOfDigit(n, radix);
    } else {
      assert n / radix < n by { DivMod(n, radix); }
      ValueOfToDigits(n / radix, radix);
      ValueOfLastDigit(n, radix);
    }
  }

  /** The digits of `n` are those of `n / radix` followed by one digit for `n % radix`. */
  lemma ValueOfLastDigit(n: nat, radix: Radix)
    requires n >= radix && Value(ToDigits(n / radix, radix), radix) == Some(n / radix)
    ensures Value(ToDigits(n, radix), radix) == Some(n)
  {
    DivMod(n, radix);
    AppendDigit(ToDigits(n / radix, radix), n / radix, n % radix, radix);
  }

  lemma AppendDigit(s: string, v: nat, d: nat, radix: Radix)
    requires d < radix && Value(s, radix) == Some(v)
    ensures Value(s + [DigitChar(d)], radix) == Some(v * radix + d)
  {
    ValueSnoc(s, DigitChar(d), radix);
  }

  /** Appending one digit multiplies by the radix and adds the digit. */
  lemma ValueSnoc(s: string, c: char, radix: Radix)
    ensures Value(s + [c], radix) ==
      if Value(s, radix).Some? && DigitValue(c, radix).Some?
      then Some(Value(s, radix).value * radix + DigitValue(c, radix).value)
      else None
  {
    assert (s + [c])[..|s|] == s;
  }

  lemma ValueOfDigit(d: nat, radix: Radix)
    requires d < radix
    ensures Value([DigitChar(d)], radix) == Some(d)
  {
    assert [DigitChar(d)][..0] == [];
  }

  lemma {:induction false} ValueOfZeros(k: nat, radix: Radix)
    ensures Value(Zeros(k), radix) == Some(0)
  {
    if k > 0 {
      assert Zeros(k)[..k - 1] == Zeros(k - 1);
      ValueOfZeros(k - 1, radix);
    }
  }

  /** Rendering then reading back gives the number again, whatever the padding. */
  lemma FormatRoundTrip(n: nat, radix: Radix, width: nat)
    ensures Value(Format(n, radix, width), radix) == Some(n)
  {
    var digits := ToDigits(n, radix);
    ValueOfToDigits(n, radix);
    if |digits| < width {
      ValueOfZeros(width - |digits|, radix);
      ValueAppend(Zeros(width - |digits|), digits, radix);
    }
  }

  /** `from_str_radix` of a rendered number returns it exactly when it fits the target type. */
  lemma FromStrRadixOfFormat(n: nat, radix: Radix, width: nat, limit: nat)
    ensures FromStrRadix(Format(n, radix, width), radix, limit) == if n < limit then Some(n) else None
  {
    var s := Format(n, radix, width);
    FormatRoundTrip(n, radix, width);
    assert DigitValue(s[0], radix).Some?;
  }

  /** A string with a character that is not a digit of the radix has no value. */
  lemma {:induction false} ValueOfNonDigit(s: string, radix: Radix, k: nat)
    requires k < |s| && DigitValue(s[k], radix).None?
    ensures Value(s, radix) == None
    decreases |s|
  {
    if k < |s| - 1 {
      ValueOfNonDigit(s[..|s| - 1], radix, k);
    }
  }

  /**
    * `from_str_radix` rejects a string with a character that is not a digit of the radix,
    * other than one leading `+`; a `-` is such a character, the type being unsigned.
    */
  lemma FromStrRadixRejects(s: string, radix: Radix, limit: nat, k: nat)
    requires k < |s| && DigitValue(s[k], radix).None? && (k > 0 || s[0] != '+')
    ensures FromStrRadix(s, radix, limit) == None
  {
    if s != "+" && s != "-" {
      if s[0] == '+' {
        ValueOfNonDigit(s[1..], radix, k - 1);
      } else {
        ValueOfNonDigit(s, radix, k);
      }
    }
  }

  /** The digits of `n` fit in `w` places exactly when `n` is below `radix` to the `w`. */
  lemma {:induction false} ToDigitsFit(n: nat, radix: Radix, w: nat)
    requires w >= 1
    ensures |ToDigits(n, radix)| <= w <==> n < Pow(radix, w)
    decreases n
  {
    PowAtLeastRadix(radix, w);
    if n >= radix {
      assert n / radix < n by { DivMod(n, radix); }
      if w > 1 {
        ToDigitsFit(n / radix, radix, w - 1);
      }
      ToDigitsFitStep(n, radix, w);
    }
  }

  lemma ToDigitsFitStep(n: nat, radix: Radix, w: nat)
    requires n >= radix && w >= 1
    requires w > 1 ==> (|ToDigits(n / radix, radix)| <= w - 1 <==> n / radix < Pow(radix, w - 1))
    ensures |ToDigits(n, radix)| <= w <==> n < Pow(radix, w)
  {
    assert |ToDigits(n, radix)| == |ToDigits(n / radix, radix)| + 1;
    if w == 1 {
      assert Pow(radix, 1) == radix;
    } else {
      DivBelow(n, radix, Pow(radix, w - 1));
    }
  }

  lemma DivMod(n: nat, radix: Radix)
    ensures (n / radix) * radix + n % radix == n && n % radix < radix
  {
  }

  /** `n / radix < p` exactly when `n < radix * p`. */
  lemma DivBelow(n: nat, radix: Radix, p: nat)
    ensures n / radix < p <==> n < radix * p
  {
    var q, d := n / radix, n % radix;
    DivMod(n, radix);
    if q < p {
      assert radix * q <= radix * (p - 1) == radix * p - radix;
    } else {
      assert radix * q >= radix * p;
    }
  }

  lemma {:induction false} PowAtLeastRadix(radix: Radix, w: nat)
    requires w >= 1
    ensures Pow(radix, w) >= radix
  {
    if w > 1 {
      PowAtLeastRadix(radix, w - 1);
    }
  }

  lemma {:induction false} PowAdd(radix: Radix, a: nat, b: nat)
    ensures Pow(radix, a + b) == Pow(radix, a) * Pow(radix, b)
    decreases b
  {
    if b > 0 {
      PowAdd(radix, a, b - 1);
      MulSwap(radix, Pow(radix, a), Pow(radix, b - 1));
    }
  }

  lemma MulSwap(r: nat, x: nat, y: nat)
    ensures r * (x * y) == x * (r * y)
  {
  }

  /** Padding to `width` yields exactly `width` characters when the number fits in them. */
  lemma FormatWidth(n: nat, radix: Radix, width: nat)
    requires width >= 1
    ensures |Format(n, radix, width)| == width <==> n < Pow(radix, width)
  {
    ToDigitsFit(n, radix, width);
  }

  /** Distinct numbers render differently. */
  lemma FormatInjective(m: nat, n: nat, radix: Radix, width: nat)
    requires Format(m, radix, width) == Format(n, radix, width)
    ensures m == n
  {
    FormatRoundTrip(m, radix, width);
    FormatRoundTrip(n, radix, width);
  }
}
