/**
 * Python's integer conversions and decimal text: `int()` on a float, `//`,
 * `str(n)`, `f"{n:02d}"` and `float(text)`.
 */
module Numbers {
  import opened Wrappers
  import opened Text

  /** `int(x)`: truncation toward zero. */
  function Trunc(x: real): (r: int)
    ensures x >= 0.0 ==> r == x.Floor
    ensures r as real <= x < r as real + 1.0 || r as real - 1.0 < x <= r as real
    ensures x < 0.0 ==> r <= 0
  {
    if x >= 0.0 then x.Floor else -((-x).Floor)
  }

  /** Python's `a // b`: the floor of the exact quotient, for a non-zero divisor. */
  function FloorDiv(a: int, b: int): (q: int)
    requires b != 0
    ensures b > 0 ==> b * q <= a < b * q + b
    ensures b < 0 ==> b * q + b < a <= b * q
  {
    if b > 0 then a / b else if a % -b == 0 then -(a / -b) else -(a / -b) - 1
  }

  // ------------------------------------------------------------- printing

  predicate IsDigit(c: char) { '0' <= c <= '9' }

  function DigitChar(d: nat): char
    requires d < 10
  {
    ('0' as int + d) as char
  }

  function DigitValue(c: char): nat
    requires IsDigit(c)
  {
    c as int - '0' as int
  }

  /** `str(n)` for a natural number: its decimal digits, no leading zero. */
  function NatStr(n: nat): (s: string)
    ensures |s| >= 1 && forall k :: 0 <= k < |s| ==> IsDigit(s[k])
    ensures |s| > 1 ==> s[0] != '0'
  {
    if n < 10 then [DigitChar(n)] else NatStr(n / 10) + [DigitChar(n % 10)]
  }

  /** `f"{n:02d}"`: the decimal digits, left-padded with '0' to width two. */
  function Pad2(n: nat): (s: string)
    ensures |s| >= 2 && forall k :: 0 <= k < |s| ==> IsDigit(s[k])
    ensures n < 100 ==> |s| == 2
  {
    if n < 10 then ['0', DigitChar(n)]
    else assert n < 100 ==> |NatStr(n / 10)| == 1; NatStr(n)
  }

  /** A decimal literal `whole.fraction` is made of digits and its one '.'. */
  lemma DecimalChars(whole: string, fraction: string)
    requires AllDigits(whole) && AllDigits(fraction)
    ensures var t := whole + "." + fraction;
      t != [] && forall k :: 0 <= k < |t| ==> IsDigit(t[k]) || t[k] == '.'
  {
    var t := whole + "." + fraction;
    forall k | 0 <= k < |t|
      ensures IsDigit(t[k]) || t[k] == '.'
    {
      if k < |whole| {
        assert t[k] == whole[k];
      } else if k > |whole| {
        assert t[k] == fraction[k - |whole| - 1];
      }
    }
  }

  // -------------------------------------------------------------- parsing

  predicate AllDigits(s: string) { forall k :: 0 <= k < |s| ==> IsDigit(s[k]) }

  /** The number a string of decimal digits denotes (0 for the empty string). */
  function DigitsValue(s: string): nat
    requires AllDigits(s)
  {
    if s == [] then 0 else DigitsValue(s[..|s| - 1]) * 10 + DigitValue(s[|s| - 1])
  }

  /** Reading back the digits `str(n)` prints gives `n`. */
  lemma {:induction false} NatStrValue(n: nat)
    ensures DigitsValue(NatStr(n)) == n
  {
    if n >= 10 {
      NatStrValue(n / 10);
      var s := NatStr(n);
      assert s[..|s| - 1] == NatStr(n / 10);
    }
  }

  lemma Pad2Value(n: nat)
    ensures DigitsValue(Pad2(n)) == n
  {
    if n < 10 {
      var s := Pad2(n);
      assert s[..1] == ['0'] && s[..1][..0] == [];
      assert DigitsValue(s[..1]) == 0;
      assert DigitsValue(s) == DigitsValue(s[..1]) * 10 + DigitValue(s[1]);
    } else {
      NatStrValue(n);
    }
  }

  /** `value` divided by ten `k` times: the exact number `value / 10^k`. */
  function Shifted(value: int, k: nat): real {
    if k == 0 then value as real else Shifted(value, k - 1) / 10.0
  }

  /** A non-negative number stays non-negative when divided by ten. */
  lemma {:induction false} ShiftedNonNegative(value: nat, k: nat)
    ensures Shifted(value, k) >= 0.0
  {
    if k > 0 {
      ShiftedNonNegative(value, k - 1);
    }
  }

  /** The exact value of the digits after a decimal point. */
  function FractionValue(fraction: string): real
    requires AllDigits(fraction)
  {
    Shifted(DigitsValue(fraction), |fraction|)
  }

  /** The exact value of `digits` `.` `fraction`. */
  function DecimalValue(digits: string, fraction: string): real
    requires AllDigits(digits) && AllDigits(fraction)
  {
    DigitsValue(digits) as real + FractionValue(fraction)
  }

  /** An unsigned decimal literal: `ddd`, `ddd.`, `ddd.ddd` or `.ddd`. */
  function ParseUnsigned(t: string): (r: Option<real>)
    ensures r.Some? ==> r.value >= 0.0
  {
    var dot := FirstDot(t);
    if dot == |t| then
      if t != [] && AllDigits(t) then Some(DigitsValue(t) as real) else None
    else
      var whole, fraction := t[..dot], t[dot + 1..];
      if |whole| + |fraction| > 0 && AllDigits(whole) && AllDigits(fraction)
      then ShiftedNonNegative(DigitsValue(fraction), |fraction|); Some(DecimalValue(whole, fraction)) else None
  }

  /** Index of the first '.', or `|t|` when there is none. */
  function FirstDot(t: string): (i: nat)
    ensures i <= |t| && (i < |t| ==> t[i] == '.')
    ensures forall k :: 0 <= k < i ==> t[k] != '.'
  {
    if t == [] then 0 else if t[0] == '.' then 0 else 1 + FirstDot(t[1..])
  }

  /** `float(t)` on text that has already been stripped: an optional sign and an unsigned literal. */
  function ParseSigned(t: string): Option<real> {
    if t != [] && (t[0] == '+' || t[0] == '-') then
      match ParseUnsigned(t[1..])
      case None => None
      case Some(v) => Some(if t[0] == '-' then -v else v)
    else ParseUnsigned(t)
  }

  /** `float(text)` for plain decimal literals; surrounding whitespace is ignored as Python ignores it. */
  function ParseFloat(text: string): Option<real> { ParseSigned(Strip(text)) }

  /** `str(n)` parses back as the same number. */
  lemma ParseNatStr(n: nat)
    ensures ParseUnsigned(NatStr(n)) == Some(n as real)
  {
    NatStrValue(n);
    assert FirstDot(NatStr(n)) == |NatStr(n)| by {
      forall k | 0 <= k < |NatStr(n)| ensures NatStr(n)[k] != '.' { }
      DotFree(NatStr(n));
    }
  }

  lemma DotFree(t: string)
    requires forall k :: 0 <= k < |t| ==> t[k] != '.'
    ensures FirstDot(t) == |t|
  {
    if t != [] { DotFree(t[1..]); }
  }

  /** The first '.' after a dot-free prefix is the one that ends it. */
  lemma {:induction false} FirstDotAfter(a: string, b: string)
    requires forall k :: 0 <= k < |a| ==> a[k] != '.'
    ensures FirstDot(a + "." + b) == |a|
    decreases |a|
  {
    if a != [] {
      assert (a + "." + b)[1..] == a[1..] + "." + b;
      FirstDotAfter(a[1..], b);
    }
  }

  /** Digits are neither whitespace nor a sign, so `float()` reads them unchanged. */
  lemma ParseDigitsStart(t: string)
    requires t != [] && IsDigit(t[0]) && (IsDigit(t[|t| - 1]) || t[|t| - 1] == '.')
    ensures ParseFloat(t) == ParseUnsigned(t)
  {
    StripKeeps(t);
  }

  /** `float(str(n))` is `n`. */
  lemma ParseFloatNat(n: nat)
    ensures ParseFloat(NatStr(n)) == Some(n as real)
  {
    ParseDigitsStart(NatStr(n));
    ParseNatStr(n);
  }

  /** `float(f"{n:02d}")` is `n`. */
  lemma ParseFloatPad2(n: nat)
    ensures ParseFloat(Pad2(n)) == Some(n as real)
  {
    var t := Pad2(n);
    ParseDigitsStart(t);
    DotFree(t);
    Pad2Value(n);
  }

  /** An unsigned literal `whole.fraction` denotes its exact decimal value. */
  lemma ParseUnsignedDecimal(whole: string, fraction: string)
    requires whole != [] && AllDigits(whole) && AllDigits(fraction)
    ensures ParseUnsigned(whole + "." + fraction) == Some(DecimalValue(whole, fraction))
  {
    var t := whole + "." + fraction;
    FirstDotAfter(whole, fraction);
    assert t[..|whole|] == whole && t[|whole| + 1..] == fraction;
  }

  /** `float(f"{n:02d}.{fraction}")` is `n` plus the decimal fraction. */
  lemma ParseFloatDecimal(n: nat, fraction: string)
    requires AllDigits(fraction)
    ensures ParseFloat(Pad2(n) + "." + fraction)
         == Some(n as real + FractionValue(fraction))
  {
    ParseFloatDecimalValue(Pad2(n), fraction);
    DecimalPad2(ParseFloat(Pad2(n) + "." + fraction), n, fraction);
  }

  /** A result holding the decimal value of `f"{n:02d}.{fraction}"` holds `n` plus the fraction. */
  lemma DecimalPad2(r: Option<real>, n: nat, fraction: string)
    requires AllDigits(fraction) && r == Some(DecimalValue(Pad2(n), fraction))
    ensures r == Some(n as real + FractionValue(fraction))
  {
    Pad2Value(n);
  }

  /** `float()` of a decimal literal `whole.fraction` is its exact decimal value. */
  lemma ParseFloatDecimalValue(whole: string, fraction: string)
    requires whole != [] && AllDigits(whole) && AllDigits(fraction)
    ensures ParseFloat(whole + "." + fraction) == Some(DecimalValue(whole, fraction))
  {
    ParseUnsignedDecimal(whole, fraction);
    var t := whole + "." + fraction;
    assert t[0] == whole[0];
    if fraction == [] {
      assert t[|t| - 1] == '.';
    } else {
      assert t[|t| - 1] == fraction[|fraction| - 1];
    }
    ParseDigitsStart(t);
  }
}
