/** Exact base-100 decimals and their plain rendering (`Decimal` and `read_numeric_legacy` in `row_decoder.rs`). */
module Decimals {
  import opened Wrappers
  import opened Bytes

  /** `coefficient` holds decimal digits only; the last `scale` of them stand right of the point. */
  datatype Decimal = Decimal(negative: bool, coefficient: string, scale: nat)

  // ---------------------------------------------------------------- digits and numbers

  predicate AllDigits(s: string) {
    forall i :: 0 <= i < |s| ==> '0' <= s[i] <= '9'
  }

  function DigitValue(c: char): int {
    c as int - '0' as int
  }

  function DigitChar(d: nat): (c: char)
    requires d < 10
    ensures '0' <= c <= '9' && DigitValue(c) == d
  {
    ('0' as int + d) as char
  }

  /** The number that a string of decimal digits denotes. */
  function NumberOf(s: string): int {
    if s == "" then 0 else 10 * NumberOf(s[..|s| - 1]) + DigitValue(s[|s| - 1])
  }

  /** The number that base-100 digits denote, most significant first. */
  function Base100(digits: seq<Byte>): nat {
    if digits == [] then 0 else 100 * Base100(digits[..|digits| - 1]) + digits[|digits| - 1]
  }

  function Power10(n: nat): (p: nat)
    ensures p > 0
  {
    if n == 0 then 1 else 10 * Power10(n - 1)
  }

  function Zeros(n: nat): (s: string)
    ensures |s| == n && AllDigits(s)
    ensures forall i :: 0 <= i < n ==> s[i] == '0'
  {
    seq(n, i => '0')
  }

  lemma NumberAppend(s: string, c: char)
    ensures NumberOf(s + [c]) == 10 * NumberOf(s) + DigitValue(c)
  {
    assert (s + [c])[..|s|] == s;
  }

  lemma {:induction false} NumberOfPadded(zeros: string, s: string)
    requires forall i :: 0 <= i < |zeros| ==> zeros[i] == '0'
    ensures NumberOf(zeros + s) == NumberOf(s)
    decreases |zeros| + |s|
  {
    if s != "" {
      NumberOfPadded(zeros, s[..|s| - 1]);
      assert (zeros + s)[..|zeros + s| - 1] == zeros + s[..|s| - 1];
    } else if zeros != "" {
      assert zeros + s == zeros;
      NumberOfPadded(zeros[..|zeros| - 1], "");
      assert zeros[..|zeros| - 1] + "" == zeros[..|zeros| - 1];
    }
  }

  lemma {:induction false} NumberOfScaled(s: string, n: nat)
    ensures NumberOf(s + Zeros(n)) == NumberOf(s) * Power10(n)
  {
    if n == 0 {
      assert s + Zeros(0) == s;
    } else {
      NumberOfScaled(s, n - 1);
      NumberAppend(s + Zeros(n - 1), '0');
      assert s + Zeros(n) == s + Zeros(n - 1) + ['0'];
      MulAssociates(NumberOf(s), 10, Power10(n - 1));
    }
  }

  lemma MulAssociates(x: int, y: int, z: int)
    ensures x * (y * z) == y * (x * z)
  {
  }

  lemma {:induction false} Power10Add(a: nat, b: nat)
    ensures Power10(a + b) == Power10(a) * Power10(b)
  {
    if a > 0 {
      Power10Add(a - 1, b);
      MulThree(10, Power10(a - 1), Power10(b));
    }
  }

  lemma MulThree(x: int, y: int, z: int)
    ensures x * (y * z) == (x * y) * z
  {
  }

  /** A number with a nonzero leading digit is at least a power of ten. */
  lemma {:induction false} LeadingDigit(s: string)
    requires AllDigits(s) && s != ""
    ensures NumberOf(s) >= 0
    ensures s[0] != '0' ==> NumberOf(s) > 0
  {
    if |s| > 1 {
      LeadingDigit(s[..|s| - 1]);
    } else {
      assert s[..0] == "";
    }
  }

  // ---------------------------------------------------------------- decoding a coefficient

  /** `{digit:02}`. */
  function TwoDigits(digit: Byte): (s: string)
    requires digit <= 99
    ensures |s| == 2 && AllDigits(s)
  {
    [DigitChar(digit / 10), DigitChar(digit % 10)]
  }

  predicate IsBase100(digits: seq<Byte>) {
    forall i :: 0 <= i < |digits| ==> digits[i] <= 99
  }

  /** The first byte that is not a base-100 digit. */
  function FirstBadDigit(digits: seq<Byte>): (r: Option<Byte>)
    ensures r == None <==> IsBase100(digits)
  {
    if digits == [] then None
    else if digits[0] > 99 then Some(digits[0])
    else
      assert digits == [digits[0]] + digits[1..];
      FirstBadDigit(digits[1..])
  }

  function DigitString(digits: seq<Byte>): (s: string)
    requires IsBase100(digits)
    ensures |s| == 2 * |digits| && AllDigits(s)
  {
    if digits == [] then "" else DigitString(digits[..|digits| - 1]) + TwoDigits(digits[|digits| - 1])
  }

  lemma SuffixOfTail(s: string, n: nat)
    requires n < |s|
    ensures s[1..][|s| - 1 - n..] == s[|s| - n..]
  {
  }

  /** `trim_start_matches('0')`. */
  function TrimZeros(s: string): (t: string)
    ensures |t| <= |s| && t == s[|s| - |t|..]
    ensures t != "" ==> t[0] != '0'
    ensures forall i :: 0 <= i < |s| - |t| ==> s[i] == '0'
  {
    if s != "" && s[0] == '0' then
      var t := TrimZeros(s[1..]);
      SuffixOfTail(s, |t|);
      t
    else s
  }

  /** The decimal digits of a base-100 number without leading zeros, or the digit `0`. */
  function SignificantDigits(digits: seq<Byte>): string
    requires IsBase100(digits)
  {
    var canonical := TrimZeros(DigitString(digits));
    if canonical == "" then "0" else canonical
  }

  function OfBase100(exponent: Byte, digits: seq<Byte>): Decimal
    requires IsBase100(digits)
  {
    var coefficient := SignificantDigits(digits);
    var shift := exponent as int - 0xC0;
    if shift >= 0 then Decimal(false, coefficient + Zeros(2 * shift), 0)
    else Decimal(false, coefficient, 2 * -shift)
  }

  /** Decimal digits of a natural number without leading zeros (`to_string`). */
  function NaturalToString(n: nat): (s: string)
    ensures s != "" && AllDigits(s) && NumberOf(s) == n && (|s| > 1 ==> s[0] != '0')
  {
    if n < 10 then
      assert [DigitChar(n)][..0] == "";
      [DigitChar(n)]
    else
      NumberAppend(NaturalToString(n / 10), DigitChar(n % 10));
      LeadingDigit(NaturalToString(n / 10));
      NaturalToString(n / 10) + [DigitChar(n % 10)]
  }

  /** The one-byte form, biased around 0x80. */
  function OfShortForm(exponent: Byte): Decimal {
    var value := 0x80 - exponent as int;
    Decimal(value < 0, NaturalToString(if value < 0 then -value else value), 0)
  }

  lemma {:induction false} DigitStringValue(digits: seq<Byte>)
    requires IsBase100(digits)
    ensures NumberOf(DigitString(digits)) == Base100(digits)
  {
    if digits != [] {
      var rest, d := digits[..|digits| - 1], digits[|digits| - 1];
      DigitStringValue(rest);
      NumberAppend(DigitString(rest), DigitChar(d / 10));
      NumberAppend(DigitString(rest) + [DigitChar(d / 10)], DigitChar(d % 10));
      assert DigitString(digits) == DigitString(rest) + [DigitChar(d / 10)] + [DigitChar(d % 10)];
    }
  }

  predicate NoLeadingZero(s: string) {
    s != "" && (|s| > 1 ==> s[0] != '0')
  }

  lemma TrimKeepsNumber(s: string)
    requires AllDigits(s)
    ensures AllDigits(TrimZeros(s)) && NumberOf(TrimZeros(s)) == NumberOf(s)
  {
    hide NumberOf;
    var t := TrimZeros(s);
    hide TrimZeros;
    var zeros := s[..|s| - |t|];
    assert s == zeros + t;
    NumberOfPadded(zeros, t);
  }

  /** The significant digits keep the value and start with zero only for zero. */
  lemma SignificantDigitsExact(digits: seq<Byte>)
    requires IsBase100(digits)
    ensures var s := SignificantDigits(digits);
      && s != "" && AllDigits(s)
      && NumberOf(s) == Base100(digits)
      && (s[0] == '0' <==> Base100(digits) == 0)
      && (s[0] == '0' ==> s == "0")
  {
    var t := TrimZeros(DigitString(digits));
    TrimKeepsNumber(DigitString(digits));
    DigitStringValue(digits);
    NumberOfZero();
    assert NumberOf("") == 0;
    hide TrimZeros, DigitString, NumberOf, Base100;
    if t != "" {
      LeadingDigit(t);
    }
  }

  /**
   Exact decimals: `coefficient / 10^scale` equals the base-100 number times `100^(exponent - 0xC0)`,
   written without division. The coefficient has no superfluous leading zero except when every digit
   is zero and the exponent is above 0xC0, where zeros are appended to the digit `0`.
   */
  lemma DecimalIsExact(exponent: Byte, digits: seq<Byte>)
    requires digits != [] && IsBase100(digits)
    ensures var d := OfBase100(exponent, digits);
      && d.coefficient != "" && AllDigits(d.coefficient) && !d.negative
      && NumberOf(d.coefficient) * Power10(2 * 0xC0) == Base100(digits) * Power10(2 * exponent + d.scale)
      && (NoLeadingZero(d.coefficient) <==> Base100(digits) > 0 || exponent <= 0xC0)
  {
    DecimalValue(exponent, digits);
    DecimalDigits(exponent, digits);
    hide OfBase100, NumberOf, Power10, Base100;
  }

  lemma DecimalValue(exponent: Byte, digits: seq<Byte>)
    requires IsBase100(digits)
    ensures var d := OfBase100(exponent, digits);
      NumberOf(d.coefficient) * Power10(2 * 0xC0) == Base100(digits) * Power10(2 * exponent + d.scale)
  {
    SignificantDigitsExact(digits);
    var s, shift := SignificantDigits(digits), 2 * (exponent as int - 0xC0);
    DecimalParts(exponent, digits, s, shift);
    hide *;
    if shift >= 0 {
      ScaledCoefficient(s, Base100(digits), shift, 2 * exponent);
    }
  }

  lemma ScaledCoefficient(s: string, n: int, shift: nat, power: nat)
    requires NumberOf(s) == n && power == shift + 2 * 0xC0
    ensures NumberOf(s + Zeros(shift)) * Power10(2 * 0xC0) == n * Power10(power)
  {
    hide NumberOf, Power10, Zeros;
    NumberOfScaled(s, shift);
    ScaledUp(n, shift, 2 * 0xC0, power);
  }

  lemma DecimalDigits(exponent: Byte, digits: seq<Byte>)
    requires IsBase100(digits)
    ensures var d := OfBase100(exponent, digits);
      && d.coefficient != "" && AllDigits(d.coefficient) && !d.negative
      && (NoLeadingZero(d.coefficient) <==> Base100(digits) > 0 || exponent <= 0xC0)
  {
    SignificantDigitsExact(digits);
    var s, shift := SignificantDigits(digits), 2 * (exponent as int - 0xC0);
    DecimalParts(exponent, digits, s, shift);
    hide *;
    ScaledDigits(s, shift, Base100(digits) == 0);
  }

  /** A decimal is its significant digits, with zeros appended or with digits right of the point. */
  lemma DecimalParts(exponent: Byte, digits: seq<Byte>, s: string, shift: int)
    requires IsBase100(digits) && s == SignificantDigits(digits) && shift == 2 * (exponent as int - 0xC0)
    ensures OfBase100(exponent, digits) == if shift >= 0 then Decimal(false, s + Zeros(shift), 0) else Decimal(false, s, -shift)
  {
    hide SignificantDigits, Zeros, IsBase100;
  }

  lemma ScaledDigits(s: string, shift: int, zero: bool)
    requires s != "" && AllDigits(s) && (s[0] == '0' <==> zero) && (zero ==> s == "0")
    ensures var c := if shift >= 0 then s + Zeros(shift) else s;
      c != "" && AllDigits(c) && (NoLeadingZero(c) <==> !zero || shift <= 0)
  {
    if shift >= 0 {
      var c := s + Zeros(shift);
      assert c[0] == s[0] && |c| == |s| + shift;
      hide Zeros;
    }
  }

  lemma NumberOfZero()
    ensures NumberOf("0") == 0
  {
    NumberAppend("", '0');
    assert "" + ['0'] == "0";
  }

  lemma ScaledUp(n: int, a: nat, b: nat, sum: nat)
    requires sum == a + b
    ensures n * Power10(a) * Power10(b) == n * Power10(sum)
  {
    Power10Add(a, b);
    hide Power10;
    MulThree(n, Power10(a), Power10(b));
  }

  /** A concrete input whose coefficient the field's documentation would not allow: zero, scaled up. */
  lemma ZeroCanHaveLeadingZeros()
    ensures OfBase100(0xC1, [0]) == Decimal(false, "000", 0)
  {
    hide SignificantDigits, Base100, NumberOf;
    ZeroDigit();
    SignificantDigitsExact([0]);
    assert "0" + Zeros(2) == "000";
  }

  lemma ZeroDigit()
    ensures Base100([0]) == 0
  {
    assert Base100([0]) == 100 * Base100([0][..0]) + 0;
  }

  /** The one-byte form is the signed distance from 0x80, and never a negative zero. */
  lemma ShortFormIsExact(exponent: Byte)
    ensures var d := OfShortForm(exponent);
      && NoLeadingZero(d.coefficient) && AllDigits(d.coefficient) && d.scale == 0
      && (if d.negative then -NumberOf(d.coefficient) else NumberOf(d.coefficient)) == 0x80 - exponent as int
      && (d.negative ==> NumberOf(d.coefficient) > 0)
  {
  }

  // ---------------------------------------------------------------- plain rendering

  /** The coefficient, padded so that at least one digit is left of the point. */
  function PaddedDigits(d: Decimal): (s: string)
    ensures |s| == if |d.coefficient| > d.scale then |d.coefficient| else d.scale + 1
  {
    if d.scale >= |d.coefficient| then Zeros(d.scale + 1 - |d.coefficient|) + d.coefficient else d.coefficient
  }

  function ToPlainString(d: Decimal): string {
    var digits := PaddedDigits(d);
    var split := |digits| - d.scale;
    var out := if d.scale == 0 then digits else digits[..split] + "." + digits[split..];
    if d.negative && d.coefficient != "0" then "-" + out else out
  }

  /** The first decimal point, or the end of the string. */
  function PointAt(s: string): (p: nat)
    ensures p <= |s|
  {
    if s == "" || s[0] == '.' then 0 else 1 + PointAt(s[1..])
  }

  datatype Reading = Reading(negative: bool, integerDigits: string, fractionDigits: string)

  /** An independent reader of plain decimals. */
  function ReadPlain(s: string): Reading {
    var negative := s != "" && s[0] == '-';
    var body := if negative then s[1..] else s;
    var p := PointAt(body);
    Reading(negative, body[..p], if p < |body| then body[p + 1..] else "")
  }

  lemma {:induction false} PointAfterDigits(digits: string, rest: string)
    requires AllDigits(digits) && (rest == "" || rest[0] == '.')
    ensures PointAt(digits + rest) == |digits|
  {
    if digits == "" {
      assert digits + rest == rest;
    } else {
      PointAfterDigits(digits[1..], rest);
      assert (digits + rest)[1..] == digits[1..] + rest;
    }
  }

  /** Digits, and a point with digits after it when `scale` is positive, are read apart again. */
  lemma ReadsApart(negative: bool, whole: string, fraction: string, s: string)
    requires whole != "" && AllDigits(whole) && AllDigits(fraction)
    requires s == (if negative then "-" else "") + whole + (if fraction == "" then "" else "." + fraction)
    ensures ReadPlain(s) == Reading(negative, whole, fraction)
  {
    var rest := if fraction == "" then "" else "." + fraction;
    var body := if s[0] == '-' then s[1..] else s;
    assert whole[0] != '-';
    assert body == whole + rest;
    PointAfterDigits(whole, rest);
    assert body[..|whole|] == whole;
    if fraction != "" {
      assert body[|whole| + 1..] == fraction;
    }
  }

  /**
   Rendering and reading: exactly `scale` fraction digits, at least one integer digit and no more than
   the coefficient needs, the same number read back, and never a minus sign before the coefficient `0`.
   */
  lemma PlainStringReadsBack(d: Decimal)
    requires d.coefficient != "" && AllDigits(d.coefficient)
    ensures var r := ReadPlain(ToPlainString(d));
      && r.negative == (d.negative && d.coefficient != "0")
      && AllDigits(r.integerDigits) && AllDigits(r.fractionDigits)
      && |r.fractionDigits| == d.scale
      && |r.integerDigits| == (if |d.coefficient| > d.scale then |d.coefficient| - d.scale else 1)
      && NumberOf(r.integerDigits + r.fractionDigits) == NumberOf(d.coefficient)
  {
    PaddedDigitsExact(d);
    hide NumberOf, ReadPlain, PaddedDigits, AllDigits, ToPlainString;
    var digits := PaddedDigits(d);
    var split := |digits| - d.scale;
    DigitsSplit(digits, split);
    PlainForm(d, digits[..split], digits[split..]);
    ReadsApart(d.negative && d.coefficient != "0", digits[..split], digits[split..], ToPlainString(d));
  }

  lemma PlainForm(d: Decimal, whole: string, fraction: string)
    requires PaddedDigits(d) == whole + fraction && |fraction| == d.scale
    ensures ToPlainString(d) == (if d.negative && d.coefficient != "0" then "-" else "")
                              + whole + (if fraction == "" then "" else "." + fraction)
  {
    hide PaddedDigits;
    var digits := PaddedDigits(d);
    assert digits[..|whole|] == whole && digits[|whole|..] == fraction;
    if fraction == "" {
      assert whole + "" == digits;
    }
  }

  lemma PaddedDigitsExact(d: Decimal)
    requires d.coefficient != "" && AllDigits(d.coefficient)
    ensures AllDigits(PaddedDigits(d)) && NumberOf(PaddedDigits(d)) == NumberOf(d.coefficient)
  {
    if d.scale >= |d.coefficient| {
      NumberOfPadded(Zeros(d.scale + 1 - |d.coefficient|), d.coefficient);
    }
  }

  lemma DigitsSplit(digits: string, split: nat)
    requires AllDigits(digits) && split <= |digits|
    ensures AllDigits(digits[..split]) && AllDigits(digits[split..])
    ensures digits[..split] + digits[split..] == digits
  {
  }
}
