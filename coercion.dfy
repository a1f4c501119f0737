/**
 * Type coercion of one field's text into a cell (SaveNewValue).
 *
 * `atoi`, `atol` and `strtol(.., 16)` are modelled as one function: skip
 * leading white space, read an optional sign (and for base 16 an optional
 * `0x`), then the longest run of digits; no digits gives 0. The number is
 * read without bound and then narrowed to the column's width in two's
 * complement, as the casts `(int32_t)`, `(int16_t)` and `(char)` do.
 */
module Coercion {
  import opened Options
  import opened Schema

  /** One cell of a column. A float cell keeps the text `atof` converts. */
  datatype Cell = Text(text: string) | Float(literal: string) | Int(value: int)

  const Modulus8: nat := 0x100
  const Modulus16: nat := 0x1_0000
  const Modulus32: nat := 0x1_0000_0000

  /** `isspace` in the C locale. */
  predicate IsSpace(c: char) {
    c == ' ' || 9 <= c as int <= 13
  }

  predicate IsBase(base: nat) {
    base == 10 || base == 16
  }

  predicate IsDigit(c: char, base: nat) {
    ('0' <= c <= '9') || (base == 16 && (('a' <= c <= 'f') || ('A' <= c <= 'F')))
  }

  function DigitValue(c: char): (d: nat)
    ensures '0' <= c <= '9' ==> d < 10
    ensures d < 16
  {
    if '0' <= c <= '9' then c as int - '0' as int
    else if 'a' <= c <= 'f' then c as int - 'a' as int + 10
    else if 'A' <= c <= 'F' then c as int - 'A' as int + 10
    else 0
  }

  /** The length of the run of white space that starts `v`. */
  function SpaceRun(v: string): (n: nat)
    ensures n <= |v|
    ensures forall i :: 0 <= i < n ==> IsSpace(v[i])
    ensures n < |v| ==> !IsSpace(v[n])
  {
    if v == [] || !IsSpace(v[0]) then 0 else 1 + SpaceRun(v[1..])
  }

  /** The length of the run of digits that starts `v`. */
  function DigitRun(v: string, base: nat): (n: nat)
    ensures n <= |v|
    ensures forall i :: 0 <= i < n ==> IsDigit(v[i], base)
    ensures n < |v| ==> !IsDigit(v[n], base)
  {
    if v == [] || !IsDigit(v[0], base) then 0 else 1 + DigitRun(v[1..], base)
  }

  /** The value of a digit string, most significant digit first. */
  function DigitsValue(ds: string, base: nat): nat {
    if ds == [] then 0 else DigitsValue(ds[..|ds| - 1], base) * base + DigitValue(ds[|ds| - 1])
  }

  /** The unsigned number read from `u`: for base 16 an optional `0x` or `0X`, then the digit run. */
  function Magnitude(u: string, base: nat): nat {
    var ds := if base == 16 && |u| >= 2 && u[0] == '0' && (u[1] == 'x' || u[1] == 'X') then u[2..] else u;
    DigitsValue(ds[..DigitRun(ds, base)], base)
  }

  /**
   * `atoi`/`atol` (base 10) and `strtol(v, 0, 16)` (base 16), without
   * overflow. Text that is blank, or whose first byte after the white space
   * is neither a sign nor a digit, reads as 0; only a leading minus sign
   * gives a negative number.
   */
  function LeadingInteger(v: string, base: nat): (n: int)
    requires IsBase(base)
    ensures SpaceRun(v) == |v| ==> n == 0
    ensures SpaceRun(v) < |v| && !IsDigit(v[SpaceRun(v)], base) && v[SpaceRun(v)] != '-' && v[SpaceRun(v)] != '+' ==> n == 0
    ensures n < 0 ==> SpaceRun(v) < |v| && v[SpaceRun(v)] == '-'
  {
    var w := v[SpaceRun(v)..];
    var negative := |w| > 0 && w[0] == '-';
    var u := if |w| > 0 && (w[0] == '-' || w[0] == '+') then w[1..] else w;
    var m: int := Magnitude(u, base);
    if negative then -m else m
  }

  /**
   * A cast to a signed integer type of `modulus` values: the result is the
   * one value of that type congruent to `x`; values already in range are
   * kept.
   */
  function Wrap(x: int, modulus: int): (r: int)
    requires modulus == Modulus8 || modulus == Modulus16 || modulus == Modulus32
    ensures -(modulus / 2) <= r < modulus / 2
    ensures r % modulus == x % modulus
    ensures -(modulus / 2) <= x < modulus / 2 ==> r == x
  {
    var m := x % modulus;
    if m >= modulus / 2 then m - modulus else m
  }

  /** Half the number of values of a signed integer of `bytes` bytes. */
  function HalfRange(bytes: nat): int {
    if bytes == 1 then Modulus8 / 2 else if bytes == 2 then Modulus16 / 2 else Modulus32 / 2
  }

  /** The base an integer column is read in. */
  function BaseOf(t: char): nat {
    if t == 'x' then 16 else 10
  }

  /**
   * SaveNewValue's conversion of a field's text for a column of type `t`.
   * Unused and unknown columns store nothing.
   */
  function Convert(v: string, t: char): (c: Option<Cell>)
    ensures c.Some? <==> IsStored(t)
    ensures t == 's' ==> c == Some(Text(v))
    ensures IsInteger(t) ==>
      (c.Some? && c.value.Int? && -HalfRange(TypeSize(t)) <= c.value.value < HalfRange(TypeSize(t)))
  {
    match t
    case 's' => Some(Text(v))
    case 'f' => Some(Float(v))
    case 'L' => Some(Int(Wrap(LeadingInteger(v, 10), Modulus32)))
    case 'd' => Some(Int(Wrap(LeadingInteger(v, 10), Modulus16)))
    case 'c' => Some(Int(Wrap(LeadingInteger(v, 10), Modulus8)))
    case 'x' => Some(Int(Wrap(LeadingInteger(v, 16), Modulus32)))
    case _ => None
  }

  function DigitChar(d: nat): (c: char)
    requires d < 16
    ensures IsDigit(c, 16) && DigitValue(c) == d
    ensures d < 10 ==> IsDigit(c, 10)
  {
    if d < 10 then ('0' as int + d) as char else ('a' as int + d - 10) as char
  }

  /** The digits of `n` in `base`, without leading zeros. */
  function Digits(n: nat, base: nat): (ds: string)
    requires IsBase(base)
    ensures |ds| >= 1
    ensures forall i :: 0 <= i < |ds| ==> IsDigit(ds[i], base)
    ensures ds[0] == '0' ==> n == 0
    decreases n
  {
    if n < base then [DigitChar(n)] else Digits(n / base, base) + [DigitChar(n % base)]
  }

  /** The usual text of an integer: a minus sign for negatives, then its digits. */
  function Render(i: int, base: nat): string
    requires IsBase(base)
  {
    if i < 0 then "-" + Digits(-i, base) else Digits(i, base)
  }

  lemma {:induction false} DigitsValueOfDigits(n: nat, base: nat)
    requires IsBase(base)
    ensures DigitsValue(Digits(n, base), base) == n
    decreases n
  {
    var ds := Digits(n, base);
    if n >= base {
      DigitsValueOfDigits(n / base, base);
      assert ds[..|ds| - 1] == Digits(n / base, base);
      assert DigitValue(ds[|ds| - 1]) == n % base;
      assert (n / base) * base + n % base == n;
    }
  }

  lemma {:induction false} DigitRunOfDigits(ds: string, tail: string, base: nat)
    requires forall i :: 0 <= i < |ds| ==> IsDigit(ds[i], base)
    requires tail == [] || !IsDigit(tail[0], base)
    ensures DigitRun(ds + tail, base) == |ds|
    decreases |ds|
  {
    if ds == [] {
      assert ds + tail == tail;
    } else {
      assert (ds + tail)[1..] == ds[1..] + tail;
      DigitRunOfDigits(ds[1..], tail, base);
    }
  }

  lemma MagnitudeOfDigits(n: nat, tail: string, base: nat)
    requires IsBase(base)
    requires tail == [] || (!IsDigit(tail[0], base) && tail[0] != 'x' && tail[0] != 'X')
    ensures Magnitude(Digits(n, base) + tail, base) == n
  {
    var ds := Digits(n, base);
    var u := ds + tail;
    if base == 16 && |u| >= 2 && u[0] == '0' {
      assert n == 0 && |ds| == 1;
      assert u[1] == tail[0];
    }
    DigitRunOfDigits(ds, tail, base);
    assert u[..|ds|] == ds;
    DigitsValueOfDigits(n, base);
  }

  /**
   * Reading back a rendered integer gives the integer, whatever text follows
   * it, as long as that text does not continue the number.
   */
  lemma LeadingIntegerOfRender(i: int, tail: string, base: nat)
    requires IsBase(base)
    requires tail == [] || (!IsDigit(tail[0], base) && tail[0] != 'x' && tail[0] != 'X')
    ensures LeadingInteger(Render(i, base) + tail, base) == i
  {
    if i < 0 {
      MagnitudeOfDigits(-i, tail, base);
      LeadingIntegerOfSigned(Digits(-i, base), tail, base);
      assert Render(i, base) + tail == ("-" + Digits(-i, base)) + tail;
    } else {
      MagnitudeOfDigits(i, tail, base);
      LeadingIntegerOfUnsigned(Digits(i, base) + tail, base);
    }
  }

  lemma LeadingIntegerOfSigned(ds: string, tail: string, base: nat)
    requires IsBase(base)
    ensures LeadingInteger(("-" + ds) + tail, base) == -(Magnitude(ds + tail, base) as int)
  {
    var v := ("-" + ds) + tail;
    assert SpaceRun(v) == 0 by {
      assert v[0] == '-';
    }
    assert v[0..] == v;
    assert v[1..] == ds + tail;
  }

  lemma LeadingIntegerOfUnsigned(u: string, base: nat)
    requires IsBase(base)
    requires |u| > 0 && IsDigit(u[0], base)
    ensures LeadingInteger(u, base) == Magnitude(u, base)
  {
  }

  /**
   * An integer column stores the value of its decimal (hexadecimal for `x`)
   * text exactly when that value fits the column's width.
   */
  lemma ConvertRoundTrip(i: int, t: char)
    requires IsInteger(t)
    requires -HalfRange(TypeSize(t)) <= i < HalfRange(TypeSize(t))
    ensures Convert(Render(i, BaseOf(t)), t) == Some(Int(i))
  {
    var v := Render(i, BaseOf(t));
    LeadingIntegerOfRender(i, [], BaseOf(t));
    assert v + [] == v;
  }

  /** A value too wide for its column keeps only its low bits: 40000 in an `int16_t` column reads back as -25536. */
  lemma ConvertTruncates()
    ensures Convert(Render(40000, 10), 'd') == Some(Int(-25536))
  {
    LeadingIntegerOfRender(40000, [], 10);
    assert Render(40000, 10) + [] == Render(40000, 10);
  }
}
