/**
 * The pieces of Python value behaviour the lowering rules depend on:
 * `str(n)` and `int(s)` on decimal text, `datetime.strftime("%z")` and
 * `decimal.Decimal.normalize()`.
 */
module PyValues {

  newtype byte = b: int | 0 <= b < 256

  predicate IsDigit(c: char) { '0' <= c <= '9' }

  predicate IsDigits(s: string) {
    |s| > 0 && forall i :: 0 <= i < |s| ==> IsDigit(s[i])
  }

  function DigitValue(c: char): (d: nat)
    requires IsDigit(c)
    ensures d < 10
  {
    (c as int) - ('0' as int)
  }

  function DigitChar(d: nat): (c: char)
    requires d < 10
    ensures IsDigit(c) && DigitValue(c) == d
  {
    (('0' as int) + d) as char
  }

  /** The number a string of decimal digits denotes, most significant digit first. */
  function DigitsValue(s: string): nat
    requires forall i :: 0 <= i < |s| ==> IsDigit(s[i])
  {
    if s == [] then 0 else DigitsValue(s[..|s| - 1]) * 10 + DigitValue(s[|s| - 1])
  }

  /** `str(n)` for a natural number: no leading zeros, "0" for zero. */
  function NatText(n: nat): (s: string)
    ensures IsDigits(s)
    ensures DigitsValue(s) == n
  {
    if n < 10 then [DigitChar(n)]
    else
      var prefix := NatText(n / 10);
      var s := prefix + [DigitChar(n % 10)];
      assert s[..|s| - 1] == prefix;
      s
  }

  /** Text that `int()` accepts: an optional sign and at least one digit. */
  predicate IsIntText(s: string) {
    if |s| > 0 && (s[0] == '+' || s[0] == '-') then IsDigits(s[1..]) else IsDigits(s)
  }

  /** `int(s)` on decimal text (surrounding whitespace and `_` separators are not modelled). */
  function ParseInt(s: string): int
    requires IsIntText(s)
  {
    if s[0] == '-' then -(DigitsValue(s[1..]) as int)
    else if s[0] == '+' then DigitsValue(s[1..])
    else DigitsValue(s)
  }

  /** `str(i)` for an int; `int()` reads it back. */
  function IntText(i: int): (s: string)
    ensures IsIntText(s) && ParseInt(s) == i
  {
    if i < 0 then
      var digits := NatText(-i);
      assert ("-" + digits)[1..] == digits;
      "-" + digits
    else NatText(i)
  }

  /** Two decimal digits with a leading zero, as `%z` writes hours and minutes. */
  function TwoDigits(n: nat): (s: string)
    requires n < 100
    ensures |s| == 2 && IsDigits(s) && DigitsValue(s) == n
  {
    var s := [DigitChar(n / 10), DigitChar(n % 10)];
    assert s[..1] == [DigitChar(n / 10)] && s[..1][..0] == [];
    assert DigitsValue(s[..1]) == n / 10;
    s
  }

  /** The whole-minute part of a UTC offset, as Python's tzinfo allows it: strictly within a day. */
  predicate IsUtcOffset(minutes: int) { -1440 < minutes < 1440 }

  /**
   * `value.strftime("%z")` for a UTC offset of whole minutes: `+HHMM` or
   * `-HHMM`, hours and minutes taken from the absolute value.
   */
  function UtcOffsetText(minutes: int): (s: string)
    requires IsUtcOffset(minutes)
    ensures |s| == 5 && (s[0] == '-' <==> minutes < 0)
  {
    var a := if minutes < 0 then -minutes else minutes;
    [if minutes < 0 then '-' else '+'] + TwoDigits(a / 60) + TwoDigits(a % 60)
  }

  /** Hours of an offset with the offset's sign: what `int(offset[:3])` reads. */
  function SignedHours(minutes: int): int {
    if minutes < 0 then -((-minutes) / 60) else minutes / 60
  }

  /** Minutes of an offset without its sign: what `int(offset[-2:])` reads. */
  function UnsignedMinutes(minutes: int): nat {
    (if minutes < 0 then -minutes else minutes) % 60
  }

  /** The two fields the timestamp literal rule parses out of the `%z` text. */
  lemma UtcOffsetFields(minutes: int)
    requires IsUtcOffset(minutes)
    ensures var s := UtcOffsetText(minutes);
      IsIntText(s[..3]) && ParseInt(s[..3]) == SignedHours(minutes)
      && IsIntText(s[|s| - 2..]) && ParseInt(s[|s| - 2..]) == UnsignedMinutes(minutes)
  {
    var a := if minutes < 0 then -minutes else minutes;
    var hh, mm := TwoDigits(a / 60), TwoDigits(a % 60);
    var s := UtcOffsetText(minutes);
    assert s == [if minutes < 0 then '-' else '+'] + hh + mm;
    assert s[..3][1..] == hh;
    assert s[|s| - 2..] == mm;
  }

  /** A decimal number `coefficient * 10^exponent` (NaN, infinities and the sign of zero are not modelled). */
  datatype PyDecimal = PyDecimal(coefficient: int, exponent: int)

  function Pow10(k: nat): (p: nat)
    ensures p >= 1
  {
    if k == 0 then 1 else 10 * Pow10(k - 1)
  }

  function Abs(i: int): nat { if i < 0 then -i else i }

  /**
   * `Decimal.normalize()`: zero becomes `0E0`; otherwise trailing zeros of the
   * coefficient move into the exponent until none is left. The value is kept.
   */
  function Normalize(d: PyDecimal): (r: PyDecimal)
    ensures d.coefficient == 0 ==> r == PyDecimal(0, 0)
    ensures d.coefficient != 0 ==>
      && r.exponent >= d.exponent
      && d.coefficient == r.coefficient * Pow10(r.exponent - d.exponent)
      && r.coefficient % 10 != 0
    decreases Abs(d.coefficient)
  {
    if d.coefficient == 0 then PyDecimal(0, 0)
    else if d.coefficient % 10 != 0 then d
    else
      var c := d.coefficient / 10;
      assert d.coefficient == c * 10;
      assert Abs(c) < Abs(d.coefficient);
      Normalize(PyDecimal(c, d.exponent + 1))
  }
}
