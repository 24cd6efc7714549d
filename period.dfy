/**
 * Period tokens such as "1h", "15mo" or "1y": a run of leading decimal
 * digits (the step count) followed by the unit text.
 *
 * The count is accumulated in an unsigned 8-bit integer with no overflow
 * check, so it is the decimal value of the digit run modulo 256 ("256d"
 * parses as step 0). The unit is everything from the first non-digit on;
 * only "h", "d", "mo" and "y" name a unit the engine knows.
 */
module Period {
  import opened Models

  const CountModulus: int := 256

  predicate IsDigit(c: char) {
    '0' <= c <= '9'
  }

  function DigitValue(c: char): int
    requires IsDigit(c)
  {
    c as int - '0' as int
  }

  /** The length of the run of decimal digits that `s` starts with. */
  function LeadingDigits(s: string): (n: nat)
    ensures n <= |s|
    ensures forall i :: 0 <= i < n ==> IsDigit(s[i])
    ensures n < |s| ==> !IsDigit(s[n])
  {
    if |s| > 0 && IsDigit(s[0]) then 1 + LeadingDigits(s[1..]) else 0
  }

  /** The value of a string of decimal digits, most significant first. */
  function DecimalValue(ds: string): nat
    requires forall i :: 0 <= i < |ds| ==> IsDigit(ds[i])
  {
    if ds == [] then 0 else DecimalValue(ds[..|ds| - 1]) * 10 + DigitValue(ds[|ds| - 1])
  }

  /** The shortest decimal text of `n`. */
  function Decimal(n: nat): (s: string)
    ensures |s| > 0 && forall i :: 0 <= i < |s| ==> IsDigit(s[i])
  {
    if n < 10 then [('0' as int + n) as char] else Decimal(n / 10) + [('0' as int + n % 10) as char]
  }

  lemma {:induction false} DecimalValueOfDecimal(n: nat)
    ensures DecimalValue(Decimal(n)) == n
  {
    if n >= 10 {
      DecimalValueOfDecimal(n / 10);
      var s := Decimal(n);
      assert s[..|s| - 1] == Decimal(n / 10);
    }
  }

  /**
   * What parsing a token yields: the digit run's value modulo 256 and the
   * unit named by the rest of the token.
   */
  function PeriodOf(s: string): (p: (nat, Unit))
    ensures p.0 < CountModulus
    ensures UnitText(p.1) == s[LeadingDigits(s)..]
  {
    var k := LeadingDigits(s);
    (DecimalValue(s[..k]) % CountModulus, UnitOf(s[k..]))
  }

  lemma WrapStep(a: int, d: int)
    requires a >= 0 && d >= 0
    ensures ((a % 256) * 10 + d) % 256 == (a * 10 + d) % 256
  {
    var q := a / 256;
    assert a * 10 + d == (a % 256) * 10 + d + 256 * (10 * q);
  }

  /** The parser: a byte loop that accumulates the digit run into an 8-bit count. */
  method ParsePeriod(period: string) returns (number: nat, unit: Unit)
    ensures (number, unit) == PeriodOf(period)
  {
    number := 0;
    var i := 0;
    while i < |period|
      invariant 0 <= i <= |period|
      invariant forall j :: 0 <= j < i ==> IsDigit(period[j])
      invariant number == DecimalValue(period[..i]) % CountModulus
    {
      var digit := period[i];
      if !IsDigit(digit) {
        break;
      }
      WrapStep(DecimalValue(period[..i]), DigitValue(digit));
      assert period[..i + 1][..i] == period[..i];
      number := (number * 10 + DigitValue(digit)) % CountModulus;
      i := i + 1;
    }
    assert i == LeadingDigits(period);
    unit := UnitOf(period[i..]);
  }

  /**
   * Round trip: the decimal text of `n` followed by a known unit parses
   * back to that unit and to `n` modulo 256 (so to `n` itself below 256).
   */
  lemma {:induction false} PeriodRoundTrip(n: nat, u: Unit)
    requires u.Known()
    ensures PeriodOf(Decimal(n) + UnitText(u)) == (n % CountModulus, u)
  {
    var ds, s := Decimal(n), Decimal(n) + UnitText(u);
    assert s[|ds|] == UnitText(u)[0];
    assert forall i :: 0 <= i < |ds| ==> s[i] == ds[i];
    assert LeadingDigits(s) == |ds|;
    assert s[..|ds|] == ds;
    assert s[|ds|..] == UnitText(u);
    DecimalValueOfDecimal(n);
    UnitOfText(u);
  }

  /** A token that does not start with a digit has count 0 and is all unit. */
  lemma NoLeadingDigits(s: string)
    requires s == [] || !IsDigit(s[0])
    ensures PeriodOf(s) == (0, UnitOf(s))
  {
    assert s[..0] == [];
    assert s[0..] == s;
  }

  /** The token examples "1y" and "15mo". */
  lemma ParseExamples()
    ensures PeriodOf("1y") == (1, Years)
    ensures PeriodOf("15mo") == (15, Months)
  {
    PeriodRoundTrip(1, Years);
    PeriodRoundTrip(15, Months);
    assert Decimal(15) == "15";
  }
}
