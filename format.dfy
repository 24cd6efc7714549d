/**
 * How an instant is written out: read on the UTC wall clock and laid out
 * as "20060102T150405Z", the ISO 8601 basic format for a complete date and
 * time of day (ISO 8601:2004 section 4.3.2) with `Z` marking UTC.
 */
module Format {
  import opened Calendar
  import opened Models
  import opened Period

  /** The layout every timestamp is written in. */
  const Layout: string := "20060102T150405Z"

  /** `n` zeros, none when `n` is not positive. */
  function Zeros(n: int): (s: string)
    ensures |s| == if n > 0 then n else 0
    ensures forall i :: 0 <= i < |s| ==> s[i] == '0'
    decreases n
  {
    if n <= 0 then [] else "0" + Zeros(n - 1)
  }

  /**
   * The time library's numeric field writer: a minus sign for a negative
   * value, then the decimal digits of its magnitude, padded on the left
   * with zeros to at least `width` digits.
   */
  function AppendInt(x: int, width: nat): string {
    var ds := Decimal(if x < 0 then -x else x);
    (if x < 0 then "-" else "") + Zeros(width - |ds|) + ds
  }

  /** Leading zeros do not change the value of a digit string. */
  lemma {:induction false} LeadingZerosValue(k: int, ds: string)
    requires forall i :: 0 <= i < |ds| ==> IsDigit(ds[i])
    ensures forall i :: 0 <= i < |Zeros(k) + ds| ==> IsDigit((Zeros(k) + ds)[i])
    ensures DecimalValue(Zeros(k) + ds) == DecimalValue(ds)
    decreases |ds|, k
  {
    var s := Zeros(k) + ds;
    if ds == [] {
      if k > 0 {
        assert s == Zeros(k);
        assert s[..|s| - 1] == Zeros(k - 1) + [];
        LeadingZerosValue(k - 1, []);
      }
    } else {
      var init := ds[..|ds| - 1];
      assert s[..|s| - 1] == Zeros(k) + init;
      LeadingZerosValue(k, init);
    }
  }

  /**
   * A field written for a non-negative value is all digits, at least
   * `width` long, and reads back as the value; a negative value is written
   * as a minus sign followed by the field of its magnitude.
   */
  lemma AppendIntReadsBack(x: int, width: nat)
    ensures x >= 0 ==> var s := AppendInt(x, width);
      |s| >= width && (forall i :: 0 <= i < |s| ==> IsDigit(s[i])) && DecimalValue(s) == x
    ensures x < 0 ==> AppendInt(x, width) == "-" + AppendInt(-x, width)
  {
    if x >= 0 {
      DecimalValueOfDecimal(x);
      LeadingZerosValue(width - |Decimal(x)|, Decimal(x));
      assert AppendInt(x, width) == Zeros(width - |Decimal(x)|) + Decimal(x);
    } else {
      var z, ds := Zeros(width - |Decimal(-x)|), Decimal(-x);
      assert AppendInt(x, width) == "-" + z + ds;
      assert AppendInt(-x, width) == "" + z + ds;
    }
  }

  function Digit(u: int): (c: char)
    requires 0 <= u < 10
    ensures IsDigit(c) && DigitValue(c) == u
  {
    ('0' as int + u) as char
  }

  /** The decimal text of `x`: its last digit after the text of `x / 10`. */
  lemma DecimalStep(x: nat)
    ensures x < 10 ==> Decimal(x) == [Digit(x)]
    ensures x >= 10 ==> Decimal(x) == Decimal(x / 10) + [Digit(x % 10)]
  {
  }

  /** A value below 100 is written as exactly its two digits. */
  lemma TwoDigitField(x: int)
    requires 0 <= x < 100
    ensures AppendInt(x, 2) == [Digit(x / 10), Digit(x % 10)]
  {
    DecimalStep(x);
    DecimalStep(x / 10);
  }

  /** A value below 10000 is written as exactly its four digits. */
  lemma FourDigitField(x: int)
    requires 0 <= x < 10000
    ensures AppendInt(x, 4) == [Digit(x / 1000), Digit(x / 100 % 10), Digit(x / 10 % 10), Digit(x % 10)]
  {
    assert AppendInt(x, 4) == Zeros(4 - |Decimal(x)|) + Decimal(x);
    FourDigitText(x);
    hide Decimal, Zeros, AppendInt;
    if x >= 1000 {
      assert Zeros(0) == [];
    } else if x >= 100 {
      assert Zeros(1) == "0";
    } else if x >= 10 {
      assert Zeros(2) == "00";
    } else {
      assert Zeros(3) == "000";
    }
  }

  /** The decimal text of a value below 10000, by number of digits. */
  lemma FourDigitText(x: int)
    requires 0 <= x < 10000
    ensures x >= 1000 ==> Decimal(x) == [Digit(x / 1000), Digit(x / 100 % 10), Digit(x / 10 % 10), Digit(x % 10)]
    ensures 100 <= x < 1000 ==> Decimal(x) == [Digit(x / 100 % 10), Digit(x / 10 % 10), Digit(x % 10)]
    ensures 10 <= x < 100 ==> Decimal(x) == [Digit(x / 10 % 10), Digit(x % 10)]
    ensures x < 10 ==> Decimal(x) == [Digit(x % 10)]
  {
    hide Decimal;
    DecimalStep(x);
    DecimalStep(x / 10);
    DecimalStep(x / 100);
    DecimalStep(x / 1000);
    assert x / 10 / 10 == x / 100 && x / 100 / 10 == x / 1000;
  }

  /**
   * The text of `t` in the layout: its UTC wall-clock reading, year
   * padded to four digits, every other field to two.
   */
  function FormatUTC(t: Instant): string {
    FormatCivil(Civil(t, UTC))
  }

  /** A wall-clock reading in the layout. */
  function FormatCivil(c: DateTime): string {
    AppendInt(c.date.year, 4) + AppendInt(c.date.month, 2) + AppendInt(c.date.day, 2) + "T"
      + AppendInt(c.hour, 2) + AppendInt(c.minute, 2) + AppendInt(c.second, 2) + "Z"
  }

  /** Every instant of a sequence in the layout, in order. */
  function FormatAll(ts: seq<Instant>): (ss: seq<string>)
    ensures |ss| == |ts|
    ensures forall i :: 0 <= i < |ts| ==> ss[i] == FormatUTC(ts[i])
  {
    if ts == [] then [] else [FormatUTC(ts[0])] + FormatAll(ts[1..])
  }

  predicate DigitsAt(s: string, i: int, j: int) {
    0 <= i <= j <= |s| && forall k :: i <= k < j ==> IsDigit(s[k])
  }

  /** The value of the decimal digits of `s` from index `i` up to index `j`. */
  function FieldValue(s: string, i: int, j: int): nat
    requires DigitsAt(s, i, j)
    decreases j - i
  {
    if j == i then 0 else FieldValue(s, i, j - 1) * 10 + DigitValue(s[j - 1])
  }

  /**
   * A reader for the layout: sixteen characters, digits everywhere but
   * the `T` at index 8 and the `Z` at index 15, read as year, month, day,
   * hour, minute and second. It checks the shape only, not the ranges.
   */
  function ReadBasic(s: string): Option<DateTime> {
    if |s| == |Layout| && s[8] == 'T' && s[15] == 'Z' && DigitsAt(s, 0, 8) && DigitsAt(s, 9, 15) then
      Some(DateTime(Date(FieldValue(s, 0, 4), FieldValue(s, 4, 6), FieldValue(s, 6, 8)),
                    FieldValue(s, 9, 11), FieldValue(s, 11, 13), FieldValue(s, 13, 15)))
    else
      None
  }

  /** The two digits of `x` at index `i` read back as `x`. */
  lemma TwoDigitsAt(s: string, i: int, x: int)
    requires 0 <= x < 100 && 0 <= i && i + 2 <= |s|
    requires s[i] == Digit(x / 10) && s[i + 1] == Digit(x % 10)
    ensures DigitsAt(s, i, i + 2) && FieldValue(s, i, i + 2) == x
  {
    assert FieldValue(s, i, i + 1) == x / 10;
  }

  /** The four digits of `x` at index `i` read back as `x`. */
  lemma FourDigitsAt(s: string, i: int, x: int)
    requires 0 <= x < 10000 && 0 <= i && i + 4 <= |s|
    requires s[i] == Digit(x / 1000) && s[i + 1] == Digit(x / 100 % 10)
    requires s[i + 2] == Digit(x / 10 % 10) && s[i + 3] == Digit(x % 10)
    ensures DigitsAt(s, i, i + 4) && FieldValue(s, i, i + 4) == x
  {
    assert FieldValue(s, i, i + 1) == x / 1000;
    assert FieldValue(s, i, i + 2) == x / 1000 * 10 + x / 100 % 10;
    assert FieldValue(s, i, i + 3) == (x / 1000 * 10 + x / 100 % 10) * 10 + x / 10 % 10;
    FourDigitSplit(x);
  }

  lemma FourDigitSplit(x: int)
    requires 0 <= x < 10000
    ensures ((x / 1000 * 10 + x / 100 % 10) * 10 + x / 10 % 10) * 10 + x % 10 == x
  {
    var q := x / 10;
    assert x == 10 * q + x % 10;
    var p := q / 10;
    assert q == 10 * p + q % 10;
    assert p == x / 100;
    assert q % 10 == x / 10 % 10;
    assert p == 10 * (p / 10) + p % 10;
    assert p / 10 == x / 1000;
  }

  /**
   * Round trip: for years 0 to 9999 the layout text of `t` has the
   * layout's length and reads back as the UTC wall-clock reading of `t`.
   */
  lemma FormatReadsBack(t: Instant)
    requires 0 <= Civil(t, UTC).date.year <= 9999
    ensures |FormatUTC(t)| == |Layout|
    ensures ReadBasic(FormatUTC(t)) == Some(Civil(t, UTC))
  {
    FormatCivilReadsBack(Civil(t, UTC));
  }

  /** The layout text of a valid reading of years 0 to 9999 reads back as that reading. */
  lemma FormatCivilReadsBack(c: DateTime)
    requires c.Valid() && 0 <= c.date.year <= 9999
    ensures |FormatCivil(c)| == |Layout|
    ensures ReadBasic(FormatCivil(c)) == Some(c)
  {
    FormatCivilDigits(c);
    ReadDigits(c.date.year, c.date.month, c.date.day, c.hour, c.minute, c.second);
  }

  /** The sixteen characters of the layout text of a reading with in-range fields. */
  function Digits16(y: int, mo: int, d: int, h: int, mi: int, se: int): string
    requires 0 <= y < 10000 && 0 <= mo < 100 && 0 <= d < 100 && 0 <= h < 100 && 0 <= mi < 100 && 0 <= se < 100
  {
    [Digit(y / 1000), Digit(y / 100 % 10), Digit(y / 10 % 10), Digit(y % 10),
     Digit(mo / 10), Digit(mo % 10), Digit(d / 10), Digit(d % 10), 'T',
     Digit(h / 10), Digit(h % 10), Digit(mi / 10), Digit(mi % 10), Digit(se / 10), Digit(se % 10), 'Z']
  }

  lemma FormatCivilDigits(c: DateTime)
    requires c.Valid() && 0 <= c.date.year <= 9999
    ensures FormatCivil(c) == Digits16(c.date.year, c.date.month, c.date.day, c.hour, c.minute, c.second)
  {
    FourDigitField(c.date.year);
    TwoDigitField(c.date.month);
    TwoDigitField(c.date.day);
    TwoDigitField(c.hour);
    TwoDigitField(c.minute);
    TwoDigitField(c.second);
  }

  lemma ReadDigits(y: int, mo: int, d: int, h: int, mi: int, se: int)
    requires 0 <= y < 10000 && 0 <= mo < 100 && 0 <= d < 100 && 0 <= h < 100 && 0 <= mi < 100 && 0 <= se < 100
    ensures |Digits16(y, mo, d, h, mi, se)| == |Layout|
    ensures ReadBasic(Digits16(y, mo, d, h, mi, se)) == Some(DateTime(Date(y, mo, d), h, mi, se))
  {
    var s := Digits16(y, mo, d, h, mi, se);
    FourDigitsAt(s, 0, y);
    TwoDigitsAt(s, 4, mo);
    TwoDigitsAt(s, 6, d);
    TwoDigitsAt(s, 9, h);
    TwoDigitsAt(s, 11, mi);
    TwoDigitsAt(s, 13, se);
  }

  /** An instant named by valid UTC wall-clock fields is written as those fields' digits. */
  lemma FormatOfFields(c: DateTime)
    requires c.Valid() && 0 <= c.date.year <= 9999
    ensures FormatUTC(MakeTime(c.date.year, c.date.month, c.date.day, c.hour, c.minute, c.second, UTC))
         == Digits16(c.date.year, c.date.month, c.date.day, c.hour, c.minute, c.second)
  {
    hide Civil, FormatCivil, MakeTime;
    CivilOfMakeTime(c, UTC);
    FormatCivilDigits(c);
  }

  /** Distinct instants of years 0 to 9999 are written as distinct texts. */
  lemma FormatInjective(a: Instant, b: Instant)
    requires 0 <= Civil(a, UTC).date.year <= 9999 && 0 <= Civil(b, UTC).date.year <= 9999
    requires FormatUTC(a) == FormatUTC(b)
    ensures a == b
  {
    FormatReadsBack(a);
    FormatReadsBack(b);
    MakeTimeOfCivil(a, UTC);
    MakeTimeOfCivil(b, UTC);
  }
}
