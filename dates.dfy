/**
 * Calendar dates as the user service reads and writes them.
 *
 * A birth date arrives as an ISO 8601 calendar date in complete extended
 * form `YYYY-MM-DD` (section 5.2.1.1 of ISO 8601:2004) and is parsed with
 * strict proleptic-Gregorian validation; creation and birth dates are
 * stored in the `dd.MM.yyyy` pattern. Years are restricted to 0001-9999.
 */
module Dates {
  import opened Wrappers

  datatype Date = Date(year: int, month: int, day: int)

  /** Gregorian leap years: divisible by 4, except centuries not divisible by 400. */
  predicate IsLeapYear(y: int) {
    y % 4 == 0 && (y % 100 != 0 || y % 400 == 0)
  }

  function DaysInMonth(year: int, month: int): (n: int)
    requires 1 <= month <= 12
    ensures 28 <= n <= 31
    ensures n == 29 <==> month == 2 && IsLeapYear(year)
  {
    if month == 2 then (if IsLeapYear(year) then 29 else 28)
    else if month == 4 || month == 6 || month == 9 || month == 11 then 30
    else 31
  }

  /** A real calendar day with a four-digit year. */
  predicate ValidDate(d: Date) {
    && 1 <= d.year <= 9999
    && 1 <= d.month <= 12
    && 1 <= d.day <= DaysInMonth(d.year, d.month)
  }

  // ---------------------------------------------------------------------
  // Decimal digit strings

  predicate IsDigit(c: char) {
    '0' <= c <= '9'
  }

  predicate AllDigits(s: string) {
    forall i :: 0 <= i < |s| ==> IsDigit(s[i])
  }

  function DigitValue(c: char): (n: nat)
    requires IsDigit(c)
    ensures n < 10
  {
    c as int - '0' as int
  }

  function DigitChar(n: nat): (c: char)
    requires n < 10
    ensures IsDigit(c) && DigitValue(c) == n
  {
    ('0' as int + n) as char
  }

  function Pow10(n: nat): (p: nat)
    ensures p >= 1
  {
    if n == 0 then 1 else 10 * Pow10(n - 1)
  }

  /** The number a string of decimal digits denotes, most significant first. */
  function Value(s: string): nat
    requires AllDigits(s)
  {
    if s == [] then 0 else 10 * Value(s[..|s| - 1]) + DigitValue(s[|s| - 1])
  }

  /** The `width` low-order decimal digits of `n`, zero-padded on the left. */
  function Padded(n: nat, width: nat): (s: string)
    ensures |s| == width && AllDigits(s)
  {
    if width == 0 then [] else Padded(n / 10, width - 1) + [DigitChar(n % 10)]
  }

  /** Padding a number that fits in `width` digits loses nothing. */
  lemma {:induction false} ValueOfPadded(n: nat, width: nat)
    requires n < Pow10(width)
    ensures Value(Padded(n, width)) == n
  {
    if width > 0 {
      var s := Padded(n, width);
      var prefix, last := Padded(n / 10, width - 1), DigitChar(n % 10);
      DropLastDigit(n, width);
      ValueOfPadded(n / 10, width - 1);
      assert s == prefix + [last];
      assert s[..|s| - 1] == prefix && s[|s| - 1] == last;
      assert Value(s) == 10 * Value(prefix) + DigitValue(last);
    }
  }

  /** Dropping the last digit of a `width`-digit number leaves a `width - 1`-digit one. */
  lemma DropLastDigit(n: nat, width: nat)
    requires 0 < width && n < Pow10(width)
    ensures n / 10 < Pow10(width - 1)
  {
  }

  /** Reading a digit string and padding it back to its width gives it back. */
  lemma {:induction false} PaddedOfValue(s: string)
    requires AllDigits(s)
    ensures Padded(Value(s), |s|) == s
  {
    if s != [] {
      var prefix := s[..|s| - 1];
      PaddedOfValue(prefix);
      var v := Value(s);
      assert v / 10 == Value(prefix) && v % 10 == DigitValue(s[|s| - 1]);
      assert s == prefix + [s[|s| - 1]];
    }
  }

  /** Decimal notation of a natural number, without leading zeros. */
  function Decimal(n: nat): (s: string)
    ensures |s| >= 1 && AllDigits(s)
  {
    if n < 10 then [DigitChar(n)] else Decimal(n / 10) + [DigitChar(n % 10)]
  }

  /**
   * Decimal notation reads back as the number, and it starts with a zero
   * only when it is the notation of zero itself.
   */
  lemma {:induction false} DecimalReadsBack(n: nat)
    ensures Value(Decimal(n)) == n
    ensures Decimal(n)[0] == '0' <==> n == 0
  {
    if n >= 10 {
      var s, prefix := Decimal(n), Decimal(n / 10);
      DecimalReadsBack(n / 10);
      assert s[..|s| - 1] == prefix && s[0] == prefix[0];
    }
  }

  /** Decimal notation of an integer, as Java's `%d` writes it. */
  function SignedDecimal(n: int): (s: string)
    ensures |s| >= 1
  {
    if n < 0 then "-" + Decimal(-n) else Decimal(n)
  }

  /**
   * Signed notation is a minus sign exactly for negative numbers, followed by
   * the digits of the magnitude without leading zeros.
   */
  lemma SignedDecimalReadsBack(n: int)
    ensures var s := SignedDecimal(n); var digits := if n < 0 then s[1..] else s;
      && (s[0] == '-' <==> n < 0)
      && |digits| >= 1 && AllDigits(digits)
      && Value(digits) == (if n < 0 then -n else n)
      && (digits[0] == '0' <==> n == 0)
  {
    var m := if n < 0 then -n else n;
    DecimalReadsBack(m);
    if n < 0 {
      assert SignedDecimal(n)[1..] == Decimal(m);
    }
  }

  // ---------------------------------------------------------------------
  // ISO 8601 input and `dd.MM.yyyy` output

  /** The complete extended form `YYYY-MM-DD` of a date. */
  function FormatIso(d: Date): (s: string)
    requires ValidDate(d)
    ensures |s| == 10 && s[4] == '-' && s[7] == '-'
  {
    Padded(d.year, 4) + "-" + Padded(d.month, 2) + "-" + Padded(d.day, 2)
  }

  /**
   * Strict parse of `YYYY-MM-DD`: exactly four year digits, two month
   * digits and two day digits separated by hyphens, and a day that exists
   * in the Gregorian calendar.
   */
  function ParseIso(s: string): (r: Option<Date>)
    ensures r.Some? ==> ValidDate(r.value) && |s| == 10
  {
    if |s| == 10 && s[4] == '-' && s[7] == '-'
       && AllDigits(s[..4]) && AllDigits(s[5..7]) && AllDigits(s[8..])
    then
      var d := Date(Value(s[..4]), Value(s[5..7]), Value(s[8..]));
      if ValidDate(d) then Some(d) else None
    else None
  }

  /** The shape of a `dd.MM.yyyy` string. */
  predicate IsDottedForm(s: string) {
    && |s| == 10 && s[2] == '.' && s[5] == '.'
    && AllDigits(s[..2]) && AllDigits(s[3..5]) && AllDigits(s[6..])
  }

  /** Where the three groups of `a`, `b` and `c` sit once joined by a separator. */
  lemma GroupsOf(a: string, b: string, c: string, sep: char)
    ensures var s := a + [sep] + b + [sep] + c;
      && s[..|a|] == a && s[|a|] == sep
      && s[|a| + 1..|a| + 1 + |b|] == b && s[|a| + 1 + |b|] == sep
      && s[|a| + |b| + 2..] == c
  {
  }

  /** The `dd.MM.yyyy` rendering used for creation and birth dates. */
  function FormatDotted(d: Date): (s: string)
    requires ValidDate(d)
    ensures |s| == 10
  {
    Padded(d.day, 2) + "." + Padded(d.month, 2) + "." + Padded(d.year, 4)
  }

  /** A rendered date has the `dd.MM.yyyy` shape, and its groups read back as day, month and year. */
  lemma FormatDottedFields(d: Date)
    requires ValidDate(d)
    ensures var s := FormatDotted(d);
      && IsDottedForm(s)
      && Value(s[..2]) == d.day && Value(s[3..5]) == d.month && Value(s[6..]) == d.year
  {
    GroupsOf(Padded(d.day, 2), Padded(d.month, 2), Padded(d.year, 4), '.');
    ValueOfPadded(d.day, 2);
    ValueOfPadded(d.month, 2);
    ValueOfPadded(d.year, 4);
  }

  /** Parsing the ISO form of a valid date gives that date back. */
  lemma ParseFormatIso(d: Date)
    requires ValidDate(d)
    ensures ParseIso(FormatIso(d)) == Some(d)
  {
    GroupsOf(Padded(d.year, 4), Padded(d.month, 2), Padded(d.day, 2), '-');
    ValueOfPadded(d.year, 4);
    ValueOfPadded(d.month, 2);
    ValueOfPadded(d.day, 2);
  }

  /** A string the parser accepts is the ISO form of the date it yields. */
  lemma FormatParseIso(s: string)
    requires ParseIso(s).Some?
    ensures ValidDate(ParseIso(s).value) && FormatIso(ParseIso(s).value) == s
  {
    PaddedOfValue(s[..4]);
    PaddedOfValue(s[5..7]);
    PaddedOfValue(s[8..]);
    assert s == s[..4] + "-" + s[5..7] + "-" + s[8..];
  }

  /** The parser accepts exactly the ISO forms of valid dates. */
  lemma ParseIsoExact(s: string, d: Date)
    ensures ParseIso(s) == Some(d) <==> ValidDate(d) && s == FormatIso(d)
  {
    if ParseIso(s) == Some(d) {
      FormatParseIso(s);
    }
    if ValidDate(d) && s == FormatIso(d) {
      ParseFormatIso(d);
    }
  }

  /** Two valid dates with the same `dd.MM.yyyy` rendering are the same date. */
  lemma FormatDottedInjective(d1: Date, d2: Date)
    requires ValidDate(d1) && ValidDate(d2)
    requires FormatDotted(d1) == FormatDotted(d2)
    ensures d1 == d2
  {
    FormatDottedFields(d1);
    FormatDottedFields(d2);
  }

  /**
   * Re-emitting an accepted ISO date as `dd.MM.yyyy` only rearranges its
   * three digit groups: `YYYY-MM-DD` becomes `DD.MM.YYYY`.
   */
  lemma IsoToDotted(s: string)
    requires ParseIso(s).Some?
    ensures FormatDotted(ParseIso(s).value) == s[8..] + "." + s[5..7] + "." + s[..4]
  {
    PaddedOfValue(s[..4]);
    PaddedOfValue(s[5..7]);
    PaddedOfValue(s[8..]);
  }

  /** Two digits read as a number. */
  lemma ValueOfTwo(s: string)
    requires |s| == 2 && AllDigits(s)
    ensures Value(s) == 10 * DigitValue(s[0]) + DigitValue(s[1])
  {
    assert Value(s) == 10 * Value(s[..1]) + DigitValue(s[1]);
    assert s[..1][..0] == [];
  }

  /** Four digits read as a number. */
  lemma ValueOfFour(s: string)
    requires |s| == 4 && AllDigits(s)
    ensures Value(s) == 1000 * DigitValue(s[0]) + 100 * DigitValue(s[1]) + 10 * DigitValue(s[2]) + DigitValue(s[3])
  {
    var p := s[..3];
    assert Value(s) == 10 * Value(p) + DigitValue(s[3]);
    assert p[..2] == s[..2] && Value(p) == 10 * Value(s[..2]) + DigitValue(s[2]);
    ValueOfTwo(s[..2]);
  }

  /** What the parser makes of ten characters of the form `dddd-dd-dd`. */
  lemma ParseIsoDigits(s: string)
    requires |s| == 10 && s[4] == '-' && s[7] == '-'
    requires forall i :: 0 <= i < 10 && i != 4 && i != 7 ==> IsDigit(s[i])
    ensures var d := Date(1000 * DigitValue(s[0]) + 100 * DigitValue(s[1]) + 10 * DigitValue(s[2]) + DigitValue(s[3]),
                          10 * DigitValue(s[5]) + DigitValue(s[6]),
                          10 * DigitValue(s[8]) + DigitValue(s[9]));
      ParseIso(s) == if ValidDate(d) then Some(d) else None
  {
    ValueOfFour(s[..4]);
    ValueOfTwo(s[5..7]);
    ValueOfTwo(s[8..]);
  }

  /** The birth date "1990-05-01" reads as 1 May 1990. */
  lemma ExampleBirthDate()
    ensures ParseIso("1990-05-01") == Some(Date(1990, 5, 1))
  {
    ParseIsoDigits("1990-05-01");
  }

  /** "1990-05-01" is written back as "01.05.1990". */
  lemma ExampleDotted()
    ensures FormatDotted(Date(1990, 5, 1)) == "01.05.1990"
  {
  }

  /** Strict validation accepts February 29 in a leap year. */
  lemma ExampleLeapDay()
    ensures ParseIso("2024-02-29") == Some(Date(2024, 2, 29))
  {
    ParseIsoDigits("2024-02-29");
  }

  /** February 29 of a century year not divisible by 400 does not exist. */
  lemma ExampleCenturyNotLeap()
    ensures ParseIso("1900-02-29").None?
  {
    ParseIsoDigits("1900-02-29");
  }

  /** April has 30 days. */
  lemma ExampleNoSuchDay()
    ensures ParseIso("2023-04-31").None?
  {
    ParseIsoDigits("2023-04-31");
  }

  /** Months run from 01 to 12. */
  lemma ExampleNoSuchMonth()
    ensures ParseIso("2023-13-01").None?
  {
    ParseIsoDigits("2023-13-01");
  }

  /** Only the complete extended form is accepted: no short fields, no trailing text. */
  lemma ExampleWrongShape()
    ensures ParseIso("1990-5-01").None? && ParseIso("1990-05-01 ").None?
  {
  }
}
