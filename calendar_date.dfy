/** Calendar dates written as `Y-m-d`, the complete extended calendar-date
    representation of section 4.1.2.2 of ISO 8601:2004 (`YYYY-MM-DD`), and
    the fact the plugin depends on: for two such strings, comparing them
    character by character orders them as the days they name. */
module CalendarDate {
  import opened PhpString

  /** Three-way comparison of two numbers, in the -1/0/1 convention of
      `PhpString.Compare`. */
  function CompareInt(x: int, y: int): int
  {
    if x < y then -1 else if x == y then 0 else 1
  }

  predicate IsDigit(c: char)
  {
    '0' <= c <= '9'
  }

  predicate AllDigits(s: string)
  {
    forall i :: 0 <= i < |s| ==> IsDigit(s[i])
  }

  function Pow10(n: nat): (p: nat)
    ensures p >= 1
  {
    if n == 0 then 1 else 10 * Pow10(n - 1)
  }

  /** The number that a string of decimal digits spells, most significant
      digit first; it is below ten to the power of the string's length. */
  function DecimalValue(s: string): (v: nat)
    requires AllDigits(s)
    ensures v < Pow10(|s|)
  {
    if s == [] then 0
    else 10 * DecimalValue(s[..|s| - 1]) + (s[|s| - 1] as int - '0' as int)
  }

  function DigitChar(n: nat): (c: char)
    requires n < 10
    ensures IsDigit(c) && c as int - '0' as int == n
  {
    ('0' as int + n) as char
  }

  /** `n` in exactly `width` decimal digits, padded with zeros on the left
      as `date` pads the year, the month and the day. */
  function Decimal(n: nat, width: nat): (s: string)
    requires n < Pow10(width)
    ensures |s| == width && AllDigits(s) && DecimalValue(s) == n
  {
    if width == 0 then ""
    else
      var s := Decimal(n / 10, width - 1) + [DigitChar(n % 10)];
      assert s[..|s| - 1] == Decimal(n / 10, width - 1);
      s
  }

  /** Two digit strings of the same length compare as the numbers they
      spell. */
  lemma {:induction false} CompareDecimal(a: string, b: string)
    requires |a| == |b| && AllDigits(a) && AllDigits(b)
    ensures Compare(a, b) == CompareInt(DecimalValue(a), DecimalValue(b))
  {
    if a != [] {
      var n := |a| - 1;
      CompareDecimal(a[..n], b[..n]);
      assert a == a[..n] + [a[n]] && b == b[..n] + [b[n]];
      CompareConcat(a[..n], [a[n]], b[..n], [b[n]]);
      assert Compare([a[n]], [b[n]]) == CompareInt(a[n] as int, b[n] as int);
    }
  }

  datatype Date = Date(year: nat, month: nat, day: nat)

  /** The leap-year rule of the Gregorian calendar. */
  predicate IsLeapYear(y: nat)
  {
    y % 4 == 0 && (y % 100 != 0 || y % 400 == 0)
  }

  function DaysInMonth(y: nat, m: nat): nat
    requires 1 <= m <= 12
  {
    if m == 2 then (if IsLeapYear(y) then 29 else 28)
    else if m == 4 || m == 6 || m == 9 || m == 11 then 30
    else 31
  }

  /** A day of the proleptic Gregorian calendar whose year `Y` writes in
      four digits. */
  predicate Valid(d: Date)
  {
    d.year <= 9999 && 1 <= d.month <= 12 && 1 <= d.day <= DaysInMonth(d.year, d.month)
  }

  function YearLength(y: nat): nat
  {
    if IsLeapYear(y) then 366 else 365
  }

  /** Days from 0000-01-01 to the first day of year y. */
  function DaysBeforeYear(y: nat): nat
  {
    if y == 0 then 0 else DaysBeforeYear(y - 1) + YearLength(y - 1)
  }

  /** Days from the first of January of year y to the first day of month m;
      m == 13 stands for the first day of the next year. */
  function DaysBeforeMonth(y: nat, m: nat): nat
    requires 1 <= m <= 13
  {
    [0, 31, 59, 90, 120, 151, 181, 212, 243, 273, 304, 334, 365][m - 1]
      + (if IsLeapYear(y) && m > 2 then 1 else 0)
  }

  /** The number of days from 0000-01-01 to d: the position of d in time. */
  function DayNumber(d: Date): nat
    requires Valid(d)
  {
    DaysBeforeYear(d.year) + DaysBeforeMonth(d.year, d.month) + d.day - 1
  }

  /** Calendar order: by year, then month, then day. */
  function CompareDates(d1: Date, d2: Date): int
  {
    if d1.year != d2.year then CompareInt(d1.year, d2.year)
    else if d1.month != d2.month then CompareInt(d1.month, d2.month)
    else CompareInt(d1.day, d2.day)
  }

  /** Every day of month m comes before the first day of any later month
      of the same year (month 13 being the next year). */
  lemma MonthEnds(y: nat, m1: nat, m2: nat)
    requires 1 <= m1 < m2 <= 13
    ensures DaysBeforeMonth(y, m1) + DaysInMonth(y, m1) <= DaysBeforeMonth(y, m2)
  {
  }

  /** Every day of year y1 comes before the first day of any later year. */
  lemma {:induction false} YearEnds(y1: nat, y2: nat)
    requires y1 < y2
    ensures DaysBeforeYear(y1) + YearLength(y1) <= DaysBeforeYear(y2)
  {
    if y1 < y2 - 1 {
      YearEnds(y1, y2 - 1);
    }
  }

  /** Counting days orders two valid dates as the calendar does. */
  lemma DayNumberOrder(d1: Date, d2: Date)
    requires Valid(d1) && Valid(d2)
    ensures CompareInt(DayNumber(d1), DayNumber(d2)) == CompareDates(d1, d2)
  {
    if d1.year < d2.year {
      DayInYear(d1);
      YearEnds(d1.year, d2.year);
    } else if d1.year > d2.year {
      DayInYear(d2);
      YearEnds(d2.year, d1.year);
    } else if d1.month < d2.month {
      MonthEnds(d1.year, d1.month, d2.month);
    } else if d1.month > d2.month {
      MonthEnds(d1.year, d2.month, d1.month);
    }
  }

  /** A valid date falls inside its own year. */
  lemma DayInYear(d: Date)
    requires Valid(d)
    ensures DayNumber(d) < DaysBeforeYear(d.year) + YearLength(d.year)
  {
  }

  /** The shape of a complete extended calendar date: four digits, '-', two
      digits, '-', two digits. */
  predicate Shaped(s: string)
  {
    && |s| == 10
    && AllDigits(s[..4]) && s[4] == '-'
    && AllDigits(s[5..7]) && s[7] == '-'
    && AllDigits(s[8..])
  }

  function Parse(s: string): Date
    requires Shaped(s)
  {
    Date(DecimalValue(s[..4]), DecimalValue(s[5..7]), DecimalValue(s[8..]))
  }

  /** A string that `date('Y-m-d')` can produce: well shaped, naming a day
      that exists. */
  predicate IsIsoDate(s: string)
  {
    Shaped(s) && Valid(Parse(s))
  }

  /** `date('Y-m-d')` for the day d: it writes a well-formed date that
      parses back to d. */
  function Format(d: Date): (s: string)
    requires Valid(d)
    ensures IsIsoDate(s) && Parse(s) == d
  {
    var s := Decimal(d.year, 4) + "-" + Decimal(d.month, 2) + "-" + Decimal(d.day, 2);
    assert s[..4] == Decimal(d.year, 4);
    assert s[5..7] == Decimal(d.month, 2);
    assert s[8..] == Decimal(d.day, 2);
    s
  }

  /** Two strings made of a field, a '-' and a rest, with fields of the
      same length: the fields decide unless they are equal. */
  lemma CompareDashed(x1: string, x2: string, y1: string, y2: string)
    requires |x1| == |y1|
    ensures Compare(x1 + "-" + x2, y1 + "-" + y2) == if x1 == y1 then Compare(x2, y2) else Compare(x1, y1)
  {
    CompareConcat(x1, "-" + x2, y1, "-" + y2);
    CompareConcat("-", x2, "-", y2);
    assert x1 + "-" + x2 == x1 + ("-" + x2);
    assert y1 + "-" + y2 == y1 + ("-" + y2);
  }

  /** A well-shaped string split at its dashes. */
  lemma ShapedParts(s: string)
    requires Shaped(s)
    ensures s == s[..4] + "-" + s[5..]
    ensures s[5..] == s[5..7] + "-" + s[8..]
  {
  }

  /** Comparing two well-shaped strings character by character is
      comparing the year, month and day fields they spell, in that order. */
  lemma CompareShaped(a: string, b: string)
    requires Shaped(a) && Shaped(b)
    ensures Compare(a, b) == CompareDates(Parse(a), Parse(b))
  {
    ShapedParts(a);
    ShapedParts(b);
    CompareDashed(a[..4], a[5..], b[..4], b[5..]);
    CompareDashed(a[5..7], a[8..], b[5..7], b[8..]);
    CompareDecimal(a[..4], b[..4]);
    CompareDecimal(a[5..7], b[5..7]);
    CompareDecimal(a[8..], b[8..]);
  }

  /** For strings `date('Y-m-d')` can produce, byte-wise comparison is
      chronological order: `a >= b` exactly when a's day is b's day or
      later. */
  lemma LexicalIsChronological(a: string, b: string)
    requires IsIsoDate(a) && IsIsoDate(b)
    ensures Compare(a, b) == CompareInt(DayNumber(Parse(a)), DayNumber(Parse(b)))
    ensures AtLeast(a, b) <==> DayNumber(Parse(a)) >= DayNumber(Parse(b))
  {
    CompareShaped(a, b);
    DayNumberOrder(Parse(a), Parse(b));
  }

  /** Parsing a well-formed date and writing it again gives the same
      string: each well-formed string names exactly one day. */
  lemma FormatParse(s: string)
    requires IsIsoDate(s)
    ensures Format(Parse(s)) == s
  {
    CompareShaped(s, Format(Parse(s)));
  }

  /** `date('Y-m-d')` is strictly increasing in time as a string. */
  lemma FormatIsChronological(d1: Date, d2: Date)
    requires Valid(d1) && Valid(d2)
    ensures AtLeast(Format(d1), Format(d2)) <==> DayNumber(d1) >= DayNumber(d2)
    ensures Format(d1) == Format(d2) <==> d1 == d2
  {
    LexicalIsChronological(Format(d1), Format(d2));
  }
}
