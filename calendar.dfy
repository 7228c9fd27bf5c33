/**
 * Calendar dates as day numbers, and the "yyyyMMdd" text form that the
 * command parser reads (DateTime.TryParseExact) and the result printer writes
 * (DateTime.ToString). Day 0 is 0001-01-01 of the proleptic Gregorian
 * calendar, the first day a DateTime can hold; MaxDay is 9999-12-31, the last.
 */
module Calendar {
  import opened Wrappers
  import opened Text

  const MaxDay: int := 3_652_058

  /** The days a DateTime can hold. */
  type Date = d: int | 0 <= d <= MaxDay

  predicate InRange(d: int) { 0 <= d <= MaxDay }

  /** DateTime resolution: 100 ns ticks. */
  const TicksPerDay: int := 864_000_000_000

  /** The last tick of 9999-12-31. */
  const MaxTicks: int := (MaxDay + 1) * TicksPerDay - 1

  predicate IsLeap(y: int) { y % 4 == 0 && (y % 100 != 0 || y % 400 == 0) }

  function YearLength(y: int): int { if IsLeap(y) then 366 else 365 }

  function MonthLength(y: int, m: int): int
    requires 1 <= m <= 12
  {
    if m == 2 then (if IsLeap(y) then 29 else 28)
    else if m == 4 || m == 6 || m == 9 || m == 11 then 30
    else 31
  }

  /** Days from 0001-01-01 to January 1st of year y: the lengths of the years before it. */
  function DaysBeforeYear(y: int): int
    requires y >= 1
    decreases y
  {
    if y == 1 then 0 else DaysBeforeYear(y - 1) + YearLength(y - 1)
  }

  lemma DaysBeforeYearStep(y: int)
    requires y >= 1
    ensures DaysBeforeYear(y + 1) == DaysBeforeYear(y) + YearLength(y)
  {
  }

  /** The closed form: 365 days a year, plus one for every leap year before y. */
  lemma {:induction false} DaysBeforeYearClosed(y: int)
    requires y >= 1
    ensures var p := y - 1; DaysBeforeYear(y) == 365 * p + p / 4 - p / 100 + p / 400
    decreases y
  {
    if y > 1 {
      DaysBeforeYearClosed(y - 1);
      var q := y - 1;
      assert q / 4 == (q - 1) / 4 + (if q % 4 == 0 then 1 else 0);
      assert q / 100 == (q - 1) / 100 + (if q % 100 == 0 then 1 else 0);
      assert q / 400 == (q - 1) / 400 + (if q % 400 == 0 then 1 else 0);
      LeapDivisors(q);
    }
  }

  lemma LeapDivisors(q: int)
    ensures q % 100 == 0 ==> q % 4 == 0
    ensures q % 400 == 0 ==> q % 100 == 0
  {
    if q % 100 == 0 {
      assert q == 4 * (25 * (q / 100));
    }
    if q % 400 == 0 {
      assert q == 100 * (4 * (q / 400));
    }
  }

  lemma {:induction false} DaysBeforeYearMonotonic(y: int, z: int)
    requires 1 <= y <= z
    ensures DaysBeforeYear(y) + (z - y) * 365 <= DaysBeforeYear(z)
    decreases z - y
  {
    if y < z {
      DaysBeforeYearStep(y);
      DaysBeforeYearMonotonic(y + 1, z);
    }
  }

  /** Days from January 1st to the first of month m of year y. */
  function DaysBeforeMonth(y: int, m: int): int
    requires 1 <= m <= 13
    decreases m
  {
    if m == 1 then 0 else DaysBeforeMonth(y, m - 1) + MonthLength(y, m - 1)
  }

  lemma DaysBeforeMonthMonotonic(y: int, m: int, n: int)
    requires 1 <= m <= n <= 13
    ensures DaysBeforeMonth(y, m) + (n - m) * 28 <= DaysBeforeMonth(y, n)
    decreases n - m
  {
    if m < n { DaysBeforeMonthMonotonic(y, m, n - 1); }
  }

  lemma DaysBeforeMonthYear(y: int)
    ensures DaysBeforeMonth(y, 13) == YearLength(y)
  {
  }

  predicate ValidCivil(y: int, m: int, d: int)
  {
    1 <= y <= 9999 && 1 <= m <= 12 && 1 <= d <= MonthLength(y, m)
  }

  /** The day number of a calendar date. */
  function DayNumber(y: int, m: int, d: int): (n: Date)
    requires ValidCivil(y, m, d)
  {
    DayNumberInRange(y, m, d);
    DaysBeforeYear(y) + DaysBeforeMonth(y, m) + d - 1
  }

  lemma DayNumberInRange(y: int, m: int, d: int)
    requires ValidCivil(y, m, d)
    ensures InRange(DaysBeforeYear(y) + DaysBeforeMonth(y, m) + d - 1)
  {
    DaysBeforeYearMonotonic(1, y);
    DayOfYear(y, m, d);
    YearEndInRange(y);
  }

  /** Every year up to 9999 ends within the range of day numbers. */
  lemma YearEndInRange(y: int)
    requires 1 <= y <= 9999
    ensures DaysBeforeYear(y) + YearLength(y) <= MaxDay + 1
  {
    DaysBeforeYearStep(y);
    DaysBeforeYearMonotonic(y + 1, 10000);
    DaysBeforeYearClosed(10000);
  }

  /** The days before a valid date within its own year are fewer than the year's length. */
  lemma DayOfYear(y: int, m: int, d: int)
    requires ValidCivil(y, m, d)
    ensures 0 <= DaysBeforeMonth(y, m) + d - 1 < YearLength(y)
  {
    DaysBeforeMonthMonotonic(y, 1, m);
    DaysBeforeMonthMonotonic(y, m + 1, 13);
    DaysBeforeMonthYear(y);
    assert DaysBeforeMonth(y, m + 1) == DaysBeforeMonth(y, m) + MonthLength(y, m);
  }

  /** The year holding day n, searched upwards from a year that starts no later than n. */
  function YearFrom(n: int, y: int): (r: int)
    requires y >= 1 && DaysBeforeYear(y) <= n
    ensures r >= y && DaysBeforeYear(r) <= n < DaysBeforeYear(r + 1)
    decreases n - DaysBeforeYear(y)
  {
    DaysBeforeYearStep(y);
    if n < DaysBeforeYear(y + 1) then y else YearFrom(n, y + 1)
  }

  /** The month holding day-of-year k, searched upwards from month m. */
  function MonthFrom(y: int, k: int, m: int): (r: int)
    requires 1 <= m <= 12 && DaysBeforeMonth(y, m) <= k < YearLength(y)
    ensures m <= r <= 12 && DaysBeforeMonth(y, r) <= k < DaysBeforeMonth(y, r + 1)
    decreases 12 - m
  {
    if k < DaysBeforeMonth(y, m + 1) then m else MonthFrom(y, k, m + 1)
  }

  datatype Civil = Civil(year: int, month: int, day: int)

  /** The calendar date of day n. */
  function CivilOf(n: Date): (c: Civil)
    ensures ValidCivil(c.year, c.month, c.day)
  {
    var y := YearFrom(n, 1);
    YearFromBelow(n);
    DaysBeforeYearStep(y);
    var k := n - DaysBeforeYear(y);
    var m := MonthFrom(y, k, 1);
    Civil(y, m, k - DaysBeforeMonth(y, m) + 1)
  }

  /** The year search never passes 9999, the last year of the calendar. */
  lemma YearFromBelow(n: Date)
    ensures YearFrom(n, 1) <= 9999
  {
    var y := YearFrom(n, 1);
    if y > 9999 {
      DaysBeforeYearMonotonic(10000, y);
      DaysBeforeYearClosed(10000);
    }
  }

  /** The calendar date of day n lies in the year and month that hold n, and numbers back to n. */
  lemma CivilOfSpec(n: Date)
    ensures var c := CivilOf(n);
            && DayNumber(c.year, c.month, c.day) == n
            && DaysBeforeYear(c.year) <= n < DaysBeforeYear(c.year + 1)
            && DaysBeforeMonth(c.year, c.month) <= n - DaysBeforeYear(c.year) < DaysBeforeMonth(c.year, c.month + 1)
  {
    var y := YearFrom(n, 1);
    YearFromBelow(n);
    DaysBeforeYearStep(y);
  }

  lemma DayNumberBounds(y: int, m: int, d: int)
    requires ValidCivil(y, m, d)
    ensures DaysBeforeYear(y) <= DayNumber(y, m, d) < DaysBeforeYear(y + 1)
    ensures DaysBeforeMonth(y, m) <= DayNumber(y, m, d) - DaysBeforeYear(y) < DaysBeforeMonth(y, m + 1)
  {
    DaysBeforeYearStep(y);
    DaysBeforeMonthMonotonic(y, m + 1, 13);
    DaysBeforeMonthMonotonic(y, 1, m);
    DaysBeforeMonthYear(y);
    assert DaysBeforeMonth(y, m + 1) == DaysBeforeMonth(y, m) + MonthLength(y, m);
  }

  lemma YearUnique(n: int, y: int, z: int)
    requires 1 <= y && 1 <= z
    requires DaysBeforeYear(y) <= n < DaysBeforeYear(y + 1)
    requires DaysBeforeYear(z) <= n < DaysBeforeYear(z + 1)
    ensures y == z
  {
    if y < z { DaysBeforeYearMonotonic(y + 1, z); }
    if z < y { DaysBeforeYearMonotonic(z + 1, y); }
  }

  lemma MonthUnique(y: int, k: int, m: int, l: int)
    requires 1 <= m <= 12 && 1 <= l <= 12
    requires DaysBeforeMonth(y, m) <= k < DaysBeforeMonth(y, m + 1)
    requires DaysBeforeMonth(y, l) <= k < DaysBeforeMonth(y, l + 1)
    ensures m == l
  {
    if m < l { DaysBeforeMonthMonotonic(y, m + 1, l); }
    if l < m { DaysBeforeMonthMonotonic(y, l + 1, m); }
  }

  /** Day numbers name calendar dates one to one. */
  lemma {:induction false} CivilOfDayNumber(y: int, m: int, d: int)
    requires ValidCivil(y, m, d)
    ensures CivilOf(DayNumber(y, m, d)) == Civil(y, m, d)
  {
    var n := DayNumber(y, m, d);
    var c := CivilOf(n);
    CivilOfSpec(n);
    DayNumberBounds(y, m, d);
    YearUnique(n, y, c.year);
    MonthUnique(y, n - DaysBeforeYear(y), m, c.month);
  }

  function DigitChar(v: int): (ch: char)
    requires 0 <= v <= 9
    ensures IsDigit(ch) && DigitValue(ch) == v
  {
    ('0' as int + v) as char
  }

  function Pad2(v: int): (s: string)
    requires 0 <= v <= 99
    ensures |s| == 2 && AllDigits(s)
  {
    [DigitChar(v / 10), DigitChar(v % 10)]
  }

  function Pad4(v: int): (s: string)
    requires 0 <= v <= 9999
    ensures |s| == 4 && AllDigits(s)
  {
    Pad2(v / 100) + Pad2(v % 100)
  }

  function Number2(s: string): int
    requires |s| == 2 && AllDigits(s)
  {
    10 * DigitValue(s[0]) + DigitValue(s[1])
  }

  function Number4(s: string): int
    requires |s| == 4 && AllDigits(s)
  {
    100 * Number2(s[..2]) + Number2(s[2..])
  }

  /** DateTime.ToString("yyyyMMdd"). */
  function Format(n: Date): (s: string)
    ensures |s| == 8 && AllDigits(s)
  {
    var c := CivilOf(n);
    DigitsConcat(Pad4(c.year), Pad2(c.month));
    DigitsConcat(Pad4(c.year) + Pad2(c.month), Pad2(c.day));
    Pad4(c.year) + Pad2(c.month) + Pad2(c.day)
  }

  lemma DigitsConcat(a: string, b: string)
    requires AllDigits(a) && AllDigits(b)
    ensures AllDigits(a + b)
  {
  }

  /**
   * DateTime.TryParseExact(s, "yyyyMMdd", ...) with no styles: exactly eight
   * ASCII digits (no surrounding white space) naming an existing date of
   * years 1 to 9999.
   */
  function Parse(s: string): (r: Option<Date>)
    ensures r.Some? ==> |s| == 8 && AllDigits(s)
  {
    if |s| == 8 && AllDigits(s) then
      var y, m, d := Number4(s[..4]), Number2(s[4..6]), Number2(s[6..]);
      if ValidCivil(y, m, d) then Some(DayNumber(y, m, d)) else None
    else None
  }

  lemma Number4Pad4(v: int)
    requires 0 <= v <= 9999
    ensures Number4(Pad4(v)) == v
  {
    var s := Pad4(v);
    assert s[..2] == Pad2(v / 100) && s[2..] == Pad2(v % 100);
    Number2Pad2(v / 100);
    Number2Pad2(v % 100);
  }

  lemma Number2Pad2(v: int)
    requires 0 <= v <= 99
    ensures Number2(Pad2(v)) == v
  {
  }

  lemma Pad4Number4(s: string)
    requires |s| == 4 && AllDigits(s)
    ensures Pad4(Number4(s)) == s
  {
    var hi, lo := Number2(s[..2]), Number2(s[2..]);
    assert Number4(s) / 100 == hi && Number4(s) % 100 == lo;
    Pad2Number2(s[..2]);
    Pad2Number2(s[2..]);
    assert s == s[..2] + s[2..];
  }

  lemma Pad2Number2(s: string)
    requires |s| == 2 && AllDigits(s)
    ensures Pad2(Number2(s)) == s
  {
  }

  /** Every printed date reads back as the same date. */
  lemma {:induction false} ParseFormat(n: Date)
    ensures Parse(Format(n)) == Some(n)
  {
    var c := CivilOf(n);
    var s := Format(n);
    CivilOfSpec(n);
    assert s[..4] == Pad4(c.year) && s[4..6] == Pad2(c.month) && s[6..] == Pad2(c.day);
    Number4Pad4(c.year);
    Number2Pad2(c.month);
    Number2Pad2(c.day);
  }

  /** Every accepted text is the printed form of the date it denotes. */
  lemma {:induction false} FormatParse(s: string, n: Date)
    requires Parse(s) == Some(n)
    ensures Format(n) == s
  {
    var y, m, d := Number4(s[..4]), Number2(s[4..6]), Number2(s[6..]);
    CivilOfDayNumber(y, m, d);
    Pad4Number4(s[..4]);
    Pad2Number2(s[4..6]);
    Pad2Number2(s[6..]);
    assert s == s[..4] + s[4..6] + s[6..];
  }
}
