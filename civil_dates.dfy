/**
 * The proleptic Gregorian calendar of ECMAScript's Date (section 21.4.1 of
 * ECMA-262): civil dates, their day numbers counted from 1970-01-01, moving
 * by whole days, and the day of the week.
 */
module CivilDates {

  datatype Civil = Civil(year: int, month: int, day: int)

  predicate IsLeap(y: int) {
    y % 4 == 0 && (y % 100 != 0 || y % 400 == 0)
  }

  function DaysInYear(y: int): int {
    if IsLeap(y) then 366 else 365
  }

  function DaysInMonth(y: int, m: int): (n: int)
    requires 1 <= m <= 12
    ensures 28 <= n <= 31
  {
    if m == 2 then (if IsLeap(y) then 29 else 28)
    else if m == 4 || m == 6 || m == 9 || m == 11 then 30
    else 31
  }

  /** A month 1..12 and a day that exists in it. */
  predicate Valid(c: Civil) {
    1 <= c.month <= 12 && 1 <= c.day <= DaysInMonth(c.year, c.month)
  }

  /** DayFromYear: days from 1970-01-01 to the first of January of `y`. */
  function DaysBeforeYear(y: int): int {
    365 * (y - 1970) + (y - 1969) / 4 - (y - 1901) / 100 + (y - 1601) / 400
  }

  /** Days of the year that come before the first of month `m`. */
  function DaysBeforeMonth(y: int, m: int): (n: int)
    requires 1 <= m <= 12
    ensures 0 <= n && n + DaysInMonth(y, m) <= DaysInYear(y)
  {
    var base := [0, 31, 59, 90, 120, 151, 181, 212, 243, 273, 304, 334][m - 1];
    if m > 2 && IsLeap(y) then base + 1 else base
  }

  /** The number of days from 1970-01-01 to `c` (negative before it). */
  function DayNumber(c: Civil): int
    requires 1 <= c.month <= 12
  {
    DaysBeforeYear(c.year) + DaysBeforeMonth(c.year, c.month) + c.day - 1
  }

  /** Day of the week, 0 for Sunday; 1970-01-01 was a Thursday. */
  function Weekday(c: Civil): (w: int)
    requires 1 <= c.month <= 12
    ensures 0 <= w < 7
  {
    WeekdayOfNumber(DayNumber(c))
  }

  /** The weekday of day number `n`. */
  function WeekdayOfNumber(n: int): (w: int)
    ensures 0 <= w < 7
  {
    (n + 4) % 7
  }

  lemma YearStep(y: int)
    ensures DaysBeforeYear(y + 1) == DaysBeforeYear(y) + DaysInYear(y)
  {
    QuadStep(y);
    CenturyStep(y);
    QuadCenturyStep(y);
    DivisibilityChain(y);
    var q := (y - 1968) / 4 - (y - 1969) / 4;
    var c := (y - 1900) / 100 - (y - 1901) / 100;
    var qc := (y - 1600) / 400 - (y - 1601) / 400;
    assert DaysBeforeYear(y + 1) - DaysBeforeYear(y) == 365 + q - c + qc;
  }

  lemma DivisibilityChain(y: int)
    ensures y % 400 == 0 ==> y % 100 == 0
    ensures y % 100 == 0 ==> y % 4 == 0
  {
    if y % 400 == 0 {
      MultipleOf400(y);
    }
    if y % 100 == 0 {
      MultipleOf100(y);
    }
  }

  lemma MultipleOf400(y: int)
    requires y % 400 == 0
    ensures y % 100 == 0
  {
    var k := y / 400;
    assert y == 100 * (4 * k);
  }

  lemma MultipleOf100(y: int)
    requires y % 100 == 0
    ensures y % 4 == 0
  {
    var k := y / 100;
    assert y == 4 * (25 * k);
  }

  lemma QuadStep(y: int)
    ensures (y - 1968) / 4 - (y - 1969) / 4 == if y % 4 == 0 then 1 else 0
  {
  }

  lemma CenturyStep(y: int)
    ensures (y - 1900) / 100 - (y - 1901) / 100 == if y % 100 == 0 then 1 else 0
  {
  }

  lemma QuadCenturyStep(y: int)
    ensures (y - 1600) / 400 - (y - 1601) / 400 == if y % 400 == 0 then 1 else 0
  {
  }

  /** Every day of an earlier year comes before every day of a later one. */
  lemma {:induction false} YearsIncrease(y1: int, y2: int)
    requires y1 < y2
    ensures DaysBeforeYear(y1) + DaysInYear(y1) <= DaysBeforeYear(y2)
    decreases y2 - y1
  {
    YearStep(y1);
    if y1 + 1 < y2 {
      YearsIncrease(y1 + 1, y2);
    }
  }

  lemma MonthStep(y: int, m: int)
    requires 1 <= m < 12
    ensures DaysBeforeMonth(y, m + 1) == DaysBeforeMonth(y, m) + DaysInMonth(y, m)
  {
  }

  /** The day after a valid date. */
  function NextDay(c: Civil): (r: Civil)
    requires Valid(c)
    ensures Valid(r) && DayNumber(r) == DayNumber(c) + 1
  {
    if c.day < DaysInMonth(c.year, c.month) then
      NextInMonth(c);
      Civil(c.year, c.month, c.day + 1)
    else if c.month < 12 then
      NextMonth(c);
      Civil(c.year, c.month + 1, 1)
    else
      NextYear(c);
      Civil(c.year + 1, 1, 1)
  }

  lemma NextInMonth(c: Civil)
    requires Valid(c) && c.day < DaysInMonth(c.year, c.month)
    ensures Valid(Civil(c.year, c.month, c.day + 1))
    ensures DayNumber(Civil(c.year, c.month, c.day + 1)) == DayNumber(c) + 1
  {
  }

  lemma NextMonth(c: Civil)
    requires Valid(c) && c.day == DaysInMonth(c.year, c.month) && c.month < 12
    ensures DayNumber(Civil(c.year, c.month + 1, 1)) == DayNumber(c) + 1
  {
    MonthStep(c.year, c.month);
  }

  lemma NextYear(c: Civil)
    requires Valid(c) && c.month == 12 && c.day == 31
    ensures DayNumber(Civil(c.year + 1, 1, 1)) == DayNumber(c) + 1
  {
    YearStep(c.year);
  }

  /** The day before a valid date. */
  function PrevDay(c: Civil): (r: Civil)
    requires Valid(c)
    ensures Valid(r) && DayNumber(r) == DayNumber(c) - 1
  {
    if c.day > 1 then
      PrevInMonth(c);
      Civil(c.year, c.month, c.day - 1)
    else if c.month > 1 then
      PrevMonth(c);
      Civil(c.year, c.month - 1, DaysInMonth(c.year, c.month - 1))
    else
      PrevYear(c);
      Civil(c.year - 1, 12, 31)
  }

  lemma PrevInMonth(c: Civil)
    requires Valid(c) && c.day > 1
    ensures Valid(Civil(c.year, c.month, c.day - 1))
    ensures DayNumber(Civil(c.year, c.month, c.day - 1)) == DayNumber(c) - 1
  {
  }

  lemma PrevMonth(c: Civil)
    requires Valid(c) && c.day == 1 && c.month > 1
    ensures DayNumber(Civil(c.year, c.month - 1, DaysInMonth(c.year, c.month - 1))) == DayNumber(c) - 1
  {
    MonthStep(c.year, c.month - 1);
  }

  lemma PrevYear(c: Civil)
    requires Valid(c) && c.month == 1 && c.day == 1
    ensures DayNumber(Civil(c.year - 1, 12, 31)) == DayNumber(c) - 1
  {
    YearStep(c.year - 1);
  }

  /** The date `n` days after (or, for negative `n`, before) `c`. */
  function AddDays(c: Civil, n: int): (r: Civil)
    requires Valid(c)
    ensures Valid(r) && DayNumber(r) == DayNumber(c) + n
    decreases if n >= 0 then n else -n
  {
    if n == 0 then c
    else if n > 0 then AddDays(NextDay(c), n - 1)
    else AddDays(PrevDay(c), n + 1)
  }

  /** The calendar's order: by year, then month, then day. */
  predicate Before(a: Civil, b: Civil) {
    a.year < b.year
    || (a.year == b.year && a.month < b.month)
    || (a.year == b.year && a.month == b.month && a.day < b.day)
  }

  lemma BeforeHasSmallerDayNumber(a: Civil, b: Civil)
    requires Valid(a) && Valid(b) && Before(a, b)
    ensures DayNumber(a) < DayNumber(b)
  {
    if a.year < b.year {
      YearsIncrease(a.year, b.year);
    } else if a.month < b.month {
      assert DaysBeforeMonth(a.year, a.month) + DaysInMonth(a.year, a.month) <= DaysBeforeMonth(b.year, b.month);
    }
  }

  /** Day numbers follow the calendar exactly, in both directions. */
  lemma DayNumberOrder(a: Civil, b: Civil)
    requires Valid(a) && Valid(b)
    ensures DayNumber(a) < DayNumber(b) <==> Before(a, b)
    ensures DayNumber(a) == DayNumber(b) <==> a == b
  {
    if Before(a, b) {
      BeforeHasSmallerDayNumber(a, b);
    } else if Before(b, a) {
      BeforeHasSmallerDayNumber(b, a);
    }
  }

  /** Distinct valid dates have distinct day numbers. */
  lemma DayNumberInjective(a: Civil, b: Civil)
    requires Valid(a) && Valid(b) && DayNumber(a) == DayNumber(b)
    ensures a == b
  {
    DayNumberOrder(a, b);
  }

  /** Moving by days composes. */
  lemma AddDaysAdd(c: Civil, m: int, n: int)
    requires Valid(c)
    ensures AddDays(AddDays(c, m), n) == AddDays(c, m + n)
  {
    DayNumberInjective(AddDays(AddDays(c, m), n), AddDays(c, m + n));
  }

  /** Moving by `n` days moves the weekday by `n` modulo 7. */
  lemma WeekdayAddDays(c: Civil, n: int)
    requires Valid(c)
    ensures Weekday(AddDays(c, n)) == (Weekday(c) + n) % 7
  {
    WeekdayOfNumberShift(DayNumber(c), n, DayNumber(AddDays(c, n)));
  }

  lemma WeekdayOfNumberShift(k: int, n: int, j: int)
    requires j == k + n
    ensures WeekdayOfNumber(j) == (WeekdayOfNumber(k) + n) % 7
  {
    ModShift(k + 4, n);
  }

  lemma ModShift(d: int, n: int)
    ensures (d + n) % 7 == (d % 7 + n) % 7
  {
    ModSeven(d % 7 + n, d / 7);
    assert d + n == d % 7 + n + 7 * (d / 7);
  }

  lemma ModSeven(x: int, k: int)
    ensures (x + 7 * k) % 7 == x % 7
  {
    var y := x + 7 * k;
    assert y == 7 * (y / 7) + y % 7;
    assert x == 7 * (x / 7) + x % 7;
    assert 7 * (y / 7 - x / 7 - k) == x % 7 - y % 7;
  }

  /** Saturday (6) and Sunday (0). */
  predicate IsWeekend(c: Civil)
    requires 1 <= c.month <= 12
  {
    Weekday(c) == 6 || Weekday(c) == 0
  }

  /**
   * The weekend roll-back shared by the packing reports: Saturday moves back
   * one day, Sunday two, every other day stays.
   */
  function RollBackWeekend(c: Civil): (r: Civil)
    requires Valid(c)
    ensures Valid(r)
  {
    var w := Weekday(c);
    if w == 6 then AddDays(c, -1) else if w == 0 then AddDays(c, -2) else c
  }

  /** The rolled-back date is a weekday, and a Friday when it moved. */
  lemma RollBackIsWeekday(c: Civil)
    requires Valid(c)
    ensures !IsWeekend(RollBackWeekend(c))
    ensures IsWeekend(c) ==> Weekday(RollBackWeekend(c)) == 5
    ensures !IsWeekend(c) ==> RollBackWeekend(c) == c
    ensures DayNumber(c) - 2 <= DayNumber(RollBackWeekend(c)) <= DayNumber(c)
  {
    if Weekday(c) == 6 {
      BackToFriday(c, -1);
    } else if Weekday(c) == 0 {
      BackToFriday(c, -2);
    }
  }

  /** One day before a Saturday, or two before a Sunday, is a Friday. */
  lemma BackToFriday(c: Civil, n: int)
    requires Valid(c) && ((Weekday(c) == 6 && n == -1) || (Weekday(c) == 0 && n == -2))
    ensures Weekday(AddDays(c, n)) == 5
  {
    WeekdayAddDays(c, n);
    FridayBefore(Weekday(c), n);
  }

  lemma FridayBefore(w: int, n: int)
    requires (w == 6 && n == -1) || (w == 0 && n == -2)
    ensures (w + n) % 7 == 5
  {
  }

  /** Bounds of the day numbers of four-digit years (0000-01-01 .. 9999-12-31). */
  lemma FourDigitYearRange(c: Civil)
    requires Valid(c) && 0 <= c.year <= 9999
    ensures -719528 <= DayNumber(c) <= 2932896
  {
    if Before(Civil(0, 1, 1), c) {
      BeforeHasSmallerDayNumber(Civil(0, 1, 1), c);
    }
    if Before(c, Civil(9999, 12, 31)) {
      BeforeHasSmallerDayNumber(c, Civil(9999, 12, 31));
    }
  }
}
