/**
 * ECMAScript Date objects on a host whose local time zone is UTC
 * (section 21.4 of ECMA-262). A Date holds either NaN ("Invalid Date") or an
 * instant: a valid civil day and the milliseconds into it, whose time value
 * lies within the range TimeClip allows (plus or minus 8.64e15 ms).
 */
module JsDates {
  import opened Wrappers
  import opened Strings
  import opened JsNumbers
  import opened CivilDates

  const MsPerDay: int := 86_400_000
  const MaxTime: int := 8_640_000_000_000_000

  datatype DateValue = Invalid | Instant(day: Civil, ms: int)

  /** The time value of an instant: milliseconds since 1970-01-01T00:00Z. */
  function Millis(c: Civil, ms: int): int
    requires 1 <= c.month <= 12
  {
    DayNumber(c) * MsPerDay + ms
  }

  predicate WellFormed(d: DateValue) {
    d.Invalid? || (Valid(d.day) && 0 <= d.ms < MsPerDay && -MaxTime <= Millis(d.day, d.ms) <= MaxTime)
  }

  type JsDate = d: DateValue | WellFormed(d) witness Invalid

  /** `d.getTime()` / `d.valueOf()`. */
  function TimeValue(d: JsDate): (t: Num)
    ensures t.NaN? <==> d.Invalid?
    ensures d.Instant? ==> t == Int(Millis(d.day, d.ms))
  {
    if d.Invalid? then NaN else Int(Millis(d.day, d.ms))
  }

  /** Two Dates with the same time value are the same Date. */
  lemma TimeValueInjective(a: JsDate, b: JsDate)
    requires a.Instant? && b.Instant? && TimeValue(a) == TimeValue(b)
    ensures a == b
  {
    assert DayNumber(a.day) == DayNumber(b.day);
    DayNumberInjective(a.day, b.day);
  }

  /**
   * MakeDate followed by TimeClip: the instant `t` milliseconds (any
   * integer, carried into days) after the start of day `c`, or Invalid when
   * that is out of range.
   */
  function MakeDate(c: Civil, t: int): (r: JsDate)
    requires Valid(c)
    ensures r.Instant? <==> -MaxTime <= Millis(c, 0) + t <= MaxTime
    ensures r.Instant? ==> Millis(r.day, r.ms) == Millis(c, 0) + t
  {
    var c2 := AddDays(c, t / MsPerDay);
    var ms := t % MsPerDay;
    assert Millis(c2, ms) == Millis(c, 0) + t;
    if -MaxTime <= Millis(c, 0) + t <= MaxTime then Instant(c2, ms) else Invalid
  }

  /** 1970-01-01, the day time values count from. */
  const Epoch: Civil := Civil(1970, 1, 1)

  /**
   * `new Date(t)` for a number `t`: TimeClip keeps the time values within
   * 8.64e15 milliseconds of the epoch and makes every other one Invalid Date.
   */
  function DateOfTime(t: Num): (r: JsDate)
    ensures r.Instant? <==> t.Int? && -MaxTime <= t.value <= MaxTime
    ensures r.Instant? ==> TimeValue(r) == t
  {
    assert Valid(Epoch) && Millis(Epoch, 0) == 0;
    if t.NaN? then Invalid else MakeDate(Epoch, t.value)
  }

  /** `new Date(d.getTime())` is `d` again. */
  lemma DateOfTimeValue(d: JsDate)
    ensures DateOfTime(TimeValue(d)) == d
  {
    if d.Instant? {
      TimeValueInjective(DateOfTime(TimeValue(d)), d);
    }
  }

  /** A day at midnight is representable when its day number is within 10^8. */
  predicate InRange(c: Civil)
    requires 1 <= c.month <= 12
  {
    -100_000_000 <= DayNumber(c) <= 100_000_000
  }

  lemma MakeDateOfDay(c: Civil, n: int)
    requires Valid(c) && Valid(AddDays(c, n)) && InRange(AddDays(c, n))
    ensures MakeDate(c, n * MsPerDay) == Instant(AddDays(c, n), 0)
  {
    var e := AddDays(c, n);
    MidnightWellFormed(e);
    MillisAddDays(c, n);
    var r := MakeDate(c, n * MsPerDay);
    TimeValueInjective(r, Instant(e, 0));
  }

  /** Midnight of an in-range day is a representable Date. */
  lemma MidnightWellFormed(c: Civil)
    requires Valid(c) && InRange(c)
    ensures WellFormed(Instant(c, 0))
  {
  }

  lemma MillisAddDays(c: Civil, n: int)
    requires Valid(c)
    ensures Millis(AddDays(c, n), 0) == Millis(c, 0) + n * MsPerDay
  {
  }

  /**
   * `new Date(Date.UTC(y, m, d))` and, on a UTC host, `new Date(y, m, d)`:
   * months count from 0 and overflow into years, days overflow into months,
   * a year 0..99 means 1900..1999, and any NaN argument gives Invalid Date.
   */
  function DateUtc(y: Num, m: Num, d: Num): (r: JsDate)
    ensures y.NaN? || m.NaN? || d.NaN? ==> r.Invalid?
  {
    if y.NaN? || m.NaN? || d.NaN? then Invalid
    else DateOfFields(ConstructorYear(y.value), m.value, d.value)
  }

  /** `Date.UTC` of whole-day arguments is a midnight. */
  lemma DateUtcMidnight(y: Num, m: Num, d: Num)
    ensures DateUtc(y, m, d).Instant? ==> DateUtc(y, m, d).ms == 0
  {
    if !(y.NaN? || m.NaN? || d.NaN?) {
      assert ((d.value - 1) * MsPerDay) % MsPerDay == 0;
    }
  }

  /** The constructor reads a year from 0 to 99 as 1900 to 1999. */
  function ConstructorYear(y: int): (r: int)
    ensures 0 <= y <= 99 ==> r == 1900 + y
    ensures !(0 <= y <= 99) ==> r == y
  {
    if 0 <= y <= 99 then 1900 + y else y
  }

  /**
   * The day `d` (counting from 1, overflowing into later months) of month
   * `m` (counting from 0, overflowing into later years) of `year`.
   */
  function DateOfFields(year: int, m: int, d: int): (r: JsDate)
    ensures r.Instant? ==> Millis(r.day, r.ms) == Millis(Civil(year + m / 12, m % 12 + 1, 1), 0) + (d - 1) * MsPerDay
  {
    MakeDate(Civil(year + m / 12, m % 12 + 1, 1), (d - 1) * MsPerDay)
  }

  /** Midnight of a valid civil date given by its own fields. */
  lemma DateUtcOfCivil(c: Civil)
    requires Valid(c) && InRange(c) && !(0 <= c.year <= 99)
    ensures DateUtc(Int(c.year), Int(c.month - 1), Int(c.day)) == Instant(c, 0)
  {
    DateUtcOfInts(c.year, c.month - 1, c.day);
    KeptYear(c.year, c.month - 1, c.day);
    MidnightOfFields(c);
  }

  lemma KeptYear(y: int, m: int, d: int)
    requires !(0 <= y <= 99)
    ensures DateOfFields(ConstructorYear(y), m, d) == DateOfFields(y, m, d)
  {
  }

  lemma DateUtcOfInts(y: int, m: int, d: int)
    ensures DateUtc(Int(y), Int(m), Int(d)) == DateOfFields(ConstructorYear(y), m, d)
  {
  }

  lemma MidnightOfFields(c: Civil)
    requires Valid(c) && InRange(c)
    ensures DateOfFields(c.year, c.month - 1, c.day) == Instant(c, 0)
  {
    FieldsInMonth(c.year, c.month, c.day);
    MidnightFromFirstOfMonth(c);
  }

  lemma FieldsInMonth(y: int, m: int, d: int)
    requires 1 <= m <= 12
    ensures DateOfFields(y, m - 1, d) == MakeDate(Civil(y, m, 1), (d - 1) * MsPerDay)
  {
    MonthFieldsInYear(y, m);
  }

  lemma MonthFieldsInYear(y: int, m: int)
    requires 1 <= m <= 12
    ensures Civil(y + (m - 1) / 12, (m - 1) % 12 + 1, 1) == Civil(y, m, 1)
  {
  }

  lemma MidnightFromFirstOfMonth(c: Civil)
    requires Valid(c) && InRange(c)
    ensures MakeDate(Civil(c.year, c.month, 1), (c.day - 1) * MsPerDay) == Instant(c, 0)
  {
    var first := Civil(c.year, c.month, 1);
    DaysIntoMonth(c);
    MakeDateOfDay(first, c.day - 1);
  }

  lemma DaysIntoMonth(c: Civil)
    requires Valid(c)
    ensures AddDays(Civil(c.year, c.month, 1), c.day - 1) == c
  {
    DayNumberInjective(AddDays(Civil(c.year, c.month, 1), c.day - 1), c);
  }

  /** Two-digit years are read as 19xx. */
  lemma DateUtcTwoDigitYear(y: int)
    requires 0 <= y <= 99
    ensures DateUtc(Int(y), Int(0), Int(1)) == Instant(Civil(1900 + y, 1, 1), 0)
  {
    var c := Civil(1900 + y, 1, 1);
    BeforeHasSmallerDayNumber(Civil(1900, 1, 1), Civil(2000, 1, 1));
    if y > 0 {
      BeforeHasSmallerDayNumber(Civil(1900, 1, 1), c);
    }
    if y < 99 {
      BeforeHasSmallerDayNumber(c, Civil(2000, 1, 1));
    }
    DateUtcOfInts(y, 0, 1);
    TwoDigitYearRead(y);
    MidnightOfFields(c);
  }

  lemma TwoDigitYearRead(y: int)
    requires 0 <= y <= 99
    ensures DateOfFields(ConstructorYear(y), 0, 1) == DateOfFields(1900 + y, 1 - 1, 1)
  {
  }

  // ---------------------------------------------------------------------------
  // Getters (UTC and, on a UTC host, local)

  /** `getUTCFullYear()`. */
  function GetFullYear(d: JsDate): (n: Num)
    ensures n.NaN? <==> d.Invalid?
    ensures d.Instant? ==> n == Int(d.day.year)
  {
    if d.Invalid? then NaN else Int(d.day.year)
  }

  /** `getUTCMonth()`: 0 for January. */
  function GetMonth(d: JsDate): (n: Num)
    ensures n.NaN? <==> d.Invalid?
    ensures d.Instant? ==> n == Int(d.day.month - 1)
  {
    if d.Invalid? then NaN else Int(d.day.month - 1)
  }

  /** `getUTCDate()`: the day of the month. */
  function GetDate(d: JsDate): (n: Num)
    ensures n.NaN? <==> d.Invalid?
    ensures d.Instant? ==> n == Int(d.day.day)
  {
    if d.Invalid? then NaN else Int(d.day.day)
  }

  /** `getUTCDay()`: 0 for Sunday. */
  function GetDay(d: JsDate): (n: Num)
    ensures n.NaN? <==> d.Invalid?
    ensures d.Instant? ==> n == Int(Weekday(d.day))
  {
    if d.Invalid? then NaN else Int(Weekday(d.day))
  }

  // ---------------------------------------------------------------------------
  // Setters

  /**
   * `d.setUTCDate(x)` (and `setDate` on a UTC host): day `x` of the current
   * month, overflowing into neighbouring months; the time of day is kept.
   */
  function SetDate(d: JsDate, x: Num): (r: JsDate)
    ensures d.Invalid? || x.NaN? ==> r.Invalid?
  {
    if d.Invalid? || x.NaN? then Invalid
    else MakeDate(Civil(d.day.year, d.day.month, 1), (x.value - 1) * MsPerDay + d.ms)
  }

  /** The same time of day `n` days later, when representable. */
  function ShiftDays(d: JsDate, n: int): (r: JsDate)
    requires d.Instant?
    ensures r.Instant? ==> r.day == AddDays(d.day, n) && r.ms == d.ms
    ensures r.Instant? <==> -MaxTime <= Millis(d.day, d.ms) + n * MsPerDay <= MaxTime
  {
    ShiftFacts(d, n);
    MakeDate(d.day, n * MsPerDay + d.ms)
  }

  lemma ShiftFacts(d: JsDate, n: int)
    requires d.Instant?
    ensures MakeDate(d.day, n * MsPerDay + d.ms).Instant? ==>
      MakeDate(d.day, n * MsPerDay + d.ms).day == AddDays(d.day, n) && MakeDate(d.day, n * MsPerDay + d.ms).ms == d.ms
    ensures MakeDate(d.day, n * MsPerDay + d.ms).Instant? <==> -MaxTime <= Millis(d.day, d.ms) + n * MsPerDay <= MaxTime
  {
    MakeDateShift(d.day, d.ms, n);
  }

  lemma MakeDateShift(c: Civil, ms: int, n: int)
    requires Valid(c) && 0 <= ms < MsPerDay
    ensures var r := MakeDate(c, n * MsPerDay + ms);
      r.Instant? ==> r.day == AddDays(c, n) && r.ms == ms
    ensures var r := MakeDate(c, n * MsPerDay + ms);
      r.Instant? <==> -MaxTime <= Millis(c, ms) + n * MsPerDay <= MaxTime
  {
    var r := MakeDate(c, n * MsPerDay + ms);
    if r.Instant? {
      ShiftedWellFormed(c, ms, n, r);
      TimeValueInjective(r, Instant(AddDays(c, n), ms));
    }
  }

  lemma ShiftedWellFormed(c: Civil, ms: int, n: int, r: JsDate)
    requires Valid(c) && 0 <= ms < MsPerDay && r.Instant?
    requires Millis(r.day, r.ms) == Millis(c, 0) + (n * MsPerDay + ms)
    ensures Millis(r.day, r.ms) == Millis(AddDays(c, n), ms)
    ensures WellFormed(Instant(AddDays(c, n), ms))
  {
    MillisAddDays(c, n);
  }

  /** `d.setUTCDate(d.getUTCDate() + n)` moves `d` by `n` whole days. */
  lemma SetDateShifts(d: JsDate, n: int)
    requires d.Instant?
    ensures SetDate(d, Add(GetDate(d), Int(n))) == ShiftDays(d, n)
  {
    var first := Civil(d.day.year, d.day.month, 1);
    var a := SetDate(d, Add(GetDate(d), Int(n)));
    var b := ShiftDays(d, n);
    assert Millis(first, 0) + (d.day.day + n - 1) * MsPerDay + d.ms == Millis(d.day, d.ms) + n * MsPerDay;
    if a.Instant? && b.Instant? {
      TimeValueInjective(a, b);
    }
  }

  /** `d.setUTCHours(h, mi, s, ms)`: a new time of day, carried into days. */
  function SetHours(d: JsDate, h: int, mi: int, s: int, ms: int): (r: JsDate)
    ensures d.Invalid? ==> r.Invalid?
  {
    if d.Invalid? then Invalid
    else MakeDate(d.day, h * 3_600_000 + mi * 60_000 + s * 1000 + ms)
  }

  /** Setting an in-day time keeps the day and sets exactly that time. */
  lemma SetHoursWithinDay(d: JsDate, h: int, mi: int, s: int, ms: int)
    requires d.Instant?
    requires 0 <= h < 24 && 0 <= mi < 60 && 0 <= s < 60 && 0 <= ms < 1000
    ensures var t := h * 3_600_000 + mi * 60_000 + s * 1000 + ms;
      SetHours(d, h, mi, s, ms) == if -MaxTime <= Millis(d.day, t) <= MaxTime then Instant(d.day, t) else Invalid
  {
    var t := h * 3_600_000 + mi * 60_000 + s * 1000 + ms;
    var r := SetHours(d, h, mi, s, ms);
    if r.Instant? {
      TimeValueInjective(r, Instant(d.day, t));
    }
  }

  // ---------------------------------------------------------------------------
  // Comparison

  /** `a <= b` on Dates: their time values compared; false if either is NaN. */
  predicate LessEq(a: JsDate, b: JsDate) {
    a.Instant? && b.Instant? && Millis(a.day, a.ms) <= Millis(b.day, b.ms)
  }

  /** At midnight, Date order is calendar order. */
  lemma LessEqMidnight(a: Civil, b: Civil)
    requires WellFormed(Instant(a, 0)) && WellFormed(Instant(b, 0))
    ensures LessEq(Instant(a, 0), Instant(b, 0)) <==> !Before(b, a)
  {
    DayNumberOrder(a, b);
    DayNumberOrder(b, a);
  }

  /**
   * The Dates a day-by-day walk visits: starting at `s` and moving one day at
   * a time (`d.setDate(d.getDate() + 1)`) while `d <= e`. When `s <= e` it
   * holds one Date per whole day from `s` up to `e`, each at the time of day
   * of `s`.
   */
  function DayWalk(s: JsDate, e: JsDate): (r: seq<JsDate>)
    ensures !LessEq(s, e) ==> r == []
    ensures LessEq(s, e) ==> |r| == (Millis(e.day, e.ms) - Millis(s.day, s.ms)) / MsPerDay + 1
    ensures forall i | 0 <= i < |r| :: r[i].Instant? && r[i].day == AddDays(s.day, i) && r[i].ms == s.ms
  {
    if !LessEq(s, e) then []
    else
      var n := (Millis(e.day, e.ms) - Millis(s.day, s.ms)) / MsPerDay + 1;
      seq(n, i requires 0 <= i < n => ShiftDays(s, i))
  }

  /** Every visited Date lies between the end points, and the walk stops at the first one past `e`. */
  lemma DayWalkBounds(s: JsDate, e: JsDate)
    ensures var r := DayWalk(s, e);
      forall i | 0 <= i < |r| :: LessEq(s, r[i]) && LessEq(r[i], e)
    ensures var r := DayWalk(s, e);
      s.Instant? && e.Instant? ==> Millis(e.day, e.ms) < Millis(s.day, s.ms) + |r| * MsPerDay
  {
  }

  /** Consecutive visited Dates are one day apart. */
  lemma DayWalkConsecutive(s: JsDate, e: JsDate, i: int)
    requires 0 <= i && i + 1 < |DayWalk(s, e)|
    ensures var r := DayWalk(s, e);
      r[i + 1].day == NextDay(r[i].day) && DayNumber(r[i + 1].day) == DayNumber(r[i].day) + 1
  {
    var r := DayWalk(s, e);
    AddDaysAdd(s.day, i, 1);
  }

  /** One step of the walk: the next visited Date, or the first one past `e`. */
  lemma DayWalkStep(s: JsDate, e: JsDate, k: int)
    requires 0 <= k < |DayWalk(s, e)|
    ensures var w := DayWalk(s, e);
      var next := SetDate(w[k], Add(GetDate(w[k]), Int(1)));
      (k + 1 < |w| ==> next == w[k + 1]) && (k + 1 == |w| ==> !LessEq(next, e))
  {
    var w := DayWalk(s, e);
    var d := w[k];
    SetDateShifts(d, 1);
    DayWalkMillis(s, e, k);
    ShiftOneMore(s, d, k);
    if k + 1 < |w| {
      assert w[k + 1] == Instant(AddDays(s.day, k + 1), s.ms);
    }
  }

  /** The Date one day after the `k`-th day from `s`. */
  lemma ShiftOneMore(s: JsDate, d: JsDate, k: int)
    requires s.Instant? && d.Instant? && d.day == AddDays(s.day, k) && d.ms == s.ms
    ensures var next := ShiftDays(d, 1);
      (next.Instant? <==> -MaxTime <= Millis(s.day, s.ms) + (k + 1) * MsPerDay <= MaxTime)
      && (next.Instant? ==> next == Instant(AddDays(s.day, k + 1), s.ms))
  {
    AddDaysAdd(s.day, k, 1);
  }

  lemma DayWalkMillis(s: JsDate, e: JsDate, k: int)
    requires 0 <= k < |DayWalk(s, e)|
    ensures var w := DayWalk(s, e);
      Millis(w[k].day, w[k].ms) == Millis(s.day, s.ms) + k * MsPerDay
      && (k + 1 < |w| ==> Millis(s.day, s.ms) + (k + 1) * MsPerDay <= Millis(e.day, e.ms))
      && (k + 1 == |w| ==> Millis(e.day, e.ms) < Millis(s.day, s.ms) + (k + 1) * MsPerDay)
  {
    var x := Millis(e.day, e.ms) - Millis(s.day, s.ms);
    assert x == MsPerDay * (x / MsPerDay) + x % MsPerDay;
  }

  /** No day is visited twice. */
  lemma DayWalkDistinctDays(s: JsDate, e: JsDate, i: int, j: int)
    requires 0 <= i < j < |DayWalk(s, e)|
    ensures DayWalk(s, e)[i].day != DayWalk(s, e)[j].day
  {
  }

  // ---------------------------------------------------------------------------
  // Text

  /** The year as `toISOString` writes it: four digits, or a sign and six. */
  function IsoYear(y: int): (s: string)
    ensures 0 <= y <= 9999 ==> s == PadNat(y, 4)
  {
    if 0 <= y <= 9999 then PadNat(y, 4)
    else if y > 9999 then "+" + PadNat(y, 6)
    else "-" + PadNat(-y, 6)
  }

  /** `YYYY-MM-DD` of a civil date. */
  function IsoDateText(c: Civil): string
    requires Valid(c)
  {
    IsoYear(c.year) + "-" + Pad2(c.month) + "-" + Pad2(c.day)
  }

  /** `HH:mm:ss.sss` of a time of day. */
  function IsoTimeText(ms: nat): string {
    Pad2(ms / 3_600_000) + ":" + Pad2((ms / 60_000) % 60) + ":" + Pad2((ms / 1000) % 60) + "." + PadNat(ms % 1000, 3)
  }

  /** `d.toISOString()`, which throws `RangeError` on Invalid Date. */
  function ToIsoString(d: JsDate): (r: Result<string>)
    ensures r.Err? <==> d.Invalid?
    ensures d.Instant? ==> r.value == IsoDateText(d.day) + "T" + IsoTimeText(d.ms) + "Z"
  {
    if d.Invalid? then Err("RangeError: Invalid time value")
    else Ok(IsoDateText(d.day) + "T" + IsoTimeText(d.ms) + "Z")
  }

  /** A four-digit year's date text is exactly ten characters long. */
  lemma IsoDateTextShape(c: Civil)
    requires Valid(c) && 0 <= c.year <= 9999
    ensures var s := IsoDateText(c);
      |s| == 10 && s[4] == '-' && s[7] == '-'
      && s[..4] == PadNat(c.year, 4) && s[5..7] == Pad2(c.month) && s[8..] == Pad2(c.day)
  {
    assert Pow10(2) == 100 && Pow10(4) == 10000;
    PadNatLength(c.year, 4);
    PadNatLength(c.month, 2);
    PadNatLength(c.day, 2);
    DateTextParts(PadNat(c.year, 4), Pad2(c.month), Pad2(c.day));
  }

  lemma DateTextParts(y: string, m: string, d: string)
    requires |y| == 4 && |m| == 2 && |d| == 2
    ensures var s := y + "-" + m + "-" + d;
      |s| == 10 && s[4] == '-' && s[7] == '-' && s[..4] == y && s[5..7] == m && s[8..] == d
  {
    var s := y + "-" + m + "-" + d;
    assert s[..4] == y;
    assert s[5..7] == m;
    assert s[8..] == d;
  }

  /** `d.toISOString().slice(0, 10)`: the calendar day, for a four-digit year. */
  function IsoDay(d: JsDate): (r: Result<string>)
    ensures r.Err? <==> d.Invalid?
    ensures d.Instant? && 0 <= d.day.year <= 9999 ==> r.value == IsoDateText(d.day)
  {
    match ToIsoString(d)
    case Err(e) => Err(e)
    case Ok(s) =>
      if d.Instant? && 0 <= d.day.year <= 9999 then
        IsoDateTextShape(d.day);
        assert s[..10] == IsoDateText(d.day);
        Ok(s[..10])
      else Ok(if |s| >= 10 then s[..10] else s)
  }

  /** `M/D/YYYY` from the getters, as template literals write it (no padding). */
  function ShortDateText(d: JsDate): (s: string)
    ensures d.Instant? ==> s == NatToString(d.day.month) + "/" + NatToString(d.day.day) + "/" + IntToString(d.day.year)
    ensures d.Invalid? ==> s == "NaN/NaN/NaN"
  {
    ToText(Add(GetMonth(d), Int(1))) + "/" + ToText(GetDate(d)) + "/" + ToText(GetFullYear(d))
  }

  // ---------------------------------------------------------------------------
  // Parsing

  /** Four ASCII digits at `s[i..i+n]`. */
  predicate DigitsAt(s: string, i: nat, n: nat) {
    i + n <= |s| && AllDigits(s[i..i + n])
  }

  /**
   * `new Date(s)` for the date-only forms of the ECMAScript date time string
   * format (section 21.4.1.32): `YYYY`, `YYYY-MM` and `YYYY-MM-DD`, read as
   * UTC midnight. A string of one of these shapes naming a day that does not
   * exist is Invalid Date, and so is every other string here.
   */
  function ParseDate(s: string): (r: JsDate)
    ensures r.Instant? ==> r.ms == 0 && 0 <= r.day.year <= 9999
  {
    var shape4 := |s| == 4 && DigitsAt(s, 0, 4);
    var shape7 := |s| == 7 && DigitsAt(s, 0, 4) && s[4] == '-' && DigitsAt(s, 5, 2);
    var shape10 := |s| == 10 && DigitsAt(s, 0, 4) && s[4] == '-' && DigitsAt(s, 5, 2) && s[7] == '-' && DigitsAt(s, 8, 2);
    if !(shape4 || shape7 || shape10) then Invalid
    else
      var y := DigitsValue(s[..4]);
      DigitsValueBound(s[..4]);
      assert Pow10(4) == 10000;
      var m := if |s| >= 7 then DigitsValue(s[5..7]) else 1;
      var day := if |s| == 10 then DigitsValue(s[8..10]) else 1;
      var c := Civil(y, m, day);
      if !Valid(c) then Invalid
      else
        FourDigitYearRange(c);
        Instant(c, 0)
  }

  /** Parsing the ISO text of a four-digit-year day gives back its midnight. */
  lemma ParseIsoDateText(c: Civil)
    requires Valid(c) && 0 <= c.year <= 9999
    ensures ParseDate(IsoDateText(c)) == Instant(c, 0)
  {
    var s := IsoDateText(c);
    IsoDateTextShape(c);
    PadNatValue(c.year, 4);
    PadNatValue(c.month, 2);
    PadNatValue(c.day, 2);
    assert s[0..4] == s[..4] && s[8..10] == s[8..];
  }
}
