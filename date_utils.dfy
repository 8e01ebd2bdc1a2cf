/**
 * The UTC date helpers of the desktop front end (`dateUtils.js`):
 * `toUTCDateString`, `createUTCDate`, `isSameUTCDay` and
 * `getDateRangeArray`, on a host whose local time zone is UTC.
 */
module DateUtils {
  import opened Wrappers
  import opened Strings
  import opened JsNumbers
  import opened CivilDates
  import opened JsDates

  /**
   * What a caller may hand to `toUTCDateString`: a Date, text for
   * `new Date(text)`, or a time value for `new Date(number)`.
   */
  datatype DateInput = DateObject(date: JsDate) | DateText(text: string) | DateNumber(time: Num)

  function ToDate(x: DateInput): JsDate {
    match x
    case DateObject(d) => d
    case DateText(s) => ParseDate(s)
    case DateNumber(t) => DateOfTime(t)
  }

  /** An argument of `createUTCDate`: a number, or text that `Number` converts. */
  datatype NumberInput = NumberArg(n: Num) | TextArg(s: string)

  function ToNumber(x: NumberInput): Num {
    match x
    case NumberArg(n) => n
    case TextArg(s) => StringToNumber(s)
  }

  /** `toUTCDateString(x)`: `MM/DD/YYYY` from the UTC fields. */
  function ToUtcDateString(x: DateInput): (s: string)
    ensures var d := ToDate(x);
      d.Instant? ==> s == Pad2(d.day.month) + "/" + Pad2(d.day.day) + "/" + IntToString(d.day.year)
    ensures ToDate(x).Invalid? ==> s == "NaN/NaN/NaN"
  {
    var d := ToDate(x);
    PadText2(Add(GetMonth(d), Int(1))) + "/" + PadText2(GetDate(d)) + "/" + ToText(GetFullYear(d))
  }

  /** A Date and its time value format alike. */
  lemma FormatTimeValue(d: JsDate)
    ensures ToUtcDateString(DateNumber(TimeValue(d))) == ToUtcDateString(DateObject(d))
  {
    DateOfTimeValue(d);
  }

  /** `createUTCDate(year, month, day)`: `new Date(Date.UTC(Number(year), Number(month) - 1, Number(day)))`. */
  function CreateUtcDate(year: NumberInput, month: NumberInput, day: NumberInput): JsDate {
    DateUtc(ToNumber(year), Sub(ToNumber(month), Int(1)), ToNumber(day))
  }

  /**
   * The round trip the packing page relies on: a valid date, given by its
   * numbers, comes back as its zero-padded `MM/DD/YYYY` text.
   */
  lemma CreateThenFormat(c: Civil)
    requires Valid(c) && InRange(c) && !(0 <= c.year <= 99)
    ensures CreateUtcDate(NumberArg(Int(c.year)), NumberArg(Int(c.month)), NumberArg(Int(c.day))) == Instant(c, 0)
    ensures ToUtcDateString(DateObject(CreateUtcDate(NumberArg(Int(c.year)), NumberArg(Int(c.month)), NumberArg(Int(c.day)))))
      == Pad2(c.month) + "/" + Pad2(c.day) + "/" + IntToString(c.year)
  {
    DateUtcOfCivil(c);
  }

  /** The same holds when the fields arrive as their decimal text. */
  lemma CreateFromTextThenFormat(c: Civil)
    requires Valid(c) && InRange(c) && !(0 <= c.year <= 99)
    ensures CreateUtcDate(TextArg(IntToString(c.year)), TextArg(Pad2(c.month)), TextArg(Pad2(c.day))) == Instant(c, 0)
  {
    StringToNumberOfText(c.year);
    StringToNumberOfPad2(c.month);
    StringToNumberOfPad2(c.day);
    CreateOfNumbers(TextArg(IntToString(c.year)), TextArg(Pad2(c.month)), TextArg(Pad2(c.day)), c.year, c.month, c.day);
    DateUtcOfCivil(c);
  }

  lemma CreateOfNumbers(year: NumberInput, month: NumberInput, day: NumberInput, y: int, m: int, d: int)
    requires ToNumber(year) == Int(y) && ToNumber(month) == Int(m) && ToNumber(day) == Int(d)
    ensures CreateUtcDate(year, month, day) == DateUtc(Int(y), Int(m - 1), Int(d))
  {
    var a, b, e := ToNumber(year), Sub(ToNumber(month), Int(1)), ToNumber(day);
    assert b == Int(m - 1);
    assert CreateUtcDate(year, month, day) == DateUtc(a, b, e);
  }

  /** A year written 0..99 is taken as 1900..1999, so the round trip fails there. */
  lemma CreateTwoDigitYear(y: int)
    requires 0 <= y <= 99
    ensures CreateUtcDate(NumberArg(Int(y)), NumberArg(Int(1)), NumberArg(Int(1))) == Instant(Civil(1900 + y, 1, 1), 0)
  {
    DateUtcTwoDigitYear(y);
  }

  /** `isSameUTCDay(a, b)`: the three UTC fields compared with `===`. */
  predicate IsSameUtcDay(a: JsDate, b: JsDate) {
    StrictEquals(GetFullYear(a), GetFullYear(b))
    && StrictEquals(GetMonth(a), GetMonth(b))
    && StrictEquals(GetDate(a), GetDate(b))
  }

  /** True exactly for two valid Dates on the same UTC calendar day. */
  lemma IsSameUtcDayMeaning(a: JsDate, b: JsDate)
    ensures IsSameUtcDay(a, b) <==> a.Instant? && b.Instant? && a.day == b.day
    ensures IsSameUtcDay(a, b) <==> IsSameUtcDay(b, a)
    ensures IsSameUtcDay(a, a) <==> a.Instant?
  {
  }

  /** The ISO days of a day walk. */
  function IsoDays(w: seq<JsDate>): (r: seq<string>)
    requires forall i | 0 <= i < |w| :: w[i].Instant?
    ensures |r| == |w|
  {
    seq(|w|, i requires 0 <= i < |w| => IsoDay(w[i]).value)
  }

  lemma IsoDaysSnoc(w: seq<JsDate>, k: nat)
    requires k < |w| && forall i | 0 <= i < |w| :: w[i].Instant?
    ensures IsoDays(w[..k + 1]) == IsoDays(w[..k]) + [IsoDay(w[k]).value]
  {
    var a, b := IsoDays(w[..k + 1]), IsoDays(w[..k]) + [IsoDay(w[k]).value];
    forall j | 0 <= j < k + 1
      ensures a[j] == b[j]
    {
      assert w[..k + 1][j] == w[j];
      if j < k {
        assert w[..k][j] == w[j];
      }
    }
  }

  /** The days `getDateRangeArray` lists: the ISO text of each Date of the walk. */
  function DateRange(start: string, end: string): seq<string> {
    IsoDays(DayWalk(ParseDate(start), ParseDate(end)))
  }

  /**
   * `getDateRangeArray(start, end)`: the ISO day of every Date visited from
   * `new Date(start)` while it is `<= new Date(end)`.
   */
  method GetDateRangeArray(start: string, end: string) returns (arr: seq<string>)
    ensures arr == DateRange(start, end)
  {
    arr := [];
    var first := ParseDate(start);
    var current := first;
    var last := ParseDate(end);
    ghost var walk := DayWalk(first, last);
    while LessEq(current, last)
      invariant |arr| <= |walk|
      invariant arr == IsoDays(walk[..|arr|])
      invariant |arr| < |walk| ==> current == walk[|arr|]
      invariant |arr| == |walk| ==> !LessEq(current, last)
      decreases |walk| - |arr|
    {
      var next := SetDate(current, Add(GetDate(current), Int(1)));
      var arr' := arr + [IsoDay(current).value];
      DateRangeStep(first, last, walk, arr, arr', current, next);
      arr := arr';
      current := next;
    }
    assert walk[..|arr|] == walk;
  }

  /** One iteration of `getDateRangeArray`'s loop keeps its invariant. */
  lemma DateRangeStep(first: JsDate, last: JsDate, walk: seq<JsDate>, arr: seq<string>, arr': seq<string>, current: JsDate, next: JsDate)
    requires walk == DayWalk(first, last)
    requires |arr| < |walk| && current == walk[|arr|]
    requires arr == IsoDays(walk[..|arr|])
    requires current.Instant? && next == SetDate(current, Add(GetDate(current), Int(1)))
    requires arr' == arr + [IsoDay(current).value]
    ensures arr' == IsoDays(walk[..|arr'|])
    ensures |arr'| < |walk| ==> next == walk[|arr'|]
    ensures |arr'| == |walk| ==> !LessEq(next, last)
  {
    DayWalkStep(first, last, |arr|);
    IsoDaysStep(walk, arr, arr');
  }

  lemma IsoDaysStep(w: seq<JsDate>, arr: seq<string>, arr': seq<string>)
    requires |arr| < |w| && forall i | 0 <= i < |w| :: w[i].Instant?
    requires arr == IsoDays(w[..|arr|]) && arr' == arr + [IsoDay(w[|arr|]).value]
    ensures arr' == IsoDays(w[..|arr'|])
  {
    IsoDaysSnoc(w, |arr|);
  }

  /** Its result: consecutive days from `start` to `end`, empty when start is after end. */
  lemma DateRangeArrayDays(start: string, end: string)
    requires ParseDate(start).Instant? && ParseDate(end).Instant?
    ensures Before(ParseDate(end).day, ParseDate(start).day) <==> DateRange(start, end) == []
    ensures !Before(ParseDate(end).day, ParseDate(start).day) ==>
      |DateRange(start, end)| == DayNumber(ParseDate(end).day) - DayNumber(ParseDate(start).day) + 1
      && DateRange(start, end)[0] == IsoDateText(ParseDate(start).day)
      && DateRange(start, end)[|DateRange(start, end)| - 1] == IsoDateText(ParseDate(end).day)
    ensures forall i | 0 <= i < |DateRange(start, end)| ::
      ParseDate(DateRange(start, end)[i]) == Instant(AddDays(ParseDate(start).day, i), 0)
  {
    DateRangeEmpty(start, end);
    if !Before(ParseDate(end).day, ParseDate(start).day) {
      DateRangeEnds(start, end);
    }
    DateRangeParses(start, end);
  }

  lemma DateRangeEmpty(start: string, end: string)
    requires ParseDate(start).Instant? && ParseDate(end).Instant?
    ensures Before(ParseDate(end).day, ParseDate(start).day) <==> DateRange(start, end) == []
  {
    WalkLength(ParseDate(start), ParseDate(end));
  }

  lemma DateRangeEnds(start: string, end: string)
    requires ParseDate(start).Instant? && ParseDate(end).Instant?
    requires !Before(ParseDate(end).day, ParseDate(start).day)
    ensures |DateRange(start, end)| > 0
    ensures |DateRange(start, end)| == DayNumber(ParseDate(end).day) - DayNumber(ParseDate(start).day) + 1
    ensures DateRange(start, end)[0] == IsoDateText(ParseDate(start).day)
    ensures DateRange(start, end)[|DateRange(start, end)| - 1] == IsoDateText(ParseDate(end).day)
  {
    WalkLength(ParseDate(start), ParseDate(end));
    WalkFirst(ParseDate(start), ParseDate(end));
    WalkLast(ParseDate(start), ParseDate(end));
  }

  lemma DateRangeParses(start: string, end: string)
    requires ParseDate(start).Instant? && ParseDate(end).Instant?
    ensures forall i | 0 <= i < |DateRange(start, end)| ::
      ParseDate(DateRange(start, end)[i]) == Instant(AddDays(ParseDate(start).day, i), 0)
  {
    forall i | 0 <= i < |DateRange(start, end)|
      ensures ParseDate(DateRange(start, end)[i]) == Instant(AddDays(ParseDate(start).day, i), 0)
    {
      WalkDayParses(ParseDate(start), ParseDate(end), i);
    }
  }

  /** The walk between two parsed days is empty exactly when the end is earlier, else one per day. */
  lemma WalkLength(ds: JsDate, de: JsDate)
    requires ds.Instant? && de.Instant? && ds.ms == 0 && de.ms == 0
    ensures var w := DayWalk(ds, de);
      (Before(de.day, ds.day) <==> w == [])
      && (!Before(de.day, ds.day) ==> |w| == DayNumber(de.day) - DayNumber(ds.day) + 1)
  {
    DayNumberOrder(de.day, ds.day);
  }

  /** A non-empty walk starts on the start day... */
  lemma WalkFirst(ds: JsDate, de: JsDate)
    requires ds.Instant? && de.Instant? && ds.ms == 0 && de.ms == 0
    requires 0 <= ds.day.year <= 9999 && 0 <= de.day.year <= 9999
    requires !Before(de.day, ds.day)
    ensures |IsoDays(DayWalk(ds, de))| > 0
    ensures IsoDays(DayWalk(ds, de))[0] == IsoDateText(ds.day)
  {
    var w := DayWalk(ds, de);
    WalkLength(ds, de);
    assert w[0].day == ds.day;
    IsoDaysAt(w, 0);
  }

  /** ...and ends on the end day. */
  lemma WalkLast(ds: JsDate, de: JsDate)
    requires ds.Instant? && de.Instant? && ds.ms == 0 && de.ms == 0
    requires 0 <= ds.day.year <= 9999 && 0 <= de.day.year <= 9999
    requires !Before(de.day, ds.day)
    ensures |IsoDays(DayWalk(ds, de))| > 0
    ensures IsoDays(DayWalk(ds, de))[|IsoDays(DayWalk(ds, de))| - 1] == IsoDateText(de.day)
  {
    WalkLength(ds, de);
    LastWalkDay(ds, de);
    IsoDaysLast(DayWalk(ds, de));
  }

  lemma LastWalkDay(ds: JsDate, de: JsDate)
    requires ds.Instant? && de.Instant? && ds.ms == 0 && de.ms == 0
    requires !Before(de.day, ds.day)
    ensures |DayWalk(ds, de)| > 0 && DayWalk(ds, de)[|DayWalk(ds, de)| - 1].day == de.day
  {
    WalkLength(ds, de);
    var k := |DayWalk(ds, de)| - 1;
    DayNumberInjective(AddDays(ds.day, k), de.day);
  }

  lemma IsoDaysLast(w: seq<JsDate>)
    requires forall j | 0 <= j < |w| :: w[j].Instant?
    requires |w| > 0 && 0 <= w[|w| - 1].day.year <= 9999
    ensures |IsoDays(w)| > 0 && IsoDays(w)[|IsoDays(w)| - 1] == IsoDateText(w[|w| - 1].day)
  {
    IsoDaysAt(w, |w| - 1);
  }

  lemma IsoDaysAt(w: seq<JsDate>, i: int)
    requires forall j | 0 <= j < |w| :: w[j].Instant?
    requires 0 <= i < |w| && 0 <= w[i].day.year <= 9999
    ensures IsoDays(w)[i] == IsoDateText(w[i].day)
  {
  }

  /** Every day of the walk is written as text that parses back to that day. */
  lemma WalkDayParses(ds: JsDate, de: JsDate, i: int)
    requires ds.Instant? && de.Instant? && ds.ms == 0 && de.ms == 0
    requires 0 <= ds.day.year <= 9999 && 0 <= de.day.year <= 9999
    requires 0 <= i < |DayWalk(ds, de)|
    ensures ParseDate(IsoDays(DayWalk(ds, de))[i]) == Instant(AddDays(ds.day, i), 0)
  {
    var s, e := ds.day, de.day;
    var c := AddDays(s, i);
    WalkLength(ds, de);
    DayNumberOrder(c, e);
    FourDigitYearRange(e);
    assert 0 <= c.year <= 9999 by {
      DayNumberOrder(s, c);
    }
    IsoDaysAt(DayWalk(ds, de), i);
    ParseIsoDateText(c);
  }
}
