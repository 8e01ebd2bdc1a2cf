/**
 * The weekend roll-up step the three packing reports share
 * (frontend/src/utils/packingPage/packingDataUtils.js,
 * frontend-web/src/utils/packingPage/packingDataUtils.js and
 * frontend-web/src/utils/packingPage/sortDataUtils.js): read an `M/D/YYYY`
 * key, move a Saturday back one day and a Sunday back two, write the day
 * back as text, and add the count into a bucket under that text. The
 * comparator that sorts the date lists is here too.
 */
module WeekendRollup {
  import opened Strings
  import opened Sorting
  import opened JsNumbers
  import opened CivilDates
  import opened JsDates
  import opened JsObjects
  import DateUtils

  // ---------------------------------------------------------------------------
  // Reading a key

  /** `+parts[i]` after `const [mo, da, yr] = s.split('/')`: a missing piece is `undefined`, so NaN. */
  function Piece(parts: seq<string>, i: nat): (n: Num)
    ensures i >= |parts| ==> n == NaN
    ensures i < |parts| ==> n == StringToNumber(parts[i])
  {
    if i < |parts| then StringToNumber(parts[i]) else NaN
  }

  /** `new Date(Date.UTC(+yr, +mo - 1, +da))`. */
  function ParseSlashDate(s: string): JsDate {
    var p := Split(s, "/");
    DateUtc(Piece(p, 2), Sub(Piece(p, 0), Int(1)), Piece(p, 1))
  }

  /** A parsed key is a midnight. */
  lemma ParseSlashDateMidnight(s: string)
    ensures ParseSlashDate(s).Instant? ==> ParseSlashDate(s).ms == 0
  {
    var p := Split(s, "/");
    DateUtcMidnight(Piece(p, 2), Sub(Piece(p, 0), Int(1)), Piece(p, 1));
  }

  /** The comparator's key: `Date.UTC(+y, +m - 1, +d)`, NaN for an unreadable text. */
  function SortKey(s: string): (t: Num)
    ensures t == TimeValue(ParseSlashDate(s))
  {
    TimeValue(ParseSlashDate(s))
  }

  /**
   * `(a, b) => SortKey(a) - SortKey(b)` read as "a goes first": the
   * difference is negative. A NaN difference counts as 0, "equal".
   */
  predicate DateLess(a: string, b: string) {
    SortKey(a).Int? && SortKey(b).Int? && SortKey(a).value < SortKey(b).value
  }

  // ---------------------------------------------------------------------------
  // Rolling back

  /**
   * `dow === 6` → `setUTCDate(getUTCDate() - 1)`, `dow === 0` →
   * `setUTCDate(getUTCDate() - 2)`, other days unchanged.
   */
  function RollBack(d: JsDate): JsDate {
    var dow := GetDay(d);
    if dow == Int(6) then SetDate(d, Sub(GetDate(d), Int(1)))
    else if dow == Int(0) then SetDate(d, Sub(GetDate(d), Int(2)))
    else d
  }

  /**
   * An Invalid Date stays Invalid; a Date stays a Date at the same time of
   * day, moved to `RollBackWeekend` of its day (a Saturday to the Friday
   * before, a Sunday two days back), which is never a weekend day.
   */
  lemma RollBackMeaning(d: JsDate)
    ensures d.Invalid? ==> RollBack(d).Invalid?
    ensures RollBack(d).Instant? ==> d.Instant? && RollBack(d).day == RollBackWeekend(d.day) && RollBack(d).ms == d.ms
    ensures RollBack(d).Instant? ==> !IsWeekend(RollBack(d).day)
  {
    if d.Instant? {
      RollBackIsWeekday(d.day);
      var dow := GetDay(d);
      if dow == Int(6) {
        SetDateShifts(d, -1);
        assert Sub(GetDate(d), Int(1)) == Add(GetDate(d), Int(-1));
      } else if dow == Int(0) {
        SetDateShifts(d, -2);
        assert Sub(GetDate(d), Int(2)) == Add(GetDate(d), Int(-2));
      }
    }
  }

  /** A day whose midnight is representable and whose year is not read as 19xx. */
  predicate Readable(c: Civil) {
    Valid(c) && InRange(c) && !(0 <= c.year <= 99)
  }

  // ---------------------------------------------------------------------------
  // Writing a day back

  datatype Style =
    | Padded    // `MM/DD/YYYY`, month and day padded to two digits
    | Unpadded  // `M/D/YYYY`, as template literals write the numbers

  /** The text a report writes for a Date. */
  function Format(style: Style, d: JsDate): (s: string)
    ensures d.Invalid? ==> s == "NaN/NaN/NaN"
    ensures d.Instant? && style == Padded ==> s == Pad2(d.day.month) + "/" + Pad2(d.day.day) + "/" + IntToString(d.day.year)
    ensures d.Instant? && style == Unpadded ==> s == NatToString(d.day.month) + "/" + NatToString(d.day.day) + "/" + IntToString(d.day.year)
  {
    match style
    case Padded => DateUtils.ToUtcDateString(DateUtils.DateObject(d))
    case Unpadded => ShortDateText(d)
  }

  /** The day a key is filed under. */
  function RolledDay(s: string): JsDate {
    RollBack(ParseSlashDate(s))
  }

  /** The text a key is filed under. */
  function Roll(style: Style, s: string): string {
    Format(style, RolledDay(s))
  }

  /** Every key is filed under a weekday, or under `NaN/NaN/NaN` when it does not read as a date. */
  lemma RollIsWeekday(style: Style, s: string)
    ensures RolledDay(s).Invalid? <==> Roll(style, s) == "NaN/NaN/NaN"
    ensures RolledDay(s).Instant? ==> !IsWeekend(RolledDay(s).day)
  {
    var d := RolledDay(s);
    RollBackMeaning(ParseSlashDate(s));
    if d.Instant? {
      var t := Roll(style, s);
      assert t[0] != 'N' by {
        if style == Padded {
          assert t[0] == Pad2(d.day.month)[0];
        } else {
          assert t[0] == NatToString(d.day.month)[0];
        }
      }
    }
  }

  lemma JoinThree(a: string, b: string, c: string)
    ensures Join([a, b, c], "/") == a + "/" + b + "/" + c
  {
    assert [a, b, c][1..] == [b, c];
    assert [b, c][1..] == [c];
    assert Join([b, c], "/") == b + "/" + c;
  }

  lemma DigitsHaveNoSlash(s: string)
    requires AllDigits(s)
    ensures '/' !in s
  {
  }

  lemma IntTextHasNoSlash(i: int)
    ensures '/' !in IntToString(i)
  {
    if i < 0 {
      DigitsHaveNoSlash(NatToString(-i));
      assert IntToString(i) == "-" + NatToString(-i);
    } else {
      DigitsHaveNoSlash(NatToString(i));
    }
  }

  /** The month, day and year pieces of a written day. */
  function Pieces(style: Style, c: Civil): seq<string>
    requires Valid(c)
  {
    if style == Padded then [Pad2(c.month), Pad2(c.day), IntToString(c.year)]
    else [NatToString(c.month), NatToString(c.day), IntToString(c.year)]
  }

  /** Splitting a written day at `/` gives back its three pieces. */
  lemma SplitFormat(style: Style, c: Civil)
    requires Readable(c)
    ensures Split(Format(style, Instant(c, 0)), "/") == Pieces(style, c)
  {
    var p := Pieces(style, c);
    JoinThree(p[0], p[1], p[2]);
    DigitsHaveNoSlash(p[0]);
    DigitsHaveNoSlash(p[1]);
    IntTextHasNoSlash(c.year);
    SplitJoinOfPieces(p, '/');
  }

  /** Each piece reads back as the number it was written from. */
  lemma PiecesRead(style: Style, c: Civil)
    requires Valid(c)
    ensures Piece(Pieces(style, c), 0) == Int(c.month)
    ensures Piece(Pieces(style, c), 1) == Int(c.day)
    ensures Piece(Pieces(style, c), 2) == Int(c.year)
  {
    var p := Pieces(style, c);
    StringToNumberOfText(c.year);
    assert p[2] == IntToString(c.year);
    if style == Padded {
      StringToNumberOfPad2(c.month);
      StringToNumberOfPad2(c.day);
      assert p[0] == Pad2(c.month) && p[1] == Pad2(c.day);
    } else {
      StringToNumberOfText(c.month);
      StringToNumberOfText(c.day);
      assert p[0] == IntToString(c.month) && p[1] == IntToString(c.day);
    }
  }

  /** The text of a readable day reads back as that day's midnight. */
  lemma FormatReadsBack(style: Style, c: Civil)
    requires Readable(c)
    ensures ParseSlashDate(Format(style, Instant(c, 0))) == Instant(c, 0)
    ensures SortKey(Format(style, Instant(c, 0))) == Int(Millis(c, 0))
  {
    SplitFormat(style, c);
    PiecesRead(style, c);
    assert Sub(Int(c.month), Int(1)) == Int(c.month - 1);
    DateUtcOfCivil(c);
  }

  /** The keys whose filed-under text reads back as itself. */
  predicate GoodKey(s: string) {
    var d := RolledDay(s);
    d.Instant? && Readable(d.day)
  }

  /** A text that reads back as the day it was written from. */
  predicate ReadableText(style: Style, s: string) {
    var d := ParseSlashDate(s);
    d.Instant? && Readable(d.day) && Format(style, d) == s
  }

  lemma GoodKeyReadable(style: Style, s: string)
    requires GoodKey(s)
    ensures ReadableText(style, Roll(style, s))
    ensures ParseSlashDate(Roll(style, s)) == RolledDay(s) && !IsWeekend(RolledDay(s).day)
  {
    var d := RolledDay(s);
    ParseSlashDateMidnight(s);
    RollBackMeaning(ParseSlashDate(s));
    assert d == Instant(d.day, 0);
    FormatReadsBack(style, d.day);
  }

  /** Different readable texts have different keys. */
  lemma ReadableKeysDiffer(style: Style, a: string, b: string)
    requires ReadableText(style, a) && ReadableText(style, b) && a != b
    ensures SortKey(a) != SortKey(b)
  {
    if SortKey(a) == SortKey(b) {
      TimeValueInjective(ParseSlashDate(a), ParseSlashDate(b));
    }
  }

  /** On dates with a key the comparator is the order of time values: a strict weak order. */
  lemma DateLessConsistent()
    ensures StrictWeakOrderOn(DateLess, s => SortKey(s).Int?)
  {
  }

  /** Every text has a time value, and each is strictly later than the one before. */
  predicate Chronological(r: seq<string>) {
    forall i, j | 0 <= i < j < |r| :: SortKey(r[i]).Int? && SortKey(r[j]).Int? && SortKey(r[i]).value < SortKey(r[j]).value
  }

  /**
   * Sorting distinct readable texts with the report's comparator puts them
   * in strictly increasing time order.
   */
  lemma SortChronological(style: Style, xs: seq<string>)
    requires NoDuplicates(xs)
    requires forall i | 0 <= i < |xs| :: ReadableText(style, xs[i])
    ensures Chronological(Sort(xs, DateLess))
  {
    SortedByTime(xs);
    SortNoDuplicates(xs, DateLess);
    SortKeeps(xs, DateLess, s => ReadableText(style, s));
    OrderedDistinctChronological(style, Sort(xs, DateLess));
  }

  /** The comparator's sort of texts that all have a time value is ordered. */
  lemma SortedByTime(xs: seq<string>)
    requires forall i | 0 <= i < |xs| :: SortKey(xs[i]).Int?
    ensures Ordered(Sort(xs, DateLess), DateLess)
  {
    DateLessConsistent();
    SortOrderedOn(xs, DateLess, s => SortKey(s).Int?);
  }

  /** Ordered distinct readable texts are strictly increasing in time. */
  lemma OrderedDistinctChronological(style: Style, r: seq<string>)
    requires Ordered(r, DateLess) && NoDuplicates(r)
    requires forall i | 0 <= i < |r| :: ReadableText(style, r[i])
    ensures Chronological(r)
  {
    forall i, j | 0 <= i < j < |r|
      ensures SortKey(r[i]).Int? && SortKey(r[j]).Int? && SortKey(r[i]).value < SortKey(r[j]).value
    {
      assert !DateLess(r[j], r[i]);
      ReadableKeysDiffer(style, r[i], r[j]);
    }
  }

  // ---------------------------------------------------------------------------
  // Buckets

  /** The filing function of a style. */
  function RollWith(style: Style): string -> string {
    s => Roll(style, s)
  }

  /** The bucket one date object rolls up into: each entry added in order. */
  function Bucket(style: Style, o: Entries<int>): Entries<int> {
    Tally(RollWith(style), o)
  }

  /** The bucket of each property of an object of date objects. */
  function BucketOf(style: Style): (string, Entries<int>) -> Entries<int> {
    (_, o) => Bucket(style, o)
  }

  /** Every text filed under by the date objects of `raw`, object by object, in order. */
  function AllRolled(style: Style, raw: Entries<Entries<int>>): seq<string>
    decreases |raw|
  {
    if raw == [] then []
    else AllRolled(style, raw[..|raw| - 1]) + FiledUnder(RollWith(style), raw[|raw| - 1].1)
  }

  lemma AllRolledStep(style: Style, raw: Entries<Entries<int>>, i: int)
    requires 0 <= i < |raw|
    ensures AllRolled(style, raw[..i + 1]) == AllRolled(style, raw[..i]) + FiledUnder(RollWith(style), raw[i].1)
  {
    assert raw[..i + 1][..i] == raw[..i];
  }

  /** All keys of all date objects are good. */
  predicate AllGood(raw: Entries<Entries<int>>) {
    forall i, j | 0 <= i < |raw| && 0 <= j < |raw[i].1| :: GoodKey(raw[i].1[j].0)
  }

  /** A text that comes from a key of date object `i` of `raw`. */
  predicate RolledFromAt(style: Style, raw: Entries<Entries<int>>, x: string, i: int) {
    0 <= i < |raw| && exists j | 0 <= j < |raw[i].1| :: x == RollWith(style)(raw[i].1[j].0)
  }

  /** Every text filed under comes from some key of some date object. */
  lemma {:induction false} AllRolledFrom(style: Style, raw: Entries<Entries<int>>, x: string)
    requires x in AllRolled(style, raw)
    ensures exists i :: RolledFromAt(style, raw, x, i)
    decreases |raw|
  {
    var n := |raw| - 1;
    if x in FiledUnder(RollWith(style), raw[n].1) {
      FiledFrom(style, raw, n, x);
    } else {
      AllRolledFrom(style, raw[..n], x);
      var i :| RolledFromAt(style, raw[..n], x, i);
      RolledFromPrefix(style, raw, n, x, i);
    }
  }

  lemma FiledFrom(style: Style, raw: Entries<Entries<int>>, n: int, x: string)
    requires 0 <= n < |raw| && x in FiledUnder(RollWith(style), raw[n].1)
    ensures RolledFromAt(style, raw, x, n)
  {
    var f := FiledUnder(RollWith(style), raw[n].1);
    var j :| 0 <= j < |f| && f[j] == x;
    assert x == RollWith(style)(raw[n].1[j].0);
  }

  lemma RolledFromPrefix(style: Style, raw: Entries<Entries<int>>, n: int, x: string, i: int)
    requires 0 <= n <= |raw| && RolledFromAt(style, raw[..n], x, i)
    ensures RolledFromAt(style, raw, x, i)
  {
    assert raw[..n][i] == raw[i];
  }

  /** When every key is good, every text filed under is readable. */
  lemma AllRolledReadable(style: Style, raw: Entries<Entries<int>>)
    requires AllGood(raw)
    ensures forall x | x in AllRolled(style, raw) :: ReadableText(style, x)
  {
    forall x | x in AllRolled(style, raw) ensures ReadableText(style, x) {
      AllRolledFrom(style, raw, x);
      var i :| RolledFromAt(style, raw, x, i);
      var j :| 0 <= j < |raw[i].1| && x == RollWith(style)(raw[i].1[j].0);
      GoodKeyReadable(style, raw[i].1[j].0);
    }
  }

  /**
   * The date list of a report, `[...new Set(xs)]` sorted by the comparator:
   * every readable text once, in strictly increasing time order.
   */
  lemma SortedDatesChronological(style: Style, xs: seq<string>)
    requires forall x | x in xs :: ReadableText(style, x)
    ensures NoDuplicates(Sort(Dedup(xs), DateLess))
    ensures forall x :: x in Sort(Dedup(xs), DateLess) <==> x in xs
    ensures Chronological(Sort(Dedup(xs), DateLess))
  {
    var d := Dedup(xs);
    SortChronological(style, d);
    SortNoDuplicates(d, DateLess);
    forall x ensures x in Sort(d, DateLess) <==> x in xs {
      SortSameElements(d, DateLess, x);
      DedupSameElements(xs, x);
    }
  }

  /** One more entry of the date loop: its date joins the list unless already there. */
  lemma FiledDatesStep(roll: string -> string, dateObj: Entries<int>, before: seq<string>, j: int)
    requires 0 <= j < |dateObj|
    ensures var filed := before + FiledUnder(roll, dateObj[..j]);
      Dedup(before + FiledUnder(roll, dateObj[..j + 1]))
        == if roll(dateObj[j].0) in Dedup(filed) then Dedup(filed) else Dedup(filed) + [roll(dateObj[j].0)]
  {
    var filed := before + FiledUnder(roll, dateObj[..j]);
    assert dateObj[..j + 1][..j] == dateObj[..j];
    assert before + FiledUnder(roll, dateObj[..j + 1]) == filed + [roll(dateObj[j].0)];
    DedupAdd(filed, roll(dateObj[j].0));
  }

  /**
   * The loop over one date object that the roll-ups share: each count is
   * added into a fresh bucket under the date `roll` files it under, and a
   * date not yet `seen` is appended to `allDates`.
   */
  method FileCounts(roll: string -> string, dateObj: Entries<int>, seen0: set<string>, allDates0: seq<string>, ghost before: seq<string>)
    returns (bucket: Entries<int>, seen: set<string>, allDates: seq<string>)
    requires allDates0 == Dedup(before) && forall x :: x in seen0 <==> x in allDates0
    ensures bucket == Tally(roll, dateObj)
    ensures allDates == Dedup(before + FiledUnder(roll, dateObj))
    ensures forall x :: x in seen <==> x in allDates
  {
    bucket, seen, allDates := [], seen0, allDates0;
    var j := 0;
    assert before + FiledUnder(roll, dateObj[..0]) == before;
    while j < |dateObj|
      invariant 0 <= j <= |dateObj|
      invariant bucket == Tally(roll, dateObj[..j])
      invariant allDates == Dedup(before + FiledUnder(roll, dateObj[..j]))
      invariant forall x :: x in seen <==> x in allDates
    {
      var dateStr := dateObj[j].0;
      var count := dateObj[j].1;
      var rd := roll(dateStr);
      TallyOntoStep(roll, [], dateObj, j);
      bucket := AddTo(bucket, rd, count);
      FiledDatesStep(roll, dateObj, before, j);
      if rd !in seen {
        seen := seen + {rd};
        allDates := allDates + [rd];
      }
      j := j + 1;
    }
    assert dateObj[..j] == dateObj;
  }
}
