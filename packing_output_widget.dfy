/**
 * frontend/src/components/pagecomp/widget/PackingOutputWidget.jsx: the
 * values the packing-output table is drawn from.
 *
 * `packingData` maps a model name to `{ groupLabel?, totalLabel?, parts }`,
 * and `parts` maps a part number to an object from `M/D/YYYY` day labels to
 * counts. `dateRange` lists the day labels between the chosen dates;
 * `groups` picks the models with data in that range and orders them;
 * `dailyTotals` adds up every part of every model per day; and the copy
 * button of a cell writes the text of one column.
 */
module PackingOutputWidget {
  import opened Wrappers
  import opened Strings
  import opened Sequences
  import opened Sorting
  import opened JsObjects
  import opened JsNumbers
  import opened JsValues
  import opened CivilDates
  import opened JsDates

  // ---------------------------------------------------------------------------
  // dateRange

  /** The labels `dateRange` lists: each Date the walk visits, as `M/D/YYYY`. */
  function DateRange(startDate: JsDate, endDate: JsDate): seq<string> {
    Map(DayWalk(startDate, endDate), ShortDateText)
  }

  /**
   * The `dateRange` memo: from a copy of `startDate`, push the label of the
   * current Date and move it on by one day while it is `<= endDate`.
   */
  method BuildDateRange(startDate: JsDate, endDate: JsDate) returns (dates: seq<string>)
    ensures dates == DateRange(startDate, endDate)
  {
    dates := [];
    var current := startDate;
    var end := endDate;
    ghost var walk := DayWalk(startDate, end);
    while LessEq(current, end)
      invariant |dates| <= |walk|
      invariant dates == Map(walk[..|dates|], ShortDateText)
      invariant |dates| < |walk| ==> current == walk[|dates|]
      invariant |dates| == |walk| ==> !LessEq(current, end)
      decreases |walk| - |dates|
    {
      var next := SetDate(current, Add(GetDate(current), Int(1)));
      var dates' := dates + [ShortDateText(current)];
      DateRangeStep(startDate, end, walk, dates, dates', current, next);
      dates := dates';
      current := next;
    }
    assert walk[..|dates|] == walk;
  }

  /** One iteration of the `dateRange` loop keeps its invariant. */
  lemma DateRangeStep(first: JsDate, last: JsDate, walk: seq<JsDate>, dates: seq<string>, dates': seq<string>,
                      current: JsDate, next: JsDate)
    requires walk == DayWalk(first, last)
    requires |dates| < |walk| && current == walk[|dates|]
    requires dates == Map(walk[..|dates|], ShortDateText)
    requires next == SetDate(current, Add(GetDate(current), Int(1)))
    requires dates' == dates + [ShortDateText(current)]
    ensures dates' == Map(walk[..|dates'|], ShortDateText)
    ensures |dates'| < |walk| ==> next == walk[|dates'|]
    ensures |dates'| == |walk| ==> !LessEq(next, last)
  {
    DayWalkStep(first, last, |dates|);
    LabelsStep(walk, dates, dates');
  }

  lemma LabelsStep(walk: seq<JsDate>, dates: seq<string>, dates': seq<string>)
    requires |dates| < |walk| && dates == Map(walk[..|dates|], ShortDateText)
    requires dates' == dates + [ShortDateText(walk[|dates|])]
    ensures dates' == Map(walk[..|dates'|], ShortDateText)
  {
    TakeSnoc(walk, |dates|);
    MapSnoc(walk[..|dates|], walk[|dates|], ShortDateText);
  }

  /** A prefix one element longer. */
  lemma TakeSnoc<T>(s: seq<T>, k: int)
    requires 0 <= k < |s|
    ensures s[..k + 1] == s[..k] + [s[k]]
  {
  }

  /** The unpadded `M/D/YYYY` label of a calendar day. */
  function DayLabel(c: Civil): string
    requires Valid(c)
  {
    NatToString(c.month) + "/" + NatToString(c.day) + "/" + IntToString(c.year)
  }

  /**
   * The list is empty exactly when the start is not `<=` the end (an Invalid
   * Date on either side included); otherwise its `i`-th label is the day `i`
   * days after the start day.
   */
  lemma DateRangeLabels(startDate: JsDate, endDate: JsDate)
    ensures DateRange(startDate, endDate) == [] <==> !LessEq(startDate, endDate)
    ensures forall i | 0 <= i < |DateRange(startDate, endDate)| ::
      startDate.Instant? && DateRange(startDate, endDate)[i] == DayLabel(AddDays(startDate.day, i))
  {
    var w := DayWalk(startDate, endDate);
    if LessEq(startDate, endDate) {
      assert |w| >= 1;
    }
    forall i | 0 <= i < |w|
      ensures startDate.Instant? && DateRange(startDate, endDate)[i] == DayLabel(AddDays(startDate.day, i))
    {
      assert w[i].day == AddDays(startDate.day, i);
    }
  }

  /** Whole days between two instants, when the start's time of day is not later. */
  lemma WholeDays(s: JsDate, e: JsDate)
    requires s.Instant? && e.Instant? && s.ms <= e.ms
    ensures (Millis(e.day, e.ms) - Millis(s.day, s.ms)) / MsPerDay == DayNumber(e.day) - DayNumber(s.day)
  {
    var n := DayNumber(e.day) - DayNumber(s.day);
    assert Millis(e.day, e.ms) - Millis(s.day, s.ms) == n * MsPerDay + (e.ms - s.ms);
  }

  /** Whole days between two instants, when the start's time of day is later. */
  lemma WholeDaysLate(s: JsDate, e: JsDate)
    requires s.Instant? && e.Instant? && s.ms > e.ms
    ensures (Millis(e.day, e.ms) - Millis(s.day, s.ms)) / MsPerDay == DayNumber(e.day) - DayNumber(s.day) - 1
  {
    var n := DayNumber(e.day) - DayNumber(s.day) - 1;
    assert Millis(e.day, e.ms) - Millis(s.day, s.ms) == n * MsPerDay + (MsPerDay + e.ms - s.ms);
  }

  /**
   * When the start's time of day is not later than the end's (both at
   * midnight, say), the list runs from the start day to the end day
   * inclusive, one label per day; and it is empty when the start day is
   * after the end day.
   */
  lemma DateRangeInclusive(startDate: JsDate, endDate: JsDate)
    requires startDate.Instant? && endDate.Instant? && startDate.ms <= endDate.ms
    ensures Before(endDate.day, startDate.day) <==> DateRange(startDate, endDate) == []
    ensures !Before(endDate.day, startDate.day) ==>
      var r := DateRange(startDate, endDate);
      |r| == DayNumber(endDate.day) - DayNumber(startDate.day) + 1
      && r[0] == DayLabel(startDate.day) && r[|r| - 1] == DayLabel(endDate.day)
  {
    var s, e := startDate, endDate;
    DayNumberOrder(e.day, s.day);
    DayNumberOrder(s.day, e.day);
    DateRangeLabels(s, e);
    WholeDays(s, e);
    if !Before(e.day, s.day) {
      var r := DateRange(s, e);
      var n := DayNumber(e.day) - DayNumber(s.day);
      assert DayNumber(AddDays(s.day, n)) == DayNumber(e.day);
      DayNumberInjective(AddDays(s.day, n), e.day);
      assert AddDays(s.day, 0) == s.day;
    }
  }

  /**
   * When the start's time of day is later than the end's, the walk passes
   * the end before reaching the end day: the list stops the day before it.
   */
  lemma DateRangeLateStart(startDate: JsDate, endDate: JsDate)
    requires startDate.Instant? && endDate.Instant? && startDate.ms > endDate.ms
    requires DayNumber(startDate.day) <= DayNumber(endDate.day)
    ensures |DateRange(startDate, endDate)| == DayNumber(endDate.day) - DayNumber(startDate.day)
    ensures forall i | 0 <= i < |DateRange(startDate, endDate)| ::
      DayWalk(startDate, endDate)[i].day != endDate.day
  {
    WholeDaysLate(startDate, endDate);
    var w := DayWalk(startDate, endDate);
    forall i | 0 <= i < |w| ensures w[i].day != endDate.day {
      assert DayNumber(w[i].day) == DayNumber(startDate.day) + i;
    }
  }

  // ---------------------------------------------------------------------------
  // Objects as `Object.entries` and `Object.values` see them

  /** `Object.values(v)`. */
  function ValuesOf(v: Value): seq<Value> {
    Map(EntriesOf(v), (e: (string, Value)) => e.1)
  }

  /** `typeof v === 'object'` for a truthy `v`: what `packingData` must be. */
  predicate IsObject(v: Value) {
    v.Obj? || v.Arr?
  }

  // ---------------------------------------------------------------------------
  // groups

  /** The models listed first, in this order. */
  const GroupOrder: seq<string> := ["Tesla SXM4", "Tesla SXM5", "SXM6", "RED OCTOBER"]

  /** `xs.indexOf(x)`: the first position of `x`, or -1. */
  function IndexOf(xs: seq<string>, x: string): (r: int)
    ensures -1 <= r < |xs|
    ensures r == -1 <==> x !in xs
    ensures r != -1 ==> xs[r] == x && forall j | 0 <= j < r :: xs[j] != x
    decreases |xs|
  {
    if xs == [] then -1
    else if xs[0] == x then 0
    else
      var r := IndexOf(xs[1..], x);
      if r == -1 then -1 else r + 1
  }

  /** One row group of the table. */
  datatype Group = Group(key: string, groupLabel: Value, totalLabel: Value, parts: seq<string>, order: int)

  /** `partData[date]` for a part that is not nullish. */
  function Cell(partData: Value, date: string): Value {
    OptField(partData, date)
  }

  /** A part is active when some date of the range has a value that is neither `null` nor `undefined`. */
  predicate Active(dates: seq<string>, partData: Value) {
    exists i | 0 <= i < |dates| :: !IsNullish(Cell(partData, dates[i]))
  }

  /**
   * `dates.some(date => partData[date] !== undefined && partData[date] !== null)`:
   * reading a property of a nullish part throws as soon as there is a date.
   */
  function SomeDate(dates: seq<string>, partData: Value): (r: Result<bool>)
    ensures r.Err? <==> dates != [] && IsNullish(partData)
    ensures r.Ok? ==> (r.value <==> Active(dates, partData))
    decreases |dates|
  {
    if dates == [] then Ok(false)
    else
      match Field(partData, dates[0])
      case Err(e) => Err(e)
      case Ok(v) =>
        if !IsNullish(v) then
          assert Cell(partData, dates[0]) == v;
          Ok(true)
        else
          var r := SomeDate(dates[1..], partData);
          assert Active(dates, partData) <==> Active(dates[1..], partData) by {
            if Active(dates, partData) {
              var i :| 0 <= i < |dates| && !IsNullish(Cell(partData, dates[i]));
              assert i != 0;
              assert dates[1..][i - 1] == dates[i];
            }
            if Active(dates[1..], partData) {
              var i :| 0 <= i < |dates[1..]| && !IsNullish(Cell(partData, dates[1..][i]));
              assert dates[i + 1] == dates[1..][i];
            }
          }
          r
  }

  /** The entry test of the part filter. */
  function ActiveIn(dates: seq<string>): ((string, Value)) -> bool {
    (e: (string, Value)) => Active(dates, e.1)
  }

  /** Some part is `null` or `undefined`. */
  predicate HasNullishPart(parts: Entries<Value>) {
    exists i | 0 <= i < |parts| :: IsNullish(parts[i].1)
  }

  lemma NullishSnoc(parts: Entries<Value>)
    requires parts != []
    ensures HasNullishPart(parts) <==> HasNullishPart(parts[..|parts| - 1]) || IsNullish(parts[|parts| - 1].1)
  {
    var n := |parts| - 1;
    if HasNullishPart(parts) {
      var i :| 0 <= i < |parts| && IsNullish(parts[i].1);
      if i < n {
        assert parts[..n][i] == parts[i];
      }
    }
    if HasNullishPart(parts[..n]) {
      var i :| 0 <= i < n && IsNullish(parts[..n][i].1);
      assert parts[..n][i] == parts[i];
    }
  }

  lemma ActiveKeysSnoc(dates: seq<string>, init: Entries<Value>, e: (string, Value))
    ensures Keys(Filter(init + [e], ActiveIn(dates)))
      == Keys(Filter(init, ActiveIn(dates))) + (if Active(dates, e.1) then [e.0] else [])
  {
    FilterSnoc(init, e, ActiveIn(dates));
    if Active(dates, e.1) {
      KeysSnoc(Filter(init, ActiveIn(dates)), e);
    }
  }

  /**
   * `Object.entries(parts).filter(([_, partData]) => dates.some(...)).map(([partNumber]) => partNumber)`:
   * the active parts' numbers in entry order, or the error the first
   * nullish part throws.
   */
  function ActiveNumbers(dates: seq<string>, parts: Entries<Value>): (r: Result<seq<string>>)
    ensures r.Err? <==> dates != [] && HasNullishPart(parts)
    ensures r.Ok? ==> r.value == Keys(Filter(parts, ActiveIn(dates)))
    decreases |parts|
  {
    if parts == [] then Ok([])
    else
      var n := |parts| - 1;
      NullishSnoc(parts);
      assert parts == parts[..n] + [parts[n]];
      ActiveKeysSnoc(dates, parts[..n], parts[n]);
      match ActiveNumbers(dates, parts[..n])
      case Err(e) => Err(e)
      case Ok(init) =>
        match SomeDate(dates, parts[n].1)
        case Err(e) => Err(e)
        case Ok(b) =>
          if b then Ok(init + [parts[n].0])
          else Ok(init)
  }

  /** `modelData?.parts || {}` as `Object.entries` sees it. */
  function PartsOf(modelData: Value): Entries<Value> {
    EntriesOf(Or(OptField(modelData, "parts"), Obj([])))
  }

  /** `a.localeCompare(b) < 0`, the part and key order, left abstract. */
  function ByLocale(compare: (string, string) -> int): (string, string) -> bool {
    CompareLess(compare)
  }

  /** The active parts, trimmed and sorted. */
  function ActiveParts(dates: seq<string>, modelData: Value, compare: (string, string) -> int): Result<seq<string>> {
    match ActiveNumbers(dates, PartsOf(modelData))
    case Err(e) => Err(e)
    case Ok(numbers) => Ok(Sort(Map(numbers, Trim), ByLocale(compare)))
  }

  /** The group a `packingData` entry becomes, before the empty ones are dropped. */
  function MakeGroup(dates: seq<string>, compare: (string, string) -> int, entry: (string, Value)): Result<Group> {
    var (modelName, modelData) := entry;
    match ActiveParts(dates, modelData, compare)
    case Err(e) => Err(e)
    case Ok(parts) =>
      Ok(Group(modelName,
               Or(OptField(modelData, "groupLabel"), Str(modelName)),
               Or(OptField(modelData, "totalLabel"), Str(modelName + " Total")),
               parts,
               IndexOf(GroupOrder, modelName)))
  }

  /** `group.parts.length > 0`. */
  predicate HasParts(g: Group) {
    g.parts != []
  }

  /** The comparator of the group sort. */
  function GroupCompare(compare: (string, string) -> int, a: Group, b: Group): int {
    if a.order != -1 && b.order != -1 then a.order - b.order
    else if a.order != -1 then -1
    else if b.order != -1 then 1
    else compare(a.key, b.key)
  }

  predicate GroupPrecedes(compare: (string, string) -> int, a: Group, b: Group) {
    GroupCompare(compare, a, b) < 0
  }

  function GroupBefore(compare: (string, string) -> int): (Group, Group) -> bool {
    (a: Group, b: Group) => GroupPrecedes(compare, a, b)
  }

  /** Every `packingData` entry made into a group, or the first error. */
  function AllGroups(packingData: Value, dates: seq<string>, compare: (string, string) -> int): Result<seq<Group>> {
    MapResult(EntriesOf(packingData), (e: (string, Value)) => MakeGroup(dates, compare, e))
  }

  /**
   * The `groups` memo: nothing unless `packingData` is an object; the
   * groups with active parts, in group order; nothing if the computation
   * throws (the `catch` returns `[]`).
   */
  function Groups(packingData: Value, dates: seq<string>, compare: (string, string) -> int): seq<Group> {
    if !IsObject(packingData) then []
    else
      match AllGroups(packingData, dates, compare)
      case Err(_) => []
      case Ok(gs) => Sort(Filter(gs, HasParts), GroupBefore(compare))
  }

  /** The group a model entry stands for, when nothing throws. */
  function GroupOf(dates: seq<string>, compare: (string, string) -> int, entry: (string, Value)): Group {
    Group(entry.0,
          Or(OptField(entry.1, "groupLabel"), Str(entry.0)),
          Or(OptField(entry.1, "totalLabel"), Str(entry.0 + " Total")),
          Sort(Map(Keys(Filter(PartsOf(entry.1), ActiveIn(dates))), Trim), ByLocale(compare)),
          IndexOf(GroupOrder, entry.0))
  }

  /** The part filter throws exactly when a part of some model is nullish and there is a date to read. */
  predicate GroupsThrow(packingData: Value, dates: seq<string>) {
    dates != [] && exists i | 0 <= i < |EntriesOf(packingData)| :: HasNullishPart(PartsOf(EntriesOf(packingData)[i].1))
  }

  lemma MakeGroupMeaning(dates: seq<string>, compare: (string, string) -> int, entry: (string, Value))
    ensures MakeGroup(dates, compare, entry).Err? <==> dates != [] && HasNullishPart(PartsOf(entry.1))
    ensures MakeGroup(dates, compare, entry).Ok? ==> MakeGroup(dates, compare, entry).value == GroupOf(dates, compare, entry)
  {
  }

  /** The entries are made into groups without a throw exactly when no model has a nullish part (or there is no date). */
  lemma AllGroupsThrow(packingData: Value, dates: seq<string>, compare: (string, string) -> int)
    ensures AllGroups(packingData, dates, compare).Err? <==> GroupsThrow(packingData, dates)
  {
    var es := EntriesOf(packingData);
    var f := (e: (string, Value)) => MakeGroup(dates, compare, e);
    MapResultThrows(es, f);
    forall i | 0 <= i < |es| ensures f(es[i]).Err? <==> dates != [] && HasNullishPart(PartsOf(es[i].1)) {
      MakeGroupMeaning(dates, compare, es[i]);
    }
  }

  /** Without a throw, the `i`-th group is that of the `i`-th entry. */
  lemma AllGroupsEach(packingData: Value, dates: seq<string>, compare: (string, string) -> int, i: int)
    requires AllGroups(packingData, dates, compare).Ok? && 0 <= i < |EntriesOf(packingData)|
    ensures AllGroups(packingData, dates, compare).value[i] == GroupOf(dates, compare, EntriesOf(packingData)[i])
  {
    var es := EntriesOf(packingData);
    MapResultEach(es, (e: (string, Value)) => MakeGroup(dates, compare, e), i);
    MakeGroupMeaning(dates, compare, es[i]);
  }

  /** Sorting what a filter keeps: exactly the elements that pass. */
  lemma SortFilterMembers<T>(s: seq<T>, p: T -> bool, less: (T, T) -> bool, x: T)
    ensures x in Sort(Filter(s, p), less) <==> x in s && p(x)
  {
    SortSameElements(Filter(s, p), less, x);
  }

  /**
   * The groups shown: exactly the models with an active part, each with
   * its trimmed, sorted active parts, its labels (defaulting to the model
   * name and "<model> Total") and its place in the fixed order; nothing at
   * all when a nullish part makes the filter throw.
   */
  lemma GroupsMeaning(packingData: Value, dates: seq<string>, compare: (string, string) -> int, g: Group)
    requires IsObject(packingData)
    ensures GroupsThrow(packingData, dates) ==> Groups(packingData, dates, compare) == []
    ensures !GroupsThrow(packingData, dates) ==>
      (g in Groups(packingData, dates, compare) <==>
        (exists i | 0 <= i < |EntriesOf(packingData)| :: g == GroupOf(dates, compare, EntriesOf(packingData)[i])) && g.parts != [])
  {
    AllGroupsThrow(packingData, dates, compare);
    if AllGroups(packingData, dates, compare).Ok? {
      SortFilterMembers(AllGroups(packingData, dates, compare).value, HasParts, GroupBefore(compare), g);
      if g in AllGroups(packingData, dates, compare).value {
        var k :| 0 <= k < |AllGroups(packingData, dates, compare).value| && AllGroups(packingData, dates, compare).value[k] == g;
        AllGroupsEach(packingData, dates, compare, k);
      }
      if exists i | 0 <= i < |EntriesOf(packingData)| :: g == GroupOf(dates, compare, EntriesOf(packingData)[i]) {
        var i :| 0 <= i < |EntriesOf(packingData)| && g == GroupOf(dates, compare, EntriesOf(packingData)[i]);
        AllGroupsEach(packingData, dates, compare, i);
      }
    }
  }

  /** The keys a filter keeps, mapped by `f`: those of the entries that pass. */
  lemma KeptNames<V>(parts: Entries<V>, keep: ((string, V)) -> bool, f: string -> string, p: string)
    ensures p in Map(Keys(Filter(parts, keep)), f) <==> exists i | 0 <= i < |parts| :: keep(parts[i]) && p == f(parts[i].0)
  {
    if p in Map(Keys(Filter(parts, keep)), f) {
      var i := KeptNameFrom(parts, keep, f, p);
    }
    if exists i | 0 <= i < |parts| :: keep(parts[i]) && p == f(parts[i].0) {
      var i :| 0 <= i < |parts| && keep(parts[i]) && p == f(parts[i].0);
      KeptNameOf(parts, keep, f, i);
    }
  }

  lemma KeptNameFrom<V>(parts: Entries<V>, keep: ((string, V)) -> bool, f: string -> string, p: string) returns (i: int)
    requires p in Map(Keys(Filter(parts, keep)), f)
    ensures 0 <= i < |parts| && keep(parts[i]) && p == f(parts[i].0)
  {
    var k :| 0 <= k < |Filter(parts, keep)| && Map(Keys(Filter(parts, keep)), f)[k] == p;
    assert Filter(parts, keep)[k] in parts;
    i :| 0 <= i < |parts| && parts[i] == Filter(parts, keep)[k];
  }

  lemma KeptNameOf<V>(parts: Entries<V>, keep: ((string, V)) -> bool, f: string -> string, i: int)
    requires 0 <= i < |parts| && keep(parts[i])
    ensures f(parts[i].0) in Map(Keys(Filter(parts, keep)), f)
  {
    var kept := Filter(parts, keep);
    assert parts[i] in kept;
    var k :| 0 <= k < |kept| && kept[k] == parts[i];
    assert Map(Keys(kept), f)[k] == f(parts[i].0);
  }

  /** A part is listed under its group exactly when it is active, trimmed. */
  lemma GroupPartsMeaning(dates: seq<string>, compare: (string, string) -> int, entry: (string, Value), p: string)
    ensures p in GroupOf(dates, compare, entry).parts <==>
      exists i | 0 <= i < |PartsOf(entry.1)| :: Active(dates, PartsOf(entry.1)[i].1) && p == Trim(PartsOf(entry.1)[i].0)
  {
    SortSameElements(Map(Keys(Filter(PartsOf(entry.1), ActiveIn(dates))), Trim), ByLocale(compare), p);
    KeptNames(PartsOf(entry.1), ActiveIn(dates), Trim, p);
  }

  /** Under a consistent `localeCompare` a group's parts are in its order. */
  lemma GroupPartsSorted(dates: seq<string>, compare: (string, string) -> int, entry: (string, Value))
    requires ConsistentCompare(compare)
    ensures var ps := GroupOf(dates, compare, entry).parts;
      forall i, j | 0 <= i < j < |ps| :: compare(ps[i], ps[j]) <= 0
  {
    var names := Map(Keys(Filter(PartsOf(entry.1), ActiveIn(dates))), Trim);
    CompareLessStrictWeak(compare);
    SortOrdered(names, ByLocale(compare));
    var ps := GroupOf(dates, compare, entry).parts;
    forall i, j | 0 <= i < j < |ps| ensures compare(ps[i], ps[j]) <= 0 {
      assert !ByLocale(compare)(ps[j], ps[i]);
    }
  }

  /** A listed model's order is its position in the list; an unlisted one's is -1. */
  lemma GroupOrderPositions(key: string)
    ensures key == "Tesla SXM4" ==> IndexOf(GroupOrder, key) == 0
    ensures key == "Tesla SXM5" ==> IndexOf(GroupOrder, key) == 1
    ensures key == "SXM6" ==> IndexOf(GroupOrder, key) == 2
    ensures key == "RED OCTOBER" ==> IndexOf(GroupOrder, key) == 3
    ensures key !in GroupOrder ==> IndexOf(GroupOrder, key) == -1
  {
  }

  /** A listed group comes before an unlisted one; two listed ones go by position; two unlisted ones by key. */
  lemma GroupPrecedesCases(compare: (string, string) -> int, a: Group, b: Group)
    ensures a.order != -1 && b.order != -1 ==> (GroupPrecedes(compare, a, b) <==> a.order < b.order)
    ensures a.order != -1 && b.order == -1 ==> GroupPrecedes(compare, a, b)
    ensures a.order == -1 && b.order != -1 ==> !GroupPrecedes(compare, a, b)
    ensures a.order == -1 && b.order == -1 ==> (GroupPrecedes(compare, a, b) <==> compare(a.key, b.key) < 0)
  {
  }

  lemma GroupBeforeStrictWeak(compare: (string, string) -> int)
    requires ConsistentCompare(compare)
    ensures StrictWeakOrder(GroupBefore(compare))
  {
    var less := GroupBefore(compare);
    forall a: Group ensures !less(a, a) {
      GroupPrecedesCases(compare, a, a);
    }
    forall a: Group, b: Group, c: Group ensures less(a, b) && less(b, c) ==> less(a, c) {
      GroupPrecedesCases(compare, a, b);
      GroupPrecedesCases(compare, b, c);
      GroupPrecedesCases(compare, a, c);
    }
    forall a: Group, b: Group, c: Group ensures !less(a, b) && !less(b, c) ==> !less(a, c) {
      GroupPrecedesCases(compare, a, b);
      GroupPrecedesCases(compare, b, c);
      GroupPrecedesCases(compare, a, c);
      CompareLessStrictWeak(compare);
      assert !CompareLess(compare)(a.key, b.key) && !CompareLess(compare)(b.key, c.key) ==> !CompareLess(compare)(a.key, c.key);
    }
  }

  /**
   * Under a consistent `localeCompare` the listed models come first, in the
   * order of the list, and the others follow in key order.
   */
  lemma GroupsOrdered(packingData: Value, dates: seq<string>, compare: (string, string) -> int)
    requires ConsistentCompare(compare)
    ensures var gs := Groups(packingData, dates, compare);
      forall i, j | 0 <= i < j < |gs| ::
        (gs[j].order != -1 ==> gs[i].order != -1 && gs[i].order <= gs[j].order)
        && (gs[i].order == -1 ==> gs[j].order == -1 && compare(gs[i].key, gs[j].key) <= 0)
  {
    var gs := Groups(packingData, dates, compare);
    var less := GroupBefore(compare);
    if IsObject(packingData) && AllGroups(packingData, dates, compare).Ok? {
      GroupBeforeStrictWeak(compare);
      SortOrdered(Filter(AllGroups(packingData, dates, compare).value, HasParts), less);
    }
    forall i, j | 0 <= i < j < |gs|
      ensures (gs[j].order != -1 ==> gs[i].order != -1 && gs[i].order <= gs[j].order)
        && (gs[i].order == -1 ==> gs[j].order == -1 && compare(gs[i].key, gs[j].key) <= 0)
    {
      assert !less(gs[j], gs[i]);
      GroupPrecedesCases(compare, gs[j], gs[i]);
    }
  }

  // ---------------------------------------------------------------------------
  // dailyTotals

  /** `model?.parts ? Object.values(model.parts) : []`: the parts a model contributes to the sums. */
  function PartValues(model: Value): seq<Value> {
    if JsValues.Truthy(OptField(model, "parts")) then ValuesOf(OptField(model, "parts")) else []
  }

  /** The lists one after the other. */
  function Concat<T>(xss: seq<seq<T>>): seq<T>
    decreases |xss|
  {
    if xss == [] then [] else Concat(xss[..|xss| - 1]) + xss[|xss| - 1]
  }

  /** Every model's parts, one model after the other. */
  function AllParts(models: seq<Value>): seq<Value> {
    Concat(Map(models, PartValues))
  }

  /** `Number(partData[date] || 0)` for a part that is not nullish. */
  function PartValue(partData: Value, date: string): Num {
    ToNumber(Or(Cell(partData, date), Number(Int(0))))
  }

  /** `total += value` over the parts, from 0. */
  function DaySum(parts: seq<Value>, date: string): Num
    decreases |parts|
  {
    if parts == [] then Int(0) else JsNumbers.Add(DaySum(parts[..|parts| - 1], date), PartValue(parts[|parts| - 1], date))
  }

  /** `acc[k] = f(k)` for each key in turn, starting from `{}`. */
  function PutEach<V>(ks: seq<string>, f: string -> V): Entries<V>
    decreases |ks|
  {
    if ks == [] then [] else Put(PutEach(ks[..|ks| - 1], f), ks[|ks| - 1], f(ks[|ks| - 1]))
  }

  /** The day's sum as a function of the date. */
  function SumOn(parts: seq<Value>): string -> Num {
    (d: string) => DaySum(parts, d)
  }

  /** Some part reached by the sums is `null` or `undefined`. */
  predicate SomeNullish(parts: seq<Value>) {
    exists i | 0 <= i < |parts| :: IsNullish(parts[i])
  }

  /**
   * The `dailyTotals` memo: nothing unless `packingData` is an object;
   * nothing if reading a date of a nullish part throws; otherwise each date
   * of the range mapped to its sum over all parts of all models.
   */
  function DailyTotals(packingData: Value, dates: seq<string>): Entries<Num> {
    var parts := AllParts(ValuesOf(packingData));
    if !IsObject(packingData) || (dates != [] && SomeNullish(parts)) then []
    else PutEach(dates, SumOn(parts))
  }

  lemma DailyStep(parts: seq<Value>, dates: seq<string>, k: int, total: Num)
    requires 0 <= k < |dates| && total == DaySum(parts, dates[k])
    ensures PutEach(dates[..k + 1], SumOn(parts)) == Put(PutEach(dates[..k], SumOn(parts)), dates[k], total)
  {
    PutEachStep(dates, k, SumOn(parts));
  }

  /** The `reduce` starts from the empty object and ends with every date. */
  lemma DailyEnds(dates: seq<string>, f: string -> Num)
    ensures PutEach(dates[..0], f) == []
    ensures dates[..|dates|] == dates
  {
    assert dates[..0] == [];
  }

  /** The `dailyTotals` computation: `reduce` over the dates, summing each day with `SumDay`. */
  method ComputeDailyTotals(packingData: Value, dateRange: seq<string>) returns (totals: Entries<Num>)
    ensures totals == DailyTotals(packingData, dateRange)
  {
    if !IsObject(packingData) {
      return [];
    }
    var models := ValuesOf(packingData);
    var acc: Entries<Num> := [];
    var k := 0;
    DailyEnds(dateRange, SumOn(AllParts(models)));
    while k < |dateRange|
      invariant 0 <= k <= |dateRange|
      invariant acc == PutEach(dateRange[..k], SumOn(AllParts(models)))
      invariant k > 0 ==> !SomeNullish(AllParts(models))
    {
      var date := dateRange[k];
      var total, threw := SumDay(models, date);
      if threw {
        return [];
      }
      DailyStep(AllParts(models), dateRange, k, total);
      acc := Put(acc, date, total);
      k := k + 1;
    }
    totals := acc;
  }

  /**
   * One day of the `reduce`: `total += Number(partData[date] || 0)` over the
   * parts of every model with truthy `parts`, in nested `forEach` loops;
   * `threw` when a nullish part is read.
   */
  method SumDay(models: seq<Value>, date: string) returns (total: Num, threw: bool)
    ensures threw <==> SomeNullish(AllParts(models))
    ensures !threw ==> total == DaySum(AllParts(models), date)
  {
    total := Int(0);
    ghost var lists := Map(models, PartValues);
    var m := 0;
    while m < |models|
      invariant 0 <= m <= |models|
      invariant total == DaySum(Concat(lists[..m]), date)
      invariant !SomeNullish(Concat(lists[..m]))
    {
      var parts := PartValues(models[m]);
      ghost var before := Concat(lists[..m]);
      AppendNothing(before, parts);
      var p := 0;
      while p < |parts|
        invariant 0 <= p <= |parts|
        invariant total == DaySum(before + parts[..p], date)
        invariant !SomeNullish(before + parts[..p])
      {
        if IsNullish(parts[p]) {
          ConcatHas(lists, m, p);
          return total, true;
        }
        SumStep(before, parts, p, date);
        total := JsNumbers.Add(total, PartValue(parts[p], date));
        p := p + 1;
      }
      ConcatStep(lists, m);
      assert parts[..p] == parts;
      m := m + 1;
    }
    assert lists[..m] == lists;
    threw := false;
  }

  lemma AppendNothing<T>(a: seq<T>, b: seq<T>)
    ensures a + b[..0] == a
  {
  }

  /** One more part in the running sum. */
  lemma SumStep(before: seq<Value>, parts: seq<Value>, p: int, date: string)
    requires 0 <= p < |parts| && !IsNullish(parts[p]) && !SomeNullish(before + parts[..p])
    ensures DaySum(before + parts[..p + 1], date) == JsNumbers.Add(DaySum(before + parts[..p], date), PartValue(parts[p], date))
    ensures !SomeNullish(before + parts[..p + 1])
  {
    assert before + parts[..p + 1] == (before + parts[..p]) + [parts[p]];
    NotNullishSnoc(before + parts[..p], parts[p]);
  }

  lemma NotNullishSnoc(s: seq<Value>, x: Value)
    requires !SomeNullish(s) && !IsNullish(x)
    ensures !SomeNullish(s + [x])
  {
    forall i | 0 <= i < |s| + 1 ensures !IsNullish((s + [x])[i]) {
      if i < |s| {
        assert (s + [x])[i] == s[i];
      }
    }
  }

  /** The lists up to the `m`-th, one more at a time. */
  lemma ConcatStep<T>(xss: seq<seq<T>>, m: int)
    requires 0 <= m < |xss|
    ensures Concat(xss[..m + 1]) == Concat(xss[..m]) + xss[m]
  {
    assert xss[..m + 1][..m] == xss[..m];
  }

  /** Every element of every list is in the concatenation. */
  lemma {:induction false} ConcatHas<T>(xss: seq<seq<T>>, m: int, p: int)
    requires 0 <= m < |xss| && 0 <= p < |xss[m]|
    ensures xss[m][p] in Concat(xss)
    decreases |xss|
  {
    var n := |xss| - 1;
    if m < n {
      ConcatHas(xss[..n], m, p);
    } else {
      assert Concat(xss)[|Concat(xss[..n])| + p] == xss[m][p];
    }
  }

  /** The keys up to the `k`-th, one more at a time. */
  lemma PutEachStep<V>(ks: seq<string>, k: int, f: string -> V)
    requires 0 <= k < |ks|
    ensures PutEach(ks[..k + 1], f) == Put(PutEach(ks[..k], f), ks[k], f(ks[k]))
  {
    assert ks[..k + 1][..k] == ks[..k];
  }

  /** After the loop over some keys, each key has its own value and nothing else has an entry. */
  lemma {:induction false} PutEachGet<V>(ks: seq<string>, f: string -> V, k: string)
    ensures k in ks ==> Get(PutEach(ks, f), k) == Some(f(k))
    ensures k !in ks ==> Get(PutEach(ks, f), k) == None
    decreases |ks|
  {
    if ks != [] {
      var n := |ks| - 1;
      PutEachGet(ks[..n], f, k);
      InSnoc(ks, k);
      if ks[n] != k {
        PutOther(PutEach(ks[..n], f), ks[n], f(ks[n]), k);
      }
    }
  }

  /** The entries come in the order of the keys, each key once. */
  lemma {:induction false} PutEachKeys<V>(ks: seq<string>, f: string -> V)
    ensures Keys(PutEach(ks, f)) == Dedup(ks)
    decreases |ks|
  {
    if ks != [] {
      var n := |ks| - 1;
      PutEachKeys(ks[..n], f);
    }
  }

  /**
   * When nothing throws, every date of the range has an entry, in range
   * order, and it is the sum over all parts of all models; no other key
   * has one.
   */
  lemma DailyTotalsMeaning(packingData: Value, dates: seq<string>, d: string)
    requires IsObject(packingData) && !SomeNullish(AllParts(ValuesOf(packingData)))
    ensures Keys(DailyTotals(packingData, dates)) == Dedup(dates)
    ensures d in dates ==> Get(DailyTotals(packingData, dates), d) == Some(DaySum(AllParts(ValuesOf(packingData)), d))
    ensures d !in dates ==> Get(DailyTotals(packingData, dates), d) == None
  {
    var f := SumOn(AllParts(ValuesOf(packingData)));
    PutEachKeys(dates, f);
    PutEachGet(dates, f, d);
  }

  /** A part that is `null` or `undefined` empties the totals, as soon as there is a date. */
  lemma DailyTotalsThrow(packingData: Value, dates: seq<string>)
    requires dates != [] && SomeNullish(AllParts(ValuesOf(packingData)))
    ensures DailyTotals(packingData, dates) == []
  {
  }

  /** A day without any truthy value sums to zero. */
  lemma {:induction false} DaySumZero(parts: seq<Value>, date: string)
    requires forall i | 0 <= i < |parts| :: !JsValues.Truthy(Cell(parts[i], date))
    ensures DaySum(parts, date) == Int(0)
    decreases |parts|
  {
    if parts != [] {
      DaySumZero(parts[..|parts| - 1], date);
    }
  }

  /**
   * The sum is a number exactly when every part's value is; otherwise one
   * value that is not a number makes the whole day `NaN`.
   */
  lemma {:induction false} DaySumNaN(parts: seq<Value>, date: string)
    ensures DaySum(parts, date).Int? <==> forall i | 0 <= i < |parts| :: PartValue(parts[i], date).Int?
    decreases |parts|
  {
    if parts != [] {
      DaySumNaN(parts[..|parts| - 1], date);
      AllNumbersSnoc(parts, date);
    }
  }

  /** Every part's value is a number. */
  predicate AllNumbers(parts: seq<Value>, date: string) {
    forall i | 0 <= i < |parts| :: PartValue(parts[i], date).Int?
  }

  lemma AllNumbersSnoc(parts: seq<Value>, date: string)
    requires parts != []
    ensures AllNumbers(parts, date) <==>
      AllNumbers(parts[..|parts| - 1], date) && PartValue(parts[|parts| - 1], date).Int?
  {
    AllSnoc(parts, parts[..|parts| - 1], (p: Value) => PartValue(p, date).Int?);
  }

  /** Every element passes exactly when every element of the prefix and the last one pass. */
  lemma AllSnoc<T>(s: seq<T>, init: seq<T>, ok: T -> bool)
    requires s != [] && init == s[..|s| - 1]
    ensures (forall i | 0 <= i < |s| :: ok(s[i])) <==> (forall i | 0 <= i < |init| :: ok(init[i])) && ok(s[|s| - 1])
  {
    forall i | 0 <= i < |init| ensures init[i] == s[i] {
    }
  }

  // ---------------------------------------------------------------------------
  // The copy-column text

  /** `partData[date] || ''` written out by `join`. */
  function CellText(partData: Value, date: string): string {
    JsValues.ToText(Or(Cell(partData, date), Str("")))
  }

  /** The values a model group's column is made of, or the error reading a nullish part throws. */
  function ColumnCells(parts: seq<Value>, date: string): (r: Result<seq<string>>)
    ensures r.Err? <==> SomeNullish(parts)
    ensures r.Ok? ==> |r.value| == |parts| && forall i | 0 <= i < |parts| :: r.value[i] == CellText(parts[i], date)
    decreases |parts|
  {
    if parts == [] then Ok([])
    else
      var n := |parts| - 1;
      assert SomeNullish(parts) <==> SomeNullish(parts[..n]) || IsNullish(parts[n]) by {
        if SomeNullish(parts) {
          var i :| 0 <= i < |parts| && IsNullish(parts[i]);
          if i < n {
            assert parts[..n][i] == parts[i];
          }
        }
      }
      match ColumnCells(parts[..n], date)
      case Err(e) => Err(e)
      case Ok(init) =>
        if IsNullish(parts[n]) then Err("TypeError: Cannot read properties of " + JsValues.ToText(parts[n]))
        else Ok(init + [CellText(parts[n], date)])
  }

  /** The sort lines listed by the SORT row. */
  const SortModels: seq<string> := ["506", "520"]

  /** `sortData[model]?.[date] || ""` as the text of one sort line. */
  function SortLine(sortData: Value, date: string): string -> string {
    m => CellText(Cell(sortData, m), date)
  }

  /**
   * The text `handleCopyColumn(group, date)` writes to the clipboard: the
   * model group's part values for the date joined by line breaks; the
   * day's total for DAILY TOTAL; the two sort lines' values for SORT;
   * otherwise nothing.
   */
  function CopyColumn(packingData: Value, sortData: Value, totals: Entries<Num>, group: string, date: string): Result<string> {
    match Field(packingData, group)
    case Err(e) => Err(e)
    case Ok(model) =>
      if JsValues.Truthy(model) then
        var parts := OptField(model, "parts");
        if IsNullish(parts) then Err("TypeError: Cannot convert undefined or null to object")
        else
          match ColumnCells(ValuesOf(parts), date)
          case Err(e) => Err(e)
          case Ok(cells) => Ok(Join(cells, "\n"))
      else if group == "DAILY TOTAL" then
        match Get(totals, date)
        case Some(n) => Ok(JsNumbers.ToText(n))
        case None => Ok("")
      else if group == "SORT" then
        if IsNullish(sortData) then Err("TypeError: Cannot read properties of " + JsValues.ToText(sortData))
        else Ok(Join(Map(SortModels, SortLine(sortData, date)), "\n"))
      else Ok("")
  }

  /**
   * For a model group whose parts are all present and whose values hold no
   * line break, the copied text splits back into one line per part, in
   * entry order, where a missing (or falsy) value is an empty line.
   */
  lemma CopyColumnLines(packingData: Value, sortData: Value, totals: Entries<Num>, group: string, date: string)
    requires IsObject(packingData)
    requires JsValues.Truthy(Cell(packingData, group))
    requires var ps := ValuesOf(OptField(Cell(packingData, group), "parts"));
      |ps| > 0 && !SomeNullish(ps) && forall i | 0 <= i < |ps| :: '\n' !in CellText(ps[i], date)
    requires !IsNullish(OptField(Cell(packingData, group), "parts"))
    ensures CopyColumn(packingData, sortData, totals, group, date).Ok?
    ensures var ps := ValuesOf(OptField(Cell(packingData, group), "parts"));
      var lines := Split(CopyColumn(packingData, sortData, totals, group, date).value, "\n");
      |lines| == |ps| && forall i | 0 <= i < |ps| :: lines[i] == CellText(ps[i], date)
  {
    var ps := ValuesOf(OptField(Cell(packingData, group), "parts"));
    var cells := ColumnCells(ps, date).value;
    SplitJoinOfPieces(cells, '\n');
  }

  /** A missing or falsy value is an empty line; a present one is its text. */
  lemma CellTextMeaning(partData: Value, date: string)
    ensures !JsValues.Truthy(Cell(partData, date)) ==> CellText(partData, date) == ""
    ensures Cell(partData, date).Str? && Cell(partData, date).s != "" ==> CellText(partData, date) == Cell(partData, date).s
    ensures Cell(partData, date).Number? && JsNumbers.Truthy(Cell(partData, date).n) ==>
      CellText(partData, date) == JsNumbers.ToText(Cell(partData, date).n)
  {
  }

  /**
   * The SORT column: one line per sort line, 506 then 520, each that line's
   * value for the date or an empty line, when no value holds a line break.
   */
  lemma CopySortLines(packingData: Value, sortData: Value, totals: Entries<Num>, date: string)
    requires !IsNullish(packingData) && !JsValues.Truthy(Cell(packingData, "SORT")) && !IsNullish(sortData)
    requires '\n' !in CellText(Cell(sortData, "506"), date) && '\n' !in CellText(Cell(sortData, "520"), date)
    ensures CopyColumn(packingData, sortData, totals, "SORT", date).Ok?
    ensures Split(CopyColumn(packingData, sortData, totals, "SORT", date).value, "\n")
      == [CellText(Cell(sortData, "506"), date), CellText(Cell(sortData, "520"), date)]
  {
    SortColumn(packingData, sortData, totals, date);
    SplitJoinOfPieces([CellText(Cell(sortData, "506"), date), CellText(Cell(sortData, "520"), date)], '\n');
  }

  lemma SortColumn(packingData: Value, sortData: Value, totals: Entries<Num>, date: string)
    requires !IsNullish(packingData) && !JsValues.Truthy(Cell(packingData, "SORT")) && !IsNullish(sortData)
    ensures CopyColumn(packingData, sortData, totals, "SORT", date)
      == Ok(Join([CellText(Cell(sortData, "506"), date), CellText(Cell(sortData, "520"), date)], "\n"))
  {
    MapPair("506", "520", SortLine(sortData, date));
  }

  /** The DAILY TOTAL column is the day's total as text, or empty without an entry. */
  lemma CopyDailyTotal(packingData: Value, sortData: Value, totals: Entries<Num>, date: string)
    requires !IsNullish(packingData) && !JsValues.Truthy(Cell(packingData, "DAILY TOTAL"))
    ensures Get(totals, date).Some? ==> CopyColumn(packingData, sortData, totals, "DAILY TOTAL", date) == Ok(JsNumbers.ToText(Get(totals, date).value))
    ensures Get(totals, date).None? ==> CopyColumn(packingData, sortData, totals, "DAILY TOTAL", date) == Ok("")
  {
  }
}
