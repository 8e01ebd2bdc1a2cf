/**
 * frontend/src/data/GlobalSettingsContext.js: the dashboard's
 * `settingsReducer` and the snapshot the provider saves. State and action
 * are plain objects; every handled action returns a new object made by
 * spreading the state and assigning the changed properties, and every
 * other action type returns the state itself. Reading a property of a
 * missing value, or calling an array method on a non-array, throws; the
 * model returns those `TypeError`s as `Err`.
 */
module GlobalSettings {
  import opened Wrappers
  import opened Strings
  import opened JsObjects
  import opened JsValues
  import opened Sequences

  type State = Entries<Value>
  type Action = Entries<Value>

  /** The cases of the reducer's `switch (action.type)`. */
  datatype Kind =
    | SetDateRange | SetBarLimit | AddWidget | RemoveWidgets | ReorderWidgets | LoadSettings | SetPage
    | Other

  /** The case `switch (action.type)` takes: `case 'NAME':` matches when `action.type === 'NAME'`. */
  function KindOf(action: Action): (r: Kind)
    ensures r == Other <==> !(Prop(action, "type").Str? && Prop(action, "type").s in Handled)
  {
    match Prop(action, "type")
    case Str("SET_DATE_RANGE") => SetDateRange
    case Str("SET_BAR_LIMIT") => SetBarLimit
    case Str("ADD_WIDGET") => AddWidget
    case Str("REMOVE_WIDGETS") => RemoveWidgets
    case Str("REORDER_WIDGETS") => ReorderWidgets
    case Str("LOAD_SETTINGS") => LoadSettings
    case Str("SET_PAGE") => SetPage
    case _ => Other
  }

  /** The action types the reducer handles. */
  const Handled: seq<string> := ["SET_DATE_RANGE", "SET_BAR_LIMIT", "ADD_WIDGET", "REMOVE_WIDGETS",
                                 "REORDER_WIDGETS", "LOAD_SETTINGS", "SET_PAGE"]

  const NotIterable: string := "TypeError: state.widgets is not iterable"
  const NoFilter: string := "TypeError: state.widgets.filter is not a function"
  const NoIncludes: string := "TypeError: action.widgetIds.includes is not a function"
  const ReadIncludes: string := "TypeError: Cannot read properties of undefined (reading 'includes')"
  const NoMap: string := "TypeError: state.widgets.map is not a function"

  /** The elements `[...v]` spreads: an array's items, or a string's characters. */
  function Spread(v: Value): (r: Result<seq<Value>>)
    ensures v.Arr? ==> r == Ok(v.items)
    ensures v.Str? ==> r.Ok? && |r.value| == |v.s|
    ensures !v.Arr? && !v.Str? ==> r.Err?
  {
    match v
    case Arr(items) => Ok(items)
    case Str(s) => Ok(seq(|s|, i requires 0 <= i < |s| => Str([s[i]])))
    case _ => Err(NotIterable)
  }

  /**
   * `action.widgetIds.includes(w.id)`: `Array.prototype.includes` on an
   * array of ids, `String.prototype.includes` on a string.
   */
  function Excluded(ids: Value, w: Value): Result<bool> {
    if IsNullish(ids) then Err(ReadIncludes)
    else match Field(w, "id")
      case Err(e) => Err(e)
      case Ok(id) =>
        match ids
        case Arr(items) => Ok(Includes(items, id))
        case Str(s) => Ok(Contains(s, JsValues.ToText(id)))
        case _ => Err(NoIncludes)
  }

  /** `widgets.filter(w => !ids.includes(w.id))` over the items of an array; the first throw wins. */
  function KeepWidgets(ws: seq<Value>, ids: Value): Result<seq<Value>>
    decreases |ws|
  {
    if ws == [] then Ok([])
    else match KeepWidgets(ws[..|ws| - 1], ids)
      case Err(e) => Err(e)
      case Ok(k) =>
        match Excluded(ids, ws[|ws| - 1])
        case Err(e) => Err(e)
        case Ok(x) => Ok(if x then k else k + [ws[|ws| - 1]])
  }

  /** `state.widgets.filter(...)`: only arrays have `filter`. */
  function FilterWidgets(widgets: Value, ids: Value): Result<Value> {
    match widgets
    case Arr(ws) =>
      (match KeepWidgets(ws, ids)
       case Err(e) => Err(e)
       case Ok(k) => Ok(Arr(k)))
    case _ => Err(NoFilter)
  }

  /** An array or a string spread into an object: its index keys `"0"`, `"1"`, .... */
  function IndexEntries(items: seq<Value>): (r: Entries<Value>)
    ensures |r| == |items|
    decreases |items|
  {
    if items == [] then []
    else IndexEntries(items[..|items| - 1]) + [(NatToString(|items| - 1), items[|items| - 1])]
  }

  /** `{ ...state, ...settings }`: nothing to spread from `null`, `undefined`, a boolean or a number. */
  function SpreadInto(state: State, settings: Value): State {
    match settings
    case Obj(fs) => Merge(state, fs)
    case Arr(items) => Merge(state, IndexEntries(items))
    case Str(s) => Merge(state, IndexEntries(seq(|s|, i requires 0 <= i < |s| => Str([s[i]]))))
    case _ => state
  }

  /** `settingsReducer(state, action)`. */
  function SettingsReducer(state: State, action: Action): Result<State> {
    match KindOf(action)
    case SetDateRange =>
      Ok(Put(Put(state, "startDate", Prop(action, "startDate")), "endDate", Prop(action, "endDate")))
    case SetBarLimit =>
      Ok(Put(state, "barLimit", Prop(action, "barLimit")))
    case AddWidget =>
      (match Spread(Prop(state, "widgets"))
       case Err(e) => Err(e)
       case Ok(ws) => Ok(Put(state, "widgets", Arr(ws + [Prop(action, "widget")]))))
    case RemoveWidgets =>
      (match FilterWidgets(Prop(state, "widgets"), Prop(action, "widgetIds"))
       case Err(e) => Err(e)
       case Ok(k) => Ok(Put(state, "widgets", k)))
    case ReorderWidgets =>
      Ok(Put(state, "widgets", Prop(action, "widgets")))
    case LoadSettings =>
      Ok(SpreadInto(state, Prop(action, "settings")))
    case SetPage =>
      Ok(Put(state, "currentPage", Prop(action, "page")))
    case Other =>
      Ok(state)
  }

  // ---------------------------------------------------------------------------
  // What each case changes

  /** The action whose `type` is `name`, with the given other properties. */
  predicate Typed(action: Action, name: string) {
    Prop(action, "type") == Str(name)
  }

  /** The result of each handled case, one case at a time. */
  lemma ReducerSetsDates(state: State, action: Action)
    requires Typed(action, "SET_DATE_RANGE")
    ensures SettingsReducer(state, action)
      == Ok(Put(Put(state, "startDate", Prop(action, "startDate")), "endDate", Prop(action, "endDate")))
  {
    assert KindOf(action) == SetDateRange;
  }

  lemma ReducerSetsPage(state: State, action: Action)
    requires Typed(action, "SET_PAGE")
    ensures SettingsReducer(state, action) == Ok(Put(state, "currentPage", Prop(action, "page")))
  {
    assert KindOf(action) == SetPage;
  }

  lemma ReducerSetsBarLimit(state: State, action: Action)
    requires Typed(action, "SET_BAR_LIMIT")
    ensures SettingsReducer(state, action) == Ok(Put(state, "barLimit", Prop(action, "barLimit")))
  {
    assert KindOf(action) == SetBarLimit;
  }

  lemma ReducerRemoves(state: State, action: Action)
    requires Typed(action, "REMOVE_WIDGETS")
    ensures var f := FilterWidgets(Prop(state, "widgets"), Prop(action, "widgetIds"));
      SettingsReducer(state, action) == if f.Ok? then Ok(Put(state, "widgets", f.value)) else Err(f.error)
  {
    assert KindOf(action) == RemoveWidgets;
  }

  lemma ReducerReorders(state: State, action: Action)
    requires Typed(action, "REORDER_WIDGETS")
    ensures SettingsReducer(state, action) == Ok(Put(state, "widgets", Prop(action, "widgets")))
  {
    assert KindOf(action) == ReorderWidgets;
  }

  lemma ReducerLoads(state: State, action: Action)
    requires Typed(action, "LOAD_SETTINGS")
    ensures SettingsReducer(state, action) == Ok(SpreadInto(state, Prop(action, "settings")))
  {
    assert KindOf(action) == LoadSettings;
  }

  /** Setting the date range assigns the two dates and leaves every other property as it was. */
  lemma SetDateRangeOnlyDates(state: State, action: Action, k: string)
    requires Typed(action, "SET_DATE_RANGE")
    ensures var r := SettingsReducer(state, action);
      r.Ok? && Get(r.value, "startDate") == Some(Prop(action, "startDate"))
      && Get(r.value, "endDate") == Some(Prop(action, "endDate"))
      && (k != "startDate" && k != "endDate" ==> Get(r.value, k) == Get(state, k))
  {
    ReducerSetsDates(state, action);
    var s1 := Put(state, "startDate", Prop(action, "startDate"));
    PutOther(s1, "endDate", Prop(action, "endDate"), "startDate");
    if k != "startDate" && k != "endDate" {
      PutOther(state, "startDate", Prop(action, "startDate"), k);
      PutOther(s1, "endDate", Prop(action, "endDate"), k);
    }
  }

  /** `SET_BAR_LIMIT` and `SET_PAGE` each assign one property and leave the rest. */
  lemma SetOneProperty(state: State, action: Action, k: string)
    requires Typed(action, "SET_BAR_LIMIT") || Typed(action, "SET_PAGE")
    ensures var r := SettingsReducer(state, action);
      var (key, v) := if Typed(action, "SET_PAGE") then ("currentPage", Prop(action, "page"))
        else ("barLimit", Prop(action, "barLimit"));
      r.Ok? && Get(r.value, key) == Some(v) && (k != key ==> Get(r.value, k) == Get(state, k))
  {
    if Typed(action, "SET_PAGE") {
      ReducerSetsPage(state, action);
      if k != "currentPage" {
        PutOther(state, "currentPage", Prop(action, "page"), k);
      }
    } else {
      ReducerSetsBarLimit(state, action);
      if k != "barLimit" {
        PutOther(state, "barLimit", Prop(action, "barLimit"), k);
      }
    }
  }

  /** Adding a widget appends it after the existing ones, which keep their order. */
  lemma AddWidgetAppends(state: State, action: Action, k: string)
    requires Typed(action, "ADD_WIDGET") && Prop(state, "widgets").Arr?
    ensures var r := SettingsReducer(state, action);
      var before := Prop(state, "widgets").items;
      r.Ok? && Prop(r.value, "widgets") == Arr(before + [Prop(action, "widget")])
      && |Prop(r.value, "widgets").items| == |before| + 1
      && (k != "widgets" ==> Get(r.value, k) == Get(state, k))
  {
    assert KindOf(action) == AddWidget;
    if k != "widgets" {
      PutOther(state, "widgets", Arr(Prop(state, "widgets").items + [Prop(action, "widget")]), k);
    }
  }

  /** Adding to anything that cannot be spread throws. */
  lemma AddWidgetNeedsList(state: State, action: Action)
    requires Typed(action, "ADD_WIDGET") && !Prop(state, "widgets").Arr? && !Prop(state, "widgets").Str?
    ensures SettingsReducer(state, action) == Err(NotIterable)
  {
    assert KindOf(action) == AddWidget;
  }

  /** The test the removal keeps a widget by: it has an id and that id is not listed. */
  predicate Kept(ids: Value, w: Value) {
    Excluded(ids, w) == Ok(false)
  }

  /** The removal throws exactly when the test of some widget throws. */
  lemma KeepWidgetsThrows(ws: seq<Value>, ids: Value)
    ensures KeepWidgets(ws, ids).Err? <==> exists i | 0 <= i < |ws| :: Excluded(ids, ws[i]).Err?
  {
    if KeepWidgets(ws, ids).Err? {
      var i := ThrowingWidget(ws, ids);
    }
    if exists i | 0 <= i < |ws| :: Excluded(ids, ws[i]).Err? {
      var i :| 0 <= i < |ws| && Excluded(ids, ws[i]).Err?;
      ThrowsFrom(ws, ids, i);
    }
  }

  /** A removal that throws has a widget whose test throws. */
  lemma {:induction false} ThrowingWidget(ws: seq<Value>, ids: Value) returns (i: int)
    requires KeepWidgets(ws, ids).Err?
    ensures 0 <= i < |ws| && Excluded(ids, ws[i]).Err?
    decreases |ws|
  {
    var n := |ws| - 1;
    if KeepWidgets(ws[..n], ids).Err? {
      i := ThrowingWidget(ws[..n], ids);
      assert ws[..n][i] == ws[i];
    } else {
      i := n;
    }
  }

  /** A widget whose test throws makes the removal throw. */
  lemma {:induction false} ThrowsFrom(ws: seq<Value>, ids: Value, i: int)
    requires 0 <= i < |ws| && Excluded(ids, ws[i]).Err?
    ensures KeepWidgets(ws, ids).Err?
    decreases |ws|
  {
    var n := |ws| - 1;
    if i < n {
      assert ws[..n][i] == ws[i];
      ThrowsFrom(ws[..n], ids, i);
    }
  }

  /** When no test throws, the removal keeps exactly the widgets whose id is not listed, in order. */
  lemma {:induction false} KeepWidgetsKeeps(ws: seq<Value>, ids: Value)
    requires KeepWidgets(ws, ids).Ok?
    ensures KeepWidgets(ws, ids).value == Filter(ws, w => Kept(ids, w))
    decreases |ws|
  {
    if ws != [] {
      var n := |ws| - 1;
      KeepWidgetsKeeps(ws[..n], ids);
      assert ws == ws[..n] + [ws[n]];
      FilterSnoc(ws[..n], ws[n], w => Kept(ids, w));
    }
  }

  /** Every widget the removal keeps passes its test again. */
  lemma {:induction false} KeepWidgetsAgain(ws: seq<Value>, ids: Value)
    requires KeepWidgets(ws, ids).Ok?
    ensures KeepWidgets(KeepWidgets(ws, ids).value, ids) == KeepWidgets(ws, ids)
    decreases |ws|
  {
    if ws != [] {
      var n := |ws| - 1;
      var k := KeepWidgets(ws[..n], ids).value;
      KeepWidgetsAgain(ws[..n], ids);
      if Excluded(ids, ws[n]) == Ok(false) {
        assert (k + [ws[n]])[..|k|] == k;
      }
    }
  }

  /** Removing the same ids twice is removing them once. */
  lemma RemoveWidgetsIdempotent(state: State, action: Action)
    requires Typed(action, "REMOVE_WIDGETS") && SettingsReducer(state, action).Ok?
    ensures SettingsReducer(SettingsReducer(state, action).value, action) == SettingsReducer(state, action)
  {
    var ids := Prop(action, "widgetIds");
    ReducerRemoves(state, action);
    assert FilterWidgets(Prop(state, "widgets"), ids).Ok?;
    var ws := Prop(state, "widgets").items;
    var k := KeepWidgets(ws, ids).value;
    var s1 := Put(state, "widgets", Arr(k));
    assert Prop(s1, "widgets") == Arr(k);
    KeepWidgetsAgain(ws, ids);
    assert FilterWidgets(Arr(k), ids) == Ok(Arr(k));
    ReducerRemoves(s1, action);
    PutAgain(state, "widgets", Arr(k));
  }

  /** Assigning a property the value it already has changes nothing. */
  lemma {:induction false} PutAgain<V>(o: Entries<V>, k: string, v: V)
    ensures Put(Put(o, k, v), k, v) == Put(o, k, v)
    decreases |o|
  {
    if |o| > 0 && o[0].0 != k {
      PutAgain(o[1..], k, v);
      assert ([o[0]] + Put(o[1..], k, v))[1..] == Put(o[1..], k, v);
    } else if |o| > 0 {
      assert ([(k, v)] + o[1..])[1..] == o[1..];
    }
  }

  /** Removal keeps exactly the unlisted widgets, when the widgets are an array of objects with ids. */
  lemma RemoveWidgetsKeepsUnlisted(state: State, action: Action, k: string)
    requires Typed(action, "REMOVE_WIDGETS") && Prop(state, "widgets").Arr? && Prop(action, "widgetIds").Arr?
    requires forall i | 0 <= i < |Prop(state, "widgets").items| :: !IsNullish(Prop(state, "widgets").items[i])
    ensures var r := SettingsReducer(state, action);
      var ids := Prop(action, "widgetIds");
      r.Ok? && Prop(r.value, "widgets") == Arr(Filter(Prop(state, "widgets").items, w => Kept(ids, w)))
      && (k != "widgets" ==> Get(r.value, k) == Get(state, k))
  {
    var ws := Prop(state, "widgets").items;
    var ids := Prop(action, "widgetIds");
    ReducerRemoves(state, action);
    KeepWidgetsThrows(ws, ids);
    KeepWidgetsKeeps(ws, ids);
    if k != "widgets" {
      PutOther(state, "widgets", Arr(KeepWidgets(ws, ids).value), k);
    }
  }

  /** Reordering replaces the list wholesale with the action's list. */
  lemma ReorderReplaces(state: State, action: Action, k: string)
    requires Typed(action, "REORDER_WIDGETS")
    ensures var r := SettingsReducer(state, action);
      r.Ok? && Get(r.value, "widgets") == Some(Prop(action, "widgets"))
      && (k != "widgets" ==> Get(r.value, k) == Get(state, k))
  {
    ReducerReorders(state, action);
    if k != "widgets" {
      PutOther(state, "widgets", Prop(action, "widgets"), k);
    }
  }

  /** Loading settings is a shallow merge: supplied keys win, the others are kept. */
  lemma LoadSettingsMerges(state: State, action: Action, k: string)
    requires Typed(action, "LOAD_SETTINGS") && Prop(action, "settings").Obj?
    requires DistinctKeys(Prop(action, "settings").fields)
    ensures var r := SettingsReducer(state, action);
      var fs := Prop(action, "settings").fields;
      r.Ok? && Get(r.value, k) == if k in Keys(fs) then Get(fs, k) else Get(state, k)
  {
    ReducerLoads(state, action);
    SpreadObjectGet(state, Prop(action, "settings"), k);
  }

  lemma SpreadObjectGet(state: State, settings: Value, k: string)
    requires settings.Obj? && DistinctKeys(settings.fields)
    ensures Get(SpreadInto(state, settings), k) == if k in Keys(settings.fields) then Get(settings.fields, k) else Get(state, k)
  {
    MergeGet(state, settings.fields, k);
  }

  /** Any other action type, `UPDATE_WIDGET_SETTINGS` included, returns the state unchanged. */
  lemma UnknownActionUnchanged(state: State, action: Action)
    requires Prop(action, "type").Str? && Prop(action, "type").s !in Handled
    ensures SettingsReducer(state, action) == Ok(state)
  {
  }

  lemma UpdateWidgetSettingsIgnored(state: State, widgetId: Value, settings: Value)
    ensures SettingsReducer(state, [("type", Str("UPDATE_WIDGET_SETTINGS")), ("widgetId", widgetId), ("settings", settings)]) == Ok(state)
  {
    UnknownActionUnchanged(state, [("type", Str("UPDATE_WIDGET_SETTINGS")), ("widgetId", widgetId), ("settings", settings)]);
  }

  // ---------------------------------------------------------------------------
  // The saved snapshot

  /** `{ id: w.id, type: w.type, position: w.position }`. */
  function ProjectWidget(w: Value): Result<Value> {
    match Field(w, "id")
    case Err(e) => Err(e)
    case Ok(_) => Ok(Obj([("id", OptField(w, "id")), ("type", OptField(w, "type")), ("position", OptField(w, "position"))]))
  }

  /** `state.widgets.map(...)` over the items of an array; the first throw wins. */
  function ProjectWidgets(ws: seq<Value>): Result<seq<Value>> {
    MapResult(ws, ProjectWidget)
  }

  /** `settingsToSave` in `GlobalSettingsProvider`. */
  function SettingsToSave(state: State): Result<Entries<Value>> {
    var widgets := Prop(state, "widgets");
    if !widgets.Arr? then Err(NoMap)
    else match ProjectWidgets(widgets.items)
      case Err(e) => Err(e)
      case Ok(ps) => Ok([("startDate", Prop(state, "startDate")), ("endDate", Prop(state, "endDate")),
                         ("barLimit", Prop(state, "barLimit")), ("widgets", Arr(ps))])
  }

  /** Each projected widget holds exactly the id, type and position of the saved one. */
  lemma ProjectWidgetsMeaning(ws: seq<Value>, i: int)
    requires ProjectWidgets(ws).Ok? && 0 <= i < |ws|
    ensures !IsNullish(ws[i])
    ensures ProjectWidgets(ws).value[i] == Obj([("id", OptField(ws[i], "id")), ("type", OptField(ws[i], "type")),
                                                ("position", OptField(ws[i], "position"))])
  {
    MapResultEach(ws, ProjectWidget, i);
  }

  lemma SnapshotIs(state: State)
    requires SettingsToSave(state).Ok?
    ensures Prop(state, "widgets").Arr? && ProjectWidgets(Prop(state, "widgets").items).Ok?
    ensures SettingsToSave(state).value
      == [("startDate", Prop(state, "startDate")), ("endDate", Prop(state, "endDate")),
          ("barLimit", Prop(state, "barLimit")), ("widgets", Arr(ProjectWidgets(Prop(state, "widgets").items).value))]
  {
  }

  /** Reading an object literal with four distinct keys; a fifth key is absent. */
  lemma FourProps<V>(a: string, b: string, c: string, d: string, e: string, va: V, vb: V, vc: V, vd: V)
    requires a != b && a != c && a != d && b != c && b != d && c != d
    requires e != a && e != b && e != c && e != d
    ensures var o := [(a, va), (b, vb), (c, vc), (d, vd)];
      Keys(o) == [a, b, c, d] && Get(o, a) == Some(va) && Get(o, b) == Some(vb)
      && Get(o, c) == Some(vc) && Get(o, d) == Some(vd) && e !in Keys(o)
  {
    var o := [(a, va), (b, vb), (c, vc), (d, vd)];
    assert o[1..][1..][1..] == [(d, vd)];
    assert Get(o, c) == Get(o[1..], c) == Get(o[1..][1..], c);
    assert Get(o, d) == Get(o[1..], d) == Get(o[1..][1..], d) == Get(o[1..][1..][1..], d);
  }

  /** The saved property names differ from each other and from `currentPage`. */
  lemma SnapshotNamesDistinct()
    ensures "startDate" != "endDate" && "startDate" != "barLimit" && "startDate" != "widgets"
    ensures "endDate" != "barLimit" && "endDate" != "widgets" && "barLimit" != "widgets"
    ensures "currentPage" != "startDate" && "currentPage" != "endDate"
    ensures "currentPage" != "barLimit" && "currentPage" != "widgets"
  {
    assert "startDate"[0] != "endDate"[0] && "barLimit"[0] != "widgets"[0];
    assert "startDate"[0] != "barLimit"[0] && "startDate"[0] != "widgets"[0];
    assert "endDate"[0] != "barLimit"[0] && "endDate"[0] != "widgets"[0];
    assert "currentPage"[0] != "startDate"[0] && "currentPage"[0] != "endDate"[0];
    assert "currentPage"[0] != "barLimit"[0] && "currentPage"[0] != "widgets"[0];
  }

  /**
   * The snapshot holds the two dates, the bar limit and the projected
   * widgets, and nothing else: the current page and any loaded extras are
   * not saved.
   */
  lemma SnapshotKeys(state: State)
    requires SettingsToSave(state).Ok?
    ensures Keys(SettingsToSave(state).value) == ["startDate", "endDate", "barLimit", "widgets"]
    ensures Get(SettingsToSave(state).value, "startDate") == Some(Prop(state, "startDate"))
    ensures Get(SettingsToSave(state).value, "endDate") == Some(Prop(state, "endDate"))
    ensures Get(SettingsToSave(state).value, "barLimit") == Some(Prop(state, "barLimit"))
    ensures "currentPage" !in Keys(SettingsToSave(state).value)
    ensures Get(SettingsToSave(state).value, "widgets") == Some(Arr(ProjectWidgets(Prop(state, "widgets").items).value))
    ensures |ProjectWidgets(Prop(state, "widgets").items).value| == |Prop(state, "widgets").items|
  {
    SnapshotIs(state);
    SnapshotNamesDistinct();
    FourProps("startDate", "endDate", "barLimit", "widgets", "currentPage",
              Prop(state, "startDate"), Prop(state, "endDate"), Prop(state, "barLimit"),
              Arr(ProjectWidgets(Prop(state, "widgets").items).value));
  }
}
