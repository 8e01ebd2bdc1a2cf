/**
 * frontend/src/utils/widgetUtils.js: `reconstructWidgets` turns the saved
 * widget list back into live widgets. Each saved object is spread into a
 * new one whose `Widget` is the component of the first catalogue entry of
 * the same `type`; widgets whose type has no (truthy) component are
 * dropped.
 */
module WidgetUtils {
  import opened Wrappers
  import opened JsObjects
  import opened JsValues
  import opened Sequences

  /** One entry of the widget catalogue: `{ type, comp, tools }`. */
  datatype WidgetConfig = WidgetConfig(wtype: Value, comp: Value)

  /** The index `widgetList.findIndex(w => w.type === t)` finds, `None` for -1. */
  function FindConfig(widgetList: seq<WidgetConfig>, t: Value): (r: Option<nat>)
    ensures r.Some? ==> (r.value < |widgetList| && StrictEquals(widgetList[r.value].wtype, t)
      && forall j | 0 <= j < r.value :: !StrictEquals(widgetList[j].wtype, t))
    ensures r.None? <==> forall j | 0 <= j < |widgetList| :: !StrictEquals(widgetList[j].wtype, t)
    decreases |widgetList|
  {
    if widgetList == [] then None
    else if StrictEquals(widgetList[0].wtype, t) then Some(0)
    else match FindConfig(widgetList[1..], t)
      case None => None
      case Some(i) => Some(i + 1)
  }

  /** `widgetConfig?.comp`, where `widgetConfig` is the first entry whose type is `savedWidget.type`. */
  function CompFor(widgetList: seq<WidgetConfig>, saved: Entries<Value>): Value {
    match FindConfig(widgetList, Prop(saved, "type"))
    case None => Undefined
    case Some(i) => widgetList[i].comp
  }

  /** `{ ...savedWidget, Widget: widgetConfig?.comp }`. */
  function Rebuild(widgetList: seq<WidgetConfig>, saved: Entries<Value>): Entries<Value> {
    Put(saved, "Widget", CompFor(widgetList, saved))
  }

  /** `widget => widget.Widget`, the test of the final `filter`. */
  predicate HasWidget(w: Entries<Value>) {
    Truthy(Prop(w, "Widget"))
  }

  /** `reconstructWidgets(savedWidgets)`: the `map`, then the `filter`. */
  function ReconstructWidgets(widgetList: seq<WidgetConfig>, savedWidgets: seq<Entries<Value>>): seq<Entries<Value>> {
    Filter(Map(savedWidgets, (w: Entries<Value>) => Rebuild(widgetList, w)), HasWidget)
  }

  /** A saved widget is kept when the catalogue has its type and a truthy component for it. */
  predicate Known(widgetList: seq<WidgetConfig>, saved: Entries<Value>) {
    Truthy(CompFor(widgetList, saved))
  }

  /**
   * A rebuilt widget has the saved object's properties, each with its saved
   * value except `Widget`, which is the catalogue's component; it is kept
   * exactly when that component is truthy.
   */
  lemma RebuildMeaning(widgetList: seq<WidgetConfig>, saved: Entries<Value>, k: string)
    ensures k != "Widget" ==> Get(Rebuild(widgetList, saved), k) == Get(saved, k)
    ensures Prop(Rebuild(widgetList, saved), "Widget") == CompFor(widgetList, saved)
    ensures HasWidget(Rebuild(widgetList, saved)) <==> Known(widgetList, saved)
    ensures forall j :: j in Keys(Rebuild(widgetList, saved)) <==> j in Keys(saved) || j == "Widget"
  {
    if k != "Widget" {
      PutOther(saved, "Widget", CompFor(widgetList, saved), k);
    }
  }

  /** An unknown type finds no catalogue entry, so its widget is dropped. */
  lemma UnknownTypeDropped(widgetList: seq<WidgetConfig>, saved: Entries<Value>)
    requires forall j | 0 <= j < |widgetList| :: !StrictEquals(widgetList[j].wtype, Prop(saved, "type"))
    ensures !Known(widgetList, saved)
  {
  }

  /**
   * The result is the rebuilt form of the known saved widgets, in their
   * saved order.
   */
  lemma ReconstructKeepsKnown(widgetList: seq<WidgetConfig>, savedWidgets: seq<Entries<Value>>)
    ensures ReconstructWidgets(widgetList, savedWidgets)
      == Map(Filter(savedWidgets, (w: Entries<Value>) => Known(widgetList, w)), (w: Entries<Value>) => Rebuild(widgetList, w))
  {
    var f := (w: Entries<Value>) => Rebuild(widgetList, w);
    var known := (w: Entries<Value>) => Known(widgetList, w);
    forall i | 0 <= i < |savedWidgets| ensures known(savedWidgets[i]) == HasWidget(f(savedWidgets[i])) {
      RebuildMeaning(widgetList, savedWidgets[i], "Widget");
    }
    FilterMap(savedWidgets, f, HasWidget, known);
  }

  /**
   * Never more widgets than were saved, and exactly as many when every
   * saved type has a component.
   */
  lemma ReconstructLength(widgetList: seq<WidgetConfig>, savedWidgets: seq<Entries<Value>>)
    ensures |ReconstructWidgets(widgetList, savedWidgets)| <= |savedWidgets|
    ensures (forall i | 0 <= i < |savedWidgets| :: Known(widgetList, savedWidgets[i]))
      ==> |ReconstructWidgets(widgetList, savedWidgets)| == |savedWidgets|
  {
    var known := (w: Entries<Value>) => Known(widgetList, w);
    ReconstructKeepsKnown(widgetList, savedWidgets);
    FilterKeepsAll(savedWidgets, known);
  }
}
