/**
 * frontend/src/components/hooks/throughput/useDataProcessing.js:
 * `processModelData` turns one model's `{ stationName: counts }` object
 * into the station rows of the throughput page: counts are read as
 * non-negative numbers, the yield is clamped into [0, 100], low-volume,
 * unnamed and (optionally) repair or debug stations are dropped, and the
 * rows are sorted by volume or by name.
 */
module Throughput {
  import opened Wrappers
  import opened Strings
  import opened Sorting
  import opened Sequences
  import JsNumbers
  import opened JsObjects
  import opened JsValues

  /** `MIN_VOLUME_FILTER`. */
  const MinVolume: int := 10

  /** One output row, without its floating-point `failureRate` and `impactScore`. */
  datatype StationRow = StationRow(station: string, totalParts: int, failedParts: int, passedParts: int,
                                   throughputYield: int)

  /** `Math.max(0, Number(x) || 0)`. */
  function PartCount(x: Value): (r: int)
    ensures r >= 0
    ensures x.Number? && x.n.Int? && x.n.value >= 0 ==> r == x.n.value
    ensures x.Number? && x.n.Int? && x.n.value < 0 ==> r == 0
    ensures IsNullish(x) ==> r == 0
  {
    var n := JsNumbers.OrZero(ToNumber(x));
    if n > 0 then n else 0
  }

  /** `Math.max(0, Math.min(100, Number(x) || 0))`. */
  function Percent(x: Value): (r: int)
    ensures 0 <= r <= 100
    ensures x.Number? && x.n.Int? && 0 <= x.n.value <= 100 ==> r == x.n.value
  {
    var n := JsNumbers.OrZero(ToNumber(x));
    if n < 0 then 0 else if n > 100 then 100 else n
  }

  /** The `map` callback: reading a property of a missing `data` throws. */
  function ToRow(entry: (string, Value)): Result<StationRow> {
    if IsNullish(entry.1) then Err(ReadTotalParts)
    else Ok(NewRow(entry.0, entry.1))
  }

  const ReadTotalParts: string := "TypeError: Cannot read properties of undefined (reading 'totalParts')"

  /** The row object the callback returns for a present `data`. */
  function NewRow(stationName: string, data: Value): (row: StationRow)
    ensures row.station == Trim(stationName) && |row.station| <= |stationName|
    ensures row.totalParts >= 0 && row.failedParts >= 0 && row.passedParts >= 0 && 0 <= row.throughputYield <= 100
  {
    StationRow(Trim(stationName), PartCount(OptField(data, "totalParts")), PartCount(OptField(data, "failedParts")),
               PartCount(OptField(data, "passedParts")), Percent(OptField(data, "throughputYield")))
  }

  /** The `map` over `Object.entries(modelData)`; the first throw wins. */
  function ToRows(entries: Entries<Value>): Result<seq<StationRow>> {
    MapResult(entries, ToRow)
  }

  /** The first `filter`: enough volume and a name. */
  predicate BigEnough(row: StationRow) {
    row.totalParts >= MinVolume && |row.station| > 0
  }

  /** The second `filter`: names mentioning neither REPAIR nor DEBUG in any case. */
  predicate NotRepair(row: StationRow) {
    !Contains(ToUpperAscii(row.station), "REPAIR") && !Contains(ToUpperAscii(row.station), "DEBUG")
  }

  /** `b.totalParts - a.totalParts < 0`: more parts first. */
  predicate MoreVolume(a: StationRow, b: StationRow) {
    a.totalParts > b.totalParts
  }

  /** The orders `sortMap` offers and this model computes. */
  datatype SortBy = Volume | Alphabetical | FailureRate | ImpactScore | Unlisted(name: string)

  /** `sortMap[sortBy] || sortMap.volume`: the comparator used. */
  function Comparator(sortBy: SortBy, before: (string, string) -> bool): (StationRow, StationRow) -> bool
    requires !sortBy.FailureRate? && !sortBy.ImpactScore?
  {
    if sortBy.Alphabetical? then ByKey(before, StationOf) else MoreVolume
  }

  /** `a.station`, the key of the alphabetical order. */
  function StationOf(row: StationRow): string {
    row.station
  }

  /** The two filters and the sort, applied to the mapped rows. */
  function Arrange(rows: seq<StationRow>, showRepairStations: bool, sortBy: SortBy, before: (string, string) -> bool)
    : seq<StationRow>
    requires !sortBy.FailureRate? && !sortBy.ImpactScore?
  {
    var big := Filter(rows, BigEnough);
    var kept := if showRepairStations then big else Filter(big, NotRepair);
    Sort(kept, Comparator(sortBy, before))
  }

  /**
   * `processModelData(modelData)` with the hook's `showRepairStations` and
   * `sortBy`; `before(a, b)` is `a.localeCompare(b) < 0`.
   */
  function ProcessModelData(modelData: Value, showRepairStations: bool, sortBy: SortBy, before: (string, string) -> bool)
    : Result<seq<StationRow>>
    requires !sortBy.FailureRate? && !sortBy.ImpactScore?
  {
    if !Truthy(modelData) || !(modelData.Arr? || modelData.Obj?) then Ok([])
    else match ToRows(EntriesOf(modelData))
      case Err(e) => Err(e)
      case Ok(rows) => Ok(Arrange(rows, showRepairStations, sortBy, before))
  }

  // ---------------------------------------------------------------------------
  // Properties

  /** Anything falsy or not an object gives no rows. */
  lemma NotAnObjectGivesNothing(modelData: Value, showRepairStations: bool, sortBy: SortBy, before: (string, string) -> bool)
    requires !sortBy.FailureRate? && !sortBy.ImpactScore?
    requires !Truthy(modelData) || !(modelData.Arr? || modelData.Obj?)
    ensures ProcessModelData(modelData, showRepairStations, sortBy, before) == Ok([])
  {
  }

  /** A station whose counts are `null` or missing makes the whole call throw. */
  lemma MissingCountsThrow(fs: Entries<Value>, i: int, showRepairStations: bool, sortBy: SortBy, before: (string, string) -> bool)
    requires !sortBy.FailureRate? && !sortBy.ImpactScore?
    requires 0 <= i < |fs| && IsNullish(fs[i].1)
    ensures ProcessModelData(Obj(fs), showRepairStations, sortBy, before).Err?
  {
    assert ToRow(fs[i]).Err?;
    MapResultThrows(fs, ToRow);
  }

  /** Every mapped row has a trimmed name, non-negative counts and a yield in [0, 100]. */
  lemma MappedRowsClean(entries: Entries<Value>, j: int)
    requires ToRows(entries).Ok? && 0 <= j < |ToRows(entries).value|
    ensures var row := ToRows(entries).value[j];
      row.totalParts >= 0 && row.failedParts >= 0 && row.passedParts >= 0 && 0 <= row.throughputYield <= 100
      && (|row.station| > 0 ==> !IsJsSpace(row.station[0]) && !IsJsSpace(row.station[|row.station| - 1]))
  {
    MapResultEach(entries, ToRow, j);
  }

  /**
   * A row is in the output exactly when it passes both filters: the
   * filters drop nothing else and the sort neither adds nor loses rows.
   */
  lemma ArrangeKeeps(rows: seq<StationRow>, showRepairStations: bool, sortBy: SortBy, before: (string, string) -> bool,
                     row: StationRow)
    requires !sortBy.FailureRate? && !sortBy.ImpactScore?
    ensures row in Arrange(rows, showRepairStations, sortBy, before)
      <==> row in rows && BigEnough(row) && (showRepairStations || NotRepair(row))
  {
    var big := Filter(rows, BigEnough);
    var kept := if showRepairStations then big else Filter(big, NotRepair);
    SortSameElements(kept, Comparator(sortBy, before), row);
  }

  /**
   * Every row has a trimmed, non-empty name, at least ten parts,
   * non-negative counts and a yield in [0, 100]; without
   * `showRepairStations` no name mentions REPAIR or DEBUG.
   */
  lemma RowsAreClean(modelData: Value, showRepairStations: bool, sortBy: SortBy, before: (string, string) -> bool, k: int)
    requires !sortBy.FailureRate? && !sortBy.ImpactScore?
    requires ProcessModelData(modelData, showRepairStations, sortBy, before).Ok?
    requires 0 <= k < |ProcessModelData(modelData, showRepairStations, sortBy, before).value|
    ensures var row := ProcessModelData(modelData, showRepairStations, sortBy, before).value[k];
      row.totalParts >= MinVolume && row.failedParts >= 0 && row.passedParts >= 0
      && 0 <= row.throughputYield <= 100
      && |row.station| > 0 && !IsJsSpace(row.station[0]) && !IsJsSpace(row.station[|row.station| - 1])
      && (!showRepairStations ==> NotRepair(row))
  {
    ArrangedRowClean(EntriesOf(modelData), showRepairStations, sortBy, before, k);
  }

  lemma ArrangedRowClean(entries: Entries<Value>, showRepairStations: bool, sortBy: SortBy, before: (string, string) -> bool, k: int)
    requires !sortBy.FailureRate? && !sortBy.ImpactScore?
    requires ToRows(entries).Ok? && 0 <= k < |Arrange(ToRows(entries).value, showRepairStations, sortBy, before)|
    ensures var row := Arrange(ToRows(entries).value, showRepairStations, sortBy, before)[k];
      row.totalParts >= MinVolume && row.failedParts >= 0 && row.passedParts >= 0
      && 0 <= row.throughputYield <= 100
      && |row.station| > 0 && !IsJsSpace(row.station[0]) && !IsJsSpace(row.station[|row.station| - 1])
      && (!showRepairStations ==> NotRepair(row))
  {
    ArrangeKeeps(ToRows(entries).value, showRepairStations, sortBy, before,
      Arrange(ToRows(entries).value, showRepairStations, sortBy, before)[k]);
    var j :| 0 <= j < |ToRows(entries).value|
      && ToRows(entries).value[j] == Arrange(ToRows(entries).value, showRepairStations, sortBy, before)[k];
    MappedRowsClean(entries, j);
  }

  /** The output is the mapped rows that pass both filters, and nothing else. */
  lemma OutputIsFilteredRows(modelData: Value, showRepairStations: bool, sortBy: SortBy, before: (string, string) -> bool,
                             row: StationRow)
    requires !sortBy.FailureRate? && !sortBy.ImpactScore?
    requires Truthy(modelData) && (modelData.Arr? || modelData.Obj?)
    requires ToRows(EntriesOf(modelData)).Ok?
    ensures var out := ProcessModelData(modelData, showRepairStations, sortBy, before);
      out.Ok? && (row in out.value <==>
        row in ToRows(EntriesOf(modelData)).value && BigEnough(row) && (showRepairStations || NotRepair(row)))
  {
    ArrangeKeeps(ToRows(EntriesOf(modelData)).value, showRepairStations, sortBy, before, row);
  }

  /** By volume, and for any unlisted order, rows come in non-increasing `totalParts`. */
  lemma VolumeOrder(modelData: Value, showRepairStations: bool, sortBy: SortBy, before: (string, string) -> bool,
                    i: int, j: int)
    requires sortBy.Volume? || sortBy.Unlisted?
    requires ProcessModelData(modelData, showRepairStations, sortBy, before).Ok?
    requires 0 <= i < j < |ProcessModelData(modelData, showRepairStations, sortBy, before).value|
    ensures var out := ProcessModelData(modelData, showRepairStations, sortBy, before).value;
      out[i].totalParts >= out[j].totalParts
  {
    if Truthy(modelData) && (modelData.Arr? || modelData.Obj?) {
      ArrangeByVolume(ToRows(EntriesOf(modelData)).value, showRepairStations, sortBy, before, i, j);
    }
  }

  lemma ArrangeByVolume(rows: seq<StationRow>, showRepairStations: bool, sortBy: SortBy, before: (string, string) -> bool,
                        i: int, j: int)
    requires sortBy.Volume? || sortBy.Unlisted?
    requires 0 <= i < j < |Arrange(rows, showRepairStations, sortBy, before)|
    ensures Arrange(rows, showRepairStations, sortBy, before)[i].totalParts
      >= Arrange(rows, showRepairStations, sortBy, before)[j].totalParts
  {
    assert StrictWeakOrder(MoreVolume);
    assert Comparator(sortBy, before) == MoreVolume;
    ArrangeOrdered(rows, showRepairStations, sortBy, before);
    assert !MoreVolume(Arrange(rows, showRepairStations, sortBy, before)[j], Arrange(rows, showRepairStations, sortBy, before)[i]);
  }

  /** An unlisted `sortBy` sorts exactly as `volume` does. */
  lemma UnlistedIsVolume(modelData: Value, showRepairStations: bool, name: string, before: (string, string) -> bool)
    ensures ProcessModelData(modelData, showRepairStations, Unlisted(name), before)
      == ProcessModelData(modelData, showRepairStations, Volume, before)
  {
  }

  /** Whatever the comparator, the output is sorted by it when it is a consistent order. */
  lemma ArrangeOrdered(rows: seq<StationRow>, showRepairStations: bool, sortBy: SortBy, before: (string, string) -> bool)
    requires !sortBy.FailureRate? && !sortBy.ImpactScore?
    requires StrictWeakOrder(Comparator(sortBy, before))
    ensures Ordered(Arrange(rows, showRepairStations, sortBy, before), Comparator(sortBy, before))
  {
    var big := Filter(rows, BigEnough);
    var kept := if showRepairStations then big else Filter(big, NotRepair);
    SortOrdered(kept, Comparator(sortBy, before));
  }

  /** Alphabetically arranged rows never put a name after one `localeCompare` puts behind it. */
  lemma ArrangeAlphabetical(rows: seq<StationRow>, showRepairStations: bool, before: (string, string) -> bool)
    requires StrictWeakOrder(before)
    ensures var out := Arrange(rows, showRepairStations, Alphabetical, before);
      forall i, j | 0 <= i < j < |out| :: !before(out[j].station, out[i].station)
  {
    ByKeyStrictWeakOrder(before, StationOf);
    var out := Arrange(rows, showRepairStations, Alphabetical, before);
    ArrangeOrdered(rows, showRepairStations, Alphabetical, before);
    forall i, j | 0 <= i < j < |out| ensures !before(out[j].station, out[i].station) {
      assert !Comparator(Alphabetical, before)(out[j], out[i]);
      assert ByKey(before, StationOf)(out[j], out[i]) == before(StationOf(out[j]), StationOf(out[i]));
    }
  }

  /**
   * Alphabetically, no row comes before one whose name `localeCompare`
   * puts ahead of it, provided that comparison is a consistent order.
   */
  lemma AlphabeticalOrder(modelData: Value, showRepairStations: bool, before: (string, string) -> bool)
    requires StrictWeakOrder(before)
    requires ProcessModelData(modelData, showRepairStations, Alphabetical, before).Ok?
    ensures var out := ProcessModelData(modelData, showRepairStations, Alphabetical, before).value;
      forall i, j | 0 <= i < j < |out| :: !before(out[j].station, out[i].station)
  {
    if Truthy(modelData) && (modelData.Arr? || modelData.Obj?) {
      ArrangeAlphabetical(ToRows(EntriesOf(modelData)).value, showRepairStations, before);
    }
  }

  /** A station's counts are read as written when they are non-negative integers. */
  lemma CountsAsWritten(name: string, data: Entries<Value>, total: nat, failed: nat, passed: nat, yieldPct: int)
    requires Prop(data, "totalParts") == Number(JsNumbers.Int(total)) && Prop(data, "failedParts") == Number(JsNumbers.Int(failed))
    requires Prop(data, "passedParts") == Number(JsNumbers.Int(passed)) && Prop(data, "throughputYield") == Number(JsNumbers.Int(yieldPct))
    ensures NewRow(name, Obj(data)) == StationRow(Trim(name), total, failed, passed,
                                                  if yieldPct < 0 then 0 else if yieldPct > 100 then 100 else yieldPct)
  {
  }
}
