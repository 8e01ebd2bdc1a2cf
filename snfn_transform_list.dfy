/**
 * frontend/src/utils/snfn/transform.js: `parseSnFnData`, the array-based
 * variant. Accepted rows are grouped into `[[key, subLabel], [code, count,
 * serials], ...]` entries found with `findIndex`; a code's count sums the
 * rows' `Number(code_count)` and its serial list keeps each `(SN, PN, MD)`
 * triple once.
 *
 * The code lookup `codes.findIndex((c) => c[0] === EC)` runs over the
 * whole entry, label included: when the error code equals the station's
 * key, it finds the label, whose `[2]` is `undefined`, and `.some` throws.
 */
module SnfnTransformList {
  import opened Wrappers
  import opened Strings
  import opened Sorting
  import opened Sequences
  import opened JsNumbers
  import opened JsObjects
  import opened JsValues
  import opened SnfnCommon
  import opened Grouping

  /** `[SN, PN, MD]`. */
  datatype Serial = Serial(sn: Prim, pn: Prim, md: Prim)

  type Data = seq<Station<Serial>>

  /** What `.some` on the label's missing third element throws. */
  const ReadSomeError: string := "TypeError: Cannot read properties of undefined (reading 'some')"

  /** The row passes the date window and `TN === 0` is false. */
  predicate Accepted(r: Row, startDate: Num, endDate: Num) {
    InWindow(r.time, startDate, endDate) && !JsValues.StrictEquals(r.count, Number(Int(0)))
  }

  /** The rows the `forEach` body does not `return` early on, in order. */
  function Kept(rows: seq<Row>, startDate: Num, endDate: Num): (ks: seq<Row>)
    ensures |ks| <= |rows|
    ensures forall i | 0 <= i < |ks| :: Accepted(ks[i], startDate, endDate)
    decreases |rows|
  {
    if rows == [] then []
    else
      var init := Kept(rows[..|rows| - 1], startDate, endDate);
      var r := rows[|rows| - 1];
      if Accepted(r, startDate, endDate) then init + [r] else init
  }

  /** `[SN, PN, MD]` of a row. */
  function SerialOf(r: Row): Serial {
    Serial(r.sn, r.pn, r.model)
  }

  /** `a === SN && b === PN && c === MD`. */
  predicate SameSerial(a: Serial, b: Serial) {
    JsValues.StrictEquals(a.sn, b.sn) && JsValues.StrictEquals(a.pn, b.pn) && JsValues.StrictEquals(a.md, b.md)
  }

  /** `serials.some(...)`. */
  predicate SerialSeen(serials: seq<Serial>, s: Serial) {
    exists i | 0 <= i < |serials| :: SameSerial(serials[i], s)
  }

  /** `data.findIndex((s) => s[0][0] === groupKey)`, or `None` for -1. */
  function FindStation(data: Data, key: string): (r: Option<nat>)
    ensures r.Some? ==> (r.value < |data| && data[r.value].key == key
      && forall j | 0 <= j < r.value :: data[j].key != key)
    ensures r.None? ==> forall j | 0 <= j < |data| :: data[j].key != key
    decreases |data|
  {
    if data == [] then None
    else if data[0].key == key then Some(0)
    else match FindStation(data[1..], key)
      case None => None
      case Some(i) => Some(i + 1)
  }

  /** `codes.findIndex((c) => c[0] === EC)` over the codes after the label. */
  function FindCode(codes: seq<CodeEntry<Serial>>, ec: Prim): (r: Option<nat>)
    ensures r.Some? ==> (r.value < |codes| && JsValues.StrictEquals(codes[r.value].code, ec)
      && forall j | 0 <= j < r.value :: !JsValues.StrictEquals(codes[j].code, ec))
    ensures r.None? ==> forall j | 0 <= j < |codes| :: !JsValues.StrictEquals(codes[j].code, ec)
    decreases |codes|
  {
    if codes == [] then None
    else if JsValues.StrictEquals(codes[0].code, ec) then Some(0)
    else match FindCode(codes[1..], ec)
      case None => None
      case Some(i) => Some(i + 1)
  }

  /** `[EC, Number(TN), [[SN, PN, MD]]]`. */
  function NewCode(r: Row): CodeEntry<Serial> {
    CodeEntry(r.errorCode, ToNumber(r.count), [SerialOf(r)])
  }

  /** The existing code entry after one more row: the triple if new, and the count. */
  function Bump(c: CodeEntry<Serial>, r: Row): CodeEntry<Serial> {
    var s := SerialOf(r);
    CodeEntry(c.code, Add(c.count, ToNumber(r.count)), if SerialSeen(c.serials, s) then c.serials else c.serials + [s])
  }

  /** A station's codes after one more row for it. */
  function AddCode(codes: seq<CodeEntry<Serial>>, r: Row): seq<CodeEntry<Serial>> {
    match FindCode(codes, r.errorCode)
    case None => codes + [NewCode(r)]
    case Some(j) => codes[j := Bump(codes[j], r)]
  }

  /** The label is searched first: an error code equal to the key finds it. */
  predicate LabelClash(r: Row, byWorkstation: bool) {
    JsValues.StrictEquals(Str(GroupKey(r, byWorkstation)), r.errorCode)
  }

  /** The grouping step of one accepted row. */
  function AddRow(data: Data, r: Row, byWorkstation: bool): Result<Data> {
    var key := GroupKey(r, byWorkstation);
    match FindStation(data, key)
    case None => Ok(data + [Station(key, SubLabel(r, byWorkstation), [NewCode(r)])])
    case Some(i) =>
      if LabelClash(r, byWorkstation) then Err(ReadSomeError)
      else Ok(data[i := data[i].(codes := AddCode(data[i].codes, r))])
  }

  /** `data` after the accepted rows `ks`, or the error the loop throws. */
  function Grouped(ks: seq<Row>, byWorkstation: bool): Result<Data>
    decreases |ks|
  {
    if ks == [] then Ok([])
    else match Grouped(ks[..|ks| - 1], byWorkstation)
      case Err(e) => Err(e)
      case Ok(d) => AddRow(d, ks[|ks| - 1], byWorkstation)
  }

  /** `group.splice(1, group.length - 1, ...group.slice(1).sort((a, b) => b[1] - a[1]))`. */
  function SortCodes(st: Station<Serial>): Station<Serial> {
    st.(codes := Sort(st.codes, MoreCount))
  }

  /** The `data.forEach` that sorts every group. */
  function SortGroups(data: Data): (r: Data)
    ensures |r| == |data| && forall i | 0 <= i < |data| :: r[i] == SortCodes(data[i])
    decreases |data|
  {
    if data == [] then [] else SortGroups(data[..|data| - 1]) + [SortCodes(data[|data| - 1])]
  }

  function ErrorCodeOf(r: Row): Prim { r.errorCode }

  function DescKeyOf(byWorkstation: bool): Row -> string {
    r => DescKey(GroupKey(r, byWorkstation), r.errorCode)
  }

  /** What `parseSnFnData(rawRows, startDate, endDate, groupByWorkstation)` returns, or throws. */
  function Parse(rows: seq<Row>, startDate: Num, endDate: Num, byWorkstation: bool): Result<Parsed<Serial>> {
    var ks := Kept(rows, startDate, endDate);
    match Grouped(ks, byWorkstation)
    case Err(e) => Err(e)
    case Ok(d) => Ok(Parsed(
      SortGroups(d),
      SortedValues(Map(ks, ErrorCodeOf)),
      SortedDistinct(Map(ks, GroupKeyOf(byWorkstation))),
      SortedValues(TruthyModels(ks)),
      FlattenDescs(Descs(ks, DescKeyOf(byWorkstation)))))
  }

  // ---------------------------------------------------------------------------
  // The loops

  lemma KeptStep(rows: seq<Row>, startDate: Num, endDate: Num, i: int)
    requires 0 <= i < |rows|
    ensures Kept(rows[..i + 1], startDate, endDate) ==
      Kept(rows[..i], startDate, endDate) + (if Accepted(rows[i], startDate, endDate) then [rows[i]] else [])
  {
    assert rows[..i + 1][..i] == rows[..i];
  }

  /** Dropping rows at the end drops kept rows at the end. */
  lemma {:induction false} KeptPrefix(rows: seq<Row>, startDate: Num, endDate: Num, i: int)
    requires 0 <= i <= |rows|
    ensures exists more :: Kept(rows, startDate, endDate) == Kept(rows[..i], startDate, endDate) + more
    decreases |rows| - i
  {
    if i == |rows| {
      assert rows[..i] == rows;
      assert Kept(rows, startDate, endDate) == Kept(rows[..i], startDate, endDate) + [];
    } else {
      KeptPrefix(rows, startDate, endDate, i + 1);
      KeptStep(rows, startDate, endDate, i);
      var more :| Kept(rows, startDate, endDate) == Kept(rows[..i + 1], startDate, endDate) + more;
      var here := if Accepted(rows[i], startDate, endDate) then [rows[i]] else [];
      ConcatAssoc(Kept(rows[..i], startDate, endDate), here, more);
    }
  }

  /** Once the grouping throws, more rows do not undo it. */
  lemma {:induction false} GroupedErrSticks(ks: seq<Row>, more: seq<Row>, byWorkstation: bool)
    requires Grouped(ks, byWorkstation).Err?
    ensures Grouped(ks + more, byWorkstation) == Grouped(ks, byWorkstation)
    decreases |more|
  {
    if more == [] {
      assert ks + more == ks;
    } else {
      var m := more[..|more| - 1];
      GroupedErrSticks(ks, m, byWorkstation);
      assert (ks + more)[..|ks + more| - 1] == ks + m;
    }
  }

  lemma GroupedSnoc(ks: seq<Row>, r: Row, byWorkstation: bool)
    ensures Grouped(ks + [r], byWorkstation) ==
      if Grouped(ks, byWorkstation).Err? then Grouped(ks, byWorkstation)
      else AddRow(Grouped(ks, byWorkstation).value, r, byWorkstation)
    ensures Descs(ks + [r], DescKeyOf(byWorkstation)) == AddDesc(Descs(ks, DescKeyOf(byWorkstation)), DescKey(GroupKey(r, byWorkstation), r.errorCode), r.desc)
    ensures TruthyModels(ks + [r]) == TruthyModels(ks) + (if JsValues.Truthy(r.model) then [r.model] else [])
  {
    GroupedStep(ks, r, byWorkstation);
    DescsSnoc(ks, r, DescKeyOf(byWorkstation));
    TruthyModelsSnoc(ks, r);
  }

  lemma GroupedStep(ks: seq<Row>, r: Row, byWorkstation: bool)
    ensures Grouped(ks + [r], byWorkstation) ==
      if Grouped(ks, byWorkstation).Err? then Grouped(ks, byWorkstation)
      else AddRow(Grouped(ks, byWorkstation).value, r, byWorkstation)
  {
    assert (ks + [r])[..|ks|] == ks;
  }

  /** The station branch of the `forEach` body for one accepted row. */
  method GroupRow(data: Data, row: Row, groupByWorkstation: bool) returns (r: Result<Data>)
    ensures r == AddRow(data, row, groupByWorkstation)
  {
    var groupKey := GroupKey(row, groupByWorkstation);
    var secondaryLabel := SubLabel(row, groupByWorkstation);
    var stationIdx := FindStation(data, groupKey);
    if stationIdx.None? {
      return Ok(data + [Station(groupKey, secondaryLabel, [NewCode(row)])]);
    }
    var si := stationIdx.value;
    if JsValues.StrictEquals(Str(groupKey), row.errorCode) {
      return Err(ReadSomeError);
    }
    var codes := data[si].codes;
    var codeIdx := FindCode(codes, row.errorCode);
    if codeIdx.None? {
      codes := codes + [NewCode(row)];
    } else {
      codes := codes[codeIdx.value := Bump(codes[codeIdx.value], row)];
    }
    return Ok(data[si := data[si].(codes := codes)]);
  }

  /** `data.forEach((group) => group.splice(...))`. */
  method SortEachGroup(data0: Data) returns (data: Data)
    ensures data == SortGroups(data0)
    ensures forall i | 0 <= i < |data| && (forall j | 0 <= j < |data0[i].codes| :: data0[i].codes[j].count.Int?) ::
      Ordered(data[i].codes, MoreCount)
  {
    data := data0;
    var k := 0;
    while k < |data|
      invariant 0 <= k <= |data| && |data| == |data0|
      invariant forall j | 0 <= j < |data| :: data[j] == if j < k then SortCodes(data0[j]) else data0[j]
    {
      data := data[k := SortCodes(data[k])];
      k := k + 1;
    }
    forall i | 0 <= i < |data| && (forall j | 0 <= j < |data0[i].codes| :: data0[i].codes[j].count.Int?)
      ensures Ordered(data[i].codes, MoreCount)
    {
      SortGroupsByCount(data0, i);
    }
  }

  /** The metadata containers the loop has filled from the accepted rows `ks`. */
  predicate Collected(ks: seq<Row>, byWorkstation: bool, codeSet: seq<Prim>, stationSet: seq<string>,
                      modelSet: seq<Prim>, descMap: Entries<seq<Prim>>) {
    && codeSet == Dedup(Map(ks, ErrorCodeOf))
    && stationSet == Dedup(Map(ks, GroupKeyOf(byWorkstation)))
    && modelSet == Dedup(TruthyModels(ks))
    && descMap == Descs(ks, DescKeyOf(byWorkstation))
  }

  /** The `Set`/`Map` updates of the `forEach` body for one accepted row. */
  method CollectRow(ghost ks: seq<Row>, row: Row, groupByWorkstation: bool, codeSet0: seq<Prim>, stationSet0: seq<string>,
                    modelSet0: seq<Prim>, descMap0: Entries<seq<Prim>>)
    returns (codeSet: seq<Prim>, stationSet: seq<string>, modelSet: seq<Prim>, descMap: Entries<seq<Prim>>)
    requires Collected(ks, groupByWorkstation, codeSet0, stationSet0, modelSet0, descMap0)
    ensures Collected(ks + [row], groupByWorkstation, codeSet, stationSet, modelSet, descMap)
  {
    var groupKey := GroupKey(row, groupByWorkstation);
    MetaStep(ks, row, groupByWorkstation, codeSet0, stationSet0, modelSet0, descMap0);
    codeSet := SetAdd(codeSet0, row.errorCode);
    stationSet := if groupKey in stationSet0 then stationSet0 else stationSet0 + [groupKey];
    modelSet := modelSet0;
    if JsValues.Truthy(row.model) {
      modelSet := SetAdd(modelSet, row.model);
    }
    descMap := AddDesc(descMap0, DescKey(groupKey, row.errorCode), row.desc);
  }

  /** The `forEach` body for one accepted row: the metadata updates, then the grouping. */
  method TakeRow(ghost ks: seq<Row>, row: Row, groupByWorkstation: bool, data: Data, codeSet0: seq<Prim>,
                 stationSet0: seq<string>, modelSet0: seq<Prim>, descMap0: Entries<seq<Prim>>)
    returns (next: Result<Data>, codeSet: seq<Prim>, stationSet: seq<string>, modelSet: seq<Prim>, descMap: Entries<seq<Prim>>)
    requires Grouped(ks, groupByWorkstation) == Ok(data)
    requires Collected(ks, groupByWorkstation, codeSet0, stationSet0, modelSet0, descMap0)
    ensures next == Grouped(ks + [row], groupByWorkstation)
    ensures Collected(ks + [row], groupByWorkstation, codeSet, stationSet, modelSet, descMap)
  {
    codeSet, stationSet, modelSet, descMap := CollectRow(ks, row, groupByWorkstation, codeSet0, stationSet0, modelSet0, descMap0);
    GroupedStep(ks, row, groupByWorkstation);
    next := GroupRow(data, row, groupByWorkstation);
  }

  /** The `forEach` callback for row `i`: it returns early on a row that is not accepted. */
  method VisitRow(rawRows: seq<Row>, i: nat, startDate: Num, endDate: Num, groupByWorkstation: bool, data: Data,
                  codeSet0: seq<Prim>, stationSet0: seq<string>, modelSet0: seq<Prim>, descMap0: Entries<seq<Prim>>)
    returns (next: Result<Data>, codeSet: seq<Prim>, stationSet: seq<string>, modelSet: seq<Prim>, descMap: Entries<seq<Prim>>)
    requires i < |rawRows|
    requires Grouped(Kept(rawRows[..i], startDate, endDate), groupByWorkstation) == Ok(data)
    requires Collected(Kept(rawRows[..i], startDate, endDate), groupByWorkstation, codeSet0, stationSet0, modelSet0, descMap0)
    ensures var ks' := Kept(rawRows[..i + 1], startDate, endDate);
      next == Grouped(ks', groupByWorkstation) && Collected(ks', groupByWorkstation, codeSet, stationSet, modelSet, descMap)
  {
    ghost var ks := Kept(rawRows[..i], startDate, endDate);
    KeptStep(rawRows, startDate, endDate, i);
    var row := rawRows[i];
    if !Accepted(row, startDate, endDate) {
      assert ks + [] == ks;
      return Ok(data), codeSet0, stationSet0, modelSet0, descMap0;
    }
    next, codeSet, stationSet, modelSet, descMap := TakeRow(ks, row, groupByWorkstation, data, codeSet0, stationSet0, modelSet0, descMap0);
  }

  /** The `rawRows.forEach` loop: the groups and the metadata, or the error it throws. */
  method ScanRows(rawRows: seq<Row>, startDate: Num, endDate: Num, groupByWorkstation: bool)
    returns (grouped: Result<Data>, codeSet: seq<Prim>, stationSet: seq<string>, modelSet: seq<Prim>, descMap: Entries<seq<Prim>>)
    ensures grouped == Grouped(Kept(rawRows, startDate, endDate), groupByWorkstation)
    ensures grouped.Ok? ==> Collected(Kept(rawRows, startDate, endDate), groupByWorkstation, codeSet, stationSet, modelSet, descMap)
  {
    var data: Data := [];
    codeSet, stationSet, modelSet, descMap := [], [], [], [];
    var i := 0;
    ScanStart(rawRows, startDate, endDate, groupByWorkstation);
    while i < |rawRows|
      invariant 0 <= i <= |rawRows|
      invariant Grouped(Kept(rawRows[..i], startDate, endDate), groupByWorkstation) == Ok(data)
      invariant Collected(Kept(rawRows[..i], startDate, endDate), groupByWorkstation, codeSet, stationSet, modelSet, descMap)
    {
      var next;
      next, codeSet, stationSet, modelSet, descMap :=
        VisitRow(rawRows, i, startDate, endDate, groupByWorkstation, data, codeSet, stationSet, modelSet, descMap);
      if next.Err? {
        ThrowsForAll(rawRows, startDate, endDate, groupByWorkstation, i);
        return next, codeSet, stationSet, modelSet, descMap;
      }
      data := next.value;
      i := i + 1;
    }
    assert rawRows[..i] == rawRows;
    grouped := Ok(data);
  }

  /** Before the first row: no groups, empty sets and an empty map. */
  lemma ScanStart(rawRows: seq<Row>, startDate: Num, endDate: Num, byWorkstation: bool)
    ensures Grouped(Kept(rawRows[..0], startDate, endDate), byWorkstation) == Ok([])
    ensures Collected(Kept(rawRows[..0], startDate, endDate), byWorkstation, [], [], [], [])
  {
    assert rawRows[..0] == [];
  }

  /**
   * `parseSnFnData(rawRows, startDate, endDate, groupByWorkstation)`: the
   * `forEach` over the rows, then the `forEach` that sorts each group.
   */
  method ParseSnFnData(rawRows: seq<Row>, startDate: Num, endDate: Num, groupByWorkstation: bool)
    returns (r: Result<Parsed<Serial>>)
    ensures r == Parse(rawRows, startDate, endDate, groupByWorkstation)
  {
    var grouped, codeSet, stationSet, modelSet, descMap := ScanRows(rawRows, startDate, endDate, groupByWorkstation);
    if grouped.Err? {
      return Err(grouped.error);
    }
    var data := SortEachGroup(grouped.value);
    ParseOf(rawRows, startDate, endDate, groupByWorkstation, Kept(rawRows, startDate, endDate), data, codeSet, stationSet, modelSet, descMap);
    r := Ok(Parsed(data, Sort(codeSet, DefaultLess), Sort(stationSet, LexLess), Sort(modelSet, DefaultLess), FlattenDescs(descMap)));
  }

  /** What the loops leave behind is what `Parse` describes. */
  lemma ParseOf(rows: seq<Row>, startDate: Num, endDate: Num, byWorkstation: bool, ks: seq<Row>, data: Data,
                codeSet: seq<Prim>, stationSet: seq<string>, modelSet: seq<Prim>, descMap: Entries<seq<Prim>>)
    requires ks == Kept(rows, startDate, endDate) && Grouped(ks, byWorkstation).Ok?
    requires data == SortGroups(Grouped(ks, byWorkstation).value)
    requires Collected(ks, byWorkstation, codeSet, stationSet, modelSet, descMap)
    ensures Parse(rows, startDate, endDate, byWorkstation)
      == Ok(Parsed(data, Sort(codeSet, DefaultLess), Sort(stationSet, LexLess), Sort(modelSet, DefaultLess), FlattenDescs(descMap)))
  {
  }

  /** The metadata containers after one more accepted row. */
  lemma MetaStep(ks: seq<Row>, row: Row, byWorkstation: bool, codeSet: seq<Prim>, stationSet: seq<string>,
                 modelSet: seq<Prim>, descMap: Entries<seq<Prim>>)
    requires Collected(ks, byWorkstation, codeSet, stationSet, modelSet, descMap)
    ensures Collected(ks + [row], byWorkstation, SetAdd(codeSet, row.errorCode),
      var k := GroupKey(row, byWorkstation); if k in stationSet then stationSet else stationSet + [k],
      if JsValues.Truthy(row.model) then SetAdd(modelSet, row.model) else modelSet,
      AddDesc(descMap, DescKey(GroupKey(row, byWorkstation), row.errorCode), row.desc))
  {
    ValueSetStep(ks, row, ErrorCodeOf);
    StationSetStep(ks, row, byWorkstation);
    ModelSetStep(ks, row);
    DescsSnoc(ks, row, DescKeyOf(byWorkstation));
  }

  /** A row that throws makes the whole loop throw the same error. */
  lemma ThrowsForAll(rows: seq<Row>, startDate: Num, endDate: Num, byWorkstation: bool, i: int)
    requires 0 <= i < |rows|
    requires Grouped(Kept(rows[..i + 1], startDate, endDate), byWorkstation).Err?
    ensures Grouped(Kept(rows, startDate, endDate), byWorkstation) == Grouped(Kept(rows[..i + 1], startDate, endDate), byWorkstation)
  {
    KeptPrefix(rows, startDate, endDate, i + 1);
    var more :| Kept(rows, startDate, endDate) == Kept(rows[..i + 1], startDate, endDate) + more;
    GroupedErrSticks(Kept(rows[..i + 1], startDate, endDate), more, byWorkstation);
  }

  // ---------------------------------------------------------------------------
  // What the grouping guarantees

  /** The group keys of the rows, in row order. */
  function KeysOf(ks: seq<Row>, byWorkstation: bool): seq<string> {
    Map(ks, GroupKeyOf(byWorkstation))
  }

  /** `findIndex` is the first index that matches. */
  lemma FindStationIs(data: Data, key: string, r: Option<nat>)
    requires r.Some? ==> (r.value < |data| && data[r.value].key == key
      && forall j | 0 <= j < r.value :: data[j].key != key)
    requires r.None? ==> forall j | 0 <= j < |data| :: data[j].key != key
    ensures FindStation(data, key) == r
  {
  }

  lemma FindCodeIs(codes: seq<CodeEntry<Serial>>, ec: Prim, r: Option<nat>)
    requires r.Some? ==> (r.value < |codes| && JsValues.StrictEquals(codes[r.value].code, ec)
      && forall j | 0 <= j < r.value :: !JsValues.StrictEquals(codes[j].code, ec))
    requires r.None? ==> forall j | 0 <= j < |codes| :: !JsValues.StrictEquals(codes[j].code, ec)
    ensures FindCode(codes, ec) == r
  {
  }

  /** A station pushed at the end is found only when no earlier one has its key. */
  lemma FindStationSnoc(data: Data, st: Station<Serial>, key: string)
    ensures FindStation(data + [st], key) ==
      if FindStation(data, key).Some? then FindStation(data, key)
      else if st.key == key then Some(|data|) else None
  {
    var r := if FindStation(data, key).Some? then FindStation(data, key)
      else if st.key == key then Some(|data|) else None;
    FindStationIs(data + [st], key, r);
  }

  /** Changing a station's codes does not move any lookup. */
  lemma FindStationUpdate(data: Data, i: int, codes: seq<CodeEntry<Serial>>, key: string)
    requires 0 <= i < |data|
    ensures FindStation(data[i := data[i].(codes := codes)], key) == FindStation(data, key)
  {
    FindStationIs(data[i := data[i].(codes := codes)], key, FindStation(data, key));
  }

  /** Stations are found by key: a key has a station exactly when some station carries it. */
  lemma FindStationKeys(data: Data, key: string)
    ensures FindStation(data, key).Some? <==> key in StationKeys(data)
  {
    if key in StationKeys(data) {
      var j :| 0 <= j < |data| && StationKeys(data)[j] == key;
      assert data[j].key == key;
    }
  }

  /** One accepted row opens a station for a new key and keeps the keys otherwise. */
  lemma AddRowKeys(data: Data, r: Row, byWorkstation: bool)
    requires AddRow(data, r, byWorkstation).Ok?
    ensures StationKeys(AddRow(data, r, byWorkstation).value) ==
      if FindStation(data, GroupKey(r, byWorkstation)).None? then StationKeys(data) + [GroupKey(r, byWorkstation)]
      else StationKeys(data)
  {
    var d' := AddRow(data, r, byWorkstation).value;
    if FindStation(data, GroupKey(r, byWorkstation)).None? {
      assert StationKeys(d') == StationKeys(data) + [GroupKey(r, byWorkstation)];
    } else {
      assert StationKeys(d') == StationKeys(data);
    }
  }

  /** One row's grouping step keeps the stations' keys the distinct group keys so far. */
  lemma AddRowDedup(data: Data, keys: seq<string>, r: Row, byWorkstation: bool)
    requires StationKeys(data) == Dedup(keys)
    requires AddRow(data, r, byWorkstation).Ok?
    ensures StationKeys(AddRow(data, r, byWorkstation).value) == Dedup(keys + [GroupKey(r, byWorkstation)])
  {
    AddRowKeys(data, r, byWorkstation);
    DedupAdd(keys, GroupKey(r, byWorkstation));
    FindStationKeys(data, GroupKey(r, byWorkstation));
  }

  /** One station per distinct group key, in order of first appearance. */
  lemma {:induction false} GroupedKeys(ks: seq<Row>, byWorkstation: bool)
    requires Grouped(ks, byWorkstation).Ok?
    ensures StationKeys(Grouped(ks, byWorkstation).value) == Dedup(KeysOf(ks, byWorkstation))
    decreases |ks|
  {
    if ks != [] {
      var n := |ks| - 1;
      GroupedKeys(ks[..n], byWorkstation);
      AddRowDedup(Grouped(ks[..n], byWorkstation).value, KeysOf(ks[..n], byWorkstation), ks[n], byWorkstation);
      MapLast(ks, GroupKeyOf(byWorkstation));
    }
  }

  /**
   * Some accepted row's error code equals its group key while an earlier
   * accepted row already opened that group.
   */
  predicate Clash(ks: seq<Row>, byWorkstation: bool) {
    exists j | 0 <= j < |ks| :: LabelClash(ks[j], byWorkstation) && GroupKey(ks[j], byWorkstation) in KeysOf(ks[..j], byWorkstation)
  }

  /** A clash in `ks` is a clash before its last row or one at the last row itself. */
  lemma ClashLast(ks: seq<Row>, byWorkstation: bool)
    requires ks != []
    ensures Clash(ks, byWorkstation) <==> (Clash(ks[..|ks| - 1], byWorkstation)
      || (LabelClash(ks[|ks| - 1], byWorkstation) && GroupKey(ks[|ks| - 1], byWorkstation) in KeysOf(ks[..|ks| - 1], byWorkstation)))
  {
    var n := |ks| - 1;
    forall j | 0 <= j < n ensures ks[..n][..j] == ks[..j] && ks[..n][j] == ks[j] {
    }
    if Clash(ks, byWorkstation) && !Clash(ks[..n], byWorkstation) {
      var j :| 0 <= j < |ks| && LabelClash(ks[j], byWorkstation) && GroupKey(ks[j], byWorkstation) in KeysOf(ks[..j], byWorkstation);
      assert j == n;
    }
  }

  /** The grouping throws exactly on a clash, and what it throws is the `.some` error. */
  lemma {:induction false} GroupedErr(ks: seq<Row>, byWorkstation: bool)
    ensures Grouped(ks, byWorkstation).Err? <==> Clash(ks, byWorkstation)
    ensures Grouped(ks, byWorkstation).Err? ==> Grouped(ks, byWorkstation).error == ReadSomeError
    decreases |ks|
  {
    if ks != [] {
      var n := |ks| - 1;
      GroupedErr(ks[..n], byWorkstation);
      ClashLast(ks, byWorkstation);
      if Grouped(ks[..n], byWorkstation).Ok? {
        GroupedKeys(ks[..n], byWorkstation);
        FindStationKeys(Grouped(ks[..n], byWorkstation).value, GroupKey(ks[n], byWorkstation));
        DedupSameElements(KeysOf(ks[..n], byWorkstation), GroupKey(ks[n], byWorkstation));
      }
    }
  }

  // ---------------------------------------------------------------------------
  // What each station holds

  /** `c[0] === EC` between two code entries. */
  predicate SameCode(a: CodeEntry<Serial>, b: CodeEntry<Serial>) {
    JsValues.StrictEquals(a.code, b.code)
  }

  /** The codes of a station's entries, in order. */
  function CodeValues(codes: seq<CodeEntry<Serial>>): (r: seq<Prim>)
    ensures |r| == |codes| && forall j | 0 <= j < |codes| :: r[j] == codes[j].code
  {
    seq(|codes|, j requires 0 <= j < |codes| => codes[j].code)
  }

  /** The rows whose error code is `=== code`. */
  function CodeIs(code: Prim): Row -> bool {
    (r: Row) => JsValues.StrictEquals(code, r.errorCode)
  }

  /** The accepted rows of the station `key` whose error code is `=== code`, in order. */
  function CodeRows(ks: seq<Row>, byWorkstation: bool, key: string, code: Prim): seq<Row> {
    Filter(Group(ks, GroupKeyOf(byWorkstation), key), CodeIs(code))
  }

  /**
   * A code entry as the rows `rs` make it: their counts summed from 0 and
   * exactly their `[SN, PN, MD]` triples.
   */
  predicate Tallied(c: CodeEntry<Serial>, rs: seq<Row>) {
    && rs != []
    && c.count == SumCounts(rs)
    && (forall i | 0 <= i < |c.serials| :: c.serials[i] in Map(rs, SerialOf))
    && (forall r | r in rs :: SerialOf(r) in c.serials)
  }

  /** The sub-label is that of the station's first row. */
  predicate FirstLabel(g: seq<Row>, byWorkstation: bool, st: Station<Serial>) {
    g != [] && st.subLabel == SubLabel(g[0], byWorkstation)
  }

  /** No serial list holds the same triple twice. */
  predicate SerialsApart(codes: seq<CodeEntry<Serial>>) {
    forall j | 0 <= j < |codes| :: Apart(codes[j].serials, SameSerial)
  }

  /** Each code that is not the number NaN is the tally of its rows among `g`. */
  predicate CodesTallied(g: seq<Row>, codes: seq<CodeEntry<Serial>>) {
    forall j | 0 <= j < |codes| && codes[j].code != Number(NaN) :: Tallied(codes[j], Filter(g, CodeIs(codes[j].code)))
  }

  /** The code of each row of `g` that is not the number NaN has an entry. */
  predicate CodesListed(g: seq<Row>, codes: seq<CodeEntry<Serial>>) {
    forall r | r in g && r.errorCode != Number(NaN) :: r.errorCode in CodeValues(codes)
  }

  /** Counts are numbers when the counts of the rows `g` are. */
  predicate CountsNumeric(g: seq<Row>, codes: seq<CodeEntry<Serial>>) {
    (forall r | r in g :: JsValues.ToNumber(r.count).Int?) ==> forall j | 0 <= j < |codes| :: codes[j].count.Int?
  }

  /**
   * What a station entry holds after the accepted rows `ks`: the sub-label
   * of its first row; codes no two of which are `===`; serial lists no two
   * triples of which are the same; for each code that is not the number NaN,
   * the sum and the triples of its rows; an entry for the code of each of its
   * rows; and numeric counts when its rows' counts are numbers.
   */
  predicate Holds(ks: seq<Row>, byWorkstation: bool, st: Station<Serial>) {
    HoldsIn(Group(ks, GroupKeyOf(byWorkstation), st.key), byWorkstation, st)
  }

  /** What a station entry holds, given its rows `g`. */
  predicate HoldsIn(g: seq<Row>, byWorkstation: bool, st: Station<Serial>) {
    && FirstLabel(g, byWorkstation, st)
    && Apart(st.codes, SameCode)
    && SerialsApart(st.codes)
    && CodesTallied(g, st.codes)
    && CodesListed(g, st.codes)
    && CountsNumeric(g, st.codes)
  }

  /** On primitives `===` between triples is equality without NaN, so it is symmetric. */
  lemma SameSerialIs(a: Serial, b: Serial)
    ensures SameSerial(a, b) ==> a == b
    ensures SameSerial(a, b) <==> SameSerial(b, a)
  {
    StrictEqualsPrim(a.sn, b.sn);
    StrictEqualsPrim(a.pn, b.pn);
    StrictEqualsPrim(a.md, b.md);
    StrictEqualsPrim(b.sn, a.sn);
    StrictEqualsPrim(b.pn, a.pn);
    StrictEqualsPrim(b.md, a.md);
  }

  /** The group of `key` after one more row. */
  lemma GroupSnoc(ks: seq<Row>, r: Row, byWorkstation: bool, key: string)
    ensures Group(ks + [r], GroupKeyOf(byWorkstation), key)
      == Group(ks, GroupKeyOf(byWorkstation), key) + (if GroupKey(r, byWorkstation) == key then [r] else [])
  {
    FilterSnoc(ks, r, KeyIs(GroupKeyOf(byWorkstation), key));
  }

  /** A row of another station changes nothing a station holds. */
  lemma HoldsOther(ks: seq<Row>, byWorkstation: bool, r: Row, st: Station<Serial>)
    requires Holds(ks, byWorkstation, st) && GroupKey(r, byWorkstation) != st.key
    ensures Holds(ks + [r], byWorkstation, st)
  {
    GroupSnoc(ks, r, byWorkstation, st.key);
    assert Group(ks + [r], GroupKeyOf(byWorkstation), st.key) == Group(ks, GroupKeyOf(byWorkstation), st.key);
  }

  /** A key without rows has an empty group. */
  lemma NoKeyNoGroup(ks: seq<Row>, byWorkstation: bool, key: string)
    requires key !in KeysOf(ks, byWorkstation)
    ensures Group(ks, GroupKeyOf(byWorkstation), key) == []
  {
    forall i | 0 <= i < |ks| ensures !KeyIs(GroupKeyOf(byWorkstation), key)(ks[i]) {
      assert KeysOf(ks, byWorkstation)[i] == GroupKey(ks[i], byWorkstation);
    }
    FilterNone(ks, KeyIs(GroupKeyOf(byWorkstation), key));
  }

  /** The sum of one row's count is that count. */
  lemma SumOne(r: Row)
    ensures SumCounts([r]) == JsValues.ToNumber(r.count)
  {
    FoldSnoc([], r, Int(0), AddCount);
    assert [] + [r] == [r];
  }

  /** The station a new key opens holds its first row. */
  lemma HoldsNew(ks: seq<Row>, byWorkstation: bool, r: Row)
    requires Group(ks, GroupKeyOf(byWorkstation), GroupKey(r, byWorkstation)) == []
    ensures Holds(ks + [r], byWorkstation, Station(GroupKey(r, byWorkstation), SubLabel(r, byWorkstation), [NewCode(r)]))
  {
    GroupSnoc(ks, r, byWorkstation, GroupKey(r, byWorkstation));
    HoldsOneRow(ks + [r], byWorkstation, r);
  }

  /** A station whose only row is `r` holds it. */
  lemma HoldsOneRow(ks: seq<Row>, byWorkstation: bool, r: Row)
    requires Group(ks, GroupKeyOf(byWorkstation), GroupKey(r, byWorkstation)) == [r]
    ensures Holds(ks, byWorkstation, Station(GroupKey(r, byWorkstation), SubLabel(r, byWorkstation), [NewCode(r)]))
  {
    HoldsInOneRow(byWorkstation, r);
  }

  lemma HoldsInOneRow(byWorkstation: bool, r: Row)
    ensures HoldsIn([r], byWorkstation, Station(GroupKey(r, byWorkstation), SubLabel(r, byWorkstation), [NewCode(r)]))
  {
    OneRowTallied(r);
    OneRowListed(r);
    OneRowApart(r);
  }

  lemma OneRowTallied(r: Row)
    ensures CodesTallied([r], [NewCode(r)])
  {
    if r.errorCode != Number(NaN) {
      OwnCode(r);
      TalliedOne(r);
    } else {
      assert NewCode(r).code == Number(NaN);
    }
  }

  lemma OneRowApart(r: Row)
    ensures Apart([NewCode(r)], SameCode) && SerialsApart([NewCode(r)])
  {
    assert [NewCode(r)][0].serials == [SerialOf(r)];
  }

  lemma OneRowListed(r: Row)
    ensures CodesListed([r], [NewCode(r)])
  {
    assert CodeValues([NewCode(r)])[0] == r.errorCode;
  }

  /** A row's own entry is the tally of that row. */
  lemma TalliedOne(r: Row)
    ensures Tallied(NewCode(r), [r])
  {
    SumOne(r);
    OneRowSerials(r);
  }

  /** A row's own entry lists exactly its triple. */
  lemma OneRowSerials(r: Row)
    ensures forall i | 0 <= i < |NewCode(r).serials| :: NewCode(r).serials[i] in Map([r], SerialOf)
    ensures forall x | x in [r] :: SerialOf(x) in NewCode(r).serials
  {
    assert Map([r], SerialOf)[0] == SerialOf(r);
    assert NewCode(r).serials == [SerialOf(r)];
  }

  /** A row that is not NaN-coded is filed under its own code. */
  lemma OwnCode(r: Row)
    requires r.errorCode != Number(NaN)
    ensures Filter([r], CodeIs(r.errorCode)) == [r]
  {
    StrictEqualsPrim(r.errorCode, r.errorCode);
    FilterSnoc([], r, CodeIs(r.errorCode));
    assert [] + [r] == [r];
  }

  /** An entry bumped by one more of its rows is the tally of those rows and keeps its triples apart. */
  lemma TalliedBump(c: CodeEntry<Serial>, rs: seq<Row>, r: Row)
    requires Tallied(c, rs) && Apart(c.serials, SameSerial)
    ensures Tallied(Bump(c, r), rs + [r]) && Apart(Bump(c, r).serials, SameSerial)
  {
    var s := SerialOf(r);
    FoldSnoc(rs, r, Int(0), AddCount);
    MapSnoc(rs, r, SerialOf);
    if SerialSeen(c.serials, s) {
      var i :| 0 <= i < |c.serials| && SameSerial(c.serials[i], s);
      SameSerialIs(c.serials[i], s);
    } else {
      forall j | 0 <= j < |c.serials| ensures !SameSerial(s, c.serials[j]) && !SameSerial(c.serials[j], s) {
        SameSerialIs(s, c.serials[j]);
      }
      SnocApart(c.serials, s, SameSerial);
    }
    var m := Map(rs + [r], SerialOf);
    forall x | x in rs + [r] ensures SerialOf(x) in Bump(c, r).serials {
      InSnoc(rs + [r], x);
      assert (rs + [r])[..|rs|] == rs;
    }
  }

  /** `===` on primitives is equality without NaN. */
  lemma SameCodeIs(a: Prim, b: Prim)
    ensures JsValues.StrictEquals(a, b) <==> a == b && a != Number(NaN)
    ensures JsValues.StrictEquals(a, b) <==> JsValues.StrictEquals(b, a)
  {
    StrictEqualsPrim(a, b);
    StrictEqualsPrim(b, a);
  }

  /** `findIndex` misses a code only when no entry holds it or it is the number NaN. */
  lemma FindCodeNoneUnlisted(codes: seq<CodeEntry<Serial>>, x: Prim)
    requires FindCode(codes, x).None?
    ensures x == Number(NaN) || x !in CodeValues(codes)
  {
    forall k | 0 <= k < |codes| ensures CodeValues(codes)[k] != x || x == Number(NaN) {
      StrictEqualsPrim(codes[k].code, x);
    }
  }

  /** A code without an entry has no rows yet. */
  lemma NoRowsOfNewCode(g: seq<Row>, codes: seq<CodeEntry<Serial>>, r: Row)
    requires CodesListed(g, codes) && FindCode(codes, r.errorCode).None?
    ensures Filter(g, CodeIs(r.errorCode)) == []
  {
    FindCodeNoneUnlisted(codes, r.errorCode);
    forall i | 0 <= i < |g| ensures !CodeIs(r.errorCode)(g[i]) {
      SameCodeIs(r.errorCode, g[i].errorCode);
      assert g[i] in g;
    }
    FilterNone(g, CodeIs(r.errorCode));
  }

  /** A new code entry is apart from the others. */
  lemma NewCodeApart(codes: seq<CodeEntry<Serial>>, r: Row)
    requires Apart(codes, SameCode) && SerialsApart(codes) && FindCode(codes, r.errorCode).None?
    ensures Apart(codes + [NewCode(r)], SameCode) && SerialsApart(codes + [NewCode(r)])
  {
    forall j | 0 <= j < |codes| ensures !SameCode(NewCode(r), codes[j]) && !SameCode(codes[j], NewCode(r)) {
      SameCodeIs(codes[j].code, r.errorCode);
    }
    SnocApart(codes, NewCode(r), SameCode);
    var c' := codes + [NewCode(r)];
    forall j | 0 <= j < |c'| ensures Apart(c'[j].serials, SameSerial) {
      if j < |codes| {
        assert c'[j] == codes[j];
      }
    }
  }

  /** An entry whose code is not `===` the row's keeps its tally. */
  lemma TalliedKept(g: seq<Row>, r: Row, c: CodeEntry<Serial>)
    requires Tallied(c, Filter(g, CodeIs(c.code))) && !JsValues.StrictEquals(c.code, r.errorCode)
    ensures Tallied(c, Filter(g + [r], CodeIs(c.code)))
  {
    FilterSnoc(g, r, CodeIs(c.code));
    assert !CodeIs(c.code)(r);
    assert Filter(g + [r], CodeIs(c.code)) == Filter(g, CodeIs(c.code));
  }

  /** A new entry is the tally of its one row. */
  lemma TalliedNew(g: seq<Row>, codes: seq<CodeEntry<Serial>>, r: Row)
    requires CodesListed(g, codes) && FindCode(codes, r.errorCode).None? && r.errorCode != Number(NaN)
    ensures Tallied(NewCode(r), Filter(g + [r], CodeIs(r.errorCode)))
  {
    FilterSnoc(g, r, CodeIs(r.errorCode));
    NoRowsOfNewCode(g, codes, r);
    StrictEqualsPrim(r.errorCode, r.errorCode);
    assert [] + [r] == [r];
    TalliedOne(r);
  }

  /** A new code entry is the tally of its one row, and the other entries keep theirs. */
  lemma NewCodeTallied(g: seq<Row>, codes: seq<CodeEntry<Serial>>, r: Row)
    requires CodesTallied(g, codes) && CodesListed(g, codes) && FindCode(codes, r.errorCode).None?
    ensures CodesTallied(g + [r], codes + [NewCode(r)])
  {
    var c' := codes + [NewCode(r)];
    forall j | 0 <= j < |c'| && c'[j].code != Number(NaN)
      ensures Tallied(c'[j], Filter(g + [r], CodeIs(c'[j].code)))
    {
      if j < |codes| {
        assert c'[j] == codes[j];
        TalliedKept(g, r, codes[j]);
      } else {
        TalliedNew(g, codes, r);
      }
    }
  }

  /** The codes after a new entry are those before and the new one. */
  lemma NewCodeListed(g: seq<Row>, codes: seq<CodeEntry<Serial>>, r: Row)
    requires CodesListed(g, codes)
    ensures CodesListed(g + [r], codes + [NewCode(r)])
  {
    var c' := codes + [NewCode(r)];
    assert CodeValues(c') == CodeValues(codes) + [r.errorCode];
    forall x | x in g + [r] && x.errorCode != Number(NaN) ensures x.errorCode in CodeValues(c') {
      InSnoc(g + [r], x);
      assert (g + [r])[..|g|] == g;
    }
  }

  lemma NewCodeNumeric(g: seq<Row>, codes: seq<CodeEntry<Serial>>, r: Row)
    requires CountsNumeric(g, codes)
    ensures CountsNumeric(g + [r], codes + [NewCode(r)])
  {
    if forall x | x in g + [r] :: JsValues.ToNumber(x.count).Int? {
      assert forall x | x in g :: x in g + [r];
      assert r in g + [r];
      var c' := codes + [NewCode(r)];
      forall j | 0 <= j < |c'| ensures c'[j].count.Int? {
        if j < |codes| {
          assert c'[j] == codes[j];
        }
      }
    }
  }

  /** A row of a known station whose code is new adds an entry for it. */
  lemma HoldsInNewCode(g: seq<Row>, byWorkstation: bool, st: Station<Serial>, r: Row)
    requires HoldsIn(g, byWorkstation, st) && FindCode(st.codes, r.errorCode).None?
    ensures HoldsIn(g + [r], byWorkstation, st.(codes := st.codes + [NewCode(r)]))
  {
    assert (g + [r])[0] == g[0];
    NewCodeApart(st.codes, r);
    NewCodeTallied(g, st.codes, r);
    NewCodeListed(g, st.codes, r);
    NewCodeNumeric(g, st.codes, r);
  }

  /** Bumping an entry changes no code. */
  lemma BumpCodes(codes: seq<CodeEntry<Serial>>, j: int, r: Row)
    requires 0 <= j < |codes|
    ensures CodeValues(codes[j := Bump(codes[j], r)]) == CodeValues(codes)
    ensures Apart(codes, SameCode) ==> Apart(codes[j := Bump(codes[j], r)], SameCode)
  {
    var c' := codes[j := Bump(codes[j], r)];
    assert forall k | 0 <= k < |codes| :: c'[k].code == codes[k].code;
    assert forall a, b | 0 <= a < |codes| && 0 <= b < |codes| :: SameCode(c'[a], c'[b]) == SameCode(codes[a], codes[b]);
  }

  /** The found entry takes the row; the others are not `===` its code and keep their tallies. */
  lemma BumpTallied(g: seq<Row>, codes: seq<CodeEntry<Serial>>, j: int, r: Row)
    requires CodesTallied(g, codes) && SerialsApart(codes) && Apart(codes, SameCode)
    requires 0 <= j < |codes| && JsValues.StrictEquals(codes[j].code, r.errorCode)
    ensures CodesTallied(g + [r], codes[j := Bump(codes[j], r)])
    ensures SerialsApart(codes[j := Bump(codes[j], r)])
  {
    var c' := codes[j := Bump(codes[j], r)];
    SameCodeIs(codes[j].code, r.errorCode);
    BumpEntry(g, codes[j], r);
    forall k | 0 <= k < |c'| && c'[k].code != Number(NaN)
      ensures Tallied(c'[k], Filter(g + [r], CodeIs(c'[k].code)))
    {
      if k != j {
        assert !SameCode(codes[k], codes[j]);
        TalliedKept(g, r, codes[k]);
      }
    }
  }

  /** The entry of the row's code takes the row. */
  lemma BumpEntry(g: seq<Row>, c: CodeEntry<Serial>, r: Row)
    requires Tallied(c, Filter(g, CodeIs(c.code))) && Apart(c.serials, SameSerial)
    requires c.code == r.errorCode && c.code != Number(NaN)
    ensures Tallied(Bump(c, r), Filter(g + [r], CodeIs(c.code)))
    ensures Apart(Bump(c, r).serials, SameSerial)
  {
    StrictEqualsPrim(c.code, r.errorCode);
    FilterSnoc(g, r, CodeIs(c.code));
    TalliedBump(c, Filter(g, CodeIs(c.code)), r);
  }

  lemma BumpNumeric(g: seq<Row>, codes: seq<CodeEntry<Serial>>, j: int, r: Row)
    requires CountsNumeric(g, codes) && 0 <= j < |codes|
    ensures CountsNumeric(g + [r], codes[j := Bump(codes[j], r)])
  {
    if forall x | x in g + [r] :: JsValues.ToNumber(x.count).Int? {
      assert forall x | x in g :: x in g + [r];
      assert r in g + [r];
    }
  }

  lemma BumpListed(g: seq<Row>, codes: seq<CodeEntry<Serial>>, j: int, r: Row)
    requires CodesListed(g, codes) && 0 <= j < |codes| && codes[j].code == r.errorCode
    ensures CodesListed(g + [r], codes[j := Bump(codes[j], r)])
  {
    BumpCodes(codes, j, r);
    assert CodeValues(codes)[j] == r.errorCode;
    forall x | x in g + [r] && x.errorCode != Number(NaN) ensures x.errorCode in CodeValues(codes) {
      InSnoc(g + [r], x);
      assert (g + [r])[..|g|] == g;
    }
  }

  /** A row of a known station whose code has an entry is added to it. */
  lemma HoldsInBump(g: seq<Row>, byWorkstation: bool, st: Station<Serial>, r: Row, j: nat)
    requires HoldsIn(g, byWorkstation, st) && FindCode(st.codes, r.errorCode) == Some(j)
    ensures HoldsIn(g + [r], byWorkstation, st.(codes := st.codes[j := Bump(st.codes[j], r)]))
  {
    assert (g + [r])[0] == g[0];
    SameCodeIs(st.codes[j].code, r.errorCode);
    BumpCodes(st.codes, j, r);
    BumpTallied(g, st.codes, j, r);
    BumpListed(g, st.codes, j, r);
    BumpNumeric(g, st.codes, j, r);
  }

  /** A row of the station is filed as `AddCode` files it. */
  lemma HoldsSame(ks: seq<Row>, byWorkstation: bool, r: Row, st: Station<Serial>)
    requires Holds(ks, byWorkstation, st) && GroupKey(r, byWorkstation) == st.key
    ensures Holds(ks + [r], byWorkstation, st.(codes := AddCode(st.codes, r)))
  {
    GroupSnoc(ks, r, byWorkstation, st.key);
    var g := Group(ks, GroupKeyOf(byWorkstation), st.key);
    match FindCode(st.codes, r.errorCode)
    case None => HoldsInNewCode(g, byWorkstation, st, r);
    case Some(j) => HoldsInBump(g, byWorkstation, st, r, j);
  }

  /** Every station of `d` holds what the rows `ks` make it hold. */
  predicate AllHold(ks: seq<Row>, byWorkstation: bool, d: Data) {
    forall i | 0 <= i < |d| :: Holds(ks, byWorkstation, d[i])
  }

  /** No two stations share a key. */
  predicate KeysApart(d: Data) {
    forall i, j | 0 <= i < |d| && 0 <= j < |d| && i != j :: d[i].key != d[j].key
  }

  /** The loop opens one station per key. */
  lemma GroupedKeysApart(ks: seq<Row>, byWorkstation: bool)
    requires Grouped(ks, byWorkstation).Ok?
    ensures KeysApart(Grouped(ks, byWorkstation).value)
  {
    var d := Grouped(ks, byWorkstation).value;
    GroupedKeys(ks, byWorkstation);
    forall i, j | 0 <= i < |d| && 0 <= j < |d| && i != j ensures d[i].key != d[j].key {
      assert StationKeys(d)[i] == d[i].key && StationKeys(d)[j] == d[j].key;
    }
  }

  /** A key the loop has no station for has no accepted rows yet. */
  lemma GroupedNewKey(ks: seq<Row>, byWorkstation: bool, key: string)
    requires Grouped(ks, byWorkstation).Ok? && FindStation(Grouped(ks, byWorkstation).value, key).None?
    ensures Group(ks, GroupKeyOf(byWorkstation), key) == []
  {
    GroupedKeys(ks, byWorkstation);
    FindStationKeys(Grouped(ks, byWorkstation).value, key);
    DedupSameElements(KeysOf(ks, byWorkstation), key);
    NoKeyNoGroup(ks, byWorkstation, key);
  }

  /** A row with a new key pushes a station that holds it; the others are untouched. */
  lemma AddRowOpens(ks: seq<Row>, byWorkstation: bool, d: Data, r: Row)
    requires AllHold(ks, byWorkstation, d) && Group(ks, GroupKeyOf(byWorkstation), GroupKey(r, byWorkstation)) == []
    requires forall i | 0 <= i < |d| :: d[i].key != GroupKey(r, byWorkstation)
    ensures AllHold(ks + [r], byWorkstation, d + [Station(GroupKey(r, byWorkstation), SubLabel(r, byWorkstation), [NewCode(r)])])
  {
    var d' := d + [Station(GroupKey(r, byWorkstation), SubLabel(r, byWorkstation), [NewCode(r)])];
    forall i | 0 <= i < |d'| ensures Holds(ks + [r], byWorkstation, d'[i]) {
      if i < |d| {
        assert d'[i] == d[i];
        HoldsOther(ks, byWorkstation, r, d[i]);
      } else {
        HoldsNew(ks, byWorkstation, r);
      }
    }
  }

  /** A row with a known key updates that station; the others have other keys and are untouched. */
  lemma AddRowUpdates(ks: seq<Row>, byWorkstation: bool, d: Data, r: Row, i0: nat)
    requires AllHold(ks, byWorkstation, d) && KeysApart(d)
    requires i0 < |d| && d[i0].key == GroupKey(r, byWorkstation)
    ensures AllHold(ks + [r], byWorkstation, d[i0 := d[i0].(codes := AddCode(d[i0].codes, r))])
  {
    var d' := d[i0 := d[i0].(codes := AddCode(d[i0].codes, r))];
    forall i | 0 <= i < |d'| ensures Holds(ks + [r], byWorkstation, d'[i]) {
      if i == i0 {
        HoldsSame(ks, byWorkstation, r, d[i0]);
      } else {
        assert d[i].key != d[i0].key;
        HoldsOther(ks, byWorkstation, r, d[i]);
      }
    }
  }

  /** One more row keeps every station holding what its rows make it hold. */
  lemma StepHolds(ks: seq<Row>, byWorkstation: bool)
    requires ks != [] && Grouped(ks, byWorkstation).Ok?
    requires Grouped(ks[..|ks| - 1], byWorkstation).Ok?
    requires AllHold(ks[..|ks| - 1], byWorkstation, Grouped(ks[..|ks| - 1], byWorkstation).value)
    ensures AllHold(ks, byWorkstation, Grouped(ks, byWorkstation).value)
  {
    var init, r := ks[..|ks| - 1], ks[|ks| - 1];
    SplitLast(ks);
    GroupedLast(ks, byWorkstation);
    AddRowHolds(init, r, ks, byWorkstation);
  }

  lemma SplitLast(ks: seq<Row>)
    requires ks != []
    ensures ks[..|ks| - 1] + [ks[|ks| - 1]] == ks
  {
  }

  /** A successful grouping is the step of its last row after the others. */
  lemma GroupedLast(ks: seq<Row>, byWorkstation: bool)
    requires ks != [] && Grouped(ks, byWorkstation).Ok?
    ensures Grouped(ks[..|ks| - 1], byWorkstation).Ok?
    ensures AddRow(Grouped(ks[..|ks| - 1], byWorkstation).value, ks[|ks| - 1], byWorkstation) == Grouped(ks, byWorkstation)
  {
  }

  /** The grouping step of one more row keeps every station holding what its rows make it hold. */
  lemma AddRowHolds(ks: seq<Row>, r: Row, ks': seq<Row>, byWorkstation: bool)
    requires ks' == ks + [r]
    requires Grouped(ks, byWorkstation).Ok? && AllHold(ks, byWorkstation, Grouped(ks, byWorkstation).value)
    requires AddRow(Grouped(ks, byWorkstation).value, r, byWorkstation).Ok?
    ensures AllHold(ks', byWorkstation, AddRow(Grouped(ks, byWorkstation).value, r, byWorkstation).value)
  {
    var d := Grouped(ks, byWorkstation).value;
    match FindStation(d, GroupKey(r, byWorkstation))
    case None =>
      GroupedNewKey(ks, byWorkstation, GroupKey(r, byWorkstation));
      AddRowOpens(ks, byWorkstation, d, r);
    case Some(i0) =>
      GroupedKeysApart(ks, byWorkstation);
      AddRowUpdates(ks, byWorkstation, d, r, i0);
  }

  /** Every station the loop builds holds what its rows make it hold. */
  lemma {:induction false} GroupedHolds(ks: seq<Row>, byWorkstation: bool)
    requires Grouped(ks, byWorkstation).Ok?
    ensures AllHold(ks, byWorkstation, Grouped(ks, byWorkstation).value)
    decreases |ks|
  {
    if ks != [] {
      GroupedHolds(ks[..|ks| - 1], byWorkstation);
      StepHolds(ks, byWorkstation);
    }
  }

  // ---------------------------------------------------------------------------
  // What the sorted result holds

  lemma SortedListed(g: seq<Row>, codes: seq<CodeEntry<Serial>>)
    requires CodesListed(g, codes)
    ensures CodesListed(g, Sort(codes, MoreCount))
  {
    var sorted := Sort(codes, MoreCount);
    forall x | x in g && x.errorCode != Number(NaN) ensures x.errorCode in CodeValues(sorted) {
      var k :| 0 <= k < |codes| && CodeValues(codes)[k] == x.errorCode;
      SortSameElements(codes, MoreCount, codes[k]);
      var m :| 0 <= m < |sorted| && sorted[m] == codes[k];
      assert CodeValues(sorted)[m] == x.errorCode;
    }
  }

  lemma SortedTallied(g: seq<Row>, codes: seq<CodeEntry<Serial>>)
    requires CodesTallied(g, codes) && SerialsApart(codes)
    ensures CodesTallied(g, Sort(codes, MoreCount)) && SerialsApart(Sort(codes, MoreCount))
  {
    SortKeeps(codes, MoreCount, (c: CodeEntry<Serial>) => c.code != Number(NaN) ==> Tallied(c, Filter(g, CodeIs(c.code))));
    SortKeeps(codes, MoreCount, (c: CodeEntry<Serial>) => Apart(c.serials, SameSerial));
  }

  lemma SortedNumeric(g: seq<Row>, codes: seq<CodeEntry<Serial>>)
    requires CountsNumeric(g, codes)
    ensures CountsNumeric(g, Sort(codes, MoreCount))
  {
    if forall x | x in g :: JsValues.ToNumber(x.count).Int? {
      SortKeeps(codes, MoreCount, IntCount);
    }
  }

  /** Sorting a station's codes keeps everything it holds. */
  lemma SortedHoldsIn(g: seq<Row>, byWorkstation: bool, st: Station<Serial>)
    requires HoldsIn(g, byWorkstation, st)
    ensures HoldsIn(g, byWorkstation, SortCodes(st))
  {
    SortApart(st.codes, MoreCount, SameCode);
    SortedTallied(g, st.codes);
    SortedListed(g, st.codes);
    SortedNumeric(g, st.codes);
  }

  /** Station `i` of a successful call holds what its accepted rows make it hold. */
  lemma ParsedHolds(rows: seq<Row>, startDate: Num, endDate: Num, byWorkstation: bool, i: int)
    requires Parse(rows, startDate, endDate, byWorkstation).Ok?
    requires 0 <= i < |Parse(rows, startDate, endDate, byWorkstation).value.data|
    ensures Holds(Kept(rows, startDate, endDate), byWorkstation, Parse(rows, startDate, endDate, byWorkstation).value.data[i])
  {
    var ks := Kept(rows, startDate, endDate);
    var d := Grouped(ks, byWorkstation).value;
    GroupedHolds(ks, byWorkstation);
    assert Holds(ks, byWorkstation, d[i]);
    SortedHoldsIn(Group(ks, GroupKeyOf(byWorkstation), d[i].key), byWorkstation, d[i]);
  }

  /** No two codes of a station are `===`: `findIndex` adds to the entry it finds. */
  lemma CodesOnce(rows: seq<Row>, startDate: Num, endDate: Num, byWorkstation: bool, i: int)
    requires Parse(rows, startDate, endDate, byWorkstation).Ok?
    requires 0 <= i < |Parse(rows, startDate, endDate, byWorkstation).value.data|
    ensures var codes := Parse(rows, startDate, endDate, byWorkstation).value.data[i].codes;
      forall a, b | 0 <= a < |codes| && 0 <= b < |codes| && a != b :: !JsValues.StrictEquals(codes[a].code, codes[b].code)
  {
    ParsedHolds(rows, startDate, endDate, byWorkstation, i);
  }

  /** No serial list holds two `===` triples, since `.some` finds a repeated one. */
  lemma SerialsOnce(rows: seq<Row>, startDate: Num, endDate: Num, byWorkstation: bool, i: int, j: int)
    requires Parse(rows, startDate, endDate, byWorkstation).Ok?
    requires 0 <= i < |Parse(rows, startDate, endDate, byWorkstation).value.data|
    requires 0 <= j < |Parse(rows, startDate, endDate, byWorkstation).value.data[i].codes|
    ensures var ss := Parse(rows, startDate, endDate, byWorkstation).value.data[i].codes[j].serials;
      forall a, b | 0 <= a < |ss| && 0 <= b < |ss| && a != b :: !SameSerial(ss[a], ss[b])
  {
    ParsedHolds(rows, startDate, endDate, byWorkstation, i);
  }

  /**
   * A code that is not the number NaN stands for the accepted rows of its
   * station whose error code is `===` it: its count is the sum of their
   * `Number(code_count)`, repeated triples included, and its serial list
   * holds exactly their triples.
   */
  lemma CodeEntries(rows: seq<Row>, startDate: Num, endDate: Num, byWorkstation: bool, i: int, j: int)
    requires Parse(rows, startDate, endDate, byWorkstation).Ok?
    requires 0 <= i < |Parse(rows, startDate, endDate, byWorkstation).value.data|
    requires 0 <= j < |Parse(rows, startDate, endDate, byWorkstation).value.data[i].codes|
    requires Parse(rows, startDate, endDate, byWorkstation).value.data[i].codes[j].code != Number(NaN)
    ensures var st := Parse(rows, startDate, endDate, byWorkstation).value.data[i];
      var ce := st.codes[j];
      var rs := CodeRows(Kept(rows, startDate, endDate), byWorkstation, st.key, ce.code);
      && rs != []
      && (forall r | r in rs :: GroupKey(r, byWorkstation) == st.key && JsValues.StrictEquals(ce.code, r.errorCode))
      && ce.count == SumCounts(rs)
      && (forall s :: s in ce.serials <==> s in Map(rs, SerialOf))
  {
    var st := Parse(rows, startDate, endDate, byWorkstation).value.data[i];
    ParsedHolds(rows, startDate, endDate, byWorkstation, i);
    assert st.codes[j] in st.codes;
    CodeRowsMean(Kept(rows, startDate, endDate), byWorkstation, st.key, st.codes[j]);
  }

  /** What a tallied entry says about the rows it stands for. */
  lemma CodeRowsMean(ks: seq<Row>, byWorkstation: bool, key: string, ce: CodeEntry<Serial>)
    requires Tallied(ce, CodeRows(ks, byWorkstation, key, ce.code))
    ensures var rs := CodeRows(ks, byWorkstation, key, ce.code);
      && rs != []
      && (forall r | r in rs :: GroupKey(r, byWorkstation) == key && JsValues.StrictEquals(ce.code, r.errorCode))
      && ce.count == SumCounts(rs)
      && (forall s :: s in ce.serials <==> s in Map(rs, SerialOf))
  {
    var g := Group(ks, GroupKeyOf(byWorkstation), key);
    var rs := Filter(g, CodeIs(ce.code));
    forall r | r in rs ensures GroupKey(r, byWorkstation) == key && JsValues.StrictEquals(ce.code, r.errorCode) {
      var k :| 0 <= k < |rs| && rs[k] == r;
      assert r in g && CodeIs(ce.code)(r);
      var m :| 0 <= m < |g| && g[m] == r;
      assert KeyIs(GroupKeyOf(byWorkstation), key)(r);
    }
    forall s | s in Map(rs, SerialOf) ensures s in ce.serials {
      var k :| 0 <= k < |rs| && Map(rs, SerialOf)[k] == s;
      assert rs[k] in rs;
    }
  }

  /** Every accepted row whose code is not the number NaN finds an entry for its code in its station. */
  lemma RowCodeFound(rows: seq<Row>, startDate: Num, endDate: Num, byWorkstation: bool, i: int, r: Row)
    requires Parse(rows, startDate, endDate, byWorkstation).Ok?
    requires 0 <= i < |Parse(rows, startDate, endDate, byWorkstation).value.data|
    requires r in Kept(rows, startDate, endDate) && r.errorCode != Number(NaN)
    requires GroupKey(r, byWorkstation) == Parse(rows, startDate, endDate, byWorkstation).value.data[i].key
    ensures FindCode(Parse(rows, startDate, endDate, byWorkstation).value.data[i].codes, r.errorCode).Some?
  {
    var ks := Kept(rows, startDate, endDate);
    var st := Parse(rows, startDate, endDate, byWorkstation).value.data[i];
    ParsedHolds(rows, startDate, endDate, byWorkstation, i);
    assert KeyIs(GroupKeyOf(byWorkstation), st.key)(r);
    assert r in Group(ks, GroupKeyOf(byWorkstation), st.key);
    FindCodeListed(st.codes, r.errorCode);
  }

  /** A listed code that is not the number NaN is found. */
  lemma FindCodeListed(codes: seq<CodeEntry<Serial>>, x: Prim)
    requires x in CodeValues(codes) && x != Number(NaN)
    ensures FindCode(codes, x).Some?
  {
    var k :| 0 <= k < |codes| && CodeValues(codes)[k] == x;
    StrictEqualsPrim(codes[k].code, x);
  }

  /** A station's sub-label is that of its first accepted row. */
  lemma StationLabel(rows: seq<Row>, startDate: Num, endDate: Num, byWorkstation: bool, i: int)
    requires Parse(rows, startDate, endDate, byWorkstation).Ok?
    requires 0 <= i < |Parse(rows, startDate, endDate, byWorkstation).value.data|
    ensures var st := Parse(rows, startDate, endDate, byWorkstation).value.data[i];
      var g := Group(Kept(rows, startDate, endDate), GroupKeyOf(byWorkstation), st.key);
      g != [] && st.subLabel == SubLabel(g[0], byWorkstation)
  {
    ParsedHolds(rows, startDate, endDate, byWorkstation, i);
  }

  /** Sorting codes whose counts are numbers lists them by non-increasing count. */
  lemma SortGroupsByCount(d: Data, i: int)
    requires 0 <= i < |d| && forall j | 0 <= j < |d[i].codes| :: d[i].codes[j].count.Int?
    ensures Ordered(SortGroups(d)[i].codes, MoreCount)
  {
    MoreCountStrictWeak<Serial>();
    SortOrderedOn(d[i].codes, MoreCount, IntCount);
  }

  /**
   * When every accepted count is a number, each station lists its codes by
   * non-increasing count.
   */
  lemma CodesByCount(rows: seq<Row>, startDate: Num, endDate: Num, byWorkstation: bool, i: int)
    requires forall r | r in Kept(rows, startDate, endDate) :: JsValues.ToNumber(r.count).Int?
    requires Parse(rows, startDate, endDate, byWorkstation).Ok?
    requires 0 <= i < |Parse(rows, startDate, endDate, byWorkstation).value.data|
    ensures Ordered(Parse(rows, startDate, endDate, byWorkstation).value.data[i].codes, MoreCount)
  {
    var ks := Kept(rows, startDate, endDate);
    var d := Grouped(ks, byWorkstation).value;
    GroupedHolds(ks, byWorkstation);
    assert Holds(ks, byWorkstation, d[i]);
    var g := Group(ks, GroupKeyOf(byWorkstation), d[i].key);
    assert forall r | r in g :: r in ks;
    SortGroupsByCount(d, i);
  }
}
