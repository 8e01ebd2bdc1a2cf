/**
 * frontend/src/utils/snfn/snfnTransform.js: `parseSnFnData`, the
 * `Map`-based variant. The `for...of` loop skips rows without a string
 * error code or a count, outside the date window, or with a count of 0;
 * renames the codes `ECnan` and `EC_na` to `NAN`; and files each remaining
 * row under its station and code, adding its `Number(code_count)` to the
 * code's count and counting its `SN::PN::MD` key. The final conversion sorts
 * each station's codes by count and splits the serial keys back apart.
 */
module SnfnTransformMap {
  import opened Wrappers
  import opened Strings
  import opened Sorting
  import opened Sequences
  import opened JsNumbers
  import opened JsObjects
  import opened JsValues
  import opened SnfnCommon
  import opened Grouping

  /** `[sn, pn, md, c]`: the parts of a serial key and the number of rows counted under it. */
  datatype SerialCount = SerialCount(sn: Prim, pn: Prim, md: Prim, count: int)

  /** `{ count, serials }`: a code's running sum and its serial-key counts. */
  datatype CodeAcc = CodeAcc(count: Num, serials: Entries<int>)

  /** `{ label: [stationKey, stationSubLabel], codes }`. */
  datatype StationAcc = StationAcc(key: string, subLabel: string, codes: Entries<CodeAcc>)

  type Data = seq<Station<SerialCount>>

  // ---------------------------------------------------------------------------
  // The rows the loop keeps

  /** The row survives the three `continue`s. */
  predicate Accepted(r: Row, startDate: Num, endDate: Num) {
    && r.errorCode.Str?
    && !IsNullish(r.count)
    && InWindow(r.time, startDate, endDate)
    && !JsValues.StrictEquals(r.count, Number(Int(0)))
  }

  function AcceptedIn(startDate: Num, endDate: Num): Row -> bool {
    r => Accepted(r, startDate, endDate)
  }

  /** The rows the loop body runs to the end for, in order. */
  function Kept(rows: seq<Row>, startDate: Num, endDate: Num): seq<Row> {
    Filter(rows, AcceptedIn(startDate, endDate))
  }

  /** `TEC`: the two spellings of a missing code become `NAN`. */
  function Tec(ec: string): string {
    if ec == "ECnan" || ec == "EC_na" then "NAN" else ec
  }

  /** The renamed code of a row (its error code is a string once accepted). */
  function CodeOf(r: Row): string {
    Tec(JsValues.ToText(r.errorCode))
  }

  function CodeValueOf(r: Row): Prim {
    Str(CodeOf(r))
  }

  /** `` `${SN}::${PN}::${MD}` ``. */
  function SerialKey(r: Row): string {
    JsValues.ToText(r.sn) + "::" + JsValues.ToText(r.pn) + "::" + JsValues.ToText(r.model)
  }

  /** `` `${stationKey}${TEC}` ``, the key descriptions are collected under. */
  function DescKeyOf(byWorkstation: bool): Row -> string {
    r => GroupKey(r, byWorkstation) + CodeOf(r)
  }

  // ---------------------------------------------------------------------------
  // The maps the loop fills

  /** `{ count: 0, serials: new Map() }`, set for a code the station has not seen. */
  function NewCode(r: Row): CodeAcc {
    CodeAcc(Int(0), [])
  }

  /** The code entry after one more row: the count and the row's serial key counted. */
  function CodeStep(c: CodeAcc, r: Row): CodeAcc {
    CodeAcc(AddCount(c.count, r), AddTo(c.serials, SerialKey(r), 1))
  }

  /** `{ label: [stationKey, stationSubLabel], codes: new Map() }` for a station's first row. */
  function NewStation(byWorkstation: bool): Row -> StationAcc {
    r => StationAcc(GroupKey(r, byWorkstation), SubLabel(r, byWorkstation), [])
  }

  /** The station entry after one more row: its code map updated. */
  function StationStep(s: StationAcc, r: Row): StationAcc {
    s.(codes := GroupStep(CodeOf, NewCode, CodeStep)(s.codes, r))
  }

  /** `stationMap` after the accepted rows `ks`. */
  function StationMap(ks: seq<Row>, byWorkstation: bool): Entries<StationAcc> {
    GroupBy(ks, GroupKeyOf(byWorkstation), NewStation(byWorkstation), StationStep)
  }

  // ---------------------------------------------------------------------------
  // The final conversion

  /** `(a, b) => b.count - a.count`: a comes first when its count is larger. */
  predicate MoreAcc(a: (string, CodeAcc), b: (string, CodeAcc)) {
    Less(b.1.count, a.1.count)
  }

  /** Element `i` of a destructured array: `undefined` past its end. */
  function PieceAt(p: seq<string>, i: nat): Prim {
    if i < |p| then Str(p[i]) else Undefined
  }

  /** `([k, c]) => { const [sn, pn, md] = k.split('::'); return [sn, pn, md, c]; }`. */
  function SplitSerial(e: (string, int)): SerialCount {
    var p := Split(e.0, "::");
    SerialCount(PieceAt(p, 0), PieceAt(p, 1), PieceAt(p, 2), e.1)
  }

  /** `[code, count, serialArr]`. */
  function ConvertCode(e: (string, CodeAcc)): CodeEntry<SerialCount> {
    CodeEntry(Str(e.0), e.1.count, Map(e.1.serials, SplitSerial))
  }

  /** `[label, ...sortedCodes]`. */
  function ConvertStation(e: (string, StationAcc)): Station<SerialCount> {
    Station(e.1.key, e.1.subLabel, Map(Sort(e.1.codes, MoreAcc), ConvertCode))
  }

  /** What `parseSnFnData(rawRows, startDate, endDate, groupByWorkstation)` returns. */
  function Parse(rows: seq<Row>, startDate: Num, endDate: Num, byWorkstation: bool): Parsed<SerialCount> {
    Assemble(Kept(rows, startDate, endDate), byWorkstation)
  }

  /** The conversion of what the loop collected from the accepted rows `ks`. */
  function Assemble(ks: seq<Row>, byWorkstation: bool): Parsed<SerialCount> {
    Parsed(
      Map(StationMap(ks, byWorkstation), ConvertStation),
      SortedValues(Map(ks, CodeValueOf)),
      SortedDistinct(Map(ks, GroupKeyOf(byWorkstation))),
      SortedValues(TruthyModels(ks)),
      FlattenDescs(Descs(ks, DescKeyOf(byWorkstation))))
  }

  // ---------------------------------------------------------------------------
  // The loop

  /** The `Set`s and the description `Map` after the accepted rows `ks`. */
  predicate Collected(ks: seq<Row>, byWorkstation: bool, codeSet: seq<Prim>, stationSet: seq<string>,
                      modelSet: seq<Prim>, descMap: Entries<seq<Prim>>) {
    && codeSet == Dedup(Map(ks, CodeValueOf))
    && stationSet == Dedup(Map(ks, GroupKeyOf(byWorkstation)))
    && modelSet == Dedup(TruthyModels(ks))
    && descMap == Descs(ks, DescKeyOf(byWorkstation))
  }

  /** Everything the loop has filled after the accepted rows `ks`. */
  predicate Scanned(ks: seq<Row>, byWorkstation: bool, stationMap: Entries<StationAcc>, codeSet: seq<Prim>,
                    stationSet: seq<string>, modelSet: seq<Prim>, descMap: Entries<seq<Prim>>) {
    && stationMap == StationMap(ks, byWorkstation)
    && Collected(ks, byWorkstation, codeSet, stationSet, modelSet, descMap)
  }

  lemma CodeStepAt(c: CodeAcc, r: Row, serialKey: string)
    requires serialKey == SerialKey(r)
    ensures CodeStep(c, r)
      == CodeAcc(Add(c.count, JsValues.ToNumber(r.count)), Put(c.serials, serialKey, CountOf(c.serials, serialKey) + 1))
  {
    AddToIs(c.serials, serialKey, 1);
  }

  /**
   * `if (!codeMap.has(TEC)) codeMap.set(TEC, { count: 0, serials: new Map() })`,
   * then `codeMap.get(TEC)`: the entry, and a map in which writing the
   * entry back is the same as writing it into the original map.
   */
  method CodeEntryFor(codes0: Entries<CodeAcc>, tec: string) returns (codes: Entries<CodeAcc>, codeEntry: CodeAcc)
    ensures codeEntry == EntryOr(codes0, tec, CodeAcc(Int(0), []))
    ensures forall v :: Put(codes, tec, v) == Put(codes0, tec, v)
  {
    codes := codes0;
    if Get(codes, tec).None? {
      codes := Put(codes, tec, CodeAcc(Int(0), []));
    }
    codeEntry := Get(codes, tec).value;
    forall v ensures Put(codes, tec, v) == Put(codes0, tec, v) {
      SetDefault(codes0, tec, CodeAcc(Int(0), []), v);
    }
  }

  /** `codeEntry.count += Number(TN)` and one more sighting of the serial key. */
  method CountRow(codeEntry0: CodeAcc, n: Num, serialKey: string) returns (codeEntry: CodeAcc)
    ensures codeEntry == CodeAcc(Add(codeEntry0.count, n), Put(codeEntry0.serials, serialKey, CountOf(codeEntry0.serials, serialKey) + 1))
  {
    codeEntry := CodeAcc(Add(codeEntry0.count, n), Put(codeEntry0.serials, serialKey, CountOf(codeEntry0.serials, serialKey) + 1));
  }

  /** The code setup and the updates of the loop body, on the station's code map. */
  method UpdateCode(codes0: Entries<CodeAcc>, d: Row) returns (codes: Entries<CodeAcc>)
    ensures codes == GroupStep(CodeOf, NewCode, CodeStep)(codes0, d)
  {
    var tec := CodeOf(d);
    var codeEntry;
    codes, codeEntry := CodeEntryFor(codes0, tec);
    ghost var before := codeEntry;
    var serialKey := SerialKey(d);
    codeEntry := CountRow(codeEntry, JsValues.ToNumber(d.count), serialKey);
    CodeStepAt(before, d, serialKey);
    GroupStepIs(CodeOf, NewCode, CodeStep, codes0, d);
    // The entry is an object held by the map: writing it back stands for the update in place.
    codes := Put(codes, tec, codeEntry);
  }

  /** The station setup of the loop body for one accepted row, then its code update. */
  method GroupRow(stationMap0: Entries<StationAcc>, d: Row, groupByWorkstation: bool)
    returns (stationMap: Entries<StationAcc>)
    ensures stationMap == GroupStep(GroupKeyOf(groupByWorkstation), NewStation(groupByWorkstation), StationStep)(stationMap0, d)
  {
    var stationKey := GroupKey(d, groupByWorkstation);
    var stationSubLabel := SubLabel(d, groupByWorkstation);
    stationMap := stationMap0;
    if Get(stationMap, stationKey).None? {
      stationMap := Put(stationMap, stationKey, StationAcc(stationKey, stationSubLabel, []));
    }
    var stationEntry := Get(stationMap, stationKey).value;
    ghost var before := stationEntry;
    assert GroupKeyOf(groupByWorkstation)(d) == stationKey;
    assert NewStation(groupByWorkstation)(d) == StationAcc(stationKey, stationSubLabel, []);
    var codes := UpdateCode(stationEntry.codes, d);
    stationEntry := stationEntry.(codes := codes);
    assert stationEntry == StationStep(before, d);
    SetDefault(stationMap0, stationKey, NewStation(groupByWorkstation)(d), stationEntry);
    GroupStepIs(GroupKeyOf(groupByWorkstation), NewStation(groupByWorkstation), StationStep, stationMap0, d);
    stationMap := Put(stationMap, stationKey, stationEntry);
  }

  /** The `for...of` loop: the station map and the metadata containers it fills. */
  method ScanRows(rawRows: seq<Row>, startDate: Num, endDate: Num, groupByWorkstation: bool)
    returns (stationMap: Entries<StationAcc>, codeSet: seq<Prim>, stationSet: seq<string>, modelSet: seq<Prim>,
             descMap: Entries<seq<Prim>>)
    ensures Scanned(Kept(rawRows, startDate, endDate), groupByWorkstation, stationMap, codeSet, stationSet, modelSet, descMap)
  {
    codeSet, stationSet, modelSet, descMap := [], [], [], [];
    stationMap := [];
    ghost var ks: seq<Row> := [];
    var i := 0;
    while i < |rawRows|
      invariant 0 <= i <= |rawRows|
      invariant ks == Kept(rawRows[..i], startDate, endDate)
      invariant Scanned(ks, groupByWorkstation, stationMap, codeSet, stationSet, modelSet, descMap)
    {
      var d := rawRows[i];
      KeptStep(rawRows, startDate, endDate, i);
      i := i + 1;
      if !d.errorCode.Str? || IsNullish(d.count) {
        continue;
      }
      if !InWindow(d.time, startDate, endDate) {
        continue;
      }
      if JsValues.StrictEquals(d.count, Number(Int(0))) {
        continue;
      }
      stationMap, codeSet, stationSet, modelSet, descMap :=
        TakeRow(ks, d, groupByWorkstation, stationMap, codeSet, stationSet, modelSet, descMap);
      ks := ks + [d];
    }
    assert rawRows[..i] == rawRows;
  }

  /** The `Set` and description updates of the loop body for one accepted row. */
  method CollectRow(ghost ks: seq<Row>, d: Row, groupByWorkstation: bool, codeSet0: seq<Prim>, stationSet0: seq<string>,
                    modelSet0: seq<Prim>, descMap0: Entries<seq<Prim>>)
    returns (codeSet: seq<Prim>, stationSet: seq<string>, modelSet: seq<Prim>, descMap: Entries<seq<Prim>>)
    requires d.errorCode.Str?
    requires Collected(ks, groupByWorkstation, codeSet0, stationSet0, modelSet0, descMap0)
    ensures Collected(ks + [d], groupByWorkstation, codeSet, stationSet, modelSet, descMap)
  {
    var tec := Tec(d.errorCode.s);
    var stationKey := GroupKey(d, groupByWorkstation);
    MetaStep(ks, d, groupByWorkstation, codeSet0, stationSet0, modelSet0, descMap0);
    codeSet := SetAdd(codeSet0, Str(tec));
    stationSet := if stationKey in stationSet0 then stationSet0 else stationSet0 + [stationKey];
    modelSet := modelSet0;
    if JsValues.Truthy(d.model) {
      modelSet := SetAdd(modelSet, d.model);
    }
    descMap := AddDesc(descMap0, stationKey + tec, d.desc);
  }

  /** The body of the loop after the `continue`s, for one accepted row. */
  method TakeRow(ghost ks: seq<Row>, d: Row, groupByWorkstation: bool, stationMap0: Entries<StationAcc>,
                 codeSet0: seq<Prim>, stationSet0: seq<string>, modelSet0: seq<Prim>, descMap0: Entries<seq<Prim>>)
    returns (stationMap: Entries<StationAcc>, codeSet: seq<Prim>, stationSet: seq<string>, modelSet: seq<Prim>,
             descMap: Entries<seq<Prim>>)
    requires d.errorCode.Str?
    requires Scanned(ks, groupByWorkstation, stationMap0, codeSet0, stationSet0, modelSet0, descMap0)
    ensures Scanned(ks + [d], groupByWorkstation, stationMap, codeSet, stationSet, modelSet, descMap)
  {
    codeSet, stationSet, modelSet, descMap := CollectRow(ks, d, groupByWorkstation, codeSet0, stationSet0, modelSet0, descMap0);
    StationMapSnoc(ks, d, groupByWorkstation);
    stationMap := GroupRow(stationMap0, d, groupByWorkstation);
  }

  lemma StationMapSnoc(ks: seq<Row>, d: Row, byWorkstation: bool)
    ensures StationMap(ks + [d], byWorkstation)
      == GroupStep(GroupKeyOf(byWorkstation), NewStation(byWorkstation), StationStep)(StationMap(ks, byWorkstation), d)
  {
    FoldSnoc(ks, d, [], GroupStep(GroupKeyOf(byWorkstation), NewStation(byWorkstation), StationStep));
  }

  lemma KeptStep(rows: seq<Row>, startDate: Num, endDate: Num, i: int)
    requires 0 <= i < |rows|
    ensures Kept(rows[..i + 1], startDate, endDate) ==
      Kept(rows[..i], startDate, endDate) + (if Accepted(rows[i], startDate, endDate) then [rows[i]] else [])
  {
    assert rows[..i + 1] == rows[..i] + [rows[i]];
    FilterSnoc(rows[..i], rows[i], AcceptedIn(startDate, endDate));
  }

  /** `parseSnFnData(rawRows, startDate, endDate, groupByWorkstation)`: the loop, then the conversion. */
  method ParseSnFnData(rawRows: seq<Row>, startDate: Num, endDate: Num, groupByWorkstation: bool)
    returns (r: Parsed<SerialCount>)
    ensures r == Parse(rawRows, startDate, endDate, groupByWorkstation)
  {
    var stationMap, codeSet, stationSet, modelSet, descMap := ScanRows(rawRows, startDate, endDate, groupByWorkstation);
    var data := Map(stationMap, ConvertStation);
    r := Parsed(data, Sort(codeSet, DefaultLess), Sort(stationSet, LexLess), Sort(modelSet, DefaultLess), FlattenDescs(descMap));
  }

  /** The metadata containers after one more accepted row. */
  lemma MetaStep(ks: seq<Row>, row: Row, byWorkstation: bool, codeSet: seq<Prim>, stationSet: seq<string>,
                 modelSet: seq<Prim>, descMap: Entries<seq<Prim>>)
    requires Collected(ks, byWorkstation, codeSet, stationSet, modelSet, descMap)
    ensures Collected(ks + [row], byWorkstation, SetAdd(codeSet, CodeValueOf(row)),
      var k := GroupKey(row, byWorkstation); if k in stationSet then stationSet else stationSet + [k],
      if JsValues.Truthy(row.model) then SetAdd(modelSet, row.model) else modelSet,
      AddDesc(descMap, DescKeyOf(byWorkstation)(row), row.desc))
  {
    ValueSetStep(ks, row, CodeValueOf);
    StationSetStep(ks, row, byWorkstation);
    ModelSetStep(ks, row);
    DescsSnoc(ks, row, DescKeyOf(byWorkstation));
  }

  // ---------------------------------------------------------------------------
  // What the entries hold

  /** The accepted rows of station `k` with code `t`, in order. */
  function Filed(ks: seq<Row>, byWorkstation: bool, k: string, t: string): seq<Row> {
    Group(Group(ks, GroupKeyOf(byWorkstation), k), CodeOf, t)
  }

  /**
   * Entry `i` of the station map is filed under a key some accepted row has;
   * its label holds that key and the sub-label of the station's first row,
   * and its code map groups the station's rows by code.
   */
  lemma StationAt(ks: seq<Row>, byWorkstation: bool, i: int)
    requires 0 <= i < |StationMap(ks, byWorkstation)|
    ensures var m := StationMap(ks, byWorkstation);
      var g := Group(ks, GroupKeyOf(byWorkstation), m[i].0);
      && g != []
      && m[i].1 == StationAcc(m[i].0, SubLabel(g[0], byWorkstation), GroupBy(g, CodeOf, NewCode, CodeStep))
  {
    var key := GroupKeyOf(byWorkstation);
    var m := StationMap(ks, byWorkstation);
    var k := m[i].0;
    GroupByKeys(ks, key, NewStation(byWorkstation), StationStep);
    GetAt(m, i);
    assert Keys(m)[i] == k;
    GroupByHas(ks, key, NewStation(byWorkstation), StationStep, k);
    var g := Group(ks, key, k);
    GroupByGet(ks, key, NewStation(byWorkstation), StationStep, k);
    var s0 := NewStation(byWorkstation)(g[0]);
    FoldKeeps(g, s0, StationStep, (s: StationAcc) => s.key);
    FoldKeeps(g, s0, StationStep, (s: StationAcc) => s.subLabel);
    FoldProject(g, s0, StationStep, (s: StationAcc) => s.codes, GroupStep(CodeOf, NewCode, CodeStep));
    assert KeyIs(key, k)(g[0]);
  }

  /**
   * Entry `j` of a station's code map is filed under a code some of its rows
   * have; its count is their sum and its serial map counts their serial keys.
   */
  lemma CodeAt(g: seq<Row>, j: int)
    requires 0 <= j < |GroupBy(g, CodeOf, NewCode, CodeStep)|
    ensures var c := GroupBy(g, CodeOf, NewCode, CodeStep);
      var g2 := Group(g, CodeOf, c[j].0);
      && g2 != []
      && c[j].1 == CodeAcc(SumCounts(g2), CountBy(g2, SerialKey))
  {
    var c := GroupBy(g, CodeOf, NewCode, CodeStep);
    var t := c[j].0;
    GroupByKeys(g, CodeOf, NewCode, CodeStep);
    GetAt(c, j);
    assert Keys(c)[j] == t;
    GroupByHas(g, CodeOf, NewCode, CodeStep, t);
    var g2 := Group(g, CodeOf, t);
    GroupByGet(g, CodeOf, NewCode, CodeStep, t);
    var c0 := NewCode(g2[0]);
    FoldProject(g2, c0, CodeStep, (a: CodeAcc) => a.count, AddCount);
    FoldProject(g2, c0, CodeStep, (a: CodeAcc) => a.serials, CountStep(SerialKey));
  }

  /** Stations come out in the order of their first accepted row. */
  lemma StationsInOrder(rows: seq<Row>, startDate: Num, endDate: Num, byWorkstation: bool)
    ensures StationKeys(Parse(rows, startDate, endDate, byWorkstation).data)
      == Dedup(Map(Kept(rows, startDate, endDate), GroupKeyOf(byWorkstation)))
  {
    GroupByKeys(Kept(rows, startDate, endDate), GroupKeyOf(byWorkstation), NewStation(byWorkstation), StationStep);
    ConvertedKeys(Kept(rows, startDate, endDate), byWorkstation);
  }

  /** Converting the stations keeps their keys, in order. */
  lemma ConvertedKeys(ks: seq<Row>, byWorkstation: bool)
    ensures StationKeys(Map(StationMap(ks, byWorkstation), ConvertStation)) == Keys(StationMap(ks, byWorkstation))
  {
    forall i | 0 <= i < |StationMap(ks, byWorkstation)|
      ensures StationKeys(Map(StationMap(ks, byWorkstation), ConvertStation))[i] == Keys(StationMap(ks, byWorkstation))[i]
    {
      StationAt(ks, byWorkstation, i);
    }
  }

  /** A station's sub-label is that of its first accepted row. */
  lemma StationLabel(rows: seq<Row>, startDate: Num, endDate: Num, byWorkstation: bool, i: int)
    requires 0 <= i < |Parse(rows, startDate, endDate, byWorkstation).data|
    ensures var st := Parse(rows, startDate, endDate, byWorkstation).data[i];
      var g := Group(Kept(rows, startDate, endDate), GroupKeyOf(byWorkstation), st.key);
      g != [] && st.subLabel == SubLabel(g[0], byWorkstation)
  {
    StationAt(Kept(rows, startDate, endDate), byWorkstation, i);
  }

  /**
   * Each code of a station is the renamed code `t` of some of its accepted
   * rows; its count is the sum of their `Number(code_count)` and its serial
   * list splits the counts of their serial keys.
   */
  lemma CodeEntries(rows: seq<Row>, startDate: Num, endDate: Num, byWorkstation: bool, i: int, j: int)
    requires 0 <= i < |Parse(rows, startDate, endDate, byWorkstation).data|
    requires 0 <= j < |Parse(rows, startDate, endDate, byWorkstation).data[i].codes|
    ensures var st := Parse(rows, startDate, endDate, byWorkstation).data[i];
      var ce := st.codes[j];
      && ce.code.Str?
      && var rs := Filed(Kept(rows, startDate, endDate), byWorkstation, st.key, ce.code.s);
      && rs != []
      && (forall r | r in rs :: GroupKey(r, byWorkstation) == st.key && CodeOf(r) == ce.code.s)
      && ce.count == SumCounts(rs)
      && ce.serials == Map(CountBy(rs, SerialKey), SplitSerial)
  {
    var ks := Kept(rows, startDate, endDate);
    var m := StationMap(ks, byWorkstation);
    StationAt(ks, byWorkstation, i);
    assert Parse(rows, startDate, endDate, byWorkstation).data[i] == ConvertStation(m[i]);
    SortedCodeAt(ks, byWorkstation, m[i].0, j);
  }

  /** Entry `j` of a station's sorted codes is the entry of some code the station's rows carry. */
  lemma SortedCodeAt(ks: seq<Row>, byWorkstation: bool, key: string, j: int)
    requires 0 <= j < |GroupBy(Group(ks, GroupKeyOf(byWorkstation), key), CodeOf, NewCode, CodeStep)|
    ensures var sorted := Sort(GroupBy(Group(ks, GroupKeyOf(byWorkstation), key), CodeOf, NewCode, CodeStep), MoreAcc);
      var ce := ConvertCode(sorted[j]);
      var rs := Filed(ks, byWorkstation, key, ce.code.s);
      && rs != []
      && (forall r | r in rs :: GroupKey(r, byWorkstation) == key && CodeOf(r) == ce.code.s)
      && ce.count == SumCounts(rs)
      && ce.serials == Map(CountBy(rs, SerialKey), SplitSerial)
  {
    var g := Group(ks, GroupKeyOf(byWorkstation), key);
    var c := GroupBy(g, CodeOf, NewCode, CodeStep);
    var sorted := Sort(c, MoreAcc);
    SortSameElements(c, MoreAcc, sorted[j]);
    var j' :| 0 <= j' < |c| && c[j'] == sorted[j];
    CodeAt(g, j');
    FiledKeys(ks, byWorkstation, key, c[j'].0);
  }

  /** Every row filed under a station and a code carries both. */
  lemma FiledKeys(ks: seq<Row>, byWorkstation: bool, key: string, t: string)
    ensures forall r | r in Filed(ks, byWorkstation, key, t) :: GroupKey(r, byWorkstation) == key && CodeOf(r) == t
  {
    var g := Group(ks, GroupKeyOf(byWorkstation), key);
    forall r | r in Filed(ks, byWorkstation, key, t) ensures GroupKey(r, byWorkstation) == key && CodeOf(r) == t {
      assert KeyIs(CodeOf, t)(r) && r in g;
      assert KeyIs(GroupKeyOf(byWorkstation), key)(r);
    }
  }


  /** The fourth fields of a serial list added up. */
  function SerialTotal(ss: seq<SerialCount>): int
    decreases |ss|
  {
    if ss == [] then 0 else ss[0].count + SerialTotal(ss[1..])
  }

  lemma {:induction false} SerialTotalOf(o: Entries<int>)
    ensures SerialTotal(Map(o, SplitSerial)) == Total(o)
    decreases |o|
  {
    if o != [] {
      assert Map(o, SplitSerial)[1..] == Map(o[1..], SplitSerial);
      SerialTotalOf(o[1..]);
    }
  }

  /** Every accepted row of a station and code is counted under exactly one serial entry. */
  lemma SerialCountsAddUp(rows: seq<Row>, startDate: Num, endDate: Num, byWorkstation: bool, i: int, j: int)
    requires 0 <= i < |Parse(rows, startDate, endDate, byWorkstation).data|
    requires 0 <= j < |Parse(rows, startDate, endDate, byWorkstation).data[i].codes|
    ensures var st := Parse(rows, startDate, endDate, byWorkstation).data[i];
      var ce := st.codes[j];
      ce.code.Str? &&
      SerialTotal(ce.serials) == |Filed(Kept(rows, startDate, endDate), byWorkstation, st.key, ce.code.s)|
  {
    CodeEntries(rows, startDate, endDate, byWorkstation, i, j);
    var st := Parse(rows, startDate, endDate, byWorkstation).data[i];
    var rs := Filed(Kept(rows, startDate, endDate), byWorkstation, st.key, st.codes[j].code.s);
    SerialTotalOf(CountBy(rs, SerialKey));
    CountByTotal(rs, SerialKey);
  }

  /** Each serial entry is the split key of some row, with the number of rows that have that key. */
  lemma SerialEntry(rs: seq<Row>, n: int)
    requires 0 <= n < |CountBy(rs, SerialKey)|
    ensures exists r | r in rs ::
      (Map(CountBy(rs, SerialKey), SplitSerial)[n] == SplitSerial((SerialKey(r), Count(rs, KeyIs(SerialKey, SerialKey(r))))))
  {
    var o := CountBy(rs, SerialKey);
    var sk := o[n].0;
    CountByKeys(rs, SerialKey);
    assert Keys(o)[n] == sk;
    DedupSameElements(Map(rs, SerialKey), sk);
    var i :| 0 <= i < |rs| && Map(rs, SerialKey)[i] == sk;
    GetAt(o, n);
    CountByGet(rs, SerialKey, sk);
    assert rs[i] in rs;
  }

  // ---------------------------------------------------------------------------
  // Order of the codes

  predicate AccCountIsInt(e: (string, CodeAcc)) {
    e.1.count.Int?
  }

  lemma MoreAccStrictWeak()
    ensures StrictWeakOrderOn(MoreAcc, AccCountIsInt)
  {
  }

  /** A code's count is a number when every row filed under it has a numeric count. */
  lemma CodeCountInt(g: seq<Row>, j: int)
    requires forall r | r in g :: JsValues.ToNumber(r.count).Int?
    requires 0 <= j < |GroupBy(g, CodeOf, NewCode, CodeStep)|
    ensures AccCountIsInt(GroupBy(g, CodeOf, NewCode, CodeStep)[j])
  {
    var c := GroupBy(g, CodeOf, NewCode, CodeStep);
    CodeAt(g, j);
    var g2 := Group(g, CodeOf, c[j].0);
    assert forall r | r in g2 :: r in g;
    SumCountsInt(g2);
  }

  /** Sorting code entries whose counts are numbers lists them by non-increasing count. */
  lemma SortedCodesOrdered(c: Entries<CodeAcc>)
    requires forall j | 0 <= j < |c| :: AccCountIsInt(c[j])
    ensures Ordered(Map(Sort(c, MoreAcc), ConvertCode), MoreCount)
  {
    MoreAccStrictWeak();
    SortOrderedOn(c, MoreAcc, AccCountIsInt);
    var sorted := Sort(c, MoreAcc);
    var codes := Map(sorted, ConvertCode);
    forall a, b | 0 <= a < b < |codes| ensures !MoreCount(codes[b], codes[a]) {
      assert !MoreAcc(sorted[b], sorted[a]);
    }
  }

  /**
   * When every accepted count is a number, each station lists its codes by
   * non-increasing count.
   */
  lemma CodesByCount(rows: seq<Row>, startDate: Num, endDate: Num, byWorkstation: bool, i: int)
    requires forall r | r in Kept(rows, startDate, endDate) :: JsValues.ToNumber(r.count).Int?
    requires 0 <= i < |Parse(rows, startDate, endDate, byWorkstation).data|
    ensures Ordered(Parse(rows, startDate, endDate, byWorkstation).data[i].codes, MoreCount)
  {
    var ks := Kept(rows, startDate, endDate);
    var m := StationMap(ks, byWorkstation);
    StationAt(ks, byWorkstation, i);
    var g := Group(ks, GroupKeyOf(byWorkstation), m[i].0);
    assert forall r | r in g :: r in ks;
    var c := GroupBy(g, CodeOf, NewCode, CodeStep);
    forall j | 0 <= j < |c| ensures AccCountIsInt(c[j]) {
      CodeCountInt(g, j);
    }
    SortedCodesOrdered(c);
    assert Parse(rows, startDate, endDate, byWorkstation).data[i] == ConvertStation(m[i]);
  }

  // ---------------------------------------------------------------------------
  // Codes renamed

  lemma TecRenames(ec: string)
    ensures Tec(ec) != "ECnan" && Tec(ec) != "EC_na"
    ensures ec != "ECnan" && ec != "EC_na" ==> Tec(ec) == ec
  {
  }

  /** `ECnan` and `EC_na` appear neither in the station data nor in `allErrorCodes`. */
  lemma NanRenamed(rows: seq<Row>, startDate: Num, endDate: Num, byWorkstation: bool)
    ensures var p := Parse(rows, startDate, endDate, byWorkstation);
      && (forall i, j | 0 <= i < |p.data| && 0 <= j < |p.data[i].codes| ::
            p.data[i].codes[j].code != Str("ECnan") && p.data[i].codes[j].code != Str("EC_na"))
      && Str("ECnan") !in p.allErrorCodes && Str("EC_na") !in p.allErrorCodes
  {
    var p := Parse(rows, startDate, endDate, byWorkstation);
    forall i, j | 0 <= i < |p.data| && 0 <= j < |p.data[i].codes|
      ensures p.data[i].codes[j].code != Str("ECnan") && p.data[i].codes[j].code != Str("EC_na")
    {
      EntryNotNan(rows, startDate, endDate, byWorkstation, i, j);
    }
    CodeValuesNotNan(Kept(rows, startDate, endDate));
  }

  /** No code entry of the station data is named `ECnan` or `EC_na`. */
  lemma EntryNotNan(rows: seq<Row>, startDate: Num, endDate: Num, byWorkstation: bool, i: int, j: int)
    requires 0 <= i < |Parse(rows, startDate, endDate, byWorkstation).data|
    requires 0 <= j < |Parse(rows, startDate, endDate, byWorkstation).data[i].codes|
    ensures var code := Parse(rows, startDate, endDate, byWorkstation).data[i].codes[j].code;
      code != Str("ECnan") && code != Str("EC_na")
  {
    var p := Parse(rows, startDate, endDate, byWorkstation);
    CodeEntries(rows, startDate, endDate, byWorkstation, i, j);
    var rs := Filed(Kept(rows, startDate, endDate), byWorkstation, p.data[i].key, p.data[i].codes[j].code.s);
    assert rs[0] in rs;
    TecRenames(JsValues.ToText(rs[0].errorCode));
  }

  /** Neither name is among the sorted codes of the accepted rows. */
  lemma CodeValuesNotNan(ks: seq<Row>)
    ensures Str("ECnan") !in SortedValues(Map(ks, CodeValueOf)) && Str("EC_na") !in SortedValues(Map(ks, CodeValueOf))
  {
    SortedValuesMeaning(Map(ks, CodeValueOf));
    forall x | x in Map(ks, CodeValueOf) ensures x != Str("ECnan") && x != Str("EC_na") {
      var i :| 0 <= i < |ks| && Map(ks, CodeValueOf)[i] == x;
      TecRenames(JsValues.ToText(ks[i].errorCode));
    }
  }


  // ---------------------------------------------------------------------------
  // Skipped rows

  /** A row the loop skips changes nothing in the result. */
  lemma SkippedRowChangesNothing(rows: seq<Row>, r: Row, startDate: Num, endDate: Num, byWorkstation: bool)
    requires !Accepted(r, startDate, endDate)
    ensures Parse(rows + [r], startDate, endDate, byWorkstation) == Parse(rows, startDate, endDate, byWorkstation)
  {
    FilterSnoc(rows, r, AcceptedIn(startDate, endDate));
    assert !AcceptedIn(startDate, endDate)(r);
    assert Kept(rows + [r], startDate, endDate) == Kept(rows, startDate, endDate);
  }

  /** An accepted row appears in the result: its station, its code and its serial key. */
  lemma AcceptedRowShows(rows: seq<Row>, startDate: Num, endDate: Num, byWorkstation: bool, r: Row)
    requires r in rows && Accepted(r, startDate, endDate)
    ensures var p := Parse(rows, startDate, endDate, byWorkstation);
      && GroupKey(r, byWorkstation) in p.allStations
      && Str(CodeOf(r)) in p.allErrorCodes
      && GroupKey(r, byWorkstation) in StationKeys(p.data)
  {
    var ks := Kept(rows, startDate, endDate);
    var i :| 0 <= i < |rows| && rows[i] == r;
    assert r in ks;
    var k :| 0 <= k < |ks| && ks[k] == r;
    assert Map(ks, GroupKeyOf(byWorkstation))[k] == GroupKey(r, byWorkstation);
    assert Map(ks, CodeValueOf)[k] == Str(CodeOf(r));
    SortedDistinctMeaning(Map(ks, GroupKeyOf(byWorkstation)));
    SortedValuesMeaning(Map(ks, CodeValueOf));
    StationsInOrder(rows, startDate, endDate, byWorkstation);
    DedupSameElements(Map(ks, GroupKeyOf(byWorkstation)), GroupKey(r, byWorkstation));
  }

  // ---------------------------------------------------------------------------
  // The serial key

  lemma NoColon(s: string)
    requires ':' !in s
    ensures !Contains(s, "::") && !EndsWith(s, ":")
  {
    forall i | 0 <= i <= |s| - 2 ensures !OccursAt(s, "::", i) {
      assert s[i..i + 2][0] == s[i];
    }
    if |s| > 0 {
      assert s[|s| - 1..][0] == s[|s| - 1];
    }
  }

  /** A field without `::` that does not end in `:` ends the first piece of the key. */
  lemma NoEarlySeparator(a: string, rest: string)
    requires !Contains(a, "::") && !EndsWith(a, ":")
    ensures NoOccurrenceBefore(a + "::" + rest, "::", |a|)
  {
    var x := a + "::" + rest;
    forall i | 0 <= i < |a| ensures !OccursAt(x, "::", i) {
      if i + 2 <= |a| {
        assert x[i..i + 2] == a[i..i + 2];
        assert !OccursAt(a, "::", i);
      } else {
        assert a[|a| - 1..] == [a[|a| - 1]];
        assert x[i] == a[|a| - 1];
      }
    }
  }

  /**
   * Splitting the serial key on `::` gives the three fields back when none
   * holds `::` and neither of the first two ends in `:`.
   */
  lemma SerialKeyRoundTrip(r: Row, n: int)
    requires !Contains(JsValues.ToText(r.sn), "::") && !EndsWith(JsValues.ToText(r.sn), ":")
    requires !Contains(JsValues.ToText(r.pn), "::") && !EndsWith(JsValues.ToText(r.pn), ":")
    requires !Contains(JsValues.ToText(r.model), "::")
    ensures Split(SerialKey(r), "::") == [JsValues.ToText(r.sn), JsValues.ToText(r.pn), JsValues.ToText(r.model)]
    ensures SplitSerial((SerialKey(r), n))
      == SerialCount(Str(JsValues.ToText(r.sn)), Str(JsValues.ToText(r.pn)), Str(JsValues.ToText(r.model)), n)
  {
    assert SerialKey(r) == JsValues.ToText(r.sn) + "::" + (JsValues.ToText(r.pn) + "::" + JsValues.ToText(r.model));
    SplitThree(JsValues.ToText(r.sn), JsValues.ToText(r.pn), JsValues.ToText(r.model));
  }

  /** Three fields joined with `::` split back into the three. */
  lemma SplitThree(a: string, b: string, c: string)
    requires !Contains(a, "::") && !EndsWith(a, ":")
    requires !Contains(b, "::") && !EndsWith(b, ":")
    requires !Contains(c, "::")
    ensures Split(a + "::" + (b + "::" + c), "::") == [a, b, c]
  {
    NoEarlySeparator(a, b + "::" + c);
    SplitAtFirstOccurrence(a, "::", b + "::" + c);
    NoEarlySeparator(b, c);
    SplitAtFirstOccurrence(b, "::", c);
    SplitWithoutSeparator(c, "::");
  }

  /** A row without a model comes back with the model `"undefined"`, a string. */
  lemma MissingModelReadsUndefined(r: Row, n: int)
    requires !Contains(JsValues.ToText(r.sn), "::") && !EndsWith(JsValues.ToText(r.sn), ":")
    requires !Contains(JsValues.ToText(r.pn), "::") && !EndsWith(JsValues.ToText(r.pn), ":")
    requires r.model == Undefined
    ensures SplitSerial((SerialKey(r), n)).md == Str("undefined")
  {
    NoColon("undefined");
    SerialKeyRoundTrip(r, n);
  }

  /** A serial number holding `::` or ending in `:` does not come back as it was. */
  lemma SerialKeyLossy(r: Row, n: int)
    requires Contains(JsValues.ToText(r.sn), "::") || EndsWith(JsValues.ToText(r.sn), ":")
    ensures SplitSerial((SerialKey(r), n)).sn != Str(JsValues.ToText(r.sn))
  {
    var a := JsValues.ToText(r.sn);
    var rest := JsValues.ToText(r.pn) + "::" + JsValues.ToText(r.model);
    assert SerialKey(r) == a + "::" + rest;
    FirstPieceCut(a, rest);
  }

  /** A first field holding `::` or ending in `:` is cut short by the split. */
  lemma FirstPieceCut(a: string, rest: string)
    requires Contains(a, "::") || EndsWith(a, ":")
    ensures Split(a + "::" + rest, "::")[0] != a
  {
    var key := a + "::" + rest;
    if Contains(a, "::") {
      var i :| 0 <= i <= |a| - 2 && OccursAt(a, "::", i);
      assert key[i..i + 2] == a[i..i + 2];
      SplitFirstEndsBy(key, "::", i);
    } else {
      assert a[|a| - 1..] == [a[|a| - 1]];
      assert key[|a| - 1..|a| + 1] == [a[|a| - 1], ':'];
      SplitFirstEndsBy(key, "::", |a| - 1);
    }
  }

  // ---------------------------------------------------------------------------
  // The metadata lists

  /** `allErrorCodes` holds each renamed code of an accepted row once, in the default sort order. */
  lemma ErrorCodesMeaning(rows: seq<Row>, startDate: Num, endDate: Num, byWorkstation: bool)
    ensures var p := Parse(rows, startDate, endDate, byWorkstation);
      && (forall x :: x in p.allErrorCodes <==> exists r | r in Kept(rows, startDate, endDate) :: x == CodeValueOf(r))
      && NoDuplicates(p.allErrorCodes) && Ordered(p.allErrorCodes, DefaultLess)
  {
    var ks := Kept(rows, startDate, endDate);
    assert Parse(rows, startDate, endDate, byWorkstation).allErrorCodes == SortedValues(Map(ks, CodeValueOf));
    SortedValuesMeaning(Map(ks, CodeValueOf));
    MapMembers(ks, CodeValueOf);
  }

  /** `allStations` holds each station key of an accepted row once, in increasing order. */
  lemma StationsMeaning(rows: seq<Row>, startDate: Num, endDate: Num, byWorkstation: bool)
    ensures var p := Parse(rows, startDate, endDate, byWorkstation);
      && (forall k :: k in p.allStations <==> exists r | r in Kept(rows, startDate, endDate) :: k == GroupKey(r, byWorkstation))
      && (forall a, b | 0 <= a < b < |p.allStations| :: LexLess(p.allStations[a], p.allStations[b]))
  {
    var ks := Kept(rows, startDate, endDate);
    assert Parse(rows, startDate, endDate, byWorkstation).allStations == SortedDistinct(Map(ks, GroupKeyOf(byWorkstation)));
    SortedDistinctMeaning(Map(ks, GroupKeyOf(byWorkstation)));
    MapMembers(ks, GroupKeyOf(byWorkstation));
  }

  /** `allModels` holds each truthy model of an accepted row once, in the default sort order. */
  lemma ModelsMeaning(rows: seq<Row>, startDate: Num, endDate: Num, byWorkstation: bool)
    ensures var p := Parse(rows, startDate, endDate, byWorkstation);
      var ks := Kept(rows, startDate, endDate);
      && (forall x :: x in p.allModels <==> exists i | 0 <= i < |ks| :: ks[i].model == x && JsValues.Truthy(x))
      && NoDuplicates(p.allModels) && Ordered(p.allModels, DefaultLess)
  {
    var ks := Kept(rows, startDate, endDate);
    assert Parse(rows, startDate, endDate, byWorkstation).allModels == SortedValues(TruthyModels(ks));
    SortedModels(ks);
  }

  lemma SortedModels(ks: seq<Row>)
    ensures var models := SortedValues(TruthyModels(ks));
      && (forall x :: x in models <==> exists i | 0 <= i < |ks| :: ks[i].model == x && JsValues.Truthy(x))
      && NoDuplicates(models) && Ordered(models, DefaultLess)
  {
    SortedValuesMeaning(TruthyModels(ks));
    forall x: Prim ensures x in SortedValues(TruthyModels(ks)) <==> exists i | 0 <= i < |ks| :: ks[i].model == x && JsValues.Truthy(x) {
      TruthyModelsMembers(ks, x);
    }
  }


  /**
   * `allCodeDesc` has one entry per distinct `stationKey + code`, in order of
   * first appearance, holding the distinct descriptions filed under it joined
   * by newlines.
   */
  lemma DescriptionsMeaning(rows: seq<Row>, startDate: Num, endDate: Num, byWorkstation: bool)
    ensures var p := Parse(rows, startDate, endDate, byWorkstation);
      var ks := Kept(rows, startDate, endDate);
      var keys := Dedup(Map(ks, DescKeyOf(byWorkstation)));
      && |p.allCodeDesc| == |keys|
      && forall i | 0 <= i < |keys| ::
           p.allCodeDesc[i] == (keys[i], Join(JoinTexts(Dedup(DescsUnder(ks, DescKeyOf(byWorkstation), keys[i]))), "\n"))
  {
    FlattenedDescs(Kept(rows, startDate, endDate), DescKeyOf(byWorkstation));
  }
}
