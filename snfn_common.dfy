/**
 * What the two `parseSnFnData` variants (frontend/src/utils/snfn/transform.js
 * and frontend/src/utils/snfn/snfnTransform.js) and `processStationData`
 * share: the failure rows, the time window, the nested station data they
 * produce, and the metadata lists built with `Set`s and the default sort.
 */
module SnfnCommon {
  import opened Wrappers
  import opened Strings
  import opened Sorting
  import opened Sequences
  import opened JsNumbers
  import opened JsObjects
  import opened JsValues
  import opened Grouping

  /**
   * One failure row. `time` is the time value of
   * `new Date(normalized_end_time)` (NaN when the text does not parse); the
   * other columns are the row's primitives. The grouping columns
   * `fixture_no` and `workstation_name` are texts.
   */
  datatype Row = Row(
    fixture: string,
    sn: Prim,
    errorCode: Prim,
    count: Prim,
    pn: Prim,
    workstation: string,
    time: Num,
    model: Prim,
    desc: Prim)

  /** `!(isNaN(recDate) || recDate < startDate || recDate > endDate)`. */
  predicate InWindow(t: Num, startDate: Num, endDate: Num) {
    t.Int? && !Less(t, startDate) && !Less(endDate, t)
  }

  /** `groupByWorkstation ? BT : FN`. */
  function GroupKey(r: Row, byWorkstation: bool): string {
    if byWorkstation then r.workstation else r.fixture
  }

  /** The group key of a row, as a function value. */
  function GroupKeyOf(byWorkstation: bool): Row -> string {
    r => GroupKey(r, byWorkstation)
  }

  /** `groupByWorkstation ? FN : BT`. */
  function SubLabel(r: Row, byWorkstation: bool): string {
    if byWorkstation then r.fixture else r.workstation
  }

  /** `groupKey + EC` and `${stationKey}${TEC}`: the key descriptions are collected under. */
  function DescKey(key: string, code: Prim): string {
    key + JsValues.ToText(code)
  }

  // ---------------------------------------------------------------------------
  // The nested result

  /** `[code, count, serials]`. */
  datatype CodeEntry<S> = CodeEntry(code: Prim, count: Num, serials: seq<S>)

  /** `[[key, subLabel], ...codes]`. */
  datatype Station<S> = Station(key: string, subLabel: string, codes: seq<CodeEntry<S>>)

  /** `{ data, allErrorCodes, allStations, allModels, allCodeDesc }`. */
  datatype Parsed<S> = Parsed(
    data: seq<Station<S>>,
    allErrorCodes: seq<Prim>,
    allStations: seq<string>,
    allModels: seq<Prim>,
    allCodeDesc: seq<(string, string)>)

  function StationKeys<S>(data: seq<Station<S>>): (r: seq<string>)
    ensures |r| == |data| && forall i | 0 <= i < |data| :: r[i] == data[i].key
    decreases |data|
  {
    if data == [] then [] else StationKeys(data[..|data| - 1]) + [data[|data| - 1].key]
  }

  /** `count += Number(TN)`. */
  function AddCount(n: Num, r: Row): Num {
    Add(n, JsValues.ToNumber(r.count))
  }

  /** The running sum of `Number(code_count)` from 0. */
  function SumCounts(rs: seq<Row>): Num {
    FoldFrom(rs, Int(0), AddCount)
  }

  /** A sum of numbers is a number. */
  lemma {:induction false} SumCountsInt(rs: seq<Row>)
    requires forall r | r in rs :: JsValues.ToNumber(r.count).Int?
    ensures SumCounts(rs).Int?
    decreases |rs|
  {
    if rs != [] {
      var n := |rs| - 1;
      assert forall r | r in rs[..n] :: r in rs;
      SumCountsInt(rs[..n]);
      assert rs[n] in rs;
    }
  }

  /** `(a, b) => b.count - a.count`: a comes first when its count is larger. */
  predicate MoreCount<S>(a: CodeEntry<S>, b: CodeEntry<S>) {
    Less(b.count, a.count)
  }

  /** A number that is not NaN. */
  predicate IntCount<S>(c: CodeEntry<S>) {
    c.count.Int?
  }

  /** On codes whose counts are numbers, "larger count first" is a strict weak order. */
  lemma MoreCountStrictWeak<S(!new)>()
    ensures StrictWeakOrderOn(MoreCount<S>, IntCount<S>)
  {
  }

  /** A code list sorted by `MoreCount` lists counts that never increase. */
  lemma NonIncreasing<S>(codes: seq<CodeEntry<S>>, i: int, j: int)
    requires Ordered(codes, MoreCount<S>) && 0 <= i < j < |codes|
    requires codes[i].count.Int? && codes[j].count.Int?
    ensures codes[i].count.value >= codes[j].count.value
  {
    assert !MoreCount(codes[j], codes[i]);
  }

  // ---------------------------------------------------------------------------
  // `Array.from(new Set(xs)).sort()` on primitives

  /**
   * The default order of `sort()`: `undefined` goes last and everything
   * else is compared by its string form.
   */
  predicate DefaultLess(a: Prim, b: Prim) {
    !a.Undefined? && (b.Undefined? || LexLess(JsValues.ToText(a), JsValues.ToText(b)))
  }

  lemma DefaultLessStrictWeak()
    ensures StrictWeakOrder(DefaultLess)
  {
    forall a: Prim ensures !DefaultLess(a, a) {
      LexIrreflexive(JsValues.ToText(a));
    }
    forall a: Prim, b: Prim, c: Prim | DefaultLess(a, b) && DefaultLess(b, c) ensures DefaultLess(a, c) {
      if !c.Undefined? {
        LexTransitive(JsValues.ToText(a), JsValues.ToText(b), JsValues.ToText(c));
      }
    }
    forall a: Prim, b: Prim, c: Prim | !DefaultLess(a, b) && !DefaultLess(b, c) ensures !DefaultLess(a, c) {
      var ta, tb, tc := JsValues.ToText(a), JsValues.ToText(b), JsValues.ToText(c);
      if DefaultLess(a, c) && !c.Undefined? && ta != tb {
        LexTotal(ta, tb);
        LexTransitive(tb, ta, tc);
      }
    }
  }

  /**
   * `Array.from(set).sort()` for a `Set` filled with `xs`: on primitives
   * SameValueZero is equality, so the set is `Dedup(xs)`.
   */
  function SortedValues(xs: seq<Prim>): seq<Prim> {
    Sort(Dedup(xs), DefaultLess)
  }

  /** The distinct values, ordered by the default sort. */
  lemma SortedValuesMeaning(xs: seq<Prim>)
    ensures forall x :: x in SortedValues(xs) <==> x in xs
    ensures NoDuplicates(SortedValues(xs))
    ensures Ordered(SortedValues(xs), DefaultLess)
  {
    var d := Dedup(xs);
    DefaultLessStrictWeak();
    SortOrdered(d, DefaultLess);
    SortNoDuplicates(d, DefaultLess);
    forall x ensures x in SortedValues(xs) <==> x in xs {
      SortSameElements(d, DefaultLess, x);
      DedupSameElements(xs, x);
    }
  }

  /** A `Set` of primitives holds a value exactly once: SameValueZero is equality there. */
  lemma SetOfPrims(a: Prim, b: Prim)
    ensures SameValueZero(a, b) <==> a == b
  {
    SameValueZeroPrimitive(a, b);
  }

  // ---------------------------------------------------------------------------
  // `Array.from(s).join('\n')`

  /** The element texts of `join`: `null` and `undefined` are empty. */
  function JoinTexts(vs: seq<Prim>): (r: seq<string>)
    ensures |r| == |vs|
    ensures forall i | 0 <= i < |vs| :: r[i] == if IsNullish(vs[i]) then "" else JsValues.ToText(vs[i])
    decreases |vs|
  {
    if vs == [] then []
    else JoinTexts(vs[..|vs| - 1]) + [if IsNullish(vs[|vs| - 1]) then "" else JsValues.ToText(vs[|vs| - 1])]
  }

  /** `Array.from(descMap.entries()).map(([k, s]) => [k, Array.from(s).join('\n')])`. */
  function FlattenDescs(m: Entries<seq<Prim>>): (r: seq<(string, string)>)
    ensures |r| == |m|
    ensures forall i | 0 <= i < |m| :: r[i] == (m[i].0, Join(JoinTexts(m[i].1), "\n"))
    decreases |m|
  {
    if m == [] then []
    else FlattenDescs(m[..|m| - 1]) + [(m[|m| - 1].0, Join(JoinTexts(m[|m| - 1].1), "\n"))]
  }

  /**
   * `if (!descMap.has(k)) descMap.set(k, new Set()); descMap.get(k).add(ed)`:
   * a `Map` keeps its keys in insertion order, as `Put` does.
   */
  function AddDesc(m: Entries<seq<Prim>>, k: string, ed: Prim): (r: Entries<seq<Prim>>)
    ensures forall j :: j in Keys(r) <==> j in Keys(m) || j == k
  {
    var s := match Get(m, k) case Some(s) => s case None => [];
    Put(m, k, if ed in s then s else s + [ed])
  }

  /** The description map after the rows `ks`, each filed under `keyOf`. */
  function Descs(ks: seq<Row>, keyOf: Row -> string): Entries<seq<Prim>>
    decreases |ks|
  {
    if ks == [] then []
    else AddDesc(Descs(ks[..|ks| - 1], keyOf), keyOf(ks[|ks| - 1]), ks[|ks| - 1].desc)
  }

  /** The descriptions of the rows filed under `k`, in row order. */
  function DescsUnder(ks: seq<Row>, keyOf: Row -> string, k: string): seq<Prim>
    decreases |ks|
  {
    if ks == [] then []
    else DescsUnder(ks[..|ks| - 1], keyOf, k) + (if keyOf(ks[|ks| - 1]) == k then [ks[|ks| - 1].desc] else [])
  }

  /** `allCodeDesc` has one entry per distinct key, in order of first appearance. */
  lemma {:induction false} DescsKeys(ks: seq<Row>, keyOf: Row -> string)
    ensures Keys(Descs(ks, keyOf)) == Dedup(Map(ks, keyOf))
    decreases |ks|
  {
    if ks != [] {
      DescsKeys(ks[..|ks| - 1], keyOf);
      DescsKeysStep(ks, keyOf);
    }
  }

  lemma DescsKeysStep(ks: seq<Row>, keyOf: Row -> string)
    requires ks != [] && Keys(Descs(ks[..|ks| - 1], keyOf)) == Dedup(Map(ks[..|ks| - 1], keyOf))
    ensures Keys(Descs(ks, keyOf)) == Dedup(Map(ks, keyOf))
  {
    var n := |ks| - 1;
    MapLast(ks, keyOf);
    AddDescDedup(Descs(ks[..n], keyOf), Map(ks[..n], keyOf), keyOf(ks[n]), ks[n].desc);
  }

  lemma AddDescDedup(m: Entries<seq<Prim>>, s: seq<string>, k: string, ed: Prim)
    requires Keys(m) == Dedup(s)
    ensures Keys(AddDesc(m, k, ed)) == Dedup(s + [k])
  {
    AddDescKeys(m, k, ed);
    DedupAdd(s, k);
  }

  lemma AddDescKeys(m: Entries<seq<Prim>>, k: string, ed: Prim)
    ensures Keys(AddDesc(m, k, ed)) == if k in Keys(m) then Keys(m) else Keys(m) + [k]
  {
  }

  /** Each key's entry holds every description filed under it once, in order of first appearance. */
  lemma {:induction false} DescsGet(ks: seq<Row>, keyOf: Row -> string, k: string)
    requires k in Keys(Descs(ks, keyOf))
    ensures Get(Descs(ks, keyOf), k) == Some(Dedup(DescsUnder(ks, keyOf, k)))
    decreases |ks|
  {
    assert ks != [];
    DescsStep(ks, keyOf, k);
    if keyOf(ks[|ks| - 1]) != k {
      AddDescOther(Descs(ks[..|ks| - 1], keyOf), keyOf(ks[|ks| - 1]), ks[|ks| - 1].desc, k);
      assert Get(Descs(ks, keyOf), k) == Get(Descs(ks[..|ks| - 1], keyOf), k);
      assert DescsUnder(ks, keyOf, k) == DescsUnder(ks[..|ks| - 1], keyOf, k);
      DescsGet(ks[..|ks| - 1], keyOf, k);
    } else {
      if k in Keys(Descs(ks[..|ks| - 1], keyOf)) {
        DescsGet(ks[..|ks| - 1], keyOf, k);
      } else {
        NothingUnder(ks[..|ks| - 1], keyOf, k);
      }
      AddDescSame(Descs(ks[..|ks| - 1], keyOf), k, ks[|ks| - 1].desc, DescsUnder(ks[..|ks| - 1], keyOf, k));
      assert Get(Descs(ks, keyOf), k) == Some(Dedup(DescsUnder(ks[..|ks| - 1], keyOf, k) + [ks[|ks| - 1].desc]));
    }
  }

  lemma DescsStep(ks: seq<Row>, keyOf: Row -> string, k: string)
    requires ks != []
    ensures Descs(ks, keyOf) == AddDesc(Descs(ks[..|ks| - 1], keyOf), keyOf(ks[|ks| - 1]), ks[|ks| - 1].desc)
    ensures DescsUnder(ks, keyOf, k)
      == DescsUnder(ks[..|ks| - 1], keyOf, k) + (if keyOf(ks[|ks| - 1]) == k then [ks[|ks| - 1].desc] else [])
  {
  }

  lemma AddDescOther(m: Entries<seq<Prim>>, kr: string, ed: Prim, k: string)
    requires kr != k
    ensures Get(AddDesc(m, kr, ed), k) == Get(m, k)
  {
    forall v ensures Get(Put(m, kr, v), k) == Get(m, k) {
      PutOther(m, kr, v, k);
    }
  }

  /** The set under `k` after adding `ed` to the de-duplicated `prev`. */
  lemma AddDescSame(m: Entries<seq<Prim>>, k: string, ed: Prim, prev: seq<Prim>)
    requires Get(m, k) == Some(Dedup(prev)) || (k !in Keys(m) && prev == [])
    ensures Get(AddDesc(m, k, ed), k) == Some(Dedup(prev + [ed]))
  {
    DedupSnoc(prev, ed);
    DedupSameElements(prev, ed);
  }

  /**
   * The flattened descriptions: one entry per distinct key, in order of first
   * appearance, with the distinct descriptions filed under it joined by newlines.
   */
  lemma FlattenedDescs(ks: seq<Row>, keyOf: Row -> string)
    ensures var keys := Dedup(Map(ks, keyOf));
      && |FlattenDescs(Descs(ks, keyOf))| == |keys|
      && forall i | 0 <= i < |keys| ::
           FlattenDescs(Descs(ks, keyOf))[i] == (keys[i], Join(JoinTexts(Dedup(DescsUnder(ks, keyOf, keys[i]))), "\n"))
  {
    var m := Descs(ks, keyOf);
    DescsKeys(ks, keyOf);
    forall i | 0 <= i < |m| ensures m[i].1 == Dedup(DescsUnder(ks, keyOf, m[i].0)) {
      assert Keys(m)[i] == m[i].0;
      GetAt(m, i);
      DescsGet(ks, keyOf, m[i].0);
    }
  }

  /** A key no row is filed under has no descriptions. */
  lemma {:induction false} NothingUnder(ks: seq<Row>, keyOf: Row -> string, k: string)
    requires k !in Keys(Descs(ks, keyOf))
    ensures DescsUnder(ks, keyOf, k) == []
    decreases |ks|
  {
    if ks != [] {
      var init := ks[..|ks| - 1];
      assert k in Keys(Descs(init, keyOf)) ==> k in Keys(Descs(ks, keyOf));
      NothingUnder(init, keyOf, k);
    }
  }

  // ---------------------------------------------------------------------------
  // The metadata sets

  /** The per-row update of a metadata set, `set.add(x)`. */
  function SetAdd(s: seq<Prim>, x: Prim): seq<Prim> {
    if x in s then s else s + [x]
  }

  /** The models `if (MD) modelSet.add(MD)` collects, in row order. */
  function TruthyModels(ks: seq<Row>): seq<Prim>
    decreases |ks|
  {
    if ks == [] then []
    else TruthyModels(ks[..|ks| - 1]) + (if JsValues.Truthy(ks[|ks| - 1].model) then [ks[|ks| - 1].model] else [])
  }

  /** Only truthy models are collected, and every truthy model of a row is. */
  lemma {:induction false} TruthyModelsMembers(ks: seq<Row>, x: Prim)
    ensures x in TruthyModels(ks) <==> exists i | 0 <= i < |ks| :: ks[i].model == x && JsValues.Truthy(x)
    decreases |ks|
  {
    if ks != [] {
      var n := |ks| - 1;
      TruthyModelsMembers(ks[..n], x);
      if x in TruthyModels(ks) {
        if x in TruthyModels(ks[..n]) {
          var i :| 0 <= i < n && ks[..n][i].model == x && JsValues.Truthy(x);
          assert ks[i] == ks[..n][i];
        } else {
          assert ks[n].model == x && JsValues.Truthy(x);
        }
      }
      if exists i | 0 <= i < |ks| :: ks[i].model == x && JsValues.Truthy(x) {
        var i :| 0 <= i < |ks| && ks[i].model == x && JsValues.Truthy(x);
        if i < n {
          assert ks[..n][i] == ks[i];
        }
      }
    }
  }

  /** `set.add(f(row))` on the de-duplicated values of the rows so far. */
  lemma ValueSetStep(ks: seq<Row>, row: Row, f: Row -> Prim)
    ensures Dedup(Map(ks + [row], f)) == SetAdd(Dedup(Map(ks, f)), f(row))
  {
    MapSnoc(ks, row, f);
    DedupAdd(Map(ks, f), f(row));
  }

  /** `stationSet.add(groupKey)` on the de-duplicated keys of the rows so far. */
  lemma StationSetStep(ks: seq<Row>, row: Row, byWorkstation: bool)
    ensures var s := Dedup(Map(ks, GroupKeyOf(byWorkstation)));
      var k := GroupKey(row, byWorkstation);
      Dedup(Map(ks + [row], GroupKeyOf(byWorkstation))) == if k in s then s else s + [k]
  {
    MapSnoc(ks, row, GroupKeyOf(byWorkstation));
    DedupAdd(Map(ks, GroupKeyOf(byWorkstation)), GroupKey(row, byWorkstation));
  }

  lemma TruthyModelsSnoc(ks: seq<Row>, row: Row)
    ensures TruthyModels(ks + [row]) == TruthyModels(ks) + (if JsValues.Truthy(row.model) then [row.model] else [])
  {
    assert (ks + [row])[..|ks|] == ks;
  }

  /** `if (MD) modelSet.add(MD)` on the de-duplicated models of the rows so far. */
  lemma ModelSetStep(ks: seq<Row>, row: Row)
    ensures Dedup(TruthyModels(ks + [row]))
      == if JsValues.Truthy(row.model) then SetAdd(Dedup(TruthyModels(ks)), row.model) else Dedup(TruthyModels(ks))
  {
    TruthyModelsSnoc(ks, row);
    if JsValues.Truthy(row.model) {
      DedupAdd(TruthyModels(ks), row.model);
    } else {
      assert TruthyModels(ks) + [] == TruthyModels(ks);
    }
  }

  lemma DescsSnoc(ks: seq<Row>, row: Row, keyOf: Row -> string)
    ensures Descs(ks + [row], keyOf) == AddDesc(Descs(ks, keyOf), keyOf(row), row.desc)
  {
    assert (ks + [row])[..|ks|] == ks;
  }
}
