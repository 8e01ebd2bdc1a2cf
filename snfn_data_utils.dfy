/**
 * frontend/src/utils/snfn/snfnDataUtils.js: `processStationData` narrows the
 * nested station data `parseSnFnData` produces by station, model and error
 * code, drops the codes and stations left empty, and orders the stations by
 * their total count or by their id. It builds new arrays throughout; as
 * values here, the input cannot be changed by it.
 */
module SnfnDataUtils {
  import opened Wrappers
  import opened Sorting
  import opened Sequences
  import opened JsNumbers
  import opened JsValues
  import opened SnfnCommon
  import opened Grouping

  // ---------------------------------------------------------------------------
  // The filters

  /** `filter.length === 0 || filter.includes(x)`. */
  predicate Admits(filter: seq<Prim>, x: Prim) {
    filter == [] || Includes(filter, x)
  }

  /** `md ?? ''`. */
  function ModelOrEmpty(md: Prim): Prim {
    if IsNullish(md) then Str("") else md
  }

  /** The test on one serial entry `[, , md]`. */
  function ModelAdmitted<S>(modelFilter: seq<Prim>, modelOf: S -> Prim): S -> bool {
    (s: S) => Admits(modelFilter, ModelOrEmpty(modelOf(s)))
  }

  /** `[code, filteredSNs.length, filteredSNs]`. */
  function NarrowCode<S>(c: CodeEntry<S>, modelFilter: seq<Prim>, modelOf: S -> Prim): CodeEntry<S> {
    var sns := Filter(c.serials, ModelAdmitted(modelFilter, modelOf));
    CodeEntry(c.code, Int(|sns|), sns)
  }

  function NarrowCodeOf<S>(modelFilter: seq<Prim>, modelOf: S -> Prim): CodeEntry<S> -> CodeEntry<S> {
    (c: CodeEntry<S>) => NarrowCode(c, modelFilter, modelOf)
  }

  /** `(errorCodeFilter.length === 0 || errorCodeFilter.includes(code)) && count > 0`. */
  predicate CodeKept<S>(errorCodeFilter: seq<Prim>, c: CodeEntry<S>) {
    Admits(errorCodeFilter, c.code) && Less(Int(0), c.count)
  }

  function CodeKeptBy<S>(errorCodeFilter: seq<Prim>): CodeEntry<S> -> bool {
    (c: CodeEntry<S>) => CodeKept(errorCodeFilter, c)
  }

  /** A station's codes after the model and error-code filters. */
  function NarrowCodes<S>(codes: seq<CodeEntry<S>>, modelFilter: seq<Prim>, errorCodeFilter: seq<Prim>,
                          modelOf: S -> Prim): seq<CodeEntry<S>> {
    Filter(Map(codes, NarrowCodeOf(modelFilter, modelOf)), CodeKeptBy(errorCodeFilter))
  }

  /** `filteredCodes.length > 0 ? [stationInfo, ...filteredCodes] : null`. */
  function NarrowStation<S>(st: Station<S>, modelFilter: seq<Prim>, errorCodeFilter: seq<Prim>,
                            modelOf: S -> Prim): Option<Station<S>> {
    var codes := NarrowCodes(st.codes, modelFilter, errorCodeFilter, modelOf);
    if |codes| > 0 then Some(st.(codes := codes)) else None
  }

  function NarrowStationOf<S>(modelFilter: seq<Prim>, errorCodeFilter: seq<Prim>, modelOf: S -> Prim)
    : Station<S> -> Option<Station<S>> {
    (st: Station<S>) => NarrowStation(st, modelFilter, errorCodeFilter, modelOf)
  }

  /** The station filter on the id `station[0][0]`. */
  function StationAdmitted<S>(stationFilter: seq<Prim>): Station<S> -> bool {
    (st: Station<S>) => Admits(stationFilter, Str(st.key))
  }

  /** `.filter(Boolean)` on stations and `null`s. */
  function Present<T>(xs: seq<Option<T>>): (r: seq<T>)
    ensures forall i | 0 <= i < |r| :: Some(r[i]) in xs
    ensures forall i | 0 <= i < |xs| && xs[i].Some? :: xs[i].value in r
    decreases |xs|
  {
    if xs == [] then []
    else
      var init := xs[..|xs| - 1];
      assert xs == init + [xs[|xs| - 1]];
      Present(init) + (if xs[|xs| - 1].Some? then [xs[|xs| - 1].value] else [])
  }

  /** The stations that survive the filters, in input order. */
  function Survivors<S>(dataBase: seq<Station<S>>, stationFilter: seq<Prim>, modelFilter: seq<Prim>,
                        errorCodeFilter: seq<Prim>, modelOf: S -> Prim): seq<Station<S>> {
    Present(Map(Filter(dataBase, StationAdmitted(stationFilter)), NarrowStationOf(modelFilter, errorCodeFilter, modelOf)))
  }

  // ---------------------------------------------------------------------------
  // The order

  function AddCode<S>(sum: Num, c: CodeEntry<S>): Num {
    Add(sum, c.count)
  }

  /** `station.slice(1).reduce((sum, [, cnt]) => sum + cnt, 0)`. */
  function CodeSum<S>(codes: seq<CodeEntry<S>>): Num {
    FoldFrom(codes, Int(0), AddCode)
  }

  /**
   * The comparator. `compare` is `String.prototype.localeCompare` with
   * `numeric: true, sensitivity: 'base'`, whose collation is not modelled.
   */
  function Compare<S>(sortByCount: bool, sortAsc: bool, compare: (string, string) -> int, a: Station<S>, b: Station<S>): Num {
    if sortByCount then
      var sumA := CodeSum(a.codes);
      var sumB := CodeSum(b.codes);
      if sortAsc then Sub(sumA, sumB) else Sub(sumB, sumA)
    else
      var cmp := compare(a.key, b.key);
      Int(if sortAsc then cmp else -cmp)
  }

  /** The comparator's "a comes first": a negative result. */
  predicate Precedes<S>(sortByCount: bool, sortAsc: bool, compare: (string, string) -> int, a: Station<S>, b: Station<S>) {
    Less(Compare(sortByCount, sortAsc, compare, a, b), Int(0))
  }

  function Before<S>(sortByCount: bool, sortAsc: bool, compare: (string, string) -> int): (Station<S>, Station<S>) -> bool {
    (a: Station<S>, b: Station<S>) => Precedes(sortByCount, sortAsc, compare, a, b)
  }

  /** `processStationData(dataBase, stationFilter, modelFilter, errorCodeFilter, sortByCount, sortAsc)`. */
  function ProcessStationData<S>(dataBase: seq<Station<S>>, stationFilter: seq<Prim>, modelFilter: seq<Prim>,
                                 errorCodeFilter: seq<Prim>, sortByCount: bool, sortAsc: bool,
                                 compare: (string, string) -> int, modelOf: S -> Prim): seq<Station<S>> {
    Sort(Survivors(dataBase, stationFilter, modelFilter, errorCodeFilter, modelOf), Before(sortByCount, sortAsc, compare))
  }

  // ---------------------------------------------------------------------------
  // What survives

  /** On primitives `includes` is membership. */
  lemma AdmitsPrim(filter: seq<Prim>, x: Prim)
    ensures Admits(filter, x) <==> filter == [] || x in filter
  {
    if Includes(filter, x) {
      var i :| 0 <= i < |filter| && SameValueZero(filter[i], x);
      SameValueZeroPrimitive(filter[i], x);
    }
    if x in filter {
      var i :| 0 <= i < |filter| && filter[i] == x;
      SameValueZeroPrimitive(filter[i], x);
    }
  }

  /**
   * A narrowed code keeps its code; its serial list is the input's entries
   * whose `md ?? ''` the model filter admits, in order, and its count is
   * their number.
   */
  lemma NarrowCodeMeaning<S>(c: CodeEntry<S>, modelFilter: seq<Prim>, modelOf: S -> Prim)
    ensures var n := NarrowCode(c, modelFilter, modelOf);
      && n.code == c.code
      && n.count == Int(|n.serials|)
      && n.serials == Filter(c.serials, ModelAdmitted(modelFilter, modelOf))
      && forall s :: s in n.serials <==> s in c.serials && (modelFilter == [] || ModelOrEmpty(modelOf(s)) in modelFilter)
  {
    var n := NarrowCode(c, modelFilter, modelOf);
    forall s ensures s in n.serials <==> s in c.serials && (modelFilter == [] || ModelOrEmpty(modelOf(s)) in modelFilter) {
      AdmitsPrim(modelFilter, ModelOrEmpty(modelOf(s)));
      if s in c.serials && ModelAdmitted(modelFilter, modelOf)(s) {
        var i :| 0 <= i < |c.serials| && c.serials[i] == s;
      }
    }
  }

  /** The error-code filter admits the code and the model filter leaves some serial entry. */
  predicate CodeSurvives<S>(c: CodeEntry<S>, modelFilter: seq<Prim>, errorCodeFilter: seq<Prim>, modelOf: S -> Prim) {
    (errorCodeFilter == [] || c.code in errorCodeFilter) && |NarrowCode(c, modelFilter, modelOf).serials| > 0
  }

  /**
   * A code survives exactly when the error-code filter admits it and some
   * serial entry is left after the model filter.
   */
  lemma NarrowCodesMeaning<S>(codes: seq<CodeEntry<S>>, modelFilter: seq<Prim>, errorCodeFilter: seq<Prim>,
                              modelOf: S -> Prim)
    ensures forall c' :: c' in NarrowCodes(codes, modelFilter, errorCodeFilter, modelOf) <==>
      exists c | c in codes :: c' == NarrowCode(c, modelFilter, modelOf) && CodeSurvives(c, modelFilter, errorCodeFilter, modelOf)
  {
    forall c' ensures c' in NarrowCodes(codes, modelFilter, errorCodeFilter, modelOf) <==>
      exists c | c in codes :: c' == NarrowCode(c, modelFilter, modelOf) && CodeSurvives(c, modelFilter, errorCodeFilter, modelOf)
    {
      if c' in NarrowCodes(codes, modelFilter, errorCodeFilter, modelOf) {
        var k := NarrowedFrom(codes, modelFilter, errorCodeFilter, modelOf, c');
        assert codes[k] in codes;
      }
      if exists c | c in codes :: c' == NarrowCode(c, modelFilter, modelOf) && CodeSurvives(c, modelFilter, errorCodeFilter, modelOf)
      {
        var c :| c in codes && c' == NarrowCode(c, modelFilter, modelOf) && CodeSurvives(c, modelFilter, errorCodeFilter, modelOf);
        NarrowedTo(codes, modelFilter, errorCodeFilter, modelOf, c);
      }
    }
  }

  /** The input code a narrowed code comes from. */
  lemma NarrowedFrom<S>(codes: seq<CodeEntry<S>>, modelFilter: seq<Prim>, errorCodeFilter: seq<Prim>,
                        modelOf: S -> Prim, c': CodeEntry<S>) returns (k: nat)
    requires c' in NarrowCodes(codes, modelFilter, errorCodeFilter, modelOf)
    ensures k < |codes| && c' == NarrowCode(codes[k], modelFilter, modelOf)
      && CodeSurvives(codes[k], modelFilter, errorCodeFilter, modelOf)
  {
    assert c' in Map(codes, NarrowCodeOf(modelFilter, modelOf)) && CodeKept(errorCodeFilter, c');
    k :| 0 <= k < |codes| && Map(codes, NarrowCodeOf(modelFilter, modelOf))[k] == c';
    AdmitsPrim(errorCodeFilter, codes[k].code);
  }

  /** A surviving input code is narrowed into the output. */
  lemma NarrowedTo<S>(codes: seq<CodeEntry<S>>, modelFilter: seq<Prim>, errorCodeFilter: seq<Prim>,
                      modelOf: S -> Prim, c: CodeEntry<S>)
    requires c in codes && CodeSurvives(c, modelFilter, errorCodeFilter, modelOf)
    ensures NarrowCode(c, modelFilter, modelOf) in NarrowCodes(codes, modelFilter, errorCodeFilter, modelOf)
  {
    var k :| 0 <= k < |codes| && codes[k] == c;
    assert Map(codes, NarrowCodeOf(modelFilter, modelOf))[k] == NarrowCode(c, modelFilter, modelOf);
    AdmitsPrim(errorCodeFilter, c.code);
    assert CodeKeptBy(errorCodeFilter)(Map(codes, NarrowCodeOf(modelFilter, modelOf))[k]);
  }

  /** Surviving codes keep their relative order. */
  lemma CodesKeepOrder<S>(codes: seq<CodeEntry<S>>, modelFilter: seq<Prim>, errorCodeFilter: seq<Prim>,
                          modelOf: S -> Prim, i: int, j: int)
    requires 0 <= i < j < |NarrowCodes(codes, modelFilter, errorCodeFilter, modelOf)|
    ensures var out := NarrowCodes(codes, modelFilter, errorCodeFilter, modelOf);
      exists a, b | 0 <= a < b < |codes| ::
        out[i] == NarrowCode(codes[a], modelFilter, modelOf) && out[j] == NarrowCode(codes[b], modelFilter, modelOf)
  {
    var mapped := Map(codes, NarrowCodeOf(modelFilter, modelOf));
    FilterOrder(mapped, CodeKeptBy(errorCodeFilter), i, j);
  }

  /** The station filter admits the id and some code survives. */
  predicate StationSurvives<S>(st: Station<S>, stationFilter: seq<Prim>, modelFilter: seq<Prim>,
                               errorCodeFilter: seq<Prim>, modelOf: S -> Prim) {
    (stationFilter == [] || Str(st.key) in stationFilter) && NarrowCodes(st.codes, modelFilter, errorCodeFilter, modelOf) != []
  }

  /** `[stationInfo, ...filteredCodes]`. */
  function Narrowed<S>(st: Station<S>, modelFilter: seq<Prim>, errorCodeFilter: seq<Prim>, modelOf: S -> Prim): Station<S> {
    st.(codes := NarrowCodes(st.codes, modelFilter, errorCodeFilter, modelOf))
  }

  lemma SurvivorFrom<S>(dataBase: seq<Station<S>>, stationFilter: seq<Prim>, modelFilter: seq<Prim>,
                        errorCodeFilter: seq<Prim>, modelOf: S -> Prim, st': Station<S>) returns (st: Station<S>)
    requires st' in Survivors(dataBase, stationFilter, modelFilter, errorCodeFilter, modelOf)
    ensures st in dataBase && StationSurvives(st, stationFilter, modelFilter, errorCodeFilter, modelOf)
    ensures st' == Narrowed(st, modelFilter, errorCodeFilter, modelOf)
  {
    var mapped := Map(Filter(dataBase, StationAdmitted(stationFilter)), NarrowStationOf(modelFilter, errorCodeFilter, modelOf));
    assert Some(st') in mapped;
    var k :| 0 <= k < |mapped| && mapped[k] == Some(st');
    st := Filter(dataBase, StationAdmitted(stationFilter))[k];
    assert st in dataBase && StationAdmitted(stationFilter)(st);
    AdmitsPrim(stationFilter, Str(st.key));
  }

  lemma SurvivorTo<S>(dataBase: seq<Station<S>>, stationFilter: seq<Prim>, modelFilter: seq<Prim>,
                      errorCodeFilter: seq<Prim>, modelOf: S -> Prim, st: Station<S>)
    requires st in dataBase && StationSurvives(st, stationFilter, modelFilter, errorCodeFilter, modelOf)
    ensures Narrowed(st, modelFilter, errorCodeFilter, modelOf) in Survivors(dataBase, stationFilter, modelFilter, errorCodeFilter, modelOf)
  {
    var admitted := Filter(dataBase, StationAdmitted(stationFilter));
    var mapped := Map(admitted, NarrowStationOf(modelFilter, errorCodeFilter, modelOf));
    AdmitsPrim(stationFilter, Str(st.key));
    var k :| 0 <= k < |dataBase| && dataBase[k] == st;
    assert StationAdmitted<S>(stationFilter)(dataBase[k]);
    assert st in admitted;
    var a :| 0 <= a < |admitted| && admitted[a] == st;
    assert mapped[a] == Some(Narrowed(st, modelFilter, errorCodeFilter, modelOf));
  }

  /**
   * A station is in the result exactly when the station filter admits its id
   * and some of its codes survive; it comes out with the surviving codes, and
   * the sort only reorders the survivors.
   */
  lemma StationsMeaning<S>(dataBase: seq<Station<S>>, stationFilter: seq<Prim>, modelFilter: seq<Prim>,
                           errorCodeFilter: seq<Prim>, sortByCount: bool, sortAsc: bool,
                           compare: (string, string) -> int, modelOf: S -> Prim)
    ensures var out := ProcessStationData(dataBase, stationFilter, modelFilter, errorCodeFilter, sortByCount, sortAsc, compare, modelOf);
      && multiset(out) == multiset(Survivors(dataBase, stationFilter, modelFilter, errorCodeFilter, modelOf))
      && forall st' :: st' in out <==>
           exists st | st in dataBase :: StationSurvives(st, stationFilter, modelFilter, errorCodeFilter, modelOf)
             && st' == Narrowed(st, modelFilter, errorCodeFilter, modelOf)
  {
    var surv := Survivors(dataBase, stationFilter, modelFilter, errorCodeFilter, modelOf);
    forall st' ensures st' in Sort(surv, Before(sortByCount, sortAsc, compare)) <==>
           exists st | st in dataBase :: StationSurvives(st, stationFilter, modelFilter, errorCodeFilter, modelOf)
             && st' == Narrowed(st, modelFilter, errorCodeFilter, modelOf)
    {
      SortSameElements(surv, Before(sortByCount, sortAsc, compare), st');
      if st' in surv {
        var st := SurvivorFrom(dataBase, stationFilter, modelFilter, errorCodeFilter, modelOf, st');
      }
      if exists st | st in dataBase :: StationSurvives(st, stationFilter, modelFilter, errorCodeFilter, modelOf)
             && st' == Narrowed(st, modelFilter, errorCodeFilter, modelOf)
      {
        var st :| st in dataBase && StationSurvives(st, stationFilter, modelFilter, errorCodeFilter, modelOf)
             && st' == Narrowed(st, modelFilter, errorCodeFilter, modelOf);
        SurvivorTo(dataBase, stationFilter, modelFilter, errorCodeFilter, modelOf, st);
      }
    }
  }

  // ---------------------------------------------------------------------------
  // The order of the stations

  /** A sum of numbers is a number. */
  lemma {:induction false} CodeSumInt<S>(codes: seq<CodeEntry<S>>)
    requires forall c | c in codes :: c.count.Int?
    ensures CodeSum(codes).Int?
    decreases |codes|
  {
    if codes != [] {
      var n := |codes| - 1;
      assert forall c | c in codes[..n] :: c in codes;
      CodeSumInt(codes[..n]);
      assert codes[n] in codes;
    }
  }

  predicate SumIsInt<S>(st: Station<S>) {
    CodeSum(st.codes).Int?
  }

  /** Every surviving station has a numeric total: its counts are list lengths. */
  lemma SurvivorsHaveSums<S>(dataBase: seq<Station<S>>, stationFilter: seq<Prim>, modelFilter: seq<Prim>,
                             errorCodeFilter: seq<Prim>, modelOf: S -> Prim)
    ensures forall st | st in Survivors(dataBase, stationFilter, modelFilter, errorCodeFilter, modelOf) :: SumIsInt(st)
  {
    var admitted := Filter(dataBase, StationAdmitted(stationFilter));
    var mapped := Map(admitted, NarrowStationOf(modelFilter, errorCodeFilter, modelOf));
    forall st | st in Survivors(dataBase, stationFilter, modelFilter, errorCodeFilter, modelOf) ensures SumIsInt(st) {
      var k :| 0 <= k < |mapped| && mapped[k] == Some(st);
      var codes := NarrowCodes(admitted[k].codes, modelFilter, errorCodeFilter, modelOf);
      assert st.codes == codes;
      forall c | c in codes ensures c.count.Int? {
        assert c in Map(admitted[k].codes, NarrowCodeOf(modelFilter, modelOf));
      }
      CodeSumInt(codes);
    }
  }

  /** By count, "comes first" is "smaller total" (`sortAsc`) or "larger total". */
  lemma PrecedesByCount<S>(sortAsc: bool, compare: (string, string) -> int, a: Station<S>, b: Station<S>)
    requires SumIsInt(a) && SumIsInt(b)
    ensures Precedes(true, sortAsc, compare, a, b) <==>
      if sortAsc then CodeSum(a.codes).value < CodeSum(b.codes).value else CodeSum(b.codes).value < CodeSum(a.codes).value
  {
  }

  lemma ByCountStrictWeak<S(!new)>(sortAsc: bool, compare: (string, string) -> int)
    ensures StrictWeakOrderOn(Before<S>(true, sortAsc, compare), SumIsInt<S>)
  {
    var less := Before<S>(true, sortAsc, compare);
    forall a | SumIsInt(a) ensures !less(a, a) {
      PrecedesByCount(sortAsc, compare, a, a);
    }
    forall a, b, c | SumIsInt(a) && SumIsInt(b) && SumIsInt(c) ensures less(a, b) && less(b, c) ==> less(a, c) {
      PrecedesByCount(sortAsc, compare, a, b);
      PrecedesByCount(sortAsc, compare, b, c);
      PrecedesByCount(sortAsc, compare, a, c);
    }
    forall a, b, c | SumIsInt(a) && SumIsInt(b) && SumIsInt(c) ensures !less(a, b) && !less(b, c) ==> !less(a, c) {
      PrecedesByCount(sortAsc, compare, a, b);
      PrecedesByCount(sortAsc, compare, b, c);
      PrecedesByCount(sortAsc, compare, a, c);
    }
  }

  /**
   * Sorted by count, the station totals never decrease (`sortAsc`) or never
   * increase (otherwise).
   */
  lemma ByCountOrder<S(!new)>(dataBase: seq<Station<S>>, stationFilter: seq<Prim>, modelFilter: seq<Prim>,
                              errorCodeFilter: seq<Prim>, sortAsc: bool, compare: (string, string) -> int,
                              modelOf: S -> Prim)
    ensures var out := ProcessStationData(dataBase, stationFilter, modelFilter, errorCodeFilter, true, sortAsc, compare, modelOf);
      forall i, j | 0 <= i < j < |out| ::
        && CodeSum(out[i].codes).Int? && CodeSum(out[j].codes).Int?
        && (if sortAsc then CodeSum(out[i].codes).value <= CodeSum(out[j].codes).value
            else CodeSum(out[i].codes).value >= CodeSum(out[j].codes).value)
  {
    var surv := Survivors(dataBase, stationFilter, modelFilter, errorCodeFilter, modelOf);
    var less := Before<S>(true, sortAsc, compare);
    var out := Sort(surv, less);
    SurvivorsHaveSums(dataBase, stationFilter, modelFilter, errorCodeFilter, modelOf);
    ByCountStrictWeak<S>(sortAsc, compare);
    SortOrderedOn(surv, less, SumIsInt);
    SortKeeps(surv, less, SumIsInt);
    forall i, j | 0 <= i < j < |out|
      ensures CodeSum(out[i].codes).Int? && CodeSum(out[j].codes).Int?
      ensures if sortAsc then CodeSum(out[i].codes).value <= CodeSum(out[j].codes).value
              else CodeSum(out[i].codes).value >= CodeSum(out[j].codes).value
    {
      assert SumIsInt(out[i]) && SumIsInt(out[j]);
      assert !less(out[j], out[i]);
    }
  }

  /** By id, "comes first" is a negative (`sortAsc`) or positive `compare` of the ids. */
  lemma PrecedesById<S>(sortAsc: bool, compare: (string, string) -> int, a: Station<S>, b: Station<S>)
    ensures Precedes(false, sortAsc, compare, a, b) <==>
      if sortAsc then compare(a.key, b.key) < 0 else compare(a.key, b.key) > 0
  {
  }

  lemma ByIdStrictWeak<S(!new)>(sortAsc: bool, compare: (string, string) -> int)
    requires ConsistentCompare(compare)
    ensures StrictWeakOrder(Before<S>(false, sortAsc, compare))
  {
    var less := Before<S>(false, sortAsc, compare);
    forall a: Station<S> ensures !less(a, a) {
      PrecedesById(sortAsc, compare, a, a);
    }
    forall a: Station<S>, b: Station<S>, c: Station<S> ensures less(a, b) && less(b, c) ==> less(a, c) {
      PrecedesById(sortAsc, compare, a, b);
      PrecedesById(sortAsc, compare, b, c);
      PrecedesById(sortAsc, compare, a, c);
      var x, y, z := a.key, b.key, c.key;
      if !sortAsc && compare(x, y) > 0 && compare(y, z) > 0 {
        assert compare(y, x) < 0 && compare(z, y) < 0;
        assert compare(z, x) < 0;
      }
    }
    forall a: Station<S>, b: Station<S>, c: Station<S> ensures !less(a, b) && !less(b, c) ==> !less(a, c) {
      PrecedesById(sortAsc, compare, a, b);
      PrecedesById(sortAsc, compare, b, c);
      PrecedesById(sortAsc, compare, a, c);
      NotBeforeTransitive(compare, sortAsc, a.key, b.key, c.key);
    }
  }

  /** Under a consistent comparator "not after" is transitive, in either direction. */
  lemma NotBeforeTransitive(compare: (string, string) -> int, sortAsc: bool, x: string, y: string, z: string)
    requires ConsistentCompare(compare)
    ensures sortAsc && compare(x, y) >= 0 && compare(y, z) >= 0 ==> compare(x, z) >= 0
    ensures !sortAsc && compare(x, y) <= 0 && compare(y, z) <= 0 ==> compare(x, z) <= 0
  {
  }

  /**
   * Sorted by id, each station's id compares at most equal to every later
   * one (`sortAsc`) or at least equal (otherwise).
   */
  lemma ByIdOrder<S(!new)>(dataBase: seq<Station<S>>, stationFilter: seq<Prim>, modelFilter: seq<Prim>,
                           errorCodeFilter: seq<Prim>, sortAsc: bool, compare: (string, string) -> int,
                           modelOf: S -> Prim)
    requires ConsistentCompare(compare)
    ensures var out := ProcessStationData(dataBase, stationFilter, modelFilter, errorCodeFilter, false, sortAsc, compare, modelOf);
      forall i, j | 0 <= i < j < |out| ::
        if sortAsc then compare(out[i].key, out[j].key) <= 0 else compare(out[i].key, out[j].key) >= 0
  {
    ByIdStrictWeak<S>(sortAsc, compare);
    SortOrdered(Survivors(dataBase, stationFilter, modelFilter, errorCodeFilter, modelOf), Before<S>(false, sortAsc, compare));
    OrderedByKey(Sort(Survivors(dataBase, stationFilter, modelFilter, errorCodeFilter, modelOf), Before<S>(false, sortAsc, compare)),
      sortAsc, compare);
  }

  /** A list in id order compares at most equal (or at least equal) pairwise. */
  lemma OrderedByKey<S>(out: seq<Station<S>>, sortAsc: bool, compare: (string, string) -> int)
    requires ConsistentCompare(compare) && Ordered(out, Before<S>(false, sortAsc, compare))
    ensures forall i, j | 0 <= i < j < |out| ::
      if sortAsc then compare(out[i].key, out[j].key) <= 0 else compare(out[i].key, out[j].key) >= 0
  {
    forall i, j | 0 <= i < j < |out|
      ensures if sortAsc then compare(out[i].key, out[j].key) <= 0 else compare(out[i].key, out[j].key) >= 0
    {
      assert !Before<S>(false, sortAsc, compare)(out[j], out[i]);
      PrecedesById(sortAsc, compare, out[j], out[i]);
    }
  }
}
