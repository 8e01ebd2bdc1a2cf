/**
 * frontend/src/utils/packingCharts/packingChartsDataUtils.js:
 * `processPackingData`. The counts of the parts whose model is selected are
 * summed per day, under an ISO `YYYY-MM-DD` key made from the `M/D/YYYY`
 * key by padding its pieces.
 */
module PackingCharts {
  import opened Wrappers
  import opened Strings
  import opened CivilDates
  import opened JsDates
  import opened JsObjects
  import opened JsValues

  /** What `day.padStart` throws when the key has no second piece. */
  const ReadDayError: string := "TypeError: Cannot read properties of undefined (reading 'padStart')"

  /**
   * `${year}-${month.padStart(2, '0')}-${day.padStart(2, '0')}` after
   * `const [month, day, year] = dateStr.split('/')`. A missing year is
   * written `undefined`; a missing day throws.
   */
  function DayKey(dateStr: string): (r: Result<string>)
    ensures r.Err? <==> |Split(dateStr, "/")| < 2
  {
    var p := Split(dateStr, "/");
    if |p| < 2 then Err(ReadDayError)
    else
      var year := if |p| >= 3 then p[2] else "undefined";
      Ok(year + "-" + PadStart(p[0], 2, '0') + "-" + PadStart(p[1], 2, '0'))
  }

  /** The key a count is added under, for keys that have one. */
  function IsoKey(dateStr: string): string {
    match DayKey(dateStr)
    case Ok(k) => k
    case Err(_) => ""
  }

  /** Every key of a date object has a day piece. */
  predicate AllKeyed(dateObj: Entries<int>) {
    forall i | 0 <= i < |dateObj| :: DayKey(dateObj[i].0).Ok?
  }

  /** `!(!model || !selectedModels.includes(model))` with `model = partToModel[part]`. */
  predicate Included(part: string, selectedModels: seq<Value>, partToModel: Entries<Value>) {
    var model := Prop(partToModel, part);
    Truthy(model) && Includes(selectedModels, model)
  }

  /** What `processPackingData(data, selectedModels, partToModel)` returns, or the error it throws. */
  function Charts(data: Entries<Entries<int>>, selectedModels: seq<Value>, partToModel: Entries<Value>): Result<Entries<int>>
    decreases |data|
  {
    if data == [] then Ok([])
    else
      var n := |data| - 1;
      match Charts(data[..n], selectedModels, partToModel)
      case Err(e) => Err(e)
      case Ok(m) =>
        if !Included(data[n].0, selectedModels, partToModel) then Ok(m)
        else if !AllKeyed(data[n].1) then Err(ReadDayError)
        else Ok(TallyOnto(IsoKey, m, data[n].1))
  }

  /** The inner `forEach`: adds one part's counts, or throws at the first key without a day. */
  method AddPart(dateMap0: Entries<int>, dateObj: Entries<int>) returns (r: Result<Entries<int>>)
    ensures r == if AllKeyed(dateObj) then Ok(TallyOnto(IsoKey, dateMap0, dateObj)) else Err(ReadDayError)
  {
    var dateMap := dateMap0;
    var j := 0;
    while j < |dateObj|
      invariant 0 <= j <= |dateObj|
      invariant AllKeyed(dateObj[..j])
      invariant dateMap == TallyOnto(IsoKey, dateMap0, dateObj[..j])
    {
      var isoDate := DayKey(dateObj[j].0);
      if isoDate.Err? {
        return Err(ReadDayError);
      }
      dateMap := AddTo(dateMap, isoDate.value, dateObj[j].1);
      AllKeyedStep(dateObj, j);
      TallyOntoStep(IsoKey, dateMap0, dateObj, j);
      j := j + 1;
    }
    assert dateObj[..j] == dateObj;
    return Ok(dateMap);
  }

  lemma AllKeyedStep(dateObj: Entries<int>, j: int)
    requires 0 <= j < |dateObj| && AllKeyed(dateObj[..j]) && DayKey(dateObj[j].0).Ok?
    ensures AllKeyed(dateObj[..j + 1])
  {
    assert dateObj[..j + 1][..j] == dateObj[..j];
  }

  lemma ChartsStep(data: Entries<Entries<int>>, selectedModels: seq<Value>, partToModel: Entries<Value>, i: int)
    requires 0 <= i < |data|
    ensures Charts(data[..i + 1], selectedModels, partToModel) ==
      match Charts(data[..i], selectedModels, partToModel)
      case Err(e) => Err(e)
      case Ok(m) =>
        if !Included(data[i].0, selectedModels, partToModel) then Ok(m)
        else if !AllKeyed(data[i].1) then Err(ReadDayError)
        else Ok(TallyOnto(IsoKey, m, data[i].1))
  {
    assert data[..i + 1][..i] == data[..i];
  }

  /** Once a part throws, the whole call throws the same error. */
  lemma {:induction false} ChartsErrSticks(data: Entries<Entries<int>>, selectedModels: seq<Value>, partToModel: Entries<Value>, i: int)
    requires 0 <= i <= |data| && Charts(data[..i], selectedModels, partToModel).Err?
    ensures Charts(data, selectedModels, partToModel) == Charts(data[..i], selectedModels, partToModel)
    decreases |data| - i
  {
    if i == |data| {
      assert data[..i] == data;
    } else {
      ChartsStep(data, selectedModels, partToModel, i);
      ChartsErrSticks(data, selectedModels, partToModel, i + 1);
    }
  }

  /** `processPackingData(data, selectedModels, partToModel)`. */
  method ProcessPackingData(data: Entries<Entries<int>>, selectedModels: seq<Value>, partToModel: Entries<Value>) returns (r: Result<Entries<int>>)
    ensures r == Charts(data, selectedModels, partToModel)
  {
    var dateMap: Entries<int> := [];
    var i := 0;
    while i < |data|
      invariant 0 <= i <= |data|
      invariant Charts(data[..i], selectedModels, partToModel) == Ok(dateMap)
    {
      ChartsStep(data, selectedModels, partToModel, i);
      var model := Prop(partToModel, data[i].0);
      if Truthy(model) && Includes(selectedModels, model) {
        var added := AddPart(dateMap, data[i].1);
        if added.Err? {
          ChartsErrSticks(data, selectedModels, partToModel, i + 1);
          return added;
        }
        dateMap := added.value;
      }
      i := i + 1;
    }
    assert data[..i] == data;
    return Ok(dateMap);
  }

  // ---------------------------------------------------------------------------
  // What the chart relies on

  /** The sum, over the selected parts, of the counts filed under `k`. */
  function SelectedCount(data: Entries<Entries<int>>, selectedModels: seq<Value>, partToModel: Entries<Value>, k: string): int
    decreases |data|
  {
    if data == [] then 0
    else
      var n := |data| - 1;
      SelectedCount(data[..n], selectedModels, partToModel, k)
      + (if Included(data[n].0, selectedModels, partToModel) then CountUnder(IsoKey, data[n].1, k) else 0)
  }

  /** The sum of all counts of the selected parts. */
  function SelectedTotal(data: Entries<Entries<int>>, selectedModels: seq<Value>, partToModel: Entries<Value>): int
    decreases |data|
  {
    if data == [] then 0
    else
      var n := |data| - 1;
      SelectedTotal(data[..n], selectedModels, partToModel)
      + (if Included(data[n].0, selectedModels, partToModel) then Total(data[n].1) else 0)
  }

  /** Every key of every selected part has a day piece. */
  predicate SelectedKeyed(data: Entries<Entries<int>>, selectedModels: seq<Value>, partToModel: Entries<Value>) {
    forall i | 0 <= i < |data| :: Included(data[i].0, selectedModels, partToModel) ==> AllKeyed(data[i].1)
  }

  /**
   * The call throws exactly when a selected part has a key without a day;
   * otherwise each day shows the sum of the selected parts' counts on it,
   * and nothing is lost or counted twice.
   */
  lemma ChartsMeaning(data: Entries<Entries<int>>, selectedModels: seq<Value>, partToModel: Entries<Value>, k: string)
    ensures Charts(data, selectedModels, partToModel).Ok? <==> SelectedKeyed(data, selectedModels, partToModel)
    ensures Charts(data, selectedModels, partToModel).Ok? ==>
      CountOf(Charts(data, selectedModels, partToModel).value, k) == SelectedCount(data, selectedModels, partToModel, k)
      && Total(Charts(data, selectedModels, partToModel).value) == SelectedTotal(data, selectedModels, partToModel)
  {
    ChartsOk(data, selectedModels, partToModel);
    if Charts(data, selectedModels, partToModel).Ok? {
      ChartsSums(data, selectedModels, partToModel, k);
    }
  }

  lemma {:induction false} ChartsOk(data: Entries<Entries<int>>, selectedModels: seq<Value>, partToModel: Entries<Value>)
    ensures Charts(data, selectedModels, partToModel).Ok? <==> SelectedKeyed(data, selectedModels, partToModel)
    decreases |data|
  {
    if data != [] {
      ChartsOk(data[..|data| - 1], selectedModels, partToModel);
      SelectedKeyedLast(data, selectedModels, partToModel);
    }
  }

  lemma SelectedKeyedLast(data: Entries<Entries<int>>, selectedModels: seq<Value>, partToModel: Entries<Value>)
    requires data != []
    ensures SelectedKeyed(data, selectedModels, partToModel) <==>
      SelectedKeyed(data[..|data| - 1], selectedModels, partToModel)
      && (Included(data[|data| - 1].0, selectedModels, partToModel) ==> AllKeyed(data[|data| - 1].1))
  {
    forall i | 0 <= i < |data| - 1 ensures data[..|data| - 1][i] == data[i] {
    }
  }

  lemma {:induction false} ChartsSums(data: Entries<Entries<int>>, selectedModels: seq<Value>, partToModel: Entries<Value>, k: string)
    requires Charts(data, selectedModels, partToModel).Ok?
    ensures CountOf(Charts(data, selectedModels, partToModel).value, k) == SelectedCount(data, selectedModels, partToModel, k)
    ensures Total(Charts(data, selectedModels, partToModel).value) == SelectedTotal(data, selectedModels, partToModel)
    decreases |data|
  {
    if data != [] {
      var n := |data| - 1;
      ChartsSums(data[..n], selectedModels, partToModel, k);
      if Included(data[n].0, selectedModels, partToModel) {
        TallyCount(IsoKey, Charts(data[..n], selectedModels, partToModel).value, data[n].1, k);
        TallyTotal(IsoKey, Charts(data[..n], selectedModels, partToModel).value, data[n].1);
      }
    }
  }

  /** Four-digit numbers are written with at least four digits. */
  lemma FourDigitText(n: nat)
    requires n >= 1000
    ensures |NatToString(n)| >= 4
  {
    var a := n / 10;
    assert a >= 100;
    var b := a / 10;
    assert b >= 10;
    OneMoreDigit(n);
    OneMoreDigit(a);
    OneMoreDigit(b);
  }

  lemma OneMoreDigit(n: nat)
    requires n >= 10
    ensures |NatToString(n)| == |NatToString(n / 10)| + 1
  {
  }

  /**
   * The key of a day written `M/D/YYYY` with a four-digit year is that
   * day's ISO date, so different days get different keys.
   */
  lemma DayKeyIsIso(c: Civil)
    requires Valid(c) && 1000 <= c.year <= 9999
    ensures DayKey(NatToString(c.month) + "/" + NatToString(c.day) + "/" + IntToString(c.year)) == Ok(IsoDateText(c))
  {
    var m, d, y := NatToString(c.month), NatToString(c.day), IntToString(c.year);
    var s := m + "/" + d + "/" + y;
    assert Join([m, d, y], "/") == s by {
      assert [m, d, y][1..] == [d, y];
      assert [d, y][1..] == [y];
      assert Join([d, y], "/") == d + "/" + y;
    }
    assert '/' !in m && '/' !in d && '/' !in y;
    SplitJoinOfPieces([m, d, y], '/');
    FourDigitText(c.year);
    assert IsoYear(c.year) == y;
  }
}
