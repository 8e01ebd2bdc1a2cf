/**
 * frontend-web/src/utils/packingPage/packingDataUtils.js: the web
 * `rollupWeekendCounts`. The input maps a model name to its labels and its
 * parts (part number → date object); the result keeps the groups, fills in
 * missing labels from the model name, rolls each part's weekend counts
 * back to Friday written `M/D/YYYY`, and lists every such date once, in
 * time order.
 */
module PackingDataUtilsWeb {
  import opened Wrappers
  import opened Sorting
  import opened JsObjects
  import opened JsValues
  import opened WeekendRollup

  /** One model of the input: `{ groupLabel, totalLabel, parts }`, each possibly missing. */
  datatype ModelData = ModelData(groupLabel: Value, totalLabel: Value, parts: Option<Entries<Entries<int>>>)

  /** One group of the result. */
  datatype Group = Group(groupLabel: Value, totalLabel: Value, parts: Entries<Entries<int>>)

  /** `modelData.parts || {}`. */
  function PartsOf(m: ModelData): Entries<Entries<int>> {
    if m.parts.Some? then m.parts.value else []
  }

  /** `processedData[modelName]`. */
  function GroupOf(name: string, m: ModelData): Group {
    Group(Or(m.groupLabel, Str(name)), Or(m.totalLabel, Str(name + " Total")), PutAll(BucketOf(Unpadded), PartsOf(m)))
  }

  /** The result object. */
  function Processed(raw: Entries<ModelData>): Entries<Group> {
    PutAll(GroupOf, raw)
  }

  /** Every date a part's count is filed under, model by model and part by part. */
  function ModelDates(raw: Entries<ModelData>): seq<string>
    decreases |raw|
  {
    if raw == [] then []
    else ModelDates(raw[..|raw| - 1]) + AllRolled(Unpadded, PartsOf(raw[|raw| - 1].1))
  }

  /** The date list: first appearances, sorted by the comparator. */
  function SortedDates(raw: Entries<ModelData>): seq<string> {
    Sort(Dedup(ModelDates(raw)), DateLess)
  }

  /** The loop over one model's parts: each part's date object rolled into its own bucket. */
  method RollupParts(parts: Entries<Entries<int>>, seen0: set<string>, allDates0: seq<string>, ghost before: seq<string>)
    returns (processedParts: Entries<Entries<int>>, seen: set<string>, allDates: seq<string>)
    requires allDates0 == Dedup(before) && forall x :: x in seen0 <==> x in allDates0
    ensures processedParts == PutAll(BucketOf(Unpadded), parts)
    ensures allDates == Dedup(before + AllRolled(Unpadded, parts))
    ensures forall x :: x in seen <==> x in allDates
  {
    processedParts, seen, allDates := [], seen0, allDates0;
    var j := 0;
    assert before + AllRolled(Unpadded, parts[..0]) == before;
    while j < |parts|
      invariant 0 <= j <= |parts|
      invariant processedParts == PutAll(BucketOf(Unpadded), parts[..j])
      invariant allDates == Dedup(before + AllRolled(Unpadded, parts[..j]))
      invariant forall x :: x in seen <==> x in allDates
    {
      var adjustedData;
      adjustedData, seen, allDates := FileCounts(RollWith(Unpadded), parts[j].1, seen, allDates, before + AllRolled(Unpadded, parts[..j]));
      processedParts := Put(processedParts, parts[j].0, adjustedData);
      PutAllStep(BucketOf(Unpadded), parts, j);
      AllRolledStep(Unpadded, parts, j);
      ghost var a := AllRolled(Unpadded, parts[..j]);
      ghost var f := FiledUnder(RollWith(Unpadded), parts[j].1);
      ConcatAssoc(before, a, f);
      j := j + 1;
    }
    assert parts[..j] == parts;
  }

  lemma ModelDatesStep(raw: Entries<ModelData>, i: int)
    requires 0 <= i < |raw|
    ensures ModelDates(raw[..i + 1]) == ModelDates(raw[..i]) + AllRolled(Unpadded, PartsOf(raw[i].1))
  {
    assert raw[..i + 1][..i] == raw[..i];
  }

  /** `rollupWeekendCounts(rawData)`. */
  method RollupWeekendCounts(rawData: Entries<ModelData>) returns (rolledUp: Entries<Group>, sortedDates: seq<string>)
    ensures rolledUp == Processed(rawData)
    ensures sortedDates == SortedDates(rawData)
  {
    rolledUp := [];
    var seen: set<string> := {};
    var allDates: seq<string> := [];
    var i := 0;
    while i < |rawData|
      invariant 0 <= i <= |rawData|
      invariant rolledUp == Processed(rawData[..i])
      invariant allDates == Dedup(ModelDates(rawData[..i]))
      invariant forall x :: x in seen <==> x in allDates
    {
      var modelName := rawData[i].0;
      var modelData := rawData[i].1;
      var processedParts;
      processedParts, seen, allDates := RollupParts(PartsOf(modelData), seen, allDates, ModelDates(rawData[..i]));
      rolledUp := Put(rolledUp, modelName, Group(Or(modelData.groupLabel, Str(modelName)), Or(modelData.totalLabel, Str(modelName + " Total")), processedParts));
      PutAllStep(GroupOf, rawData, i);
      ModelDatesStep(rawData, i);
      i := i + 1;
    }
    assert rawData[..i] == rawData;
    sortedDates := Sort(allDates, DateLess);
  }

  /** Each model name of the input maps to its group. */
  lemma ProcessedGroup(raw: Entries<ModelData>, i: int)
    requires DistinctKeys(raw) && 0 <= i < |raw|
    ensures Get(Processed(raw), raw[i].0) == Some(GroupOf(raw[i].0, raw[i].1))
  {
    PutAllGet(GroupOf, raw, i);
  }

  /** A group has the model's part numbers, and each part's counts are rolled up and conserved. */
  lemma GroupCounts(name: string, m: ModelData, j: int, rd: string)
    requires DistinctKeys(PartsOf(m)) && 0 <= j < |PartsOf(m)|
    ensures var p := PartsOf(m)[j];
      Get(GroupOf(name, m).parts, p.0) == Some(Bucket(Unpadded, p.1))
      && CountOf(Bucket(Unpadded, p.1), rd) == CountUnder(RollWith(Unpadded), p.1, rd)
      && Total(Bucket(Unpadded, p.1)) == Total(p.1)
  {
    var p := PartsOf(m)[j];
    PutAllGet(BucketOf(Unpadded), PartsOf(m), j);
    TallyCount(RollWith(Unpadded), [], p.1, rd);
    TallyTotal(RollWith(Unpadded), [], p.1);
  }

  /** A group of a named model always shows a label: its own when set, else one made from the name. */
  lemma GroupLabelsShown(name: string, m: ModelData)
    requires name != ""
    ensures Truthy(GroupOf(name, m).groupLabel) && Truthy(GroupOf(name, m).totalLabel)
    ensures Truthy(m.groupLabel) ==> GroupOf(name, m).groupLabel == m.groupLabel
    ensures !Truthy(m.totalLabel) ==> GroupOf(name, m).totalLabel == Str(name + " Total")
  {
  }

  /** All part keys of all models are good. */
  predicate AllModelsGood(raw: Entries<ModelData>) {
    forall i | 0 <= i < |raw| :: AllGood(PartsOf(raw[i].1))
  }

  lemma {:induction false} ModelDatesReadable(raw: Entries<ModelData>)
    requires AllModelsGood(raw)
    ensures forall x | x in ModelDates(raw) :: ReadableText(Unpadded, x)
    decreases |raw|
  {
    if raw != [] {
      var n := |raw| - 1;
      assert AllModelsGood(raw[..n]) by {
        forall i | 0 <= i < n ensures AllGood(PartsOf(raw[..n][i].1)) {
          assert raw[..n][i] == raw[i];
        }
      }
      ModelDatesReadable(raw[..n]);
      AllRolledReadable(Unpadded, PartsOf(raw[n].1));
    }
  }

  /** When every date key is good, the date list has each date once, in strictly increasing time order. */
  lemma SortedDatesOrdered(raw: Entries<ModelData>)
    requires AllModelsGood(raw)
    ensures NoDuplicates(SortedDates(raw))
    ensures forall x :: x in SortedDates(raw) <==> x in ModelDates(raw)
    ensures Chronological(SortedDates(raw))
  {
    ModelDatesReadable(raw);
    SortedDatesChronological(Unpadded, ModelDates(raw));
  }
}
