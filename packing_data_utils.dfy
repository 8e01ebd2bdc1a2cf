/**
 * frontend/src/utils/packingPage/packingDataUtils.js: `rollupWeekendCounts`
 * for the packing page. `rawData` maps a part number to a date object
 * (`M/D/YYYY` → count); the result maps each part number to the same counts
 * with weekend days filed under the Friday before, written `MM/DD/YYYY`, and
 * lists every such date once, in time order.
 */
module PackingDataUtils {
  import opened Wrappers
  import opened Sorting
  import opened JsObjects
  import opened WeekendRollup

  /** The roll-up the loop builds. */
  function RolledUp(raw: Entries<Entries<int>>): Entries<Entries<int>> {
    PutAll(BucketOf(Padded), raw)
  }

  /** The date list: the filed-under texts in order of first appearance, then sorted. */
  function SortedDates(raw: Entries<Entries<int>>): seq<string> {
    Sort(Dedup(AllRolled(Padded, raw)), DateLess)
  }

  /**
   * `rollupWeekendCounts(rawData)`. The bucket is filled through the alias
   * `rolledUp[key]`; as nothing else touches `rolledUp` meanwhile, storing
   * the finished bucket under `key` is the same.
   */
  method RollupWeekendCounts(rawData: Entries<Entries<int>>) returns (rolledUp: Entries<Entries<int>>, sortedDates: seq<string>)
    ensures rolledUp == RolledUp(rawData)
    ensures sortedDates == SortedDates(rawData)
  {
    rolledUp := [];
    var seen: set<string> := {};
    var allDates: seq<string> := [];
    var i := 0;
    while i < |rawData|
      invariant 0 <= i <= |rawData|
      invariant rolledUp == RolledUp(rawData[..i])
      invariant allDates == Dedup(AllRolled(Padded, rawData[..i]))
      invariant forall x :: x in seen <==> x in allDates
    {
      var key := rawData[i].0;
      var dateObj := rawData[i].1;
      var bucket;
      bucket, seen, allDates := FileCounts(RollWith(Padded), dateObj, seen, allDates, AllRolled(Padded, rawData[..i]));
      rolledUp := Put(rolledUp, key, bucket);
      PutAllStep(BucketOf(Padded), rawData, i);
      AllRolledStep(Padded, rawData, i);
      i := i + 1;
    }
    assert rawData[..i] == rawData;
    sortedDates := Sort(allDates, DateLess);
  }

  /**
   * What the packing page relies on: the count a part shows under a date
   * is the sum of its counts on the days that roll to that date, and the
   * part's total is unchanged.
   */
  lemma RollupCounts(raw: Entries<Entries<int>>, i: int, rd: string)
    requires DistinctKeys(raw) && 0 <= i < |raw|
    ensures Get(RolledUp(raw), raw[i].0).Some?
    ensures CountOf(Get(RolledUp(raw), raw[i].0).value, rd) == CountUnder(RollWith(Padded), raw[i].1, rd)
    ensures Total(Get(RolledUp(raw), raw[i].0).value) == Total(raw[i].1)
  {
    PutAllGet(BucketOf(Padded), raw, i);
    TallyCount(RollWith(Padded), [], raw[i].1, rd);
    TallyTotal(RollWith(Padded), [], raw[i].1);
  }

  /**
   * When every key of the input is a readable date, `sortedDates` lists
   * each filed-under date once, in strictly increasing time order.
   */
  lemma SortedDatesOrdered(raw: Entries<Entries<int>>)
    requires AllGood(raw)
    ensures NoDuplicates(SortedDates(raw))
    ensures forall x :: x in SortedDates(raw) <==> x in AllRolled(Padded, raw)
    ensures Chronological(SortedDates(raw))
  {
    AllRolledReadable(Padded, raw);
    SortedDatesChronological(Padded, AllRolled(Padded, raw));
  }
}
