/**
 * frontend-web/src/utils/packingPage/sortDataUtils.js: `rollupSortData`.
 * Only the listed sort codes get a bucket; each listed code's date object is
 * rolled back from weekends to Friday and written `M/D/YYYY`, and codes that
 * are not listed are skipped.
 */
module SortDataUtils {
  import opened Wrappers
  import opened Sorting
  import opened JsObjects
  import opened WeekendRollup

  /** `codes = ['506', '520']`. */
  const DefaultCodes: seq<string> := ["506", "520"]

  /** A default parameter applies when the argument is `undefined` (`None`). */
  function CodesOrDefault(codes: Option<seq<string>>): seq<string> {
    if codes.Some? then codes.value else DefaultCodes
  }

  /** `for (const code of codes) out[code] = {}`. */
  function EmptyBuckets(codes: seq<string>): Entries<Entries<int>>
    decreases |codes|
  {
    if codes == [] then []
    else Put(EmptyBuckets(codes[..|codes| - 1]), codes[|codes| - 1], [])
  }

  /**
   * One code of the input: skipped when it has no bucket, otherwise its
   * counts are added into that bucket under the dates `roll` files them under.
   */
  function Step(roll: string -> string, out: Entries<Entries<int>>, code: string, dateObj: Entries<int>): Entries<Entries<int>> {
    match Get(out, code)
    case None => out
    case Some(bucket) => Put(out, code, TallyOnto(roll, bucket, dateObj))
  }

  /** The `for (const code in rawSortData)` loop, from the buckets `out`. */
  function Rollup(roll: string -> string, raw: Entries<Entries<int>>, out: Entries<Entries<int>>): Entries<Entries<int>>
    decreases |raw|
  {
    if raw == [] then out
    else Step(roll, Rollup(roll, raw[..|raw| - 1], out), raw[|raw| - 1].0, raw[|raw| - 1].1)
  }

  /** What `rollupSortData(rawSortData, codes)` returns. */
  function SortRollup(raw: Entries<Entries<int>>, codes: Option<seq<string>>): Entries<Entries<int>> {
    Rollup(RollWith(Unpadded), raw, EmptyBuckets(CodesOrDefault(codes)))
  }

  /** `const out = {}; for (const code of codes) out[code] = {}`. */
  method AllocateBuckets(codes: seq<string>) returns (out: Entries<Entries<int>>)
    ensures out == EmptyBuckets(codes)
  {
    out := [];
    var k := 0;
    while k < |codes|
      invariant 0 <= k <= |codes|
      invariant out == EmptyBuckets(codes[..k])
    {
      out := Put(out, codes[k], []);
      assert codes[..k + 1][..k] == codes[..k];
      k := k + 1;
    }
    assert codes[..k] == codes;
  }

  /** `for (const dateStr in dateObj) bucket[roll(dateStr)] = (bucket[roll(dateStr)] || 0) + count`. */
  method AddCounts(roll: string -> string, bucket0: Entries<int>, dateObj: Entries<int>) returns (bucket: Entries<int>)
    ensures bucket == TallyOnto(roll, bucket0, dateObj)
  {
    bucket := bucket0;
    var j := 0;
    while j < |dateObj|
      invariant 0 <= j <= |dateObj|
      invariant bucket == TallyOnto(roll, bucket0, dateObj[..j])
    {
      var rollup := roll(dateObj[j].0);
      bucket := AddTo(bucket, rollup, dateObj[j].1);
      assert dateObj[..j + 1][..j] == dateObj[..j];
      j := j + 1;
    }
    assert dateObj[..j] == dateObj;
  }

  /**
   * `rollupSortData(rawSortData, codes)`. The bucket is filled through the
   * alias `out[code]`; storing the filled bucket back under `code` is the same.
   */
  method RollupSortData(rawSortData: Entries<Entries<int>>, codes: Option<seq<string>>) returns (out: Entries<Entries<int>>)
    ensures out == SortRollup(rawSortData, codes)
  {
    out := AllocateBuckets(CodesOrDefault(codes));
    ghost var out0 := out;
    var roll := RollWith(Unpadded);
    var i := 0;
    while i < |rawSortData|
      invariant 0 <= i <= |rawSortData|
      invariant out == Rollup(roll, rawSortData[..i], out0)
    {
      var code := rawSortData[i].0;
      RollupStep(roll, rawSortData, out0, i);
      var found := Get(out, code);
      if found.Some? {
        var bucket := AddCounts(roll, found.value, rawSortData[i].1);
        out := Put(out, code, bucket);
      } else {
        assert Step(roll, out, code, rawSortData[i].1) == out;
      }
      i := i + 1;
    }
    assert rawSortData[..i] == rawSortData;
  }

  lemma RollupStep(roll: string -> string, raw: Entries<Entries<int>>, out: Entries<Entries<int>>, i: int)
    requires 0 <= i < |raw|
    ensures Rollup(roll, raw[..i + 1], out) == Step(roll, Rollup(roll, raw[..i], out), raw[i].0, raw[i].1)
  {
    assert raw[..i + 1][..i] == raw[..i];
  }

  /** The pre-allocated buckets are the listed codes, each empty. */
  lemma {:induction false} EmptyBucketsGet(codes: seq<string>, k: string)
    ensures k in Keys(EmptyBuckets(codes)) <==> k in codes
    ensures k in codes ==> Get(EmptyBuckets(codes), k) == Some([])
    decreases |codes|
  {
    if codes != [] {
      var n := |codes| - 1;
      EmptyBucketsGet(codes[..n], k);
      InInitOrLast(codes, k);
      if k != codes[n] {
        PutOther(EmptyBuckets(codes[..n]), codes[n], [], k);
      }
    }
  }

  lemma InInitOrLast(codes: seq<string>, k: string)
    requires codes != []
    ensures k in codes <==> k in codes[..|codes| - 1] || k == codes[|codes| - 1]
  {
    if k in codes {
      var i :| 0 <= i < |codes| && codes[i] == k;
      if i < |codes| - 1 {
        assert codes[..|codes| - 1][i] == k;
      }
    }
  }

  /** The loop never adds or removes a key: the result has exactly the buckets it started with. */
  lemma {:induction false} RollupKeys(roll: string -> string, raw: Entries<Entries<int>>, out: Entries<Entries<int>>)
    ensures Keys(Rollup(roll, raw, out)) == Keys(out)
    decreases |raw|
  {
    if raw != [] {
      RollupKeys(roll, raw[..|raw| - 1], out);
    }
  }

  /** A code the input does not have keeps the bucket it started with. */
  lemma {:induction false} RollupAbsent(roll: string -> string, raw: Entries<Entries<int>>, out: Entries<Entries<int>>, k: string)
    requires k !in Keys(raw)
    ensures Get(Rollup(roll, raw, out), k) == Get(out, k)
    decreases |raw|
  {
    if raw != [] {
      var n := |raw| - 1;
      assert raw == raw[..n] + [raw[n]];
      KeysSnoc(raw[..n], raw[n]);
      RollupAbsent(roll, raw[..n], out, k);
      var prev := Rollup(roll, raw[..n], out);
      if Get(prev, raw[n].0).Some? {
        PutOther(prev, raw[n].0, TallyOnto(roll, Get(prev, raw[n].0).value, raw[n].1), k);
      }
    }
  }

  /** A code of the input with a bucket gets its counts added to that bucket; one without stays absent. */
  lemma {:induction false} RollupAt(roll: string -> string, raw: Entries<Entries<int>>, out: Entries<Entries<int>>, i: int)
    requires DistinctKeys(raw) && 0 <= i < |raw|
    ensures Get(Rollup(roll, raw, out), raw[i].0) ==
      if Get(out, raw[i].0).Some? then Some(TallyOnto(roll, Get(out, raw[i].0).value, raw[i].1)) else None
    decreases |raw|
  {
    var n := |raw| - 1;
    var k := raw[i].0;
    assert raw == raw[..n] + [raw[n]];
    KeysSnoc(raw[..n], raw[n]);
    var prev := Rollup(roll, raw[..n], out);
    if i == n {
      assert k !in Keys(raw[..n]) by {
        forall a | 0 <= a < n ensures Keys(raw[..n])[a] != k {
          assert Keys(raw)[a] != Keys(raw)[n];
        }
      }
      RollupAbsent(roll, raw[..n], out, k);
    } else {
      assert DistinctKeys(raw[..n]) by {
        forall a, b | 0 <= a < b < n ensures Keys(raw[..n])[a] != Keys(raw[..n])[b] {
          assert Keys(raw)[a] != Keys(raw)[b];
        }
      }
      assert raw[..n][i] == raw[i];
      RollupAt(roll, raw[..n], out, i);
      assert Keys(raw)[i] != Keys(raw)[n];
      if Get(prev, raw[n].0).Some? {
        PutOther(prev, raw[n].0, TallyOnto(roll, Get(prev, raw[n].0).value, raw[n].1), k);
      }
    }
  }

  /** The result has a bucket for exactly the listed codes. */
  lemma SortRollupKeys(raw: Entries<Entries<int>>, codes: Option<seq<string>>, k: string)
    ensures k in Keys(SortRollup(raw, codes)) <==> k in CodesOrDefault(codes)
  {
    RollupKeys(RollWith(Unpadded), raw, EmptyBuckets(CodesOrDefault(codes)));
    EmptyBucketsGet(CodesOrDefault(codes), k);
  }

  /**
   * A listed code present in the input shows, under each date, the sum of
   * its counts on the days that roll to that date, and its total is kept;
   * a listed code absent from the input has an empty bucket.
   */
  lemma SortRollupCounts(raw: Entries<Entries<int>>, codes: Option<seq<string>>, i: int, rd: string)
    requires DistinctKeys(raw) && 0 <= i < |raw| && raw[i].0 in CodesOrDefault(codes)
    ensures Get(SortRollup(raw, codes), raw[i].0) == Some(Bucket(Unpadded, raw[i].1))
    ensures CountOf(Bucket(Unpadded, raw[i].1), rd) == CountUnder(RollWith(Unpadded), raw[i].1, rd)
    ensures Total(Bucket(Unpadded, raw[i].1)) == Total(raw[i].1)
  {
    EmptyBucketsGet(CodesOrDefault(codes), raw[i].0);
    RollupAt(RollWith(Unpadded), raw, EmptyBuckets(CodesOrDefault(codes)), i);
    TallyCount(RollWith(Unpadded), [], raw[i].1, rd);
    TallyTotal(RollWith(Unpadded), [], raw[i].1);
  }

  /** A listed code the input does not have keeps an empty bucket. */
  lemma SortRollupMissing(raw: Entries<Entries<int>>, codes: Option<seq<string>>, code: string)
    requires code in CodesOrDefault(codes) && code !in Keys(raw)
    ensures Get(SortRollup(raw, codes), code) == Some([])
  {
    EmptyBucketsGet(CodesOrDefault(codes), code);
    RollupAbsent(RollWith(Unpadded), raw, EmptyBuckets(CodesOrDefault(codes)), code);
  }
}
