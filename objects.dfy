/**
 * Plain JavaScript objects with string keys, as association lists in
 * property-enumeration order. Assigning to an existing key keeps its place;
 * a new key goes to the end. (Keys that look like array indices, which JS
 * enumerates first in numeric order, are not used where order matters.)
 */
module JsObjects {
  import opened Wrappers
  import opened Sorting

  /** An object's own properties, in enumeration order. */
  type Entries<V> = seq<(string, V)>

  function Keys<V>(o: Entries<V>): (ks: seq<string>)
    ensures |ks| == |o| && forall i | 0 <= i < |o| :: ks[i] == o[i].0
    decreases |o|
  {
    if |o| == 0 then [] else [o[0].0] + Keys(o[1..])
  }

  /** What every real object satisfies: no key twice. */
  predicate DistinctKeys<V>(o: Entries<V>) {
    NoDuplicates(Keys(o))
  }

  /** `o[k]`, or `None` for a missing property. */
  function Get<V>(o: Entries<V>, k: string): (r: Option<V>)
    ensures r.None? <==> k !in Keys(o)
    decreases |o|
  {
    if |o| == 0 then None
    else if o[0].0 == k then Some(o[0].1)
    else
      Get(o[1..], k)
  }

  /** `o[k] = v`: replaces the value in place, or appends a new property. */
  function Put<V>(o: Entries<V>, k: string, v: V): (r: Entries<V>)
    ensures k in Keys(o) ==> Keys(r) == Keys(o)
    ensures k !in Keys(o) ==> Keys(r) == Keys(o) + [k]
    ensures Get(r, k) == Some(v)
    decreases |o|
  {
    if |o| == 0 then [(k, v)]
    else if o[0].0 == k then
      assert ([(k, v)] + o[1..])[1..] == o[1..];
      [(k, v)] + o[1..]
    else
      var t := Put(o[1..], k, v);
      assert ([o[0]] + t)[1..] == t;
      [o[0]] + t
  }

  /** Putting under `k` leaves every other key's value as it was. */
  lemma {:induction false} PutOther<V>(o: Entries<V>, k: string, v: V, j: string)
    requires j != k
    ensures Get(Put(o, k, v), j) == Get(o, j)
    decreases |o|
  {
    if |o| > 0 && o[0].0 != k {
      PutOther(o[1..], k, v, j);
      assert ([o[0]] + Put(o[1..], k, v))[1..] == Put(o[1..], k, v);
    } else if |o| > 0 {
      assert ([(k, v)] + o[1..])[1..] == o[1..];
    }
  }

  /** Setting a key twice is setting it once to the second value, in the same place. */
  lemma {:induction false} PutTwice<V>(o: Entries<V>, k: string, v: V, w: V)
    ensures Put(Put(o, k, v), k, w) == Put(o, k, w)
    decreases |o|
  {
    if |o| > 0 && o[0].0 != k {
      PutTwice(o[1..], k, v, w);
      assert ([o[0]] + Put(o[1..], k, v))[1..] == Put(o[1..], k, v);
    } else if |o| > 0 {
      assert ([(k, v)] + o[1..])[1..] == o[1..];
    }
  }

  /** In an object without repeated keys, each entry is what its key reads. */
  lemma {:induction false} GetAt<V>(o: Entries<V>, i: int)
    requires DistinctKeys(o) && 0 <= i < |o|
    ensures Get(o, o[i].0) == Some(o[i].1)
    decreases i
  {
    if i > 0 {
      assert Keys(o)[0] != Keys(o)[i];
      assert DistinctKeys(o[1..]) by {
        forall a, b | 0 <= a < b < |Keys(o[1..])| ensures Keys(o[1..])[a] != Keys(o[1..])[b] {
          assert Keys(o)[a + 1] != Keys(o)[b + 1];
        }
      }
      GetAt(o[1..], i - 1);
    }
  }

  lemma PutDistinct<V>(o: Entries<V>, k: string, v: V)
    requires DistinctKeys(o)
    ensures DistinctKeys(Put(o, k, v))
  {
    var ks := Keys(o);
    if k !in ks {
      var rs := ks + [k];
      forall i, j | 0 <= i < j < |rs| ensures rs[i] != rs[j] {
        if j == |ks| {
          assert rs[i] == ks[i];
        }
      }
    }
  }

  /**
   * `{...a, ...b}`: every property of `b` replaces or extends `a`, in `b`'s
   * order; the properties of `a` keep their places.
   */
  function Merge<V>(a: Entries<V>, b: Entries<V>): Entries<V>
    decreases |b|
  {
    if |b| == 0 then a else Merge(Put(a, b[0].0, b[0].1), b[1..])
  }

  /** A put keeps the keys in their places and adds at most its own. */
  lemma PutKeysGrow<V>(a: Entries<V>, k: string, v: V, j: string)
    ensures |Keys(a)| <= |Keys(Put(a, k, v))| && Keys(Put(a, k, v))[..|Keys(a)|] == Keys(a)
    ensures j in Keys(Put(a, k, v)) <==> j in Keys(a) || j == k
  {
  }

  lemma PrefixOfPrefix(x: seq<string>, y: seq<string>, z: seq<string>)
    requires |x| <= |y| <= |z| && z[..|y|] == y && y[..|x|] == x
    ensures z[..|x|] == x
  {
    assert z[..|x|] == z[..|y|][..|x|];
  }

  /** The merge keeps `a`'s keys first, in their places. */
  lemma {:induction false} MergeKeysPrefix<V>(a: Entries<V>, b: Entries<V>)
    ensures |Keys(a)| <= |Keys(Merge(a, b))| && Keys(Merge(a, b))[..|Keys(a)|] == Keys(a)
    decreases |b|
  {
    if |b| > 0 {
      var a2 := Put(a, b[0].0, b[0].1);
      MergeKeysPrefix(a2, b[1..]);
      PutKeysGrow(a, b[0].0, b[0].1, b[0].0);
      PrefixOfPrefix(Keys(a), Keys(a2), Keys(Merge(a2, b[1..])));
    }
  }

  /** The merge has a key exactly when one of the two objects has it. */
  lemma {:induction false} MergeHas<V>(a: Entries<V>, b: Entries<V>, k: string)
    ensures k in Keys(Merge(a, b)) <==> k in Keys(a) || k in Keys(b)
    decreases |b|
  {
    if |b| > 0 {
      var a2 := Put(a, b[0].0, b[0].1);
      MergeHas(a2, b[1..], k);
      PutKeysGrow(a, b[0].0, b[0].1, k);
      assert Keys(b) == [b[0].0] + Keys(b[1..]);
    }
  }

  /** The merge keeps `a`'s keys first, in their places, and adds only `b`'s. */
  lemma MergeKeys<V>(a: Entries<V>, b: Entries<V>)
    ensures |Keys(a)| <= |Keys(Merge(a, b))| && Keys(Merge(a, b))[..|Keys(a)|] == Keys(a)
    ensures forall k :: k in Keys(Merge(a, b)) <==> k in Keys(a) || k in Keys(b)
  {
    MergeKeysPrefix(a, b);
    forall k ensures k in Keys(Merge(a, b)) <==> k in Keys(a) || k in Keys(b) {
      MergeHas(a, b, k);
    }
  }

  /** A merged property comes from `b` when `b` has it, and from `a` otherwise. */
  lemma {:induction false} MergeGet<V>(a: Entries<V>, b: Entries<V>, k: string)
    requires DistinctKeys(b)
    ensures Get(Merge(a, b), k) == if k in Keys(b) then Get(b, k) else Get(a, k)
    decreases |b|
  {
    if |b| > 0 {
      var a2 := Put(a, b[0].0, b[0].1);
      assert Keys(b) == [b[0].0] + Keys(b[1..]);
      assert DistinctKeys(b[1..]) by {
        forall i, j | 0 <= i < j < |Keys(b[1..])| ensures Keys(b[1..])[i] != Keys(b[1..])[j] {
          assert Keys(b)[i + 1] != Keys(b)[j + 1];
        }
      }
      assert b[0].0 !in Keys(b[1..]) by {
        forall i | 0 <= i < |Keys(b[1..])| ensures Keys(b[1..])[i] != b[0].0 {
          assert Keys(b)[i + 1] != Keys(b)[0];
        }
      }
      MergeGet(a2, b[1..], k);
      if k != b[0].0 {
        PutOther(a, b[0].0, b[0].1, k);
      }
    }
  }

  // ---------------------------------------------------------------------------
  // Counting objects: `bucket[k] = (bucket[k] || 0) + n`

  /** The value stored for `k`, or 0 (`o[k] || 0` on a counting object). */
  function CountOf(o: Entries<int>, k: string): (n: int)
    ensures k !in Keys(o) ==> n == 0
    ensures Get(o, k).Some? ==> n == Get(o, k).value
  {
    match Get(o, k)
    case None => 0
    case Some(n) => n
  }

  /** `o[k] = (o[k] || 0) + n`. */
  function AddTo(o: Entries<int>, k: string, n: int): (r: Entries<int>)
    ensures CountOf(r, k) == CountOf(o, k) + n
  {
    Put(o, k, CountOf(o, k) + n)
  }

  lemma AddToIs(o: Entries<int>, k: string, n: int)
    ensures AddTo(o, k, n) == Put(o, k, CountOf(o, k) + n)
  {
  }

  /** Adding under `k` leaves every other count alone. */
  lemma AddToOther(o: Entries<int>, k: string, n: int, j: string)
    requires j != k
    ensures CountOf(AddTo(o, k, n), j) == CountOf(o, j)
  {
    PutOtherCount(o, k, j);
  }

  lemma PutOtherCount(o: Entries<int>, k: string, j: string)
    requires j != k
    ensures forall v :: CountOf(Put(o, k, v), j) == CountOf(o, j)
  {
    forall v ensures CountOf(Put(o, k, v), j) == CountOf(o, j) {
      PutOther(o, k, v, j);
    }
  }

  /** The sum of all stored counts. */
  function Total(o: Entries<int>): int
    decreases |o|
  {
    if |o| == 0 then 0 else o[0].1 + Total(o[1..])
  }

  lemma {:induction false} TotalSnoc(o: Entries<int>, e: (string, int))
    ensures Total(o + [e]) == Total(o) + e.1
    decreases |o|
  {
    if |o| > 0 {
      assert (o + [e])[1..] == o[1..] + [e];
      TotalSnoc(o[1..], e);
    } else {
      assert o + [e] == [e];
    }
  }

  /** Putting a value changes the total by the difference to the value it replaces. */
  lemma {:induction false} PutTotal(o: Entries<int>, k: string, v: int)
    ensures Total(Put(o, k, v)) == Total(o) - CountOf(o, k) + v
    decreases |o|
  {
    if |o| > 0 && o[0].0 != k {
      PutTotal(o[1..], k, v);
      assert ([o[0]] + Put(o[1..], k, v))[1..] == Put(o[1..], k, v);
    } else if |o| > 0 {
      assert ([(k, v)] + o[1..])[1..] == o[1..];
    }
  }

  /** Adding `n` under any key adds exactly `n` to the total: nothing is lost. */
  lemma AddToTotal(o: Entries<int>, k: string, n: int)
    ensures Total(AddTo(o, k, n)) == Total(o) + n
  {
    forall v | v == CountOf(o, k) + n ensures Total(Put(o, k, v)) == Total(o) + n {
      PutTotal(o, k, v);
    }
  }

  lemma AddToDistinct(o: Entries<int>, k: string, n: int)
    requires DistinctKeys(o)
    ensures DistinctKeys(AddTo(o, k, n))
  {
    PutDistinct(o, k, CountOf(o, k) + n);
  }

  // ---------------------------------------------------------------------------
  // Tallies: adding each entry's count under the key a function files it under

  /**
   * `for (const [k, n] of Object.entries(o)) out[key(k)] = (out[key(k)] || 0) + n`,
   * starting from the counting object `b`.
   */
  function TallyOnto(key: string -> string, b: Entries<int>, o: Entries<int>): Entries<int>
    decreases |o|
  {
    if o == [] then b
    else AddTo(TallyOnto(key, b, o[..|o| - 1]), key(o[|o| - 1].0), o[|o| - 1].1)
  }

  /** One more entry of the loop. */
  lemma TallyOntoStep(key: string -> string, b: Entries<int>, o: Entries<int>, j: int)
    requires 0 <= j < |o|
    ensures TallyOnto(key, b, o[..j + 1]) == AddTo(TallyOnto(key, b, o[..j]), key(o[j].0), o[j].1)
  {
    assert o[..j + 1][..j] == o[..j];
  }

  /** The same loop starting from `{}`. */
  function Tally(key: string -> string, o: Entries<int>): Entries<int> {
    TallyOnto(key, [], o)
  }

  /** The keys the entries are filed under, in order. */
  function FiledUnder(key: string -> string, o: Entries<int>): (r: seq<string>)
    ensures |r| == |o| && forall i | 0 <= i < |o| :: r[i] == key(o[i].0)
    decreases |o|
  {
    if o == [] then [] else FiledUnder(key, o[..|o| - 1]) + [key(o[|o| - 1].0)]
  }

  /** The sum of the counts of the entries filed under `k`. */
  function CountUnder(key: string -> string, o: Entries<int>, k: string): int
    decreases |o|
  {
    if o == [] then 0
    else CountUnder(key, o[..|o| - 1], k) + (if key(o[|o| - 1].0) == k then o[|o| - 1].1 else 0)
  }

  lemma KeysSnoc<V>(o: Entries<V>, e: (string, V))
    ensures Keys(o + [e]) == Keys(o) + [e.0]
  {
    var l := Keys(o + [e]);
    assert |l| == |o| + 1;
    forall i | 0 <= i < |l| ensures l[i] == (Keys(o) + [e.0])[i] {
      assert (o + [e])[i] == if i < |o| then o[i] else e;
    }
  }

  /** The total of a non-empty object is that of all but its last entry, plus the last count. */
  lemma TotalLast(o: Entries<int>)
    requires o != []
    ensures Total(o) == Total(o[..|o| - 1]) + o[|o| - 1].1
  {
    assert o == o[..|o| - 1] + [o[|o| - 1]];
    TotalSnoc(o[..|o| - 1], o[|o| - 1]);
  }

  /** The last entry of a tally adds its count to the total. */
  lemma TallyLast(key: string -> string, b: Entries<int>, o: Entries<int>)
    requires o != []
    ensures Total(TallyOnto(key, b, o)) == Total(TallyOnto(key, b, o[..|o| - 1])) + o[|o| - 1].1
  {
    var n := |o| - 1;
    AddToTotal(TallyOnto(key, b, o[..n]), key(o[n].0), o[n].1);
  }

  /** Conservation: a tally adds exactly the counts it was given. */
  lemma {:induction false} TallyTotal(key: string -> string, b: Entries<int>, o: Entries<int>)
    ensures Total(TallyOnto(key, b, o)) == Total(b) + Total(o)
    decreases |o|
  {
    if o != [] {
      TallyTotal(key, b, o[..|o| - 1]);
      TallyLast(key, b, o);
      TotalLast(o);
    }
  }

  /** Each key of a tally gains the sum of the counts filed under it. */
  lemma {:induction false} TallyCount(key: string -> string, b: Entries<int>, o: Entries<int>, k: string)
    ensures CountOf(TallyOnto(key, b, o), k) == CountOf(b, k) + CountUnder(key, o, k)
    decreases |o|
  {
    if o != [] {
      var n := |o| - 1;
      TallyCount(key, b, o[..n], k);
      if key(o[n].0) != k {
        AddToOther(TallyOnto(key, b, o[..n]), key(o[n].0), o[n].1, k);
      }
    }
  }

  /** A tally's keys are the keys it started with and the keys its entries were filed under. */
  lemma {:induction false} TallyKeys(key: string -> string, b: Entries<int>, o: Entries<int>, k: string)
    ensures k in Keys(TallyOnto(key, b, o)) <==> k in Keys(b) || k in FiledUnder(key, o)
    decreases |o|
  {
    if o != [] {
      var n := |o| - 1;
      var init := o[..n];
      var f := FiledUnder(key, o);
      TallyKeys(key, b, init, k);
      assert k in f <==> k in FiledUnder(key, init) || k == key(o[n].0);
    }
  }

  /** A tally started without repeated keys has each key once. */
  lemma {:induction false} TallyDistinct(key: string -> string, b: Entries<int>, o: Entries<int>)
    requires DistinctKeys(b)
    ensures DistinctKeys(TallyOnto(key, b, o))
    decreases |o|
  {
    if o != [] {
      var n := |o| - 1;
      TallyDistinct(key, b, o[..n]);
      AddToDistinct(TallyOnto(key, b, o[..n]), key(o[n].0), o[n].1);
    }
  }

  // ---------------------------------------------------------------------------
  // Objects built property by property: `out[k] = f(o[k])` for each property

  /** `for (const k in o) out[k] = f(k, o[k])`, from `{}`. */
  function PutAll<V, W>(f: (string, V) -> W, o: Entries<V>): Entries<W>
    decreases |o|
  {
    if o == [] then []
    else Put(PutAll(f, o[..|o| - 1]), o[|o| - 1].0, f(o[|o| - 1].0, o[|o| - 1].1))
  }

  /** One more property of the input is one more `Put`. */
  lemma PutAllStep<V, W>(f: (string, V) -> W, o: Entries<V>, i: int)
    requires 0 <= i < |o|
    ensures PutAll(f, o[..i + 1]) == Put(PutAll(f, o[..i]), o[i].0, f(o[i].0, o[i].1))
  {
    assert o[..i + 1][..i] == o[..i];
  }

  /** The result has the same keys as the object it was built from. */
  lemma {:induction false} PutAllKeys<V, W>(f: (string, V) -> W, o: Entries<V>, k: string)
    ensures k in Keys(PutAll(f, o)) <==> k in Keys(o)
    decreases |o|
  {
    if o != [] {
      var n := |o| - 1;
      PutAllKeys(f, o[..n], k);
      assert o == o[..n] + [o[n]];
      KeysSnoc(o[..n], o[n]);
    }
  }

  /** Each key of an object without repeated keys maps to `f` of its value. */
  lemma {:induction false} PutAllGet<V, W>(f: (string, V) -> W, o: Entries<V>, i: int)
    requires DistinctKeys(o) && 0 <= i < |o|
    ensures Get(PutAll(f, o), o[i].0) == Some(f(o[i].0, o[i].1))
    decreases |o|
  {
    var n := |o| - 1;
    if i < n {
      DistinctKeysInit(o);
      PutAllGet(f, o[..n], i);
      assert o[..n][i] == o[i];
      assert Keys(o)[i] != Keys(o)[n];
      PutAllGetEarlier(f, o, o[i].0, f(o[i].0, o[i].1));
    }
  }

  /** The last `Put` leaves the value of a different key alone. */
  lemma PutAllGetEarlier<V, W>(f: (string, V) -> W, o: Entries<V>, k: string, w: W)
    requires o != [] && k != o[|o| - 1].0 && Get(PutAll(f, o[..|o| - 1]), k) == Some(w)
    ensures Get(PutAll(f, o), k) == Some(w)
  {
    PutOther(PutAll(f, o[..|o| - 1]), o[|o| - 1].0, f(o[|o| - 1].0, o[|o| - 1].1), k);
  }

  /** Dropping the last property keeps the keys distinct. */
  lemma DistinctKeysInit<V>(o: Entries<V>)
    requires DistinctKeys(o) && o != []
    ensures DistinctKeys(o[..|o| - 1])
  {
    var n := |o| - 1;
    forall a, b | 0 <= a < b < n ensures Keys(o[..n])[a] != Keys(o[..n])[b] {
      assert Keys(o[..n])[a] == Keys(o)[a] && Keys(o[..n])[b] == Keys(o)[b];
    }
  }
}
