/**
 * Grouping with a JavaScript `Map`: for each element in order,
 * `if (!m.has(key(x))) m.set(key(x), start(x))`, then the entry under
 * `key(x)` is updated with `x`. A `Map` keeps its keys in insertion order,
 * as `JsObjects.Put` does, so the grouped map is an association list.
 */
module Grouping {
  import opened Wrappers
  import opened Sequences
  import opened Sorting
  import opened JsObjects

  /** `for (const x of xs) v = step(v, x)`, starting from `v0`. */
  function FoldFrom<T, V>(xs: seq<T>, v0: V, step: (V, T) -> V): V
    decreases |xs|
  {
    if xs == [] then v0 else step(FoldFrom(xs[..|xs| - 1], v0, step), xs[|xs| - 1])
  }

  lemma FoldSnoc<T, V>(xs: seq<T>, x: T, v0: V, step: (V, T) -> V)
    ensures FoldFrom(xs + [x], v0, step) == step(FoldFrom(xs, v0, step), x)
  {
    assert (xs + [x])[..|xs|] == xs;
  }

  /**
   * A part of the accumulated value that each step updates on its own is
   * the fold of that part.
   */
  lemma {:induction false} FoldProject<T, V, W>(xs: seq<T>, v0: V, step: (V, T) -> V, part: V -> W, partStep: (W, T) -> W)
    requires forall v, x :: part(step(v, x)) == partStep(part(v), x)
    ensures part(FoldFrom(xs, v0, step)) == FoldFrom(xs, part(v0), partStep)
    decreases |xs|
  {
    if xs != [] {
      FoldProject(xs[..|xs| - 1], v0, step, part, partStep);
    }
  }

  /** A part of the accumulated value that no step changes keeps its first value. */
  lemma {:induction false} FoldKeeps<T, V, W>(xs: seq<T>, v0: V, step: (V, T) -> V, part: V -> W)
    requires forall v, x :: part(step(v, x)) == part(v)
    ensures part(FoldFrom(xs, v0, step)) == part(v0)
    decreases |xs|
  {
    if xs != [] {
      FoldKeeps(xs[..|xs| - 1], v0, step, part);
    }
  }

  /** The entry under `k`, or `d` when there is none (`m.get(k)` after `m.set(k, d)` for a new key). */
  function EntryOr<V>(m: Entries<V>, k: string, d: V): V {
    match Get(m, k)
    case Some(v) => v
    case None => d
  }

  /** One element of the grouping loop. */
  function GroupStep<T, V>(key: T -> string, start: T -> V, step: (V, T) -> V): (Entries<V>, T) -> Entries<V> {
    (m: Entries<V>, x: T) => Put(m, key(x), step(EntryOr(m, key(x), start(x)), x))
  }

  /** The map after the grouping loop over `xs`, starting from an empty `Map`. */
  function GroupBy<T, V>(xs: seq<T>, key: T -> string, start: T -> V, step: (V, T) -> V): Entries<V> {
    FoldFrom(xs, [], GroupStep(key, start, step))
  }

  /** The test "filed under `k`". */
  function KeyIs<T>(key: T -> string, k: string): T -> bool {
    x => key(x) == k
  }

  lemma GroupStepIs<T, V>(key: T -> string, start: T -> V, step: (V, T) -> V, m: Entries<V>, x: T)
    ensures GroupStep(key, start, step)(m, x) == Put(m, key(x), step(EntryOr(m, key(x), start(x)), x))
  {
  }

  /**
   * `if (!m.has(k)) m.set(k, d)`: afterwards `m.get(k)` is the entry or
   * `d`, and a later `m.set(k, v)` ends as if it were the only one.
   */
  lemma SetDefault<V>(m: Entries<V>, k: string, d: V, v: V)
    ensures var m1 := if Get(m, k).None? then Put(m, k, d) else m;
      Get(m1, k) == Some(EntryOr(m, k, d)) && Put(m1, k, v) == Put(m, k, v)
  {
    if Get(m, k).None? {
      PutTwice(m, k, d, v);
    }
  }

  /** The elements filed under `k`, in order. */
  function Group<T>(xs: seq<T>, key: T -> string, k: string): seq<T> {
    Filter(xs, KeyIs(key, k))
  }

  lemma GroupBySnoc<T, V>(xs: seq<T>, x: T, key: T -> string, start: T -> V, step: (V, T) -> V)
    ensures GroupBy(xs + [x], key, start, step)
      == Put(GroupBy(xs, key, start, step), key(x), step(EntryOr(GroupBy(xs, key, start, step), key(x), start(x)), x))
  {
    FoldSnoc(xs, x, [], GroupStep(key, start, step));
  }

  /** One entry per distinct key, in order of first appearance. */
  lemma {:induction false} GroupByKeys<T, V>(xs: seq<T>, key: T -> string, start: T -> V, step: (V, T) -> V)
    ensures Keys(GroupBy(xs, key, start, step)) == Dedup(Map(xs, key))
    ensures DistinctKeys(GroupBy(xs, key, start, step))
    decreases |xs|
  {
    if xs != [] {
      var n := |xs| - 1;
      var init, x := xs[..n], xs[n];
      assert xs == init + [x];
      GroupByKeys(init, key, start, step);
      GroupBySnoc(init, x, key, start, step);
      var m := GroupBy(init, key, start, step);
      PutDistinct(m, key(x), step(EntryOr(m, key(x), start(x)), x));
      MapSnoc(init, x, key);
      DedupAdd(Map(init, key), key(x));
    }
  }

  /** A key has an entry exactly when some element is filed under it. */
  lemma GroupByHas<T, V>(xs: seq<T>, key: T -> string, start: T -> V, step: (V, T) -> V, k: string)
    ensures k in Keys(GroupBy(xs, key, start, step)) <==> Group(xs, key, k) != []
  {
    GroupByKeys(xs, key, start, step);
    DedupSameElements(Map(xs, key), k);
    var g := Group(xs, key, k);
    if k in Map(xs, key) {
      var i :| 0 <= i < |xs| && key(xs[i]) == k;
      assert KeyIs(key, k)(xs[i]);
      assert xs[i] in g;
    }
    if g != [] {
      assert g[0] in xs && key(g[0]) == k;
      var i :| 0 <= i < |xs| && xs[i] == g[0];
      assert Map(xs, key)[i] == k;
    }
  }

  /**
   * The entry under a key is what `start` and `step` make of the elements
   * filed under it, in order: the loop's interleaving of other keys does
   * not matter.
   */
  lemma {:induction false} GroupByGet<T, V>(xs: seq<T>, key: T -> string, start: T -> V, step: (V, T) -> V, k: string)
    requires Group(xs, key, k) != []
    ensures Get(GroupBy(xs, key, start, step), k)
      == Some(FoldFrom(Group(xs, key, k), start(Group(xs, key, k)[0]), step))
    decreases |xs|
  {
    var n := |xs| - 1;
    var init, x := xs[..n], xs[n];
    assert xs == init + [x];
    var m := GroupBy(init, key, start, step);
    GroupBySnoc(init, x, key, start, step);
    FilterSnoc(init, x, KeyIs(key, k));
    var g0 := Group(init, key, k);
    if key(x) != k {
      assert Group(xs, key, k) == g0;
      GroupByGet(init, key, start, step, k);
      PutOther(m, key(x), step(EntryOr(m, key(x), start(x)), x), k);
    } else {
      assert Group(xs, key, k) == g0 + [x];
      FoldSnoc(g0, x, start((g0 + [x])[0]), step);
      GroupByHas(init, key, start, step, k);
      if g0 != [] {
        GroupByGet(init, key, start, step, k);
      }
    }
  }

  // ---------------------------------------------------------------------------
  // Counting with a `Map`: `m.set(k, (m.get(k) || 0) + 1)`

  function CountStep<T>(key: T -> string): (Entries<int>, T) -> Entries<int> {
    (m: Entries<int>, x: T) => AddTo(m, key(x), 1)
  }

  /** The counts after the loop over `xs`, starting from an empty `Map`. */
  function CountBy<T>(xs: seq<T>, key: T -> string): Entries<int> {
    FoldFrom(xs, [], CountStep(key))
  }

  /** Each element is counted once: the counts add up to the number of elements. */
  lemma {:induction false} CountByTotal<T>(xs: seq<T>, key: T -> string)
    ensures Total(CountBy(xs, key)) == |xs|
    decreases |xs|
  {
    if xs != [] {
      var n := |xs| - 1;
      CountByTotal(xs[..n], key);
      AddToTotal(CountBy(xs[..n], key), key(xs[n]), 1);
    }
  }

  /** The count under `k` is the number of elements filed under `k`. */
  lemma {:induction false} CountByGet<T>(xs: seq<T>, key: T -> string, k: string)
    ensures CountOf(CountBy(xs, key), k) == Count(xs, KeyIs(key, k))
    decreases |xs|
  {
    if xs != [] {
      var n := |xs| - 1;
      CountByGet(xs[..n], key, k);
      if key(xs[n]) != k {
        AddToOther(CountBy(xs[..n], key), key(xs[n]), 1, k);
      }
    }
  }

  /** Every key counted is the key of some element. */
  lemma {:induction false} CountByKeys<T>(xs: seq<T>, key: T -> string)
    ensures Keys(CountBy(xs, key)) == Dedup(Map(xs, key))
    decreases |xs|
  {
    if xs != [] {
      var n := |xs| - 1;
      var init, x := xs[..n], xs[n];
      assert xs == init + [x];
      CountByKeys(init, key);
      MapSnoc(init, x, key);
      DedupAdd(Map(init, key), key(x));
    }
  }
}
