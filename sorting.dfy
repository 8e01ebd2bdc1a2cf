/**
 * Sorting and de-duplication as JavaScript's `Array.prototype.sort` (stable
 * since ECMAScript 2019) and `[...new Set(xs)]` provide them.
 *
 * A comparator `cmp(a, b) < 0` is represented by the relation `less(a, b)`:
 * "a must come before b". The sort is a stable insertion sort; its result is
 * ordered whenever `less` is a strict weak order.
 */
module Sorting {

  /** No later element must come before an earlier one. */
  predicate Ordered<T>(s: seq<T>, less: (T, T) -> bool) {
    forall i, j | 0 <= i < j < |s| :: !less(s[j], s[i])
  }

  /** Irreflexive, transitive, and incomparability is transitive. */
  ghost predicate StrictWeakOrder<T(!new)>(less: (T, T) -> bool) {
    (forall a :: !less(a, a))
    && (forall a, b, c :: less(a, b) && less(b, c) ==> less(a, c))
    && (forall a, b, c :: !less(a, b) && !less(b, c) ==> !less(a, c))
  }

  /** Comparing by a key, in the key's order. */
  function ByKey<T, K>(less: (K, K) -> bool, key: T -> K): (T, T) -> bool {
    (a: T, b: T) => less(key(a), key(b))
  }

  /** Comparing by a key is a strict weak order when the keys' order is one. */
  lemma ByKeyStrictWeakOrder<T(!new), K(!new)>(less: (K, K) -> bool, key: T -> K)
    requires StrictWeakOrder(less)
    ensures StrictWeakOrder(ByKey(less, key))
  {
  }

  /** Inserts `x` in front of the first element that need not precede it. */
  function Insert<T>(x: T, t: seq<T>, less: (T, T) -> bool): (r: seq<T>)
    ensures multiset(r) == multiset(t) + multiset{x}
    decreases |t|
  {
    if t == [] || !less(t[0], x) then [x] + t
    else
      assert t == [t[0]] + t[1..];
      [t[0]] + Insert(x, t[1..], less)
  }

  /** `s.slice().sort(cmp)`: a stable insertion sort. */
  function Sort<T>(s: seq<T>, less: (T, T) -> bool): (r: seq<T>)
    ensures multiset(r) == multiset(s)
    ensures |r| == |s|
    decreases |s|
  {
    if s == [] then []
    else
      assert s == [s[0]] + s[1..];
      Insert(s[0], Sort(s[1..], less), less)
  }

  /**
   * A strict weak order among the elements satisfying `P`: a comparator
   * that is consistent on the values a sort is actually given.
   */
  ghost predicate StrictWeakOrderOn<T(!new)>(less: (T, T) -> bool, P: T -> bool) {
    (forall a | P(a) :: !less(a, a))
    && (forall a, b, c | P(a) && P(b) && P(c) && less(a, b) && less(b, c) :: less(a, c))
    && (forall a, b, c | P(a) && P(b) && P(c) && !less(a, b) && !less(b, c) :: !less(a, c))
  }

  lemma {:induction false} InsertOrdered<T(!new)>(x: T, t: seq<T>, less: (T, T) -> bool, P: T -> bool)
    requires StrictWeakOrderOn(less, P) && Ordered(t, less)
    requires P(x) && forall i | 0 <= i < |t| :: P(t[i])
    ensures Ordered(Insert(x, t, less), less)
    decreases |t|
  {
    if t == [] || !less(t[0], x) {
      forall j | 0 <= j < |t| ensures !less(t[j], x) {
        if j > 0 {
          assert !less(t[j], t[0]);
        }
      }
      ConsOrdered(x, t, less);
    } else {
      InsertOrdered(x, t[1..], less, P);
      var u := Insert(x, t[1..], less);
      forall j | 0 <= j < |u| ensures !less(u[j], t[0]) {
        assert u[j] in multiset(u);
        if u[j] != x {
          assert u[j] in multiset(t[1..]);
          var k :| 0 <= k < |t[1..]| && t[1..][k] == u[j];
          assert t[k + 1] == u[j];
        }
      }
      ConsOrdered(t[0], u, less);
    }
  }

  /** An element no later element comes before can be put in front. */
  lemma ConsOrdered<T>(h: T, u: seq<T>, less: (T, T) -> bool)
    requires Ordered(u, less) && forall j | 0 <= j < |u| :: !less(u[j], h)
    ensures Ordered([h] + u, less)
  {
    var r := [h] + u;
    forall i, j | 0 <= i < j < |r|
      ensures !less(r[j], r[i])
    {
      assert r[j] == u[j - 1];
      if i > 0 {
        assert r[i] == u[i - 1];
      }
    }
  }

  /**
   * The sort's result is ordered when the comparator is a strict weak order
   * on the elements it sorts.
   */
  lemma {:induction false} SortOrderedOn<T(!new)>(s: seq<T>, less: (T, T) -> bool, P: T -> bool)
    requires StrictWeakOrderOn(less, P) && forall i | 0 <= i < |s| :: P(s[i])
    ensures Ordered(Sort(s, less), less)
    decreases |s|
  {
    if s != [] {
      SortOrderedOn(s[1..], less, P);
      SortKeeps(s[1..], less, P);
      InsertOrdered(s[0], Sort(s[1..], less), less, P);
    }
  }

  /** Under a strict weak order the sort's result is ordered. */
  lemma SortOrdered<T(!new)>(s: seq<T>, less: (T, T) -> bool)
    requires StrictWeakOrder(less)
    ensures Ordered(Sort(s, less), less)
  {
    SortOrderedOn(s, less, _ => true);
  }

  /** Sorting keeps exactly the elements it was given. */
  lemma SortSameElements<T>(s: seq<T>, less: (T, T) -> bool, x: T)
    ensures x in Sort(s, less) <==> x in s
  {
    assert x in multiset(Sort(s, less)) <==> x in multiset(s);
  }

  /** An element-wise fact survives sorting. */
  lemma SortKeeps<T>(s: seq<T>, less: (T, T) -> bool, P: T -> bool)
    requires forall i | 0 <= i < |s| :: P(s[i])
    ensures forall i | 0 <= i < |Sort(s, less)| :: P(Sort(s, less)[i])
  {
    var r := Sort(s, less);
    forall i | 0 <= i < |r|
      ensures P(r[i])
    {
      SortSameElements(s, less, r[i]);
    }
  }

  /** No two elements at different positions are related by `R`. */
  predicate Apart<T>(s: seq<T>, R: (T, T) -> bool) {
    forall a, b | 0 <= a < |s| && 0 <= b < |s| && a != b :: !R(s[a], s[b])
  }

  lemma ApartTail<T>(s: seq<T>, R: (T, T) -> bool)
    requires s != [] && Apart(s, R)
    ensures Apart(s[1..], R)
  {
    var t := s[1..];
    forall a, b | 0 <= a < |t| && 0 <= b < |t| && a != b
      ensures !R(t[a], t[b])
    {
      assert t[a] == s[a + 1] && t[b] == s[b + 1];
    }
  }

  /** An element unrelated to every element can be appended. */
  lemma SnocApart<T>(u: seq<T>, x: T, R: (T, T) -> bool)
    requires Apart(u, R)
    requires forall j | 0 <= j < |u| :: !R(x, u[j]) && !R(u[j], x)
    ensures Apart(u + [x], R)
  {
    var r := u + [x];
    forall a, b | 0 <= a < |r| && 0 <= b < |r| && a != b
      ensures !R(r[a], r[b])
    {
      if a < |u| {
        assert r[a] == u[a];
      }
      if b < |u| {
        assert r[b] == u[b];
      }
    }
  }

  /** An element of `Insert(x, t)` is `x` or an element of `t`. */
  lemma InsertElement<T>(x: T, t: seq<T>, less: (T, T) -> bool, y: T)
    requires y in Insert(x, t, less)
    ensures y == x || y in t
  {
    assert y in multiset(Insert(x, t, less));
  }

  /** A head unrelated to every element keeps a sequence apart. */
  lemma ConsApart<T>(h: T, u: seq<T>, R: (T, T) -> bool)
    requires Apart(u, R)
    requires forall j | 0 <= j < |u| :: !R(h, u[j]) && !R(u[j], h)
    ensures Apart([h] + u, R)
  {
    var r := [h] + u;
    forall a, b | 0 <= a < |r| && 0 <= b < |r| && a != b
      ensures !R(r[a], r[b])
    {
      if a > 0 {
        assert r[a] == u[a - 1];
      }
      if b > 0 {
        assert r[b] == u[b - 1];
      }
    }
  }

  lemma {:induction false} InsertApart<T>(x: T, t: seq<T>, less: (T, T) -> bool, R: (T, T) -> bool)
    requires Apart(t, R)
    requires forall j | 0 <= j < |t| :: !R(x, t[j]) && !R(t[j], x)
    ensures Apart(Insert(x, t, less), R)
    decreases |t|
  {
    if t == [] || !less(t[0], x) {
      ConsApart(x, t, R);
    } else {
      var t' := t[1..];
      ApartTail(t, R);
      InsertApart(x, t', less, R);
      var u := Insert(x, t', less);
      forall b | 0 <= b < |u|
        ensures !R(t[0], u[b]) && !R(u[b], t[0])
      {
        InsertElement(x, t', less, u[b]);
        if u[b] != x {
          var k :| 0 <= k < |t'| && t'[k] == u[b];
          assert t[k + 1] == u[b];
        }
      }
      ConsApart(t[0], u, R);
    }
  }

  /** Sorting keeps elements apart: it only reorders them. */
  lemma {:induction false} SortApart<T>(s: seq<T>, less: (T, T) -> bool, R: (T, T) -> bool)
    requires Apart(s, R)
    ensures Apart(Sort(s, less), R)
    decreases |s|
  {
    if s != [] {
      var t := s[1..];
      ApartTail(s, R);
      SortApart(t, less, R);
      var u := Sort(t, less);
      forall j | 0 <= j < |u|
        ensures !R(s[0], u[j]) && !R(u[j], s[0])
      {
        SortSameElements(t, less, u[j]);
        var k :| 0 <= k < |t| && t[k] == u[j];
        assert s[k + 1] == t[k];
      }
      InsertApart(s[0], u, less, R);
    }
  }

  // ---------------------------------------------------------------------------
  // De-duplication

  predicate NoDuplicates<T(==)>(s: seq<T>) {
    forall i, j | 0 <= i < j < |s| :: s[i] != s[j]
  }

  /** `[...new Set(s)]`: each element once, in order of first occurrence. */
  function Dedup<T(==)>(s: seq<T>): (r: seq<T>)
    ensures NoDuplicates(r)
    ensures forall i | 0 <= i < |s| :: s[i] in r
    ensures forall i | 0 <= i < |r| :: r[i] in s
    ensures |r| <= |s|
    decreases |s|
  {
    if s == [] then []
    else
      var d := Dedup(s[..|s| - 1]);
      assert s == s[..|s| - 1] + [s[|s| - 1]];
      if s[|s| - 1] in d then d else d + [s[|s| - 1]]
  }

  lemma ConcatAssoc<T>(a: seq<T>, b: seq<T>, c: seq<T>)
    ensures a + (b + c) == (a + b) + c
  {
  }

  /** De-duplication keeps exactly the elements it was given. */
  lemma DedupSameElements<T>(s: seq<T>, x: T)
    ensures x in Dedup(s) <==> x in s
  {
    var r := Dedup(s);
    if x in s {
      var i :| 0 <= i < |s| && s[i] == x;
    }
    if x in r {
      var i :| 0 <= i < |r| && r[i] == x;
    }
  }

  /** Appending an element de-duplicates to appending it when it is new. */
  lemma DedupSnoc<T>(s: seq<T>, x: T)
    ensures Dedup(s + [x]) == if x in s then Dedup(s) else Dedup(s) + [x]
  {
    assert (s + [x])[..|s|] == s;
    DedupSameElements(s, x);
  }

  /** `set.add(x)` on the de-duplicated sequence. */
  lemma DedupAdd<T>(s: seq<T>, x: T)
    ensures Dedup(s + [x]) == if x in Dedup(s) then Dedup(s) else Dedup(s) + [x]
  {
    DedupSnoc(s, x);
    DedupSameElements(s, x);
  }

  /** Sorting a duplicate-free sequence keeps it duplicate-free. */
  lemma SortNoDuplicates<T>(s: seq<T>, less: (T, T) -> bool)
    requires NoDuplicates(s)
    ensures NoDuplicates(Sort(s, less))
  {
    var r := Sort(s, less);
    forall i, j | 0 <= i < j < |r|
      ensures r[i] != r[j]
    {
      if r[i] == r[j] {
        MultisetCountTwo(r, i, j);
        DistinctCountOne(s, r[i]);
      }
    }
  }

  lemma MultisetCountTwo<T>(s: seq<T>, i: int, j: int)
    requires 0 <= i < j < |s| && s[i] == s[j]
    ensures multiset(s)[s[i]] >= 2
  {
    assert s == s[..j] + [s[j]] + s[j + 1..];
    assert s[i] in multiset(s[..j]) by { assert s[..j][i] == s[i]; }
    assert multiset(s) == multiset(s[..j]) + multiset{s[j]} + multiset(s[j + 1..]);
  }

  lemma {:induction false} DistinctCountOne<T>(s: seq<T>, x: T)
    requires NoDuplicates(s)
    ensures multiset(s)[x] <= 1
    decreases |s|
  {
    if s != [] {
      assert s == [s[0]] + s[1..];
      assert NoDuplicates(s[1..]) by {
        forall i, j | 0 <= i < j < |s[1..]| ensures s[1..][i] != s[1..][j] {
          assert s[i + 1] != s[j + 1];
        }
      }
      DistinctCountOne(s[1..], x);
      if x == s[0] {
        assert s[0] !in s[1..] by {
          forall k | 0 <= k < |s[1..]| ensures s[1..][k] != s[0] {
            assert s[k + 1] != s[0];
          }
        }
      }
    }
  }

  /** Ordered and duplicate-free under a key order: strictly increasing. */
  lemma OrderedDistinctStrict<T>(s: seq<T>, less: (T, T) -> bool, i: int, j: int)
    requires Ordered(s, less) && NoDuplicates(s)
    requires forall a, b :: a != b ==> less(a, b) || less(b, a)
    requires 0 <= i < j < |s|
    ensures less(s[i], s[j])
  {
    assert s[i] != s[j];
    assert !less(s[j], s[i]);
  }

  // ---------------------------------------------------------------------------
  // The default string order of `Array.prototype.sort()`

  /** Lexicographic order on character codes; a proper prefix comes first. */
  predicate LexLess(a: string, b: string)
    decreases |a|
  {
    if |a| == 0 then |b| > 0
    else if |b| == 0 then false
    else if a[0] != b[0] then a[0] < b[0]
    else LexLess(a[1..], b[1..])
  }

  lemma {:induction false} LexIrreflexive(a: string)
    ensures !LexLess(a, a)
    decreases |a|
  {
    if |a| > 0 {
      LexIrreflexive(a[1..]);
    }
  }

  lemma {:induction false} LexTransitive(a: string, b: string, c: string)
    requires LexLess(a, b) && LexLess(b, c)
    ensures LexLess(a, c)
    decreases |a|
  {
    if |a| > 0 && a[0] == b[0] && b[0] == c[0] {
      LexTransitive(a[1..], b[1..], c[1..]);
    }
  }

  /** Distinct strings are comparable one way or the other. */
  lemma {:induction false} LexTotal(a: string, b: string)
    ensures a == b || LexLess(a, b) || LexLess(b, a)
    decreases |a|
  {
    if |a| > 0 && |b| > 0 && a[0] == b[0] {
      LexTotal(a[1..], b[1..]);
      if a[1..] == b[1..] {
        assert a == [a[0]] + a[1..] && b == [b[0]] + b[1..];
      }
    }
  }

  lemma LexAsymmetric(a: string, b: string)
    requires LexLess(a, b)
    ensures !LexLess(b, a)
  {
    if LexLess(b, a) {
      LexTransitive(a, b, a);
      LexIrreflexive(a);
    }
  }

  /** The lexicographic order is a strict weak (indeed total) order. */
  lemma LexStrictWeakOrder()
    ensures StrictWeakOrder(LexLess)
    ensures forall a, b :: a != b ==> LexLess(a, b) || LexLess(b, a)
  {
    forall a ensures !LexLess(a, a) { LexIrreflexive(a); }
    forall a, b, c | LexLess(a, b) && LexLess(b, c) ensures LexLess(a, c) {
      LexTransitive(a, b, c);
    }
    forall a, b, c | !LexLess(a, b) && !LexLess(b, c) ensures !LexLess(a, c) {
      LexTotal(a, b);
      LexTotal(b, c);
      if LexLess(a, c) {
        if a == b {
        } else if b == c {
        } else {
          LexTransitive(c, b, a);
          LexAsymmetric(a, c);
        }
      }
    }
    forall a, b | a != b ensures LexLess(a, b) || LexLess(b, a) { LexTotal(a, b); }
  }

  /** `[...new Set(s)].sort()`. */
  function SortedDistinct(s: seq<string>): seq<string> {
    Sort(Dedup(s), LexLess)
  }

  /** The distinct strings, in strictly increasing order. */
  lemma SortedDistinctMeaning(s: seq<string>)
    ensures forall x :: x in SortedDistinct(s) <==> x in s
    ensures NoDuplicates(SortedDistinct(s))
    ensures forall i, j | 0 <= i < j < |SortedDistinct(s)| :: LexLess(SortedDistinct(s)[i], SortedDistinct(s)[j])
  {
    var d := Dedup(s);
    var r := Sort(d, LexLess);
    LexStrictWeakOrder();
    SortOrdered(d, LexLess);
    SortNoDuplicates(d, LexLess);
    forall x ensures x in r <==> x in s {
      SortSameElements(d, LexLess, x);
      DedupSameElements(s, x);
    }
    forall i, j | 0 <= i < j < |r| ensures LexLess(r[i], r[j]) {
      OrderedDistinctStrict(r, LexLess, i, j);
    }
  }


  // ---------------------------------------------------------------------------
  // Comparators returning a number, such as `localeCompare`

  /**
   * A consistent comparator in the sense of `Array.prototype.sort`
   * (section 23.1.3.30 of ECMA-262): the signs of `compare(a, b)` and
   * `compare(b, a)` are opposite, and "before" and "equal" are transitive.
   */
  ghost predicate ConsistentCompare(compare: (string, string) -> int) {
    && (forall a, b :: compare(a, b) < 0 <==> compare(b, a) > 0)
    && (forall a, b :: compare(a, b) == 0 <==> compare(b, a) == 0)
    && (forall a, b, c :: compare(a, b) < 0 && compare(b, c) < 0 ==> compare(a, c) < 0)
    && (forall a, b, c :: compare(a, b) == 0 && compare(b, c) == 0 ==> compare(a, c) == 0)
  }

  /** "`compare(a, b)` is negative": the relation a sort by `compare` uses. */
  function CompareLess(compare: (string, string) -> int): (string, string) -> bool {
    (a: string, b: string) => compare(a, b) < 0
  }

  /** A consistent comparator sorts by a strict weak order. */
  lemma CompareLessStrictWeak(compare: (string, string) -> int)
    requires ConsistentCompare(compare)
    ensures StrictWeakOrder(CompareLess(compare))
  {
    var less := CompareLess(compare);
    forall a, b, c | !less(a, b) && !less(b, c) ensures !less(a, c) {
      assert compare(b, a) <= 0 && compare(c, b) <= 0;
    }
  }
}
