/**
 * `Array.prototype.filter` and `Array.prototype.map` over values, and the
 * facts about them the front-end models share.
 */
module Sequences {
  import opened Wrappers

  /** `s.filter(p)`: the elements satisfying `p`, in their original order. */
  function Filter<T>(s: seq<T>, p: T -> bool): (r: seq<T>)
    ensures |r| <= |s|
    ensures forall i | 0 <= i < |r| :: p(r[i]) && r[i] in s
    ensures forall i | 0 <= i < |s| && p(s[i]) :: s[i] in r
    decreases |s|
  {
    if s == [] then []
    else
      var init := Filter(s[..|s| - 1], p);
      assert s == s[..|s| - 1] + [s[|s| - 1]];
      init + (if p(s[|s| - 1]) then [s[|s| - 1]] else [])
  }

  /** `s.map(f)`. */
  function Map<T, U>(s: seq<T>, f: T -> U): (r: seq<U>)
    ensures |r| == |s| && forall i | 0 <= i < |s| :: r[i] == f(s[i])
  {
    seq(|s|, i requires 0 <= i < |s| => f(s[i]))
  }

  /** The elements of `s.map(f)` are the images of the elements of `s`. */
  lemma MapMembers<T, U>(s: seq<T>, f: T -> U)
    ensures forall y :: y in Map(s, f) <==> exists x | x in s :: y == f(x)
  {
    forall y ensures y in Map(s, f) <==> exists x | x in s :: y == f(x) {
      if exists x | x in s :: y == f(x) {
        var x :| x in s && y == f(x);
        var i :| 0 <= i < |s| && s[i] == x;
        assert Map(s, f)[i] == y;
      }
    }
  }

  /** An element of a non-empty sequence is in its front part or is its last element. */
  lemma InSnoc<T>(s: seq<T>, x: T)
    requires s != []
    ensures x in s <==> x in s[..|s| - 1] || x == s[|s| - 1]
  {
    assert s == s[..|s| - 1] + [s[|s| - 1]];
  }

  lemma FilterSnoc<T>(s: seq<T>, x: T, p: T -> bool)
    ensures Filter(s + [x], p) == Filter(s, p) + (if p(x) then [x] else [])
  {
    assert (s + [x])[..|s|] == s;
  }

  lemma MapPair<T, U>(a: T, b: T, f: T -> U)
    ensures Map([a, b], f) == [f(a), f(b)]
  {
  }

  lemma MapSnoc<T, U>(s: seq<T>, x: T, f: T -> U)
    ensures Map(s + [x], f) == Map(s, f) + [f(x)]
  {
  }

  lemma MapLast<T, U>(s: seq<T>, f: T -> U)
    requires s != []
    ensures Map(s, f) == Map(s[..|s| - 1], f) + [f(s[|s| - 1])]
  {
    assert s == s[..|s| - 1] + [s[|s| - 1]];
    MapSnoc(s[..|s| - 1], s[|s| - 1], f);
  }

  /** Filters by tests that agree on every element give the same result. */
  lemma {:induction false} FilterExt<T>(s: seq<T>, p: T -> bool, q: T -> bool)
    requires forall i | 0 <= i < |s| :: p(s[i]) == q(s[i])
    ensures Filter(s, p) == Filter(s, q)
    decreases |s|
  {
    if s != [] {
      FilterExt(s[..|s| - 1], p, q);
    }
  }

  /** Filtering mapped elements is mapping the elements whose image passes. */
  lemma {:induction false} FilterMap<T, U>(s: seq<T>, f: T -> U, p: U -> bool, q: T -> bool)
    requires forall i | 0 <= i < |s| :: q(s[i]) == p(f(s[i]))
    ensures Filter(Map(s, f), p) == Map(Filter(s, q), f)
    decreases |s|
  {
    if s != [] {
      var n := |s| - 1;
      FilterMap(s[..n], f, p, q);
      assert s == s[..n] + [s[n]];
      MapSnoc(s[..n], s[n], f);
      FilterSnoc(Map(s[..n], f), f(s[n]), p);
      FilterSnoc(s[..n], s[n], q);
      if q(s[n]) {
        MapSnoc(Filter(s[..n], q), s[n], f);
      }
    }
  }

  lemma {:induction false} FilterConcat<T>(a: seq<T>, b: seq<T>, p: T -> bool)
    ensures Filter(a + b, p) == Filter(a, p) + Filter(b, p)
    decreases |b|
  {
    if b == [] {
      assert a + b == a;
    } else {
      var n := |b| - 1;
      assert a + b == (a + b[..n]) + [b[n]];
      assert b == b[..n] + [b[n]];
      FilterConcat(a, b[..n], p);
      FilterSnoc(a + b[..n], b[n], p);
      FilterSnoc(b[..n], b[n], p);
    }
  }

  /** Filtering keeps everything exactly when every element passes. */
  lemma {:induction false} FilterKeepsAll<T>(s: seq<T>, p: T -> bool)
    ensures Filter(s, p) == s <==> forall i | 0 <= i < |s| :: p(s[i])
    decreases |s|
  {
    if s != [] {
      FilterKeepsAll(s[..|s| - 1], p);
      FilterSnoc(s[..|s| - 1], s[|s| - 1], p);
      assert s == s[..|s| - 1] + [s[|s| - 1]];
    }
  }

  /** Nothing passes, nothing is kept. */
  lemma {:induction false} FilterNone<T>(s: seq<T>, p: T -> bool)
    requires forall i | 0 <= i < |s| :: !p(s[i])
    ensures Filter(s, p) == []
    decreases |s|
  {
    if s != [] {
      FilterNone(s[..|s| - 1], p);
    }
  }

  /** Filtering twice by the same test is filtering once. */
  lemma FilterIdempotent<T>(s: seq<T>, p: T -> bool)
    ensures Filter(Filter(s, p), p) == Filter(s, p)
  {
    FilterKeepsAll(Filter(s, p), p);
  }

  /** Two filters in a row keep what passes both. */
  lemma {:induction false} FilterFilter<T>(s: seq<T>, p: T -> bool, q: T -> bool)
    ensures Filter(Filter(s, p), q) == Filter(s, x => p(x) && q(x))
    decreases |s|
  {
    if s != [] {
      var n := |s| - 1;
      FilterFilter(s[..n], p, q);
      var here := if p(s[n]) then [s[n]] else [];
      FilterConcat(Filter(s[..n], p), here, q);
    }
  }

  /** The filter keeps the relative order: two kept elements come from positions in the same order. */
  lemma {:induction false} FilterOrder<T>(s: seq<T>, p: T -> bool, i: int, j: int)
    requires 0 <= i < j < |Filter(s, p)|
    ensures exists a, b | 0 <= a < b < |s| :: s[a] == Filter(s, p)[i] && s[b] == Filter(s, p)[j]
    decreases |s|
  {
    var n := |s| - 1;
    var init := Filter(s[..n], p);
    assert s == s[..n] + [s[n]];
    FilterSnoc(s[..n], s[n], p);
    if j < |init| {
      FilterOrder(s[..n], p, i, j);
      var a, b :| 0 <= a < b < n && s[..n][a] == init[i] && s[..n][b] == init[j];
      assert s[a] == Filter(s, p)[i] && s[b] == Filter(s, p)[j];
    } else {
      assert init[i] in s[..n];
      var a :| 0 <= a < n && s[..n][a] == init[i];
      assert s[a] == Filter(s, p)[i] && s[n] == Filter(s, p)[j];
    }
  }

  /** The number of elements satisfying `p`. */
  function Count<T>(s: seq<T>, p: T -> bool): nat
    decreases |s|
  {
    if s == [] then 0 else Count(s[..|s| - 1], p) + (if p(s[|s| - 1]) then 1 else 0)
  }

  /** The filter keeps exactly as many elements as satisfy the test. */
  lemma {:induction false} FilterLength<T>(s: seq<T>, p: T -> bool)
    ensures |Filter(s, p)| == Count(s, p)
    decreases |s|
  {
    if s != [] {
      FilterLength(s[..|s| - 1], p);
    }
  }

  /** `s.map(f)` with a callback that may throw: the callbacks run in order and the first throw ends the call. */
  function MapResult<T, U>(s: seq<T>, f: T -> Result<U>): (r: Result<seq<U>>)
    ensures r.Ok? ==> |r.value| == |s|
    decreases |s|
  {
    if s == [] then Ok([])
    else match MapResult(s[..|s| - 1], f)
      case Err(e) => Err(e)
      case Ok(init) =>
        match f(s[|s| - 1])
        case Err(e) => Err(e)
        case Ok(x) => Ok(init + [x])
  }

  /** Each result is the callback's value on the element at its own position. */
  lemma {:induction false} MapResultEach<T, U>(s: seq<T>, f: T -> Result<U>, i: int)
    requires MapResult(s, f).Ok? && 0 <= i < |s|
    ensures f(s[i]) == Ok(MapResult(s, f).value[i])
    decreases |s|
  {
    var n := |s| - 1;
    if i < n {
      MapResultEach(s[..n], f, i);
      assert s[..n][i] == s[i];
    }
  }

  /** The call throws exactly when the callback throws on some element. */
  lemma {:induction false} MapResultThrows<T, U>(s: seq<T>, f: T -> Result<U>)
    ensures MapResult(s, f).Err? <==> exists i | 0 <= i < |s| :: f(s[i]).Err?
    decreases |s|
  {
    if s != [] {
      var n := |s| - 1;
      MapResultThrows(s[..n], f);
      if exists i | 0 <= i < n :: f(s[..n][i]).Err? {
        var i :| 0 <= i < n && f(s[..n][i]).Err?;
        assert s[i] == s[..n][i];
      }
      if exists i | 0 <= i < |s| :: f(s[i]).Err? {
        var i :| 0 <= i < |s| && f(s[i]).Err?;
        if i < n {
          assert s[..n][i] == s[i];
        }
      }
    }
  }
}
