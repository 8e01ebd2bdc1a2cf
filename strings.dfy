/**
 * Text operations shared by the JavaScript and Python parts of the model:
 * substring search, `split`/`join`, global literal replacement, trimming,
 * ASCII case mapping, decimal number text and padding.
 */
module Strings {

  // ---------------------------------------------------------------------------
  // Prefixes, suffixes, occurrences

  predicate StartsWith(s: string, p: string) {
    |p| <= |s| && s[..|p|] == p
  }

  predicate EndsWith(s: string, p: string) {
    |p| <= |s| && s[|s| - |p|..] == p
  }

  /** `t` occurs in `s` starting at index `i`. */
  predicate OccursAt(s: string, t: string, i: int) {
    0 <= i && i + |t| <= |s| && s[i..i + |t|] == t
  }

  /** Python's `t in s`, JavaScript's `s.includes(t)`. */
  predicate Contains(s: string, t: string) {
    exists i | 0 <= i <= |s| - |t| :: OccursAt(s, t, i)
  }

  /** No occurrence of `t` starts before index `n`. */
  predicate NoOccurrenceBefore(s: string, t: string, n: int) {
    forall i | 0 <= i < n :: !OccursAt(s, t, i)
  }

  // ---------------------------------------------------------------------------
  // split / join / replace with a literal, non-empty pattern

  /**
   * `s.split(sep)` in JavaScript and Python: the pieces between the leftmost
   * non-overlapping occurrences of `sep`.
   */
  function Split(s: string, sep: string): (parts: seq<string>)
    requires |sep| > 0
    ensures |parts| >= 1
    decreases |s|
  {
    if |s| < |sep| then [s]
    else if s[..|sep|] == sep then [""] + Split(s[|sep|..], sep)
    else
      var r := Split(s[1..], sep);
      [[s[0]] + r[0]] + r[1..]
  }

  /** `parts.join(sep)` / `sep.join(parts)`. */
  function Join(parts: seq<string>, sep: string): string
    decreases |parts|
  {
    if |parts| == 0 then ""
    else if |parts| == 1 then parts[0]
    else parts[0] + sep + Join(parts[1..], sep)
  }

  /**
   * Replaces every leftmost non-overlapping occurrence of `pat` by `rep`:
   * Python's `str.replace(pat, rep)` and JavaScript's
   * `s.replace(/pat/g, rep)` for a literal pattern (replacement text taken
   * literally).
   */
  function ReplaceAll(s: string, pat: string, rep: string): string
    requires |pat| > 0
    decreases |s|
  {
    if |s| < |pat| then s
    else if s[..|pat|] == pat then rep + ReplaceAll(s[|pat|..], pat, rep)
    else [s[0]] + ReplaceAll(s[1..], pat, rep)
  }

  lemma JoinConsHead(a: string, b: string, rest: seq<string>, sep: string)
    ensures Join([a + b] + rest, sep) == a + Join([b] + rest, sep)
  {
    if |rest| > 0 {
      assert ([a + b] + rest)[1..] == rest;
      assert ([b] + rest)[1..] == rest;
    }
  }

  lemma JoinCons(a: string, rest: seq<string>, sep: string)
    requires |rest| > 0
    ensures Join([a] + rest, sep) == a + sep + Join(rest, sep)
  {
    assert ([a] + rest)[1..] == rest;
  }

  /** Replacing is splitting at the occurrences and joining with the replacement. */
  lemma {:induction false} ReplaceAllIsSplitJoin(s: string, pat: string, rep: string)
    requires |pat| > 0
    ensures ReplaceAll(s, pat, rep) == Join(Split(s, pat), rep)
    decreases |s|
  {
    if |s| < |pat| {
    } else if s[..|pat|] == pat {
      ReplaceAllIsSplitJoin(s[|pat|..], pat, rep);
      ReplaceMatchStep(s, pat, rep);
    } else {
      ReplaceAllIsSplitJoin(s[1..], pat, rep);
      ReplaceSkipStep(s, pat, rep);
    }
  }

  lemma ReplaceMatchStep(s: string, pat: string, rep: string)
    requires |pat| > 0 && |s| >= |pat| && s[..|pat|] == pat
    requires ReplaceAll(s[|pat|..], pat, rep) == Join(Split(s[|pat|..], pat), rep)
    ensures ReplaceAll(s, pat, rep) == Join(Split(s, pat), rep)
  {
    JoinCons("", Split(s[|pat|..], pat), rep);
  }

  lemma ReplaceSkipStep(s: string, pat: string, rep: string)
    requires |pat| > 0 && |s| >= |pat| && s[..|pat|] != pat
    requires ReplaceAll(s[1..], pat, rep) == Join(Split(s[1..], pat), rep)
    ensures ReplaceAll(s, pat, rep) == Join(Split(s, pat), rep)
  {
    var r := Split(s[1..], pat);
    JoinConsHead([s[0]], r[0], r[1..], rep);
    assert [r[0]] + r[1..] == r;
  }

  /** The first piece of a split is a prefix of the text. */
  lemma {:induction false} SplitFirstIsPrefix(s: string, sep: string)
    requires |sep| > 0
    ensures |Split(s, sep)[0]| <= |s| && s[..|Split(s, sep)[0]|] == Split(s, sep)[0]
    decreases |s|
  {
    if |s| < |sep| {
    } else if s[..|sep|] == sep {
    } else {
      SplitFirstIsPrefix(s[1..], sep);
      PrefixCons(s, Split(s[1..], sep)[0]);
    }
  }

  lemma PrefixCons(s: string, p: string)
    requires |s| > 0 && |p| <= |s| - 1 && s[1..][..|p|] == p
    ensures s[..|p| + 1] == [s[0]] + p
  {
    assert s[..|p| + 1] == [s[0]] + s[1..][..|p|];
  }

  /** An occurrence at `i` ends the first piece at or before `i`. */
  lemma {:induction false} SplitFirstEndsBy(s: string, sep: string, i: int)
    requires |sep| > 0 && OccursAt(s, sep, i)
    ensures |Split(s, sep)[0]| <= i
    decreases i
  {
    if s[..|sep|] == sep {
    } else {
      assert i > 0;
      assert s[1..][i - 1..i - 1 + |sep|] == s[i..i + |sep|];
      SplitFirstEndsBy(s[1..], sep, i - 1);
    }
  }

  /** Text without the separator is a single piece. */
  lemma {:induction false} SplitWithoutSeparator(s: string, sep: string)
    requires |sep| > 0 && !Contains(s, sep)
    ensures Split(s, sep) == [s]
    decreases |s|
  {
    if |s| < |sep| {
    } else {
      assert !OccursAt(s, sep, 0);
      if Contains(s[1..], sep) {
        var i :| 0 <= i <= |s[1..]| - |sep| && OccursAt(s[1..], sep, i);
        assert 0 <= i && i + |sep| <= |s| - 1;
        assert s[i + 1..i + 1 + |sep|] == s[1..][i..i + |sep|];
        assert OccursAt(s, sep, i + 1);
      }
      SplitWithoutSeparator(s[1..], sep);
      assert [s[0]] + s[1..] == s;
    }
  }

  /**
   * When the first occurrence of `sep` in `a + sep + b` is the one after `a`,
   * the split yields `a` and then the pieces of `b`.
   */
  lemma {:induction false} SplitAtFirstOccurrence(a: string, sep: string, b: string)
    requires |sep| > 0
    requires NoOccurrenceBefore(a + sep + b, sep, |a|)
    ensures Split(a + sep + b, sep) == [a] + Split(b, sep)
    decreases |a|
  {
    var x := a + sep + b;
    if |a| == 0 {
      assert x == sep + b;
      assert x[..|sep|] == sep;
      assert x[|sep|..] == b;
    } else {
      assert !OccursAt(x, sep, 0);
      assert x[..|sep|] != sep;
      assert x[1..] == a[1..] + sep + b;
      forall i | 0 <= i < |a[1..]|
        ensures !OccursAt(a[1..] + sep + b, sep, i)
      {
        assert !OccursAt(x, sep, i + 1);
        assert x[i + 1..i + 1 + |sep|] == x[1..][i..i + |sep|];
      }
      SplitAtFirstOccurrence(a[1..], sep, b);
      assert [a[0]] + a[1..] == a;
    }
  }

  /** No piece of a split contains the separator. */
  lemma {:induction false} SplitPiecesAvoidSeparator(s: string, sep: string)
    requires |sep| > 0
    ensures forall k | 0 <= k < |Split(s, sep)| :: !Contains(Split(s, sep)[k], sep)
    decreases |s|
  {
    if |s| < |sep| {
      assert forall i :: !OccursAt(s, sep, i);
    } else if s[..|sep|] == sep {
      SplitPiecesAvoidSeparator(s[|sep|..], sep);
      AvoidMatchStep(s, sep);
    } else {
      SplitPiecesAvoidSeparator(s[1..], sep);
      AvoidSkipStep(s, sep);
    }
  }

  lemma AvoidMatchStep(s: string, sep: string)
    requires |sep| > 0 && |s| >= |sep| && s[..|sep|] == sep
    requires forall k | 0 <= k < |Split(s[|sep|..], sep)| :: !Contains(Split(s[|sep|..], sep)[k], sep)
    ensures forall k | 0 <= k < |Split(s, sep)| :: !Contains(Split(s, sep)[k], sep)
  {
    var r := Split(s[|sep|..], sep);
    assert Split(s, sep) == [""] + r;
    forall k | 0 <= k < |[""] + r|
      ensures !Contains(([""] + r)[k], sep)
    {
      if k == 0 {
        assert forall i :: !OccursAt("", sep, i);
      } else {
        assert ([""] + r)[k] == r[k - 1];
      }
    }
  }

  lemma AvoidSkipStep(s: string, sep: string)
    requires |sep| > 0 && |s| >= |sep| && s[..|sep|] != sep
    requires forall k | 0 <= k < |Split(s[1..], sep)| :: !Contains(Split(s[1..], sep)[k], sep)
    ensures forall k | 0 <= k < |Split(s, sep)| :: !Contains(Split(s, sep)[k], sep)
  {
    var r := Split(s[1..], sep);
    var p := [s[0]] + r[0];
    HeadPieceAvoids(s, sep);
    assert Split(s, sep) == [p] + r[1..];
    forall k | 0 <= k < |[p] + r[1..]|
      ensures !Contains(([p] + r[1..])[k], sep)
    {
      if k > 0 {
        assert ([p] + r[1..])[k] == r[k];
      }
    }
  }

  /** A first piece that grows by a character that starts no separator still avoids it. */
  lemma HeadPieceAvoids(s: string, sep: string)
    requires |sep| > 0 && |s| >= |sep| && s[..|sep|] != sep
    requires !Contains(Split(s[1..], sep)[0], sep)
    ensures !Contains([s[0]] + Split(s[1..], sep)[0], sep)
  {
    SplitFirstIsPrefix(s[1..], sep);
    PrefixGrownAvoids(s, Split(s[1..], sep)[0], sep);
  }

  lemma PrefixGrownAvoids(s: string, r0: string, sep: string)
    requires |sep| > 0 && |s| >= |sep| && s[..|sep|] != sep
    requires |r0| <= |s| - 1 && s[1..][..|r0|] == r0 && !Contains(r0, sep)
    ensures !Contains([s[0]] + r0, sep)
  {
    var p := [s[0]] + r0;
    forall i | 0 <= i <= |p| - |sep|
      ensures !OccursAt(p, sep, i)
    {
      if i == 0 {
        assert p[..|sep|] == s[..|sep|];
      } else {
        assert p[i..i + |sep|] == r0[i - 1..i - 1 + |sep|];
        assert !OccursAt(r0, sep, i - 1);
      }
    }
  }

  /** Replacing a pattern by itself changes nothing. */
  lemma {:induction false} ReplaceAllIdentity(s: string, pat: string)
    requires |pat| > 0
    ensures ReplaceAll(s, pat, pat) == s
    decreases |s|
  {
    if |s| < |pat| {
    } else if s[..|pat|] == pat {
      ReplaceAllIdentity(s[|pat|..], pat);
      assert s == s[..|pat|] + s[|pat|..];
    } else {
      ReplaceAllIdentity(s[1..], pat);
      assert s == [s[0]] + s[1..];
    }
  }

  /** Joining the pieces with the separator restores the text. */
  lemma SplitJoinRoundTrip(s: string, sep: string)
    requires |sep| > 0
    ensures Join(Split(s, sep), sep) == s
  {
    ReplaceAllIsSplitJoin(s, sep, sep);
    ReplaceAllIdentity(s, sep);
  }

  /** A character that does not occur is not a one-character occurrence. */
  lemma NoCharNoOccurrence(s: string, c: char)
    requires c !in s
    ensures !Contains(s, [c])
  {
    forall i | 0 <= i <= |s| - 1
      ensures !OccursAt(s, [c], i)
    {
      assert s[i..i + 1] == [s[i]];
    }
  }

  /** Joining is the join of all pieces but the last, the separator, and the last. */
  lemma {:induction false} JoinSnoc(parts: seq<string>, sep: string)
    requires |parts| >= 2
    ensures Join(parts, sep) == Join(parts[..|parts| - 1], sep) + sep + parts[|parts| - 1]
    decreases |parts|
  {
    if |parts| > 2 {
      JoinSnoc(parts[1..], sep);
      assert parts[1..][..|parts| - 2] == parts[..|parts| - 1][1..];
    }
  }

  /**
   * When `sep` occurs in `s`, the last piece of the split is what follows an
   * occurrence, and it holds no occurrence itself: Python's
   * `s.split(sep)[-1]` is the text after the last `sep`.
   */
  lemma SplitLastPiece(s: string, sep: string)
    requires |sep| > 0 && Contains(s, sep)
    ensures |Split(s, sep)| >= 2
    ensures !Contains(Last(Split(s, sep)), sep)
    ensures exists p :: s == p + sep + Last(Split(s, sep))
  {
    var parts := Split(s, sep);
    SplitJoinRoundTrip(s, sep);
    SplitPiecesAvoidSeparator(s, sep);
    if |parts| >= 2 {
      JoinSnoc(parts, sep);
      var p := Join(parts[..|parts| - 1], sep);
      assert s == p + sep + Last(parts);
    }
  }

  /** Splitting a join on a character none of the pieces holds gives the pieces back. */
  lemma {:induction false} SplitJoinOfPieces(parts: seq<string>, c: char)
    requires |parts| > 0 && forall k | 0 <= k < |parts| :: c !in parts[k]
    ensures Split(Join(parts, [c]), [c]) == parts
    decreases |parts|
  {
    var a := parts[0];
    if |parts| == 1 {
      NoCharNoOccurrence(a, c);
      SplitWithoutSeparator(a, [c]);
    } else {
      var rest := Join(parts[1..], [c]);
      var x := a + [c] + rest;
      forall i | 0 <= i < |a|
        ensures !OccursAt(x, [c], i)
      {
        assert x[i..i + 1] == [a[i]];
      }
      SplitAtFirstOccurrence(a, [c], rest);
      SplitJoinOfPieces(parts[1..], c);
      assert [a] + parts[1..] == parts;
    }
  }

  /** A character in neither the text nor the replacement is not in the result. */
  lemma {:induction false} ReplaceAllAvoids(s: string, pat: string, rep: string, c: char)
    requires |pat| > 0 && c !in s && c !in rep
    ensures c !in ReplaceAll(s, pat, rep)
    decreases |s|
  {
    if |s| < |pat| {
    } else if s[..|pat|] == pat {
      assert c !in s[|pat|..];
      ReplaceAllAvoids(s[|pat|..], pat, rep, c);
    } else {
      assert c !in s[1..];
      ReplaceAllAvoids(s[1..], pat, rep, c);
    }
  }

  /** Replacing a single character removes it when the replacement lacks it. */
  lemma {:induction false} ReplaceCharRemoves(s: string, c: char, rep: string)
    requires c !in rep
    ensures c !in ReplaceAll(s, [c], rep)
    decreases |s|
  {
    if |s| < 1 {
    } else if s[..1] == [c] {
      ReplaceCharRemoves(s[1..], c, rep);
    } else {
      assert s[0] != c;
      ReplaceCharRemoves(s[1..], c, rep);
    }
  }

  /** Replacing a character that does not occur changes nothing. */
  lemma {:induction false} ReplaceAbsentChar(s: string, c: char, rep: string)
    requires c !in s
    ensures ReplaceAll(s, [c], rep) == s
    decreases |s|
  {
    if |s| >= 1 {
      assert s[..1] != [c] by { assert s[0] != c; }
      assert c !in s[1..];
      ReplaceAbsentChar(s[1..], c, rep);
      assert s == [s[0]] + s[1..];
    }
  }

  /**
   * Replacement distributes over a concatenation whose left part cannot
   * start an occurrence that reaches into the right part.
   */
  lemma {:induction false} ReplaceAllConcat(a: string, b: string, pat: string, rep: string)
    requires |pat| > 0
    requires forall k | 0 <= k < |a| && k > |a| - |pat| :: a[k] != pat[0]
    ensures ReplaceAll(a + b, pat, rep) == ReplaceAll(a, pat, rep) + ReplaceAll(b, pat, rep)
    decreases |a|
  {
    var x := a + b;
    if |a| == 0 {
      assert x == b;
    } else if |x| >= |pat| && x[..|pat|] == pat {
      ConcatMatchFacts(a, b, pat);
      ReplaceAllConcat(a[|pat|..], b, pat, rep);
      ConcatMatchStep(a, b, pat, rep);
    } else if |x| < |pat| {
      ReplaceAllShort(b, pat, rep);
    } else {
      ReplaceAllConcat(a[1..], b, pat, rep);
      ConcatSkipStep(a, b, pat, rep);
    }
  }

  lemma ConcatMatchFacts(a: string, b: string, pat: string)
    requires |pat| > 0 && |a| > 0
    requires forall k | 0 <= k < |a| && k > |a| - |pat| :: a[k] != pat[0]
    requires |a + b| >= |pat| && (a + b)[..|pat|] == pat
    ensures |a| >= |pat| && a[..|pat|] == pat
  {
    assert (a + b)[0] == a[0];
  }

  lemma ConcatMatchStep(a: string, b: string, pat: string, rep: string)
    requires |pat| > 0 && |a| >= |pat| && a[..|pat|] == pat
    requires ReplaceAll(a[|pat|..] + b, pat, rep) == ReplaceAll(a[|pat|..], pat, rep) + ReplaceAll(b, pat, rep)
    ensures ReplaceAll(a + b, pat, rep) == ReplaceAll(a, pat, rep) + ReplaceAll(b, pat, rep)
  {
    var x := a + b;
    assert x[..|pat|] == pat;
    assert x[|pat|..] == a[|pat|..] + b;
  }

  lemma ConcatSkipStep(a: string, b: string, pat: string, rep: string)
    requires |pat| > 0 && |a| > 0 && |a + b| >= |pat| && (a + b)[..|pat|] != pat
    requires forall k | 0 <= k < |a| && k > |a| - |pat| :: a[k] != pat[0]
    requires ReplaceAll(a[1..] + b, pat, rep) == ReplaceAll(a[1..], pat, rep) + ReplaceAll(b, pat, rep)
    ensures ReplaceAll(a + b, pat, rep) == ReplaceAll(a, pat, rep) + ReplaceAll(b, pat, rep)
  {
    ConcatTail(a, b);
    ReplaceAllSkip(a + b, pat, rep);
    if |a| >= |pat| {
      PrefixOfConcat(a, b, |pat|);
    }
    ReplaceAllKeepsFirst(a, pat, rep);
    ConsAssoc(a[0], ReplaceAll(a[1..], pat, rep), ReplaceAll(b, pat, rep));
  }

  lemma ConcatTail(a: string, b: string)
    requires |a| > 0
    ensures (a + b)[0] == a[0] && (a + b)[1..] == a[1..] + b
  {
  }

  lemma PrefixOfConcat(a: string, b: string, n: int)
    requires 0 <= n <= |a|
    ensures (a + b)[..n] == a[..n]
  {
  }

  lemma ConsAssoc(c: char, u: string, v: string)
    ensures [c] + (u + v) == ([c] + u) + v
  {
  }

  lemma ReplaceAllSkip(x: string, pat: string, rep: string)
    requires |pat| > 0 && |x| >= |pat| && x[..|pat|] != pat
    ensures ReplaceAll(x, pat, rep) == [x[0]] + ReplaceAll(x[1..], pat, rep)
  {
  }

  /** Under a prefix that cannot start an occurrence, the first character is kept. */
  lemma ReplaceAllKeepsFirst(a: string, pat: string, rep: string)
    requires |pat| > 0 && |a| > 0
    requires forall k | 0 <= k < |a| && k > |a| - |pat| :: a[k] != pat[0]
    requires |a| >= |pat| ==> a[..|pat|] != pat
    ensures ReplaceAll(a, pat, rep) == [a[0]] + ReplaceAll(a[1..], pat, rep)
  {
    if |a| < |pat| {
      ReplaceAllShort(a[1..], pat, rep);
      assert a == [a[0]] + a[1..];
    }
  }

  lemma ReplaceAllShort(s: string, pat: string, rep: string)
    requires |pat| > 0 && |s| < |pat|
    ensures ReplaceAll(s, pat, rep) == s
  {
  }

  /** Text without the pattern's first character passes through unchanged. */
  lemma {:induction false} ReplaceAllWithoutHead(s: string, pat: string, rep: string)
    requires |pat| > 0 && pat[0] !in s
    ensures ReplaceAll(s, pat, rep) == s
    decreases |s|
  {
    if |s| >= |pat| {
      assert s[0] != pat[0];
      assert s[1..] == s[1..] && pat[0] !in s[1..];
      ReplaceAllWithoutHead(s[1..], pat, rep);
      assert s == [s[0]] + s[1..];
    }
  }

  /** The first character of a replacement result. */
  lemma ReplaceAllHead(u: string, pat: string, rep: string)
    requires |pat| > 0 && |rep| > 0 && |u| > 0 && u[0] == pat[0]
    ensures |ReplaceAll(u, pat, rep)| > 0
    ensures ReplaceAll(u, pat, rep)[0] == rep[0] || ReplaceAll(u, pat, rep)[0] == pat[0]
  {
  }

  /**
   * When the pattern's first character occurs neither later in the pattern nor
   * in the replacement, and the replacement's first character is not in the
   * rest of the pattern, no occurrence survives a replacement.
   */
  lemma {:induction false} ReplaceAllLeavesNone(s: string, pat: string, rep: string)
    requires |pat| > 0 && |rep| > 0
    requires pat[0] !in pat[1..] && pat[0] !in rep && rep[0] !in pat[1..]
    ensures !Contains(ReplaceAll(s, pat, rep), pat)
    decreases |s|
  {
    var r := ReplaceAll(s, pat, rep);
    if |s| < |pat| {
      assert forall i :: !OccursAt(r, pat, i);
    } else if s[..|pat|] == pat {
      var tail := ReplaceAll(s[|pat|..], pat, rep);
      ReplaceAllLeavesNone(s[|pat|..], pat, rep);
      assert r == rep + tail;
      forall i | 0 <= i <= |r| - |pat|
        ensures !OccursAt(r, pat, i)
      {
        if i < |rep| {
          assert r[i] == rep[i];
          assert r[i..i + |pat|][0] != pat[0];
        } else {
          assert tail[i - |rep|..i - |rep| + |pat|] == r[i..i + |pat|];
          assert !OccursAt(tail, pat, i - |rep|);
        }
      }
    } else {
      var t := s[1..];
      var tail := ReplaceAll(t, pat, rep);
      ReplaceAllLeavesNone(t, pat, rep);
      assert r == [s[0]] + tail;
      forall i | 0 <= i <= |r| - |pat|
        ensures !OccursAt(r, pat, i)
      {
        if i > 0 {
          assert tail[i - 1..i - 1 + |pat|] == r[i..i + |pat|];
          assert !OccursAt(tail, pat, i - 1);
        } else if s[0] == pat[0] {
          assert r[..|pat|] == [s[0]] + tail[..|pat| - 1];
          NoSurvivorAtFront(s, pat, rep);
        } else {
          assert r[..|pat|][0] != pat[0];
        }
      }
    }
  }

  /** The front case of `ReplaceAllLeavesNone`: a non-matching head cannot start an occurrence. */
  lemma NoSurvivorAtFront(s: string, pat: string, rep: string)
    requires |pat| > 0 && |rep| > 0
    requires pat[0] !in pat[1..] && pat[0] !in rep && rep[0] !in pat[1..]
    requires |s| >= |pat| && s[..|pat|] != pat && s[0] == pat[0]
    ensures var tail := ReplaceAll(s[1..], pat, rep);
      |tail| < |pat| - 1 || tail[..|pat| - 1] != pat[1..]
  {
    var t := s[1..];
    var tail := ReplaceAll(t, pat, rep);
    assert s[..|pat|] == [s[0]] + t[..|pat| - 1];
    var j := IndexOf(t, pat[0]);
    if j < 0 {
      ReplaceAllWithoutHead(t, pat, rep);
    } else {
      SurvivorSplit(t, pat, rep, j);
    }
  }

  lemma SurvivorSplit(t: string, pat: string, rep: string, j: int)
    requires |pat| > 0 && |rep| > 0
    requires pat[0] !in pat[1..] && rep[0] !in pat[1..]
    requires 0 <= j < |t| && t[j] == pat[0] && pat[0] !in t[..j]
    requires |t| >= |pat| - 1 && t[..|pat| - 1] != pat[1..]
    ensures var tail := ReplaceAll(t, pat, rep);
      |tail| < |pat| - 1 || tail[..|pat| - 1] != pat[1..]
  {
    assert t == t[..j] + t[j..];
    ReplaceAllConcat(t[..j], t[j..], pat, rep);
    ReplaceAllWithoutHead(t[..j], pat, rep);
    var u := ReplaceAll(t[j..], pat, rep);
    var tail := ReplaceAll(t, pat, rep);
    assert tail == t[..j] + u;
    if |tail| >= |pat| - 1 {
      if j >= |pat| - 1 {
        assert tail[..|pat| - 1] == t[..|pat| - 1];
      } else {
        ReplaceAllHead(t[j..], pat, rep);
        assert tail[j] == u[0];
        assert tail[j] !in pat[1..];
        assert tail[..|pat| - 1][j] != pat[1..][j];
      }
    }
  }

  /** Each `c` of `s` replaced by `rep`, one character at a time. */
  function ReplaceChar(s: string, c: char, rep: string): (r: string)
    ensures c !in rep ==> c !in r
    ensures forall d | d !in s && d !in rep :: d !in r
    decreases |s|
  {
    if s == [] then [] else (if s[0] == c then rep else [s[0]]) + ReplaceChar(s[1..], c, rep)
  }

  /** Replacing a one-character pattern works character by character. */
  lemma {:induction false} ReplaceAllChar(s: string, c: char, rep: string)
    ensures ReplaceAll(s, [c], rep) == ReplaceChar(s, c, rep)
    decreases |s|
  {
    if s != [] {
      ReplaceAllChar(s[1..], c, rep);
      assert s[..1] == [s[0]];
    }
  }

  /** Replacing distributes over concatenation, one character at a time. */
  lemma {:induction false} ReplaceCharConcat(a: string, b: string, c: char, rep: string)
    ensures ReplaceChar(a + b, c, rep) == ReplaceChar(a, c, rep) + ReplaceChar(b, c, rep)
    decreases |a|
  {
    if a != [] {
      assert (a + b)[1..] == a[1..] + b;
      ReplaceCharConcat(a[1..], b, c, rep);
    } else {
      assert a + b == b;
    }
  }

  // ---------------------------------------------------------------------------
  // Last-occurrence helpers (Python `split(x)[-1]`, `rsplit(".", 1)[0]`)

  /** The last element of a non-empty sequence of pieces. */
  function Last(parts: seq<string>): string
    requires |parts| > 0
  {
    parts[|parts| - 1]
  }

  /** Index of the last `c` in `s`, or -1. */
  function LastIndexOf(s: string, c: char): (i: int)
    ensures -1 <= i < |s|
    ensures i >= 0 ==> s[i] == c && c !in s[i + 1..]
    ensures i < 0 ==> c !in s
    decreases |s|
  {
    if |s| == 0 then -1
    else if s[|s| - 1] == c then |s| - 1
    else
      var p := s[..|s| - 1];
      var j := LastIndexOf(p, c);
      if j < 0 then
        assert s == p + [s[|s| - 1]];
        -1
      else
        assert s[j + 1..] == p[j + 1..] + [s[|s| - 1]];
        j
  }

  /** Index of the first `c` in `s`, or -1. */
  function IndexOf(s: string, c: char): (i: int)
    ensures -1 <= i < |s|
    ensures i >= 0 ==> s[i] == c && c !in s[..i]
    ensures i < 0 ==> c !in s
    decreases |s|
  {
    if |s| == 0 then -1
    else if s[0] == c then 0
    else
      var j := IndexOf(s[1..], c);
      assert j >= 0 ==> s[..j + 1] == [s[0]] + s[1..][..j];
      assert j < 0 ==> s == [s[0]] + s[1..];
      if j < 0 then -1 else j + 1
  }

  /** Python's `s.rsplit(c, 1)[0]`: the text before the last `c`, or all of it. */
  function BeforeLast(s: string, c: char): (r: string)
    ensures c in s ==> exists tail :: r + [c] + tail == s && c !in tail
    ensures c !in s ==> r == s
  {
    var i := LastIndexOf(s, c);
    if i < 0 then s
    else
      assert s[..i] + [c] + s[i + 1..] == s;
      s[..i]
  }

  // ---------------------------------------------------------------------------
  // Stripping and trimming

  /** Python's `s.strip(chars)`: drop leading and trailing members of `chars`. */
  function StripChars(s: string, chars: set<char>): (r: string)
    ensures |r| > 0 ==> r[0] !in chars && r[|r| - 1] !in chars
  {
    StripEnd(StripStart(s, chars), chars)
  }

  function StripStart(s: string, chars: set<char>): (r: string)
    ensures |r| <= |s| && r == s[|s| - |r|..]
    ensures |r| > 0 ==> r[0] !in chars
    decreases |s|
  {
    if |s| > 0 && s[0] in chars then StripStart(s[1..], chars) else s
  }

  function StripEnd(s: string, chars: set<char>): (r: string)
    ensures |r| <= |s| && r == s[..|r|]
    ensures |r| > 0 ==> r[|r| - 1] !in chars
    ensures |s| > 0 && s[0] !in chars ==> |r| > 0 && r[0] == s[0]
    decreases |s|
  {
    if |s| > 0 && s[|s| - 1] in chars then StripEnd(s[..|s| - 1], chars) else s
  }

  /**
   * JavaScript's white space and line terminators (`\s`, what `trim()`
   * removes): TAB, LF, VT, FF, CR, SPACE, NBSP, the Zs category,
   * LINE and PARAGRAPH SEPARATOR, and the byte-order mark.
   */
  predicate IsJsSpace(c: char) {
    var n := c as int;
    n == 0x09 || n == 0x0A || n == 0x0B || n == 0x0C || n == 0x0D || n == 0x20
    || n == 0xA0 || n == 0x1680 || (0x2000 <= n <= 0x200A) || n == 0x2028 || n == 0x2029
    || n == 0x202F || n == 0x205F || n == 0x3000 || n == 0xFEFF
  }

  function TrimStart(s: string): (r: string)
    ensures |r| <= |s| && r == s[|s| - |r|..]
    ensures |r| > 0 ==> !IsJsSpace(r[0])
    ensures forall i | 0 <= i < |s| - |r| :: IsJsSpace(s[i])
    decreases |s|
  {
    if |s| > 0 && IsJsSpace(s[0]) then
      var r := TrimStart(s[1..]);
      assert forall i | 1 <= i < |s| - |r| :: s[i] == s[1..][i - 1];
      r
    else s
  }

  function TrimEnd(s: string): (r: string)
    ensures |r| <= |s| && r == s[..|r|]
    ensures |r| > 0 ==> !IsJsSpace(r[|r| - 1])
    ensures |s| > 0 && !IsJsSpace(s[0]) ==> |r| > 0
    ensures forall i | |r| <= i < |s| :: IsJsSpace(s[i])
    decreases |s|
  {
    if |s| > 0 && IsJsSpace(s[|s| - 1]) then TrimEnd(s[..|s| - 1]) else s
  }

  /** JavaScript's `s.trim()`. */
  function Trim(s: string): (r: string)
    ensures |r| > 0 ==> !IsJsSpace(r[0]) && !IsJsSpace(r[|r| - 1])
    ensures |r| <= |s|
    ensures (forall i | 0 <= i < |s| :: !IsJsSpace(s[i])) ==> r == s
    ensures r == [] <==> forall i | 0 <= i < |s| :: IsJsSpace(s[i])
  {
    TrimEnds(s);
    TrimEmpty(s);
    TrimEnd(TrimStart(s))
  }

  lemma TrimEnds(s: string)
    ensures var r := TrimEnd(TrimStart(s));
      |r| > 0 ==> !IsJsSpace(r[0]) && !IsJsSpace(r[|r| - 1])
  {
    var t := TrimStart(s);
    var r := TrimEnd(t);
    assert |r| > 0 ==> r[0] == t[0];
  }

  lemma TrimEmpty(s: string)
    ensures TrimEnd(TrimStart(s)) == [] <==> forall i | 0 <= i < |s| :: IsJsSpace(s[i])
  {
    if TrimEnd(TrimStart(s)) == [] {
      TrimEmptyAllSpaces(s);
    }
    if forall i | 0 <= i < |s| :: IsJsSpace(s[i]) {
      AllSpacesTrimEmpty(s);
    }
  }

  lemma TrimEmptyAllSpaces(s: string)
    requires TrimEnd(TrimStart(s)) == []
    ensures forall i | 0 <= i < |s| :: IsJsSpace(s[i])
  {
    TrimStartThenEnd(TrimStart(s));
  }

  /** A text that does not start with a space keeps something after `trimEnd`. */
  lemma TrimStartThenEnd(t: string)
    ensures |t| > 0 && !IsJsSpace(t[0]) ==> TrimEnd(t) != []
  {
  }

  lemma AllSpacesTrimEmpty(s: string)
    requires forall i | 0 <= i < |s| :: IsJsSpace(s[i])
    ensures TrimEnd(TrimStart(s)) == []
  {
    var t := TrimStart(s);
    if |t| > 0 {
      assert false;
    }
  }

  // ---------------------------------------------------------------------------
  // ASCII case mapping

  function LowerChar(c: char): char {
    if 'A' <= c <= 'Z' then (c as int + 32) as char else c
  }

  function UpperChar(c: char): char {
    if 'a' <= c <= 'z' then (c as int - 32) as char else c
  }

  function ToLowerAscii(s: string): (r: string)
    ensures |r| == |s| && forall i | 0 <= i < |s| :: r[i] == LowerChar(s[i])
  {
    seq(|s|, i requires 0 <= i < |s| => LowerChar(s[i]))
  }

  function ToUpperAscii(s: string): (r: string)
    ensures |r| == |s| && forall i | 0 <= i < |s| :: r[i] == UpperChar(s[i])
  {
    seq(|s|, i requires 0 <= i < |s| => UpperChar(s[i]))
  }

  // ---------------------------------------------------------------------------
  // Decimal text of numbers (`String(n)`, `str(n)`, template literals)

  predicate IsDigit(c: char) {
    '0' <= c <= '9'
  }

  predicate AllDigits(s: string) {
    forall i | 0 <= i < |s| :: IsDigit(s[i])
  }

  function DigitChar(d: int): (c: char)
    requires 0 <= d < 10
    ensures IsDigit(c) && c as int - '0' as int == d
  {
    (('0' as int) + d) as char
  }

  /** The decimal text of a natural number, without leading zeros. */
  function NatToString(n: nat): (s: string)
    ensures |s| >= 1 && AllDigits(s)
    ensures |s| > 1 ==> s[0] != '0'
    decreases n
  {
    if n < 10 then [DigitChar(n)]
    else NatToString(n / 10) + [DigitChar(n % 10)]
  }

  /** The value of a string of decimal digits (leading zeros allowed). */
  function DigitsValue(s: string): nat
    requires AllDigits(s)
    decreases |s|
  {
    if s == [] then 0
    else DigitsValue(s[..|s| - 1]) * 10 + (s[|s| - 1] as int - '0' as int)
  }

  /** Reading back the decimal text of a natural number gives the number. */
  lemma {:induction false} DigitsValueOfNatToString(n: nat)
    ensures DigitsValue(NatToString(n)) == n
    decreases n
  {
    if n >= 10 {
      DigitsValueOfNatToString(n / 10);
      var s := NatToString(n);
      assert s[..|s| - 1] == NatToString(n / 10);
    }
  }

  lemma NatToStringInjective(a: nat, b: nat)
    requires NatToString(a) == NatToString(b)
    ensures a == b
  {
    DigitsValueOfNatToString(a);
    DigitsValueOfNatToString(b);
  }

  /** `String(i)` for an integer-valued number. */
  function IntToString(i: int): (s: string)
    ensures |s| >= 1
    ensures i >= 0 ==> s == NatToString(i)
    ensures i < 0 ==> s == "-" + NatToString(-i)
  {
    if i < 0 then "-" + NatToString(-i) else NatToString(i)
  }

  lemma IntToStringInjective(a: int, b: int)
    requires IntToString(a) == IntToString(b)
    ensures a == b
  {
    assert IntToString(a)[0] == '-' <==> a < 0;
    assert IntToString(b)[0] == '-' <==> b < 0;
    if a < 0 {
      assert NatToString(-a) == IntToString(a)[1..];
      NatToStringInjective(-a, -b);
    } else {
      NatToStringInjective(a, b);
    }
  }

  /** `s.padStart(width, pad)` with a one-character pad. */
  function PadStart(s: string, width: nat, pad: char): (r: string)
    ensures |r| == if |s| >= width then |s| else width
    ensures EndsWith(r, s)
    ensures forall i | 0 <= i < |r| - |s| :: r[i] == pad
  {
    if |s| >= width then s else seq(width - |s|, _ => pad) + s
  }

  /** `String(n).padStart(w, '0')`. */
  function PadNat(n: nat, w: nat): (r: string)
    ensures |r| >= w && AllDigits(r)
  {
    PadStart(NatToString(n), w, '0')
  }

  /** `String(n).padStart(2, '0')`. */
  function Pad2(n: nat): (r: string)
    ensures |r| >= 2 && AllDigits(r)
  {
    PadNat(n, 2)
  }

  /** Leading zeros do not change a digit string's value. */
  lemma {:induction false} LeadingZerosValue(k: nat, s: string)
    requires AllDigits(s)
    ensures AllDigits(seq(k, _ => '0') + s) && DigitsValue(seq(k, _ => '0') + s) == DigitsValue(s)
    decreases k
  {
    if k > 0 {
      var z := seq(k - 1, _ => '0');
      assert seq(k, _ => '0') + s == "0" + (z + s);
      LeadingZerosValue(k - 1, s);
      LeadingZeroValue(z + s);
    } else {
      assert seq(k, _ => '0') + s == s;
    }
  }

  /** A zero-padded number reads back as the number. */
  lemma PadNatValue(n: nat, w: nat)
    ensures DigitsValue(PadNat(n, w)) == n
  {
    DigitsValueOfNatToString(n);
    var s := NatToString(n);
    if |s| < w {
      LeadingZerosValue(w - |s|, s);
    }
  }

  function Pow10(w: nat): (p: nat)
    ensures p >= 1
  {
    if w == 0 then 1 else 10 * Pow10(w - 1)
  }

  /** `w` digits are worth less than `10^w`. */
  lemma {:induction false} DigitsValueBound(s: string)
    requires AllDigits(s)
    ensures DigitsValue(s) < Pow10(|s|)
    decreases |s|
  {
    if s != [] {
      DigitsValueBound(s[..|s| - 1]);
    }
  }

  /** A number below `10^w` has at most `w` digits. */
  lemma {:induction false} NatToStringLength(n: nat, w: nat)
    requires 1 <= w && n < Pow10(w)
    ensures |NatToString(n)| <= w
    decreases w
  {
    if n >= 10 {
      assert w >= 2;
      NatToStringLength(n / 10, w - 1);
    }
  }

  /** So padding it to `w` gives exactly `w` characters. */
  lemma PadNatLength(n: nat, w: nat)
    requires 1 <= w && n < Pow10(w)
    ensures |PadNat(n, w)| == w
  {
    NatToStringLength(n, w);
  }

  /** A leading zero does not change a digit string's value. */
  lemma {:induction false} LeadingZeroValue(s: string)
    requires AllDigits(s)
    ensures AllDigits("0" + s) && DigitsValue("0" + s) == DigitsValue(s)
    decreases |s|
  {
    if s != [] {
      var t := "0" + s;
      assert t[..|t| - 1] == "0" + s[..|s| - 1];
      LeadingZeroValue(s[..|s| - 1]);
    } else {
      assert ("0" + s)[..0] == "";
    }
  }
}
