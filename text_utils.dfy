/**
 * frontend/src/utils/textUtils.js: truncation with an ellipsis and
 * angle-bracket escaping.
 */
module TextUtils {
  import opened Wrappers
  import opened Strings
  import opened JsNumbers
  import opened JsValues

  // ---------------------------------------------------------------------------
  // Truncation

  /** `len > n` for a number `n`; false when `n` is NaN. */
  predicate LongerThan(s: string, n: Num) {
    n.Int? && |s| > n.value
  }

  /**
   * `s.slice(0, e)`: a negative end counts from the back, NaN is 0, and the
   * end is clamped into the string.
   */
  function SliceTo(s: string, e: Num): (r: string)
    ensures |r| <= |s| && r == s[..|r|]
    ensures e.Int? && 0 <= e.value <= |s| ==> |r| == e.value
    ensures e.Int? && e.value < 0 ==> |r| == if |s| + e.value < 0 then 0 else |s| + e.value
    ensures e.NaN? ==> r == ""
  {
    var n := if e.NaN? then 0 else if e.value < 0 then |s| + e.value else e.value;
    var k := if n < 0 then 0 else if n > |s| then |s| else n;
    s[..k]
  }

  /**
   * `text.length > maxLength ? text.slice(0, maxLength - 1) + suffix : text`,
   * the expression both variants of `truncateText` share; `maxLength`
   * is compared and decremented as a number.
   */
  function Truncate(text: string, maxLength: Value, suffix: string): (r: string)
    ensures !LongerThan(text, ToNumber(maxLength)) ==> r == text
    ensures LongerThan(text, ToNumber(maxLength)) && ToNumber(maxLength).value >= 1 ==>
      |r| == ToNumber(maxLength).value - 1 + |suffix|
      && r == text[..ToNumber(maxLength).value - 1] + suffix
  {
    var m := ToNumber(maxLength);
    if LongerThan(text, m) then SliceTo(text, Sub(m, Int(1))) + suffix else text
  }

  /** `…`, U+2026. */
  const Ellipsis: string := "\U{2026}"

  /** `truncateText(text, maxLength)`. */
  function TruncateText(text: Value, maxLength: Value): (r: string)
    ensures !text.Str? ==> r == ""
    ensures text.Str? ==> r == Truncate(text.s, maxLength, Ellipsis)
  {
    if !text.Str? then "" else Truncate(text.s, maxLength, Ellipsis)
  }

  /** Text that fits is returned as it is. */
  lemma TruncateFits(text: string, maxLength: int)
    requires |text| <= maxLength
    ensures TruncateText(Str(text), Number(Int(maxLength))) == text
  {
  }

  /** Without a length, `text.length > undefined` is false: nothing is ever cut. */
  lemma TruncateWithoutLength(text: string)
    ensures TruncateText(Str(text), Undefined) == text
  {
  }

  /**
   * A text longer than a positive `maxLength` keeps its first
   * `maxLength - 1` characters and ends in the ellipsis: exactly
   * `maxLength` characters.
   */
  lemma TruncateLong(text: string, maxLength: int)
    requires 1 <= maxLength < |text|
    ensures var r := TruncateText(Str(text), Number(Int(maxLength)));
      |r| == maxLength && r == text[..maxLength - 1] + Ellipsis
  {
  }

  /** Truncating twice to the same positive length is truncating once. */
  lemma TruncateIdempotent(text: string, maxLength: int)
    requires maxLength >= 1
    ensures var once := TruncateText(Str(text), Number(Int(maxLength)));
      TruncateText(Str(once), Number(Int(maxLength))) == once
  {
    if |text| > maxLength {
      TruncateLong(text, maxLength);
    }
  }

  /** A numeric string works as a length, as `>` and `-` convert it. */
  lemma TruncateNumericText(text: string, n: nat)
    ensures TruncateText(Str(text), Str(NatToString(n))) == TruncateText(Str(text), Number(Int(n)))
  {
    StringToNumberOfText(n);
  }

  /** A length of 0 still cuts: `slice(0, -1)` drops the last character before the ellipsis. */
  lemma TruncateZero(text: string)
    requires |text| > 0
    ensures TruncateText(Str(text), Number(Int(0))) == text[..|text| - 1] + Ellipsis
  {
  }

  // ---------------------------------------------------------------------------
  // Escaping

  /** `text.replace(/</g, '&lt;').replace(/>/g, '&gt;')`. */
  function Escape(text: string): string {
    ReplaceAll(ReplaceAll(text, "<", "&lt;"), ">", "&gt;")
  }

  /** The escape of one character. */
  function EscapeChar(c: char): (r: string)
    ensures '<' !in r && '>' !in r
  {
    if c == '<' then "&lt;" else if c == '>' then "&gt;" else [c]
  }

  /** Each character of `s` replaced by `EscapeChar`. */
  function EscapeEach(s: string): (r: string)
    ensures '<' !in r && '>' !in r
    decreases |s|
  {
    if s == [] then [] else EscapeChar(s[0]) + EscapeEach(s[1..])
  }

  lemma {:induction false} ReplaceGtOfLtEach(s: string)
    ensures ReplaceChar(ReplaceChar(s, '<', "&lt;"), '>', "&gt;") == EscapeEach(s)
    decreases |s|
  {
    if s != [] {
      ReplaceGtOfLtEach(s[1..]);
      ReplaceCharConcat(if s[0] == '<' then "&lt;" else [s[0]], ReplaceChar(s[1..], '<', "&lt;"), '>', "&gt;");
      EscapeHead(s[0]);
    }
  }

  lemma EscapeHead(c: char)
    ensures ReplaceChar(if c == '<' then "&lt;" else [c], '>', "&gt;") == EscapeChar(c)
  {
    if c == '<' {
      assert ReplaceChar("&lt;", '>', "&gt;") == "&lt;" by {
        assert "&lt;"[1..][1..][1..][1..] == [];
      }
    } else {
      assert [c][1..] == [];
    }
  }

  /** The two replace passes escape each character independently. */
  lemma EscapeIsCharwise(s: string)
    ensures Escape(s) == EscapeEach(s)
  {
    ReplaceAllChar(s, '<', "&lt;");
    ReplaceAllChar(ReplaceChar(s, '<', "&lt;"), '>', "&gt;");
    ReplaceGtOfLtEach(s);
  }

  /** Escaped text has no angle brackets left. */
  lemma EscapeRemovesBrackets(s: string)
    ensures '<' !in Escape(s) && '>' !in Escape(s)
  {
    EscapeIsCharwise(s);
  }

  /** Escaping is idempotent: escaped text has nothing left to escape. */
  lemma EscapeIdempotent(s: string)
    ensures Escape(Escape(s)) == Escape(s)
  {
    var e := Escape(s);
    EscapeRemovesBrackets(s);
    ReplaceAbsentChar(e, '<', "&lt;");
    ReplaceAbsentChar(e, '>', "&gt;");
  }

  /** Text without angle brackets is left alone. */
  lemma EscapeWithoutBrackets(s: string)
    requires '<' !in s && '>' !in s
    ensures Escape(s) == s
  {
    ReplaceAbsentChar(s, '<', "&lt;");
    ReplaceAbsentChar(s, '>', "&gt;");
  }

  /**
   * `sanitizeText(text)`: there is no type guard, so anything but a string
   * throws (`text.replace is not a function`, or a property read of
   * `null`/`undefined`).
   */
  function SanitizeText(text: Value): (r: Result<string>)
    ensures r.Ok? <==> text.Str?
    ensures text.Str? ==> r.value == EscapeEach(text.s)
  {
    if text.Str? then
      EscapeIsCharwise(text.s);
      Ok(Escape(text.s))
    else Err("TypeError: text.replace is not a function")
  }
}
