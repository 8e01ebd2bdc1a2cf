/**
 * frontend-web/src/utils/textUtils.js: the same helpers with a default
 * length of 75 and a type guard on `sanitizeText`. Its ellipsis literal is
 * stored as the three characters U+00E2 U+20AC U+00A6, the UTF-8 bytes of
 * `…` read as Windows-1252.
 */
module TextUtilsWeb {
  import opened Strings
  import opened JsNumbers
  import opened JsValues
  import TextUtils

  /** The suffix as the file spells it. */
  const WebSuffix: string := "\U{00E2}\U{20AC}\U{00A6}"

  const DefaultMaxLength: int := 75

  /** A default parameter applies when the argument is `undefined`. */
  function WithDefault(maxLength: Value): (m: Value)
    ensures maxLength.Undefined? ==> m == Number(Int(DefaultMaxLength))
    ensures !maxLength.Undefined? ==> m == maxLength
  {
    if maxLength.Undefined? then Number(Int(DefaultMaxLength)) else maxLength
  }

  /** `truncateText(text, maxLength = 75)` as written. */
  function TruncateText(text: Value, maxLength: Value): (r: string)
    ensures !text.Str? ==> r == ""
    ensures text.Str? ==> r == TextUtils.Truncate(text.s, WithDefault(maxLength), WebSuffix)
  {
    if !text.Str? then "" else TextUtils.Truncate(text.s, WithDefault(maxLength), WebSuffix)
  }

  /** Without a length, texts of up to 75 characters are kept. */
  lemma DefaultLength(text: string)
    requires |text| <= 75
    ensures TruncateText(Str(text), Undefined) == text
  {
  }

  /** A text that fits is returned as it is. */
  lemma TruncateFits(text: string, maxLength: int)
    requires |text| <= maxLength
    ensures TruncateText(Str(text), Number(Int(maxLength))) == text
  {
  }

  /**
   * As written, a truncated text is two characters longer than the limit:
   * the suffix is three characters, not one.
   */
  lemma TruncateOverruns(text: string, maxLength: int)
    requires 1 <= maxLength < |text|
    ensures |TruncateText(Str(text), Number(Int(maxLength)))| == maxLength + 2
  {
  }

  /** A concrete case: 76 characters cut to the default come back as 77. */
  lemma TruncateOverrunsAtDefault()
    ensures |TruncateText(Str(seq(76, _ => 'a')), Undefined)| == 77
  {
    TruncateOverruns(seq(76, _ => 'a'), 75);
  }

  /** The evidently intended `truncateText`: the one-character ellipsis `…`. */
  function TruncateTextIntended(text: Value, maxLength: Value): (r: string)
    ensures !text.Str? ==> r == ""
    ensures text.Str? ==> r == TextUtils.Truncate(text.s, WithDefault(maxLength), TextUtils.Ellipsis)
  {
    TextUtils.TruncateText(text, WithDefault(maxLength))
  }

  /** With the intended suffix a truncated text is exactly `maxLength` long. */
  lemma IntendedFitsLimit(text: string, maxLength: int)
    requires 1 <= maxLength < |text|
    ensures var r := TruncateTextIntended(Str(text), Number(Int(maxLength)));
      |r| == maxLength && r == text[..maxLength - 1] + TextUtils.Ellipsis
  {
  }

  /** With the intended suffix no result is ever longer than the limit. */
  lemma IntendedNeverLonger(text: string, maxLength: int)
    requires maxLength >= 1
    ensures |TruncateTextIntended(Str(text), Number(Int(maxLength)))| <= maxLength
  {
  }

  /** `sanitizeText(text)`: `''` for a non-string, else the escape. */
  function SanitizeText(text: Value): (r: string)
    ensures !text.Str? ==> r == ""
    ensures text.Str? ==> r == TextUtils.EscapeEach(text.s)
    ensures '<' !in r && '>' !in r
  {
    if !text.Str? then ""
    else
      TextUtils.EscapeIsCharwise(text.s);
      TextUtils.Escape(text.s)
  }

  /** Sanitizing twice is sanitizing once. */
  lemma SanitizeIdempotent(text: Value)
    ensures SanitizeText(Str(SanitizeText(text))) == SanitizeText(text)
  {
    if text.Str? {
      TextUtils.EscapeIdempotent(text.s);
    } else {
      TextUtils.EscapeWithoutBrackets("");
    }
  }
}
