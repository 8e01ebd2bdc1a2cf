/**
 * frontend/src/components/pages/quality/QueryPage.js: `handleSubmit` fills
 * an SQL template. Each of the four optional inputs is turned into a
 * quoted, comma-separated list that replaces every `{n1}` ... `{n4}`, the
 * passes running one after the other over the text so far; then `{start}`
 * and `{end}` become the UTC calendar days of the chosen dates.
 */
module QueryPage {
  import opened Wrappers
  import opened Strings
  import opened Sequences
  import opened JsDates

  /** The four optional inputs, `optionals.one` ... `optionals.four`. */
  datatype Optionals = Optionals(one: string, two: string, three: string, four: string)

  /** What a submit does: nothing (empty query), hands a query on, or throws. */
  datatype Submission = NothingSubmitted | Submitted(sql: string) | Threw(error: string)

  /** `filter(Boolean)` on strings. */
  predicate NonEmpty(s: string) {
    s != ""
  }

  /** `` `'${s.replace(/'/g, "")}'` ``: the text without its quotes, between two quotes. */
  function QuoteItem(s: string): (r: string)
    ensures |r| >= 2 && r[0] == '\'' && r[|r| - 1] == '\''
    ensures forall i | 0 < i < |r| - 1 :: r[i] != '\''
  {
    var inner := ReplaceAll(s, "'", "");
    ReplaceCharRemoves(s, '\'', "");
    "'" + inner + "'"
  }

  /** `raw.split(',').map(s => s.trim()).filter(Boolean)`. */
  function Items(raw: string): seq<string> {
    Filter(Map(Split(raw, ","), Trim), NonEmpty)
  }

  /** The list an optional input becomes: its items quoted and joined by `,`. */
  function FormatList(raw: string): string {
    Join(Map(Items(raw), QuoteItem), ",")
  }

  /** One `if (optionals.k) builtQuery = builtQuery.replace(/\{nK\}/g, formatted)` step. */
  function Pass(text: string, placeholder: string, raw: string): string
    requires |placeholder| > 0
  {
    if raw == "" then text else ReplaceAll(text, placeholder, FormatList(raw))
  }

  /** The four list passes, in order. */
  function FillLists(query: string, o: Optionals): string {
    Pass(Pass(Pass(Pass(query, "{n1}", o.one), "{n2}", o.two), "{n3}", o.three), "{n4}", o.four)
  }

  /** One `if (optionals.k) builtQuery = builtQuery.replace(...)` statement. */
  method ApplyPass(builtQuery: string, placeholder: string, raw: string) returns (r: string)
    requires |placeholder| > 0
    ensures r == Pass(builtQuery, placeholder, raw)
  {
    r := builtQuery;
    if raw != "" {
      r := ReplaceAll(builtQuery, placeholder, FormatList(raw));
    }
  }

  /** `handleSubmit`, up to the point where the built query is handed to `handleQuery`. */
  method HandleSubmit(query: string, optionals: Optionals, startDate: JsDate, endDate: JsDate)
    returns (out: Submission)
    ensures query == "" ==> out == NothingSubmitted
    ensures query != "" && (startDate.Invalid? || endDate.Invalid?) ==> out.Threw?
    ensures query != "" && startDate.Instant? && endDate.Instant? ==>
      out == Submitted(ReplaceAll(ReplaceAll(FillLists(query, optionals), "{start}", IsoDay(startDate).value),
                                  "{end}", IsoDay(endDate).value))
  {
    if query == "" {
      return NothingSubmitted;
    }
    var builtQuery := ApplyPass(query, "{n1}", optionals.one);
    builtQuery := ApplyPass(builtQuery, "{n2}", optionals.two);
    builtQuery := ApplyPass(builtQuery, "{n3}", optionals.three);
    builtQuery := ApplyPass(builtQuery, "{n4}", optionals.four);
    var start := IsoDay(startDate);
    if start.Err? {
      return Threw(start.error);
    }
    builtQuery := ReplaceAll(builtQuery, "{start}", start.value);
    var end := IsoDay(endDate);
    if end.Err? {
      return Threw(end.error);
    }
    builtQuery := ReplaceAll(builtQuery, "{end}", end.value);
    return Submitted(builtQuery);
  }

  // ---------------------------------------------------------------------------
  // Helpers about characters

  lemma CharOccurs(s: string, c: char)
    requires c in s
    ensures Contains(s, [c])
  {
    var i :| 0 <= i < |s| && s[i] == c;
    assert s[i..i + 1] == [c];
    assert OccursAt(s, [c], i);
  }

  /** Trimming only removes characters. */
  lemma TrimChars(s: string, c: char)
    requires c in Trim(s)
    ensures c in s
  {
    var t := TrimStart(s);
    var r := TrimEnd(t);
    var i :| 0 <= i < |r| && r[i] == c;
    assert r[i] == t[i] == s[|s| - |t| + i];
  }

  /** Every character of a piece of a split is a character of the text. */
  lemma {:induction false} SplitChars(s: string, sep: string, k: int, c: char)
    requires |sep| > 0 && 0 <= k < |Split(s, sep)| && c in Split(s, sep)[k]
    ensures c in s
    decreases |s|
  {
    if |s| < |sep| {
    } else if s[..|sep|] == sep {
      SplitChars(s[|sep|..], sep, k - 1, c);
    } else {
      var r := Split(s[1..], sep);
      if k == 0 {
        if c != s[0] {
          SplitChars(s[1..], sep, 0, c);
        }
      } else {
        SplitChars(s[1..], sep, k, c);
      }
    }
  }

  /** A joined list of non-empty items is at least as long as its first item. */
  lemma JoinFirst(parts: seq<string>, sep: string)
    requires |parts| > 0
    ensures |Join(parts, sep)| >= |parts[0]|
  {
  }

  // ---------------------------------------------------------------------------
  // The formatted list

  /** Every item is trimmed, non-empty, and holds no comma. */
  lemma ItemsShape(raw: string, i: int)
    requires 0 <= i < |Items(raw)|
    ensures Items(raw)[i] != "" && ',' !in Items(raw)[i]
    ensures !IsJsSpace(Items(raw)[i][0]) && !IsJsSpace(Items(raw)[i][|Items(raw)[i]| - 1])
  {
    var pieces := Split(raw, ",");
    var x := Items(raw)[i];
    assert x in Map(pieces, Trim);
    var k :| 0 <= k < |pieces| && x == Trim(pieces[k]);
    SplitPiecesAvoidSeparator(raw, ",");
    if ',' in x {
      TrimChars(pieces[k], ',');
      CharOccurs(pieces[k], ',');
    }
  }

  /** Each quoted item holds no comma, so splitting the list on `,` gives the quoted items back. */
  lemma FormatListSplitsBack(raw: string)
    requires Items(raw) != []
    ensures Split(FormatList(raw), ",") == Map(Items(raw), QuoteItem)
  {
    var items := Items(raw);
    var quoted := Map(items, QuoteItem);
    forall k | 0 <= k < |quoted| ensures ',' !in quoted[k] {
      ItemsShape(raw, k);
      ReplaceAllAvoids(items[k], "'", "", ',');
    }
    SplitJoinOfPieces(quoted, ',');
  }

  /** The list is empty exactly when there are no items. */
  lemma FormatListEmpty(raw: string)
    ensures FormatList(raw) == "" <==> Items(raw) == []
  {
    if Items(raw) != [] {
      JoinFirst(Map(Items(raw), QuoteItem), ",");
    }
  }

  /** An input of only commas and white space gives the empty list. */
  lemma BlankInputGivesEmpty(raw: string)
    requires forall i | 0 <= i < |raw| :: raw[i] == ',' || IsJsSpace(raw[i])
    ensures Items(raw) == [] && FormatList(raw) == ""
  {
    var pieces := Split(raw, ",");
    SplitPiecesAvoidSeparator(raw, ",");
    forall k | 0 <= k < |pieces| ensures Trim(pieces[k]) == "" {
      forall j | 0 <= j < |pieces[k]| ensures IsJsSpace(pieces[k][j]) {
        SplitChars(raw, ",", k, pieces[k][j]);
        if pieces[k][j] == ',' {
          CharOccurs(pieces[k], ',');
        }
      }
    }
    FilterNone(Map(pieces, Trim), NonEmpty);
  }

  // ---------------------------------------------------------------------------
  // The passes

  /** An empty input skips its pass: the placeholder stays in the text. */
  lemma EmptyInputKeepsPlaceholder(text: string, placeholder: string)
    requires |placeholder| > 0
    ensures Pass(text, placeholder, "") == text
  {
  }

  lemma NoInputsKeepQuery(query: string)
    ensures FillLists(query, Optionals("", "", "", "")) == query
  {
  }

  /**
   * A pass cuts the text at every occurrence of the placeholder and puts
   * the list between the pieces: the pieces themselves hold no placeholder
   * and rejoined by it give the text back.
   */
  lemma PassReplacesEveryOccurrence(text: string, placeholder: string, raw: string)
    requires |placeholder| > 0 && raw != ""
    ensures Pass(text, placeholder, raw) == Join(Split(text, placeholder), FormatList(raw))
    ensures Join(Split(text, placeholder), placeholder) == text
    ensures forall k | 0 <= k < |Split(text, placeholder)| :: !Contains(Split(text, placeholder)[k], placeholder)
  {
    ReplaceAllIsSplitJoin(text, placeholder, FormatList(raw));
    SplitJoinRoundTrip(text, placeholder);
    SplitPiecesAvoidSeparator(text, placeholder);
  }

  /**
   * Dates are written as their `YYYY-MM-DD` UTC calendar day, the first ten
   * characters of the ISO text.
   */
  lemma DatesAsCalendarDays(d: JsDate)
    requires d.Instant? && 0 <= d.day.year <= 9999
    ensures IsoDay(d) == Ok(IsoDateText(d.day))
    ensures |IsoDay(d).value| == 10 && ToIsoString(d).value[..10] == IsoDay(d).value
  {
    IsoDateTextShape(d.day);
  }
}
