/**
 * The browser-side Wareconn export helpers (`fetchWareconnUtils.js`): the
 * midnight time stamp of a `YYYY-MM-DD` text, the export URL built through
 * `URLSearchParams`, the file name read from a `Content-Disposition` header,
 * and the IndexedDB key the rows are stored under. The fetch itself, the
 * spreadsheet parsing and the store are not part of this model.
 */
module FetchWareconn {
  import opened Wrappers
  import opened Strings
  import opened JsNumbers
  import opened CivilDates
  import opened JsDates
  import opened PercentEncoding
  import Utf8
  import WareconnDownloader

  // ---------------------------------------------------------------------------
  // epochMsLocalMidnight

  /** `new Date(x)` for the date argument: `undefined` gives Invalid Date. */
  function DateOf(dateStr: Option<string>): JsDate {
    if dateStr.Some? then ParseDate(dateStr.value) else Invalid
  }

  /**
   * `new Date(d.getFullYear(), d.getMonth(), d.getDate()).getTime()` for
   * `d = new Date(dateStr)`, on a UTC host.
   */
  function EpochMsLocalMidnight(dateStr: Option<string>): (r: Num)
    ensures DateOf(dateStr).Invalid? ==> r == NaN
  {
    var d := DateOf(dateStr);
    TimeValue(DateUtc(GetFullYear(d), GetMonth(d), GetDate(d)))
  }

  /** The ISO text of a day with a year from 100 to 9999 gives midnight of that day. */
  lemma EpochOfIsoText(c: Civil)
    requires Valid(c) && 100 <= c.year <= 9999
    ensures EpochMsLocalMidnight(Some(IsoDateText(c))) == Int(DayNumber(c) * MsPerDay)
  {
    EpochOfParsedDay(c);
    MidnightStamp(c);
  }

  /** The constructor's time value for the fields of a four-digit-year day outside 0..99. */
  lemma MidnightStamp(c: Civil)
    requires Valid(c) && 100 <= c.year <= 9999
    ensures TimeValue(DateUtc(Int(c.year), Int(c.month - 1), Int(c.day))) == Int(DayNumber(c) * MsPerDay)
  {
    FourDigitYearRange(c);
    DateUtcOfCivil(c);
  }

  /** The stamp of a day's ISO text is the constructor applied to that day's fields. */
  lemma EpochOfParsedDay(c: Civil)
    requires Valid(c) && 0 <= c.year <= 9999
    ensures EpochMsLocalMidnight(Some(IsoDateText(c))) == TimeValue(DateUtc(Int(c.year), Int(c.month - 1), Int(c.day)))
  {
    ParseIsoDateText(c);
  }

  /** Both builders put the same time stamp in the `date` parameter for such a day. */
  lemma EpochAgreesWithDownloader(c: Civil)
    requires Valid(c) && 100 <= c.year <= 9999
    ensures WareconnDownloader.DateToTimestamp(IsoDateText(c)).Ok?
    ensures EpochMsLocalMidnight(Some(IsoDateText(c))) == Int(WareconnDownloader.DateToTimestamp(IsoDateText(c)).value)
  {
    EpochOfIsoText(c);
    WareconnDownloader.TimestampOfIsoText(c);
  }

  /**
   * A year written `0000`..`0099` is read back by the three-argument
   * constructor as 1900..1999, so the stamp is a day in the twentieth century.
   */
  lemma EpochTwoDigitYear(c: Civil)
    requires Valid(c) && 0 <= c.year <= 99 && Valid(Civil(1900 + c.year, c.month, c.day))
    ensures EpochMsLocalMidnight(Some(IsoDateText(c))) == Int(DayNumber(Civil(1900 + c.year, c.month, c.day)) * MsPerDay)
  {
    EpochOfParsedDay(c);
    TwoDigitYearConstructor(c);
    MidnightStamp(Civil(1900 + c.year, c.month, c.day));
  }

  /** The constructor reads years 0..99 as 1900..1999. */
  lemma TwoDigitYearConstructor(c: Civil)
    requires 0 <= c.year <= 99
    ensures DateUtc(Int(c.year), Int(c.month - 1), Int(c.day)) == DateUtc(Int(1900 + c.year), Int(c.month - 1), Int(c.day))
  {
    DateUtcOfInts(c.year, c.month - 1, c.day);
    DateUtcOfInts(1900 + c.year, c.month - 1, c.day);
    assert ConstructorYear(c.year) == ConstructorYear(1900 + c.year);
  }

  // ---------------------------------------------------------------------------
  // buildWareconnUrl

  /**
   * The destructured argument of `buildWareconnUrl`; `None` is a property
   * left `undefined`, which takes the declared default where there is one.
   * Numbers are integers here.
   */
  datatype BuilderParams = BuilderParams(
    base: Option<string>,
    hook: Option<string>,
    cusId: Option<int>,
    proId: Option<int>,
    startDate: Option<string>,
    endDate: Option<string>,
    svcIds: Option<seq<int>>,
    stcName: Option<string>,
    pn: Option<string>,
    pmoId: Option<string>,
    svcNowId: Option<string>,
    accId: Option<string>,
    reportType: Option<int>)

  const DefaultBase: string := "https://www.wareconn.com/r/Summary/"
  const DefaultHook: string := "downStationOutput"

  function OrDefault(x: Option<string>, d: string): string {
    if x.Some? then x.value else d
  }

  /** `String(x)` for a number that may be `undefined`. */
  function NumberText(x: Option<int>): string {
    if x.Some? then IntToString(x.value) else "undefined"
  }

  /** `svcIds.join(",")`, the default being `[]`. */
  function SvcIdText(ids: Option<seq<int>>): string {
    var l := if ids.Some? then ids.value else [];
    Join(seq(|l|, i requires 0 <= i < |l| => IntToString(l[i])), ",")
  }

  /** `` `${startMs},${endMs}` ``. */
  function DateRangeText(startMs: Num, endMs: Num): string {
    ToText(startMs) + "," + ToText(endMs)
  }

  /** The object handed to `URLSearchParams`, in its property order, given the two stamps. */
  function WareconnParams(b: BuilderParams, startMs: Num, endMs: Num): seq<(string, string)> {
    [("cusId", NumberText(b.cusId)), ("proId", NumberText(b.proId)), ("stcName", OrDefault(b.stcName, "")),
     ("date", DateRangeText(startMs, endMs)), ("pn", OrDefault(b.pn, "")), ("pmoId", OrDefault(b.pmoId, "")),
     ("svc_id", SvcIdText(b.svcIds)), ("svcNow_id", OrDefault(b.svcNowId, "")), ("acc_id", OrDefault(b.accId, "")),
     ("type", IntToString(if b.reportType.Some? then b.reportType.value else 0))]
  }

  /** `` `${base}${hook}?${params.toString()}` ``. */
  function BuildWareconnUrl(b: BuilderParams): string {
    UrlWithStamps(b, EpochMsLocalMidnight(b.startDate), EpochMsLocalMidnight(b.endDate))
  }

  /** The URL once the two stamps are known. */
  function UrlWithStamps(b: BuilderParams, startMs: Num, endMs: Num): string {
    OrDefault(b.base, DefaultBase) + OrDefault(b.hook, DefaultHook) + "?" + FormEncode(WareconnParams(b, startMs, endMs), WhatwgFormSafe)
  }

  /** The names and defaults of the ten parameters. */
  lemma WareconnParamsFields(b: BuilderParams, startMs: Num, endMs: Num)
    ensures var p := WareconnParams(b, startMs, endMs);
      |p| == 10
      && p[0].0 == "cusId" && p[1].0 == "proId" && p[2].0 == "stcName" && p[3].0 == "date" && p[4].0 == "pn"
      && p[5].0 == "pmoId" && p[6].0 == "svc_id" && p[7].0 == "svcNow_id" && p[8].0 == "acc_id" && p[9].0 == "type"
      && p[3].1 == DateRangeText(startMs, endMs) && p[6].1 == SvcIdText(b.svcIds)
      && (b.cusId.None? ==> p[0].1 == "undefined")
      && (b.stcName.None? ==> p[2].1 == "") && (b.pn.None? ==> p[4].1 == "") && (b.pmoId.None? ==> p[5].1 == "")
      && (b.svcNowId.None? ==> p[7].1 == "") && (b.accId.None? ==> p[8].1 == "")
      && (b.reportType.None? ==> p[9].1 == "0")
  {
  }

  /**
   * The URL is the base, the hook, `?` and a query that the form parser
   * reads back as exactly the ten parameters, the `date` one carrying the
   * two midnight stamps; the query holds no raw comma, although the `date`
   * value it carries does.
   */
  lemma BuildWareconnUrlShape(b: BuilderParams)
    ensures var params := WareconnParams(b, EpochMsLocalMidnight(b.startDate), EpochMsLocalMidnight(b.endDate));
      var q := FormEncode(params, WhatwgFormSafe);
      BuildWareconnUrl(b) == OrDefault(b.base, DefaultBase) + OrDefault(b.hook, DefaultHook) + "?" + q
      && FormDecode(q) == Some(params)
      && ',' !in q
      && params[3] == ("date", ToText(EpochMsLocalMidnight(b.startDate)) + "," + ToText(EpochMsLocalMidnight(b.endDate)))
  {
    UrlWithStampsShape(b, EpochMsLocalMidnight(b.startDate), EpochMsLocalMidnight(b.endDate));
  }

  lemma UrlWithStampsShape(b: BuilderParams, startMs: Num, endMs: Num)
    ensures var params := WareconnParams(b, startMs, endMs);
      var q := FormEncode(params, WhatwgFormSafe);
      UrlWithStamps(b, startMs, endMs) == OrDefault(b.base, DefaultBase) + OrDefault(b.hook, DefaultHook) + "?" + q
      && FormDecode(q) == Some(params)
      && ',' !in q
      && params[3] == ("date", ToText(startMs) + "," + ToText(endMs))
  {
    WhatwgQuery(WareconnParams(b, startMs, endMs));
    DateParam(b, startMs, endMs);
  }

  lemma DateParam(b: BuilderParams, startMs: Num, endMs: Num)
    ensures WareconnParams(b, startMs, endMs)[3] == ("date", ToText(startMs) + "," + ToText(endMs))
  {
  }

  /** `URLSearchParams` text reads back as its pairs and holds no raw comma. */
  lemma WhatwgQuery(params: seq<(string, string)>)
    ensures FormDecode(FormEncode(params, WhatwgFormSafe)) == Some(params)
    ensures ',' !in FormEncode(params, WhatwgFormSafe)
  {
    KeepSetsAreFormSafe();
    FormRoundTrip(params, WhatwgFormSafe);
    WhatwgFormHasNoComma(params);
  }

  // ---------------------------------------------------------------------------
  // The Content-Disposition file name: /filename\*?=(?:UTF-8'')?([^;]+)/i

  /**
   * `lit` (written in lower case) matches `d` at `i` ignoring ASCII case.
   * Without the `u` flag a character outside ASCII never folds onto an ASCII
   * one, so ASCII folding is all the `i` flag does for this pattern.
   */
  predicate MatchesAt(d: string, i: nat, lit: string) {
    i + |lit| <= |d| && forall k | 0 <= k < |lit| :: LowerChar(d[i + k]) == lit[k]
  }

  /** The longest run of characters other than `;` from `j`: what `[^;]+` consumes. */
  function SemiFreeRun(d: string, j: nat): (n: nat)
    requires j <= |d|
    ensures j + n <= |d|
    ensures forall k | j <= k < j + n :: d[k] != ';'
    ensures j + n == |d| || d[j + n] == ';'
    decreases |d| - j
  {
    if j == |d| || d[j] == ';' then 0 else 1 + SemiFreeRun(d, j + 1)
  }

  /** `(?:UTF-8'')?([^;]+)` from `k`: the prefix is taken when a value follows it. */
  function ValueAt(d: string, k: nat): (r: Option<string>)
    requires k <= |d|
  {
    var p := k + 7;
    if MatchesAt(d, k, "utf-8''") && SemiFreeRun(d, p) > 0 then Some(d[p..p + SemiFreeRun(d, p)])
    else if SemiFreeRun(d, k) > 0 then Some(d[k..k + SemiFreeRun(d, k)])
    else None
  }

  /** Where `=` must stand after `filename` at `i`: one further on for the `*` form. */
  function KeywordEnd(d: string, i: nat): nat {
    if i + 8 < |d| && d[i + 8] == '*' then i + 9 else i + 8
  }

  /** The capture of a match starting at `i`, if the pattern matches there. */
  function MatchAt(d: string, i: nat): (r: Option<string>)
    requires i <= |d|
  {
    if !MatchesAt(d, i, "filename") then None
    else
      var j := KeywordEnd(d, i);
      if j < |d| && d[j] == '=' then ValueAt(d, j + 1) else None
  }

  /** The capture at each position of `d`, from 0 to `|d|`. */
  function Captures(d: string): (cs: seq<Option<string>>)
    ensures |cs| == |d| + 1
    ensures forall j | 0 <= j <= |d| :: cs[j] == MatchAt(d, j)
  {
    seq(|d| + 1, j requires 0 <= j <= |d| => MatchAt(d, j))
  }

  /** The first capture at or after `i`. */
  function FirstSome(cs: seq<Option<string>>, i: nat): Option<string>
    requires i <= |cs|
    decreases |cs| - i
  {
    if i == |cs| then None else if cs[i].Some? then cs[i] else FirstSome(cs, i + 1)
  }

  /** `d.match(re)` without the `g` flag: the capture of the leftmost match. */
  function FirstMatch(d: string): Option<string> {
    FirstSome(Captures(d), 0)
  }

  /** The first capture is the one at the least position holding one, and `None` when none does. */
  lemma {:induction false} FirstSomeLeftmost(cs: seq<Option<string>>, i: nat)
    requires i <= |cs|
    ensures FirstSome(cs, i).None? <==> forall j | i <= j < |cs| :: cs[j].None?
    ensures forall j | i <= j < |cs| && cs[j].Some? && (forall k | i <= k < j :: cs[k].None?) ::
      FirstSome(cs, i) == cs[j]
    decreases |cs| - i
  {
    if i < |cs| && cs[i].None? {
      FirstSomeLeftmost(cs, i + 1);
    }
  }

  /** A capture is non-empty and holds no `;`. */
  lemma MatchAtShape(d: string, i: nat)
    requires i <= |d| && MatchAt(d, i).Some?
    ensures MatchAt(d, i).value != "" && ';' !in MatchAt(d, i).value
  {
  }

  /** `.replace(/(^"|"$)/g, "")`: one leading and one trailing `"` removed. */
  function StripQuotes(t: string): (r: string)
    ensures |r| <= |t|
  {
    var a := if |t| > 0 && t[0] == '"' then t[1..] else t;
    if |a| > 0 && a[|a| - 1] == '"' then a[..|a| - 1] else a
  }

  /** Quoting is undone, and text without quotes is left alone. */
  lemma StripQuotesOfQuoted(e: string)
    requires '"' !in e
    ensures StripQuotes("\"" + e + "\"") == e
    ensures StripQuotes(e) == e
  {
    var t := "\"" + e + "\"";
    assert t[1..] == e + "\"";
    assert (e + "\"")[..|e|] == e;
  }

  /**
   * The file name of the download: `null` without a match, otherwise the
   * capture without its quotes, percent-decoded; a malformed escape makes
   * `decodeURIComponent` throw, and the whole download rejects.
   */
  function DispositionFilename(dispo: string): (r: Result<Option<string>>)
    ensures FirstMatch(dispo).None? <==> r == Ok(None)
  {
    match FirstMatch(dispo)
    case None => Ok(None)
    case Some(c) =>
      match DecodeUriComponent(StripQuotes(c))
      case None => Err("URIError: URI malformed")
      case Some(n) => Ok(Some(n))
  }

  /** A header without `filename` (in any case) names no file. */
  lemma NoFilenameWithoutKeyword(dispo: string)
    requires forall i | 0 <= i <= |dispo| :: !MatchesAt(dispo, i, "filename")
    ensures DispositionFilename(dispo) == Ok(None)
  {
    FirstSomeLeftmost(Captures(dispo), 0);
  }

  lemma {:induction false} SemiFreeRunOf(d: string, j: nat, n: nat)
    requires j + n <= |d| && (j + n == |d| || d[j + n] == ';')
    requires forall k | j <= k < j + n :: d[k] != ';'
    ensures SemiFreeRun(d, j) == n
    decreases n
  {
    if n > 0 {
      SemiFreeRunOf(d, j + 1, n - 1);
    }
  }

  // Moving the match over a prefix.

  lemma {:induction false} SemiFreeRunShift(p: string, m: string, j: nat)
    requires j <= |m|
    ensures SemiFreeRun(p + m, |p| + j) == SemiFreeRun(m, j)
    decreases |m| - j
  {
    if j < |m| {
      assert (p + m)[|p| + j] == m[j];
      SemiFreeRunShift(p, m, j + 1);
    }
  }

  lemma MatchesAtShift(p: string, m: string, j: nat, lit: string)
    ensures MatchesAt(p + m, |p| + j, lit) == MatchesAt(m, j, lit)
  {
    if j + |lit| <= |m| {
      forall k | j <= k < j + |lit|
        ensures (p + m)[|p| + k] == m[k]
      {
      }
    }
  }

  lemma KeywordEndShift(p: string, m: string)
    requires |m| >= 8
    ensures KeywordEnd(p + m, |p|) == |p| + KeywordEnd(m, 0)
  {
    if 8 < |m| {
      assert (p + m)[|p| + 8] == m[8];
    }
  }

  lemma SliceShift(p: string, m: string, k: nat, n: nat)
    requires k + n <= |m|
    ensures (p + m)[|p| + k..|p| + k + n] == m[k..k + n]
  {
  }

  lemma ValueAtShift(p: string, m: string, k: nat)
    requires k <= |m|
    ensures ValueAt(p + m, |p| + k) == ValueAt(m, k)
  {
    MatchesAtShift(p, m, k, "utf-8''");
    if MatchesAt(m, k, "utf-8''") {
      PrefixedValueShift(p, m, k);
    } else {
      PlainValueShift(p, m, k);
    }
  }

  lemma PrefixedValueShift(p: string, m: string, k: nat)
    requires k <= |m| && MatchesAt(m, k, "utf-8''") && MatchesAt(p + m, |p| + k, "utf-8''")
    ensures ValueAt(p + m, |p| + k) == ValueAt(m, k)
  {
    if SemiFreeRun(m, k + 7) > 0 {
      PrefixedRunShift(p, m, k);
    } else {
      EmptyPrefixedRunShift(p, m, k);
    }
  }

  lemma PrefixedRunShift(p: string, m: string, k: nat)
    requires k + 7 <= |m| && MatchesAt(m, k, "utf-8''") && MatchesAt(p + m, |p| + k, "utf-8''")
    requires SemiFreeRun(m, k + 7) > 0
    ensures ValueAt(p + m, |p| + k) == ValueAt(m, k)
  {
    RunShift(p, m, k + 7, |p| + k + 7);
    ValueAtPrefixed(m, k);
    ValueAtPrefixed(p + m, |p| + k);
  }

  lemma EmptyPrefixedRunShift(p: string, m: string, k: nat)
    requires k + 7 <= |m| && SemiFreeRun(m, k + 7) == 0
    ensures ValueAt(p + m, |p| + k) == ValueAt(m, k)
  {
    RunShift(p, m, k + 7, |p| + k + 7);
    PlainValueShift(p, m, k);
  }

  lemma PlainValueShift(p: string, m: string, k: nat)
    requires k <= |m| && !(MatchesAt(m, k, "utf-8''") && SemiFreeRun(m, k + 7) > 0)
    requires !(MatchesAt(p + m, |p| + k, "utf-8''") && SemiFreeRun(p + m, |p| + k + 7) > 0)
    ensures ValueAt(p + m, |p| + k) == ValueAt(m, k)
  {
    RunShift(p, m, k, |p| + k);
    SamePlainValue(p + m, |p| + k, m, k);
  }

  /** Two texts with the same unprefixed run at two places have the same value there. */
  lemma SamePlainValue(d1: string, k1: nat, d2: string, k2: nat)
    requires k1 <= |d1| && !(MatchesAt(d1, k1, "utf-8''") && SemiFreeRun(d1, k1 + 7) > 0)
    requires k2 <= |d2| && !(MatchesAt(d2, k2, "utf-8''") && SemiFreeRun(d2, k2 + 7) > 0)
    requires SemiFreeRun(d1, k1) == SemiFreeRun(d2, k2)
    requires d1[k1..k1 + SemiFreeRun(d1, k1)] == d2[k2..k2 + SemiFreeRun(d2, k2)]
    ensures ValueAt(d1, k1) == ValueAt(d2, k2)
  {
    ValueAtPlain(d1, k1);
    ValueAtPlain(d2, k2);
  }

  /** Two texts with the same prefixed run at two places have the same value there. */
  lemma SamePrefixedValue(d1: string, k1: nat, d2: string, k2: nat)
    requires k1 + 7 <= |d1| && MatchesAt(d1, k1, "utf-8''") && SemiFreeRun(d1, k1 + 7) > 0
    requires k2 + 7 <= |d2| && MatchesAt(d2, k2, "utf-8''")
    requires SemiFreeRun(d1, k1 + 7) == SemiFreeRun(d2, k2 + 7)
    requires d1[k1 + 7..k1 + 7 + SemiFreeRun(d1, k1 + 7)] == d2[k2 + 7..k2 + 7 + SemiFreeRun(d2, k2 + 7)]
    ensures ValueAt(d1, k1) == ValueAt(d2, k2)
  {
    ValueAtPrefixed(d1, k1);
    ValueAtPrefixed(d2, k2);
  }

  /** The `[^;]+` run at `j` of `m` is the run at `i` of `p + m`. */
  lemma RunShift(p: string, m: string, j: nat, i: nat)
    requires j <= |m| && i == |p| + j
    ensures SemiFreeRun(p + m, i) == SemiFreeRun(m, j)
    ensures (p + m)[i..i + SemiFreeRun(p + m, i)] == m[j..j + SemiFreeRun(m, j)]
  {
    SemiFreeRunShift(p, m, j);
    SliceShift(p, m, j, SemiFreeRun(m, j));
  }

  /** The keyword matches at the head of any text starting with it. */
  lemma KeywordAtHead(m: string)
    requires |m| >= 8 && m[..8] == "filename"
    ensures MatchesAt(m, 0, "filename")
  {
    forall k | 0 <= k < 8
      ensures LowerChar(m[k]) == "filename"[k]
    {
      assert m[k] == m[..8][k];
    }
  }

  /** `filename=` then a value. */
  lemma PlainKeywordThenValue(v: string)
    ensures MatchAt("filename=" + v, 0) == ValueAt(v, 0)
  {
    var a := "filename=" + v;
    assert a[..8] == "filename";
    KeywordAtHead(a);
    assert a[8] == '=';
    ValueAtShift("filename=", v, 0);
  }

  /** `filename*=` then a value. */
  lemma ExtendedKeywordThenValue(v: string)
    ensures MatchAt("filename*=" + v, 0) == ValueAt(v, 0)
  {
    var b := "filename*=" + v;
    assert b[..8] == "filename";
    KeywordAtHead(b);
    assert b[8] == '*' && b[9] == '=';
    ValueAtShift("filename*=", v, 0);
  }

  /** A quoted value: the capture is the quotes and what they enclose. */
  lemma QuotedValue(e: string, rest: string)
    requires ';' !in e && (rest == "" || rest[0] == ';')
    ensures ValueAt("\"" + e + "\"" + rest, 0) == Some("\"" + e + "\"")
  {
    var cap := "\"" + e + "\"";
    var v := cap + rest;
    assert v[0] == '"';
    assert LowerChar(v[0]) != "utf-8''"[0];
    assert !MatchesAt(v, 0, "utf-8''");
    assert forall k | 0 <= k < |cap| :: v[k] == cap[k];
    SemiFreeRunOf(v, 0, |cap|);
    assert v[0..|cap|] == cap;
  }

  /** The `UTF-8''` prefix matches its own pattern. */
  lemma PrefixAtHead(v: string)
    requires |v| >= 7 && v[..7] == "UTF-8''"
    ensures MatchesAt(v, 0, "utf-8''")
  {
    forall k | 0 <= k < 7
      ensures LowerChar(v[k]) == "utf-8''"[k]
    {
      assert v[k] == v[..7][k];
    }
  }

  /** `[^;]+` consumes a value without `;` up to the `;` or the end after it. */
  lemma RunOfValue(e: string, rest: string)
    requires ';' !in e && (rest == "" || rest[0] == ';')
    ensures SemiFreeRun(e + rest, 0) == |e| && (e + rest)[0..|e|] == e
  {
    var w := e + rest;
    assert forall k | 0 <= k < |e| :: w[k] == e[k];
    SemiFreeRunOf(w, 0, |e|);
  }

  /** A `UTF-8''` prefix followed by a value: the capture is the value. */
  lemma PrefixedValue(e: string, rest: string)
    requires e != "" && ';' !in e && (rest == "" || rest[0] == ';')
    ensures ValueAt("UTF-8''" + (e + rest), 0) == Some(e)
  {
    assert ("UTF-8''" + (e + rest))[..7] == "UTF-8''";
    PrefixAtHead("UTF-8''" + (e + rest));
    RunOfValue(e, rest);
    PrefixedCapture("UTF-8''", e + rest, |e|);
    ValueAtPrefixed("UTF-8''" + (e + rest), 0);
  }

  /** After a seven-character prefix, the run is the run that follows it. */
  lemma PrefixedCapture(p: string, w: string, n: nat)
    requires |p| == 7 && n <= |w| && SemiFreeRun(w, 0) == n
    ensures SemiFreeRun(p + w, 7) == n && (p + w)[7..7 + n] == w[0..n]
  {
    SemiFreeRunShift(p, w, 0);
    SliceShift(p, w, 0, n);
  }

  lemma ValueAtPlain(d: string, k: nat)
    requires k <= |d| && !(MatchesAt(d, k, "utf-8''") && SemiFreeRun(d, k + 7) > 0)
    ensures ValueAt(d, k) == if SemiFreeRun(d, k) > 0 then Some(d[k..k + SemiFreeRun(d, k)]) else None
  {
  }

  lemma ValueAtPrefixed(d: string, k: nat)
    requires k + 7 <= |d| && MatchesAt(d, k, "utf-8''") && SemiFreeRun(d, k + 7) > 0
    ensures ValueAt(d, k) == Some(d[k + 7..k + 7 + SemiFreeRun(d, k + 7)])
  {
  }

  /** With nothing after the `UTF-8''` prefix, the prefix itself is the capture. */
  lemma BarePrefixValue()
    ensures ValueAt("UTF-8''", 0) == Some("UTF-8''")
  {
    var v := "UTF-8''";
    SemiFreeRunOf(v, 7, 0);
    SemiFreeRunOf(v, 0, 7);
    assert v[0..7] == v;
  }

  /** No match starts inside a prefix without `f` or `F`. */
  lemma NoMatchInPrefix(p: string, m: string, k: nat)
    requires forall i | 0 <= i < |p| :: LowerChar(p[i]) != 'f'
    requires k < |p|
    ensures MatchAt(p + m, k).None?
  {
    assert (p + m)[k] == p[k];
    assert "filename"[0] == 'f';
    assert !(LowerChar((p + m)[k + 0]) == "filename"[0]);
  }

  /** The match at the end of a prefix is the match at the head of the rest. */
  lemma MatchAtShiftHead(p: string, m: string)
    ensures MatchAt(p + m, |p|) == MatchAt(m, 0)
  {
    var d := p + m;
    MatchesAtShift(p, m, 0, "filename");
    if MatchesAt(m, 0, "filename") {
      KeywordEndShift(p, m);
      var j := KeywordEnd(m, 0);
      if j < |m| {
        assert d[|p| + j] == m[j];
        ValueAtShift(p, m, j + 1);
      }
    }
  }

  /** After a prefix without `f`, the leftmost match is the one where the prefix ends. */
  lemma FirstMatchAfterPrefix(p: string, m: string)
    requires forall i | 0 <= i < |p| :: LowerChar(p[i]) != 'f'
    requires MatchAt(m, 0).Some?
    ensures FirstMatch(p + m) == MatchAt(m, 0)
  {
    var d := p + m;
    var cs := Captures(d);
    forall k | 0 <= k < |p|
      ensures cs[k].None?
    {
      NoMatchInPrefix(p, m, k);
    }
    MatchAtShiftHead(p, m);
    assert cs[|p|] == MatchAt(m, 0);
    FirstSomeLeftmost(cs, 0);
  }

  /** The file name is what the leftmost capture decodes to. */
  lemma DispositionOfCapture(dispo: string, cap: string)
    requires FirstMatch(dispo) == Some(cap)
    ensures DispositionFilename(dispo) == (
      match DecodeUriComponent(StripQuotes(cap))
      case None => Err("URIError: URI malformed")
      case Some(n) => Ok(Some(n)))
  {
  }

  /** `encodeURIComponent` never writes `;` or `"`. */
  lemma EncodedAvoidsQuoteAndSemicolon(n: string)
    ensures ';' !in EncodeUriComponent(n) && '"' !in EncodeUriComponent(n)
  {
    EncodeBytesAvoids(Utf8.Encode(n), UriUnreserved, false, ';');
    EncodeBytesAvoids(Utf8.Encode(n), UriUnreserved, false, '"');
  }

  lemma EncodedNonEmpty(n: string)
    requires n != ""
    ensures EncodeUriComponent(n) != ""
  {
    Utf8.EncodeAppend([n[0]], n[1..]);
    assert [n[0]] + n[1..] == n;
  }

  /** After a prefix without `f`, a quoted value without `;` is the leftmost capture, quotes included. */
  lemma QuotedCapture(p: string, e: string, rest: string)
    requires forall i | 0 <= i < |p| :: LowerChar(p[i]) != 'f'
    requires ';' !in e && (rest == "" || rest[0] == ';')
    ensures FirstMatch(p + ("filename=\"" + e + "\"" + rest)) == Some("\"" + e + "\"")
  {
    var v := "\"" + e + "\"" + rest;
    QuotedValue(e, rest);
    PlainKeywordThenValue(v);
    FirstMatchAfterPrefix(p, "filename=" + v);
    QuotedText(e, rest);
  }

  lemma QuotedText(e: string, rest: string)
    ensures "filename=\"" + e + "\"" + rest == "filename=" + ("\"" + e + "\"" + rest)
  {
    assert "filename=\"" == "filename=" + "\"";
  }

  /** After a prefix without `f`, a non-empty value without `;` behind `filename*=UTF-8''` is the leftmost capture. */
  lemma ExtendedCapture(p: string, e: string, rest: string)
    requires forall i | 0 <= i < |p| :: LowerChar(p[i]) != 'f'
    requires e != "" && ';' !in e && (rest == "" || rest[0] == ';')
    ensures FirstMatch(p + ("filename*=UTF-8''" + e + rest)) == Some(e)
  {
    var v := "UTF-8''" + (e + rest);
    PrefixedValue(e, rest);
    ExtendedKeywordThenValue(v);
    FirstMatchAfterPrefix(p, "filename*=" + v);
    ExtendedText(e, rest);
  }

  lemma ExtendedText(e: string, rest: string)
    ensures "filename*=UTF-8''" + e + rest == "filename*=" + ("UTF-8''" + (e + rest))
  {
    assert "filename*=UTF-8''" == "filename*=" + "UTF-8''";
  }

  /**
   * A server that writes `filename="<encodeURIComponent(name)>"` after a
   * prefix without `f`, optionally followed by `;` and more parameters, gets
   * exactly `name` back.
   */
  lemma QuotedFilenameRoundTrip(p: string, name: string, rest: string)
    requires forall i | 0 <= i < |p| :: LowerChar(p[i]) != 'f'
    requires rest == "" || rest[0] == ';'
    ensures DispositionFilename(p + ("filename=\"" + EncodeUriComponent(name) + "\"" + rest)) == Ok(Some(name))
  {
    var e := EncodeUriComponent(name);
    EncodedAvoidsQuoteAndSemicolon(name);
    QuotedCapture(p, e, rest);
    DispositionOfCapture(p + ("filename=\"" + e + "\"" + rest), "\"" + e + "\"");
    StripQuotesOfQuoted(e);
    DecodeEncodeUriComponent(name);
  }

  /**
   * The extended form `filename*=UTF-8''<encodeURIComponent(name)>` gives
   * `name` back for a non-empty name.
   */
  lemma ExtendedFilenameRoundTrip(p: string, name: string, rest: string)
    requires forall i | 0 <= i < |p| :: LowerChar(p[i]) != 'f'
    requires rest == "" || rest[0] == ';'
    requires name != ""
    ensures DispositionFilename(p + ("filename*=UTF-8''" + EncodeUriComponent(name) + rest)) == Ok(Some(name))
  {
    var e := EncodeUriComponent(name);
    EncodedAvoidsQuoteAndSemicolon(name);
    EncodedNonEmpty(name);
    ExtendedCapture(p, e, rest);
    DispositionOfCapture(p + ("filename*=UTF-8''" + e + rest), e);
    StripQuotesOfQuoted(e);
    DecodeEncodeUriComponent(name);
  }

  /** With nothing after the `UTF-8''` prefix, the prefix itself becomes the name. */
  lemma ExtendedFilenameEmpty(p: string)
    requires forall i | 0 <= i < |p| :: LowerChar(p[i]) != 'f'
    ensures DispositionFilename(p + "filename*=UTF-8''") == Ok(Some("UTF-8''"))
  {
    BareCapture(p);
    DispositionOfCapture(p + "filename*=UTF-8''", "UTF-8''");
    assert StripQuotes("UTF-8''") == "UTF-8''";
    DecodeWithoutPercent("UTF-8''");
  }

  lemma BareCapture(p: string)
    requires forall i | 0 <= i < |p| :: LowerChar(p[i]) != 'f'
    ensures FirstMatch(p + "filename*=UTF-8''") == Some("UTF-8''")
  {
    BarePrefixValue();
    ExtendedKeywordThenValue("UTF-8''");
    ExtendedText("", "");
    assert "UTF-8''" + ("" + "") == "UTF-8''" && "filename*=UTF-8''" + "" + "" == "filename*=UTF-8''";
    FirstMatchAfterPrefix(p, "filename*=UTF-8''");
  }

  // ---------------------------------------------------------------------------
  // The store key

  /**
   * `storeKey ?? \`wareconn:stationOutput:${sheetName ?? "sheet"}:${Date.now()}\``;
   * `now` is the clock reading.
   */
  function StoreKey(storeKey: Option<string>, sheetName: Option<string>, now: int): (r: string)
    ensures storeKey.Some? ==> r == storeKey.value
  {
    if storeKey.Some? then storeKey.value
    else "wareconn:stationOutput:" + (if sheetName.Some? then sheetName.value else "sheet") + ":" + IntToString(now)
  }

  /** The default key is the four fields joined by `:`. */
  lemma StoreKeyIsJoin(sheet: string, t: string)
    ensures "wareconn:stationOutput:" + sheet + ":" + t == Join(["wareconn", "stationOutput", sheet, t], ":")
  {
    JoinCons(sheet, [t], ":");
    assert [sheet] + [t] == [sheet, t];
    JoinCons("stationOutput", [sheet, t], ":");
    assert ["stationOutput"] + [sheet, t] == ["stationOutput", sheet, t];
    JoinCons("wareconn", ["stationOutput", sheet, t], ":");
    assert ["wareconn"] + ["stationOutput", sheet, t] == ["wareconn", "stationOutput", sheet, t];
  }

  lemma IntTextHasNoColon(now: int)
    ensures ':' !in IntToString(now)
  {
    var t := IntToString(now);
    if now < 0 {
      assert t[1..] == NatToString(-now);
      assert forall k | 1 <= k < |t| :: t[k] == t[1..][k - 1];
    }
  }

  /** The default key splits on `:` into its four fields when the sheet name has no `:`. */
  lemma StoreKeyFields(sheetName: Option<string>, now: int)
    requires sheetName.Some? ==> ':' !in sheetName.value
    ensures var sheet := if sheetName.Some? then sheetName.value else "sheet";
      Split(StoreKey(None, sheetName, now), ":") == ["wareconn", "stationOutput", sheet, IntToString(now)]
  {
    var sheet := if sheetName.Some? then sheetName.value else "sheet";
    var t := IntToString(now);
    var parts := ["wareconn", "stationOutput", sheet, t];
    IntTextHasNoColon(now);
    StoreKeyIsJoin(sheet, t);
    assert ':' !in "wareconn" && ':' !in "stationOutput" && ':' !in "sheet";
    assert forall k | 0 <= k < 4 :: ':' !in parts[k];
    SplitJoinOfPieces(parts, ':');
  }

  /** Unlike `||`, `??` keeps an empty sheet name. */
  lemma StoreKeyKeepsEmptySheetName(now: int)
    ensures StoreKey(None, Some(""), now) == "wareconn:stationOutput::" + IntToString(now)
  {
  }
}
