/**
 * The Wareconn report downloader (`wareconn_downloader.py`): turning
 * `YYYY-MM-DD` dates into epoch milliseconds, normalising the service IDs,
 * building the request URL with raw commas, importing browser cookies into
 * the session's jar, and classifying the response of the export request.
 *
 * The network and the file system are inputs: the response (its final URL,
 * headers, body and chunks) and the bytes read back from the written file.
 * The host's local time zone is UTC, so local midnight is UTC midnight.
 */
module WareconnDownloader {
  import opened Wrappers
  import opened Strings
  import opened CivilDates
  import opened JsDates
  import opened PercentEncoding

  // ---------------------------------------------------------------------------
  // date_to_timestamp

  function DigitValue(c: char): (d: int)
    requires IsDigit(c)
    ensures 0 <= d < 10
  {
    c as int - '0' as int
  }

  /**
   * The `%m` directive of `strptime`: the first of the alternatives
   * `1[0-2]`, `0[1-9]`, `[1-9]` that matches at the front of `r`, as its
   * value and its length.
   */
  function MonthToken(r: string): (t: Option<(int, nat)>)
    ensures t.Some? ==> 1 <= t.value.0 <= 12 && 1 <= t.value.1 <= 2 && t.value.1 <= |r|
  {
    if |r| >= 2 && r[0] == '1' && '0' <= r[1] <= '2' then Some((10 + DigitValue(r[1]), 2))
    else if |r| >= 2 && r[0] == '0' && '1' <= r[1] <= '9' then Some((DigitValue(r[1]), 2))
    else if |r| >= 1 && '1' <= r[0] <= '9' then Some((DigitValue(r[0]), 1))
    else None
  }

  /**
   * The `%d` directive: the first of `3[01]`, `[12][0-9]`, `0[1-9]`, `[1-9]`
   * and ` [1-9]` that matches at the front of `r`.
   */
  function DayToken(r: string): (t: Option<(int, nat)>)
    ensures t.Some? ==> 1 <= t.value.0 <= 31 && 1 <= t.value.1 <= 2 && t.value.1 <= |r|
  {
    if |r| >= 2 && r[0] == '3' && (r[1] == '0' || r[1] == '1') then Some((30 + DigitValue(r[1]), 2))
    else if |r| >= 2 && (r[0] == '1' || r[0] == '2') && IsDigit(r[1]) then Some((10 * DigitValue(r[0]) + DigitValue(r[1]), 2))
    else if |r| >= 2 && r[0] == '0' && '1' <= r[1] <= '9' then Some((DigitValue(r[1]), 2))
    else if |r| >= 1 && '1' <= r[0] <= '9' then Some((DigitValue(r[0]), 1))
    else if |r| >= 2 && r[0] == ' ' && '1' <= r[1] <= '9' then Some((DigitValue(r[1]), 2))
    else None
  }

  /**
   * `datetime.strptime(s, "%Y-%m-%d")`: four digits, `-`, a month token,
   * `-`, a day token, and nothing after it; the date must exist and its year
   * must be at least 1 (`datetime.MINYEAR`).
   */
  function ParseYmd(s: string): (r: Option<Civil>)
    ensures r.Some? ==> Valid(r.value) && 1 <= r.value.year <= 9999
  {
    if !(|s| >= 5 && DigitsAt(s, 0, 4) && s[4] == '-') then None
    else match MonthToken(s[5..])
      case None => None
      case Some((m, k)) =>
        var i := 5 + k;
        if !(i < |s| && s[i] == '-') then None
        else match DayToken(s[i + 1..])
          case None => None
          case Some((d, n)) =>
            DigitsValueBound(s[..4]);
            assert Pow10(4) == 10000;
            var c := Civil(DigitsValue(s[..4]), m, d);
            if i + 1 + n == |s| && c.year >= 1 && Valid(c) then Some(c) else None
  }

  function DateErrorText(s: string): string {
    "Invalid date format: " + s + ". Use YYYY-MM-DD."
  }

  /** `date_to_timestamp(s)`: local (here UTC) midnight in milliseconds, or a `ValueError`. */
  function DateToTimestamp(s: string): (r: Result<int>)
    ensures r.Ok? <==> ParseYmd(s).Some?
    ensures r.Ok? ==> r.value == DayNumber(ParseYmd(s).value) * MsPerDay
    ensures r.Err? ==> Contains(r.error, s)
  {
    match ParseYmd(s)
    case Some(c) => Ok(DayNumber(c) * MsPerDay)
    case None =>
      ContainsInside("Invalid date format: ", s, ". Use YYYY-MM-DD.");
      Err(DateErrorText(s))
  }

  lemma ContainsInside(a: string, s: string, b: string)
    ensures Contains(a + s + b, s)
  {
    assert OccursAt(a + s + b, s, |a|) by {
      assert (a + s + b)[|a|..|a| + |s|] == s;
    }
  }

  /** The two characters of `Pad2(v)` for a day or month number. */
  lemma PaddedField(v: nat)
    requires 1 <= v <= 31
    ensures v < 10 ==> Pad2(v) == ['0', DigitChar(v)]
    ensures v >= 10 ==> Pad2(v) == [DigitChar(v / 10), DigitChar(v % 10)]
  {
    if v < 10 {
      assert NatToString(v) == [DigitChar(v)];
    } else {
      assert NatToString(v / 10) == [DigitChar(v / 10)];
      assert NatToString(v) == [DigitChar(v / 10), DigitChar(v % 10)];
    }
  }

  /** The two characters of `String(v)` for a day or month number. */
  lemma PlainField(v: nat)
    requires 1 <= v <= 31
    ensures v < 10 ==> NatToString(v) == [DigitChar(v)]
    ensures v >= 10 ==> NatToString(v) == [DigitChar(v / 10), DigitChar(v % 10)]
  {
    if v >= 10 {
      assert NatToString(v / 10) == [DigitChar(v / 10)];
    }
  }

  /** The month and day tokens read a zero-padded or an unpadded field back. */
  lemma FieldTokens(m: nat, d: nat, padded: bool)
    requires 1 <= m <= 12 && 1 <= d <= 31
    ensures var ms, ds := (if padded then Pad2(m) else NatToString(m)), (if padded then Pad2(d) else NatToString(d));
      MonthToken(ms + "-" + ds) == Some((m, |ms|)) && DayToken(ds) == Some((d, |ds|))
  {
    if padded {
      MonthTokenOf(m, Pad2(m), Pad2(d));
      DayTokenOf(d, Pad2(d));
    } else {
      MonthTokenOf(m, NatToString(m), NatToString(d));
      DayTokenOf(d, NatToString(d));
    }
  }

  lemma MonthTokenOf(m: nat, ms: string, ds: string)
    requires 1 <= m <= 12 && (ms == Pad2(m) || ms == NatToString(m))
    ensures MonthToken(ms + "-" + ds) == Some((m, |ms|))
  {
    PaddedField(m);
    PlainField(m);
    if m >= 10 {
      MonthTwoDigits(ms + "-" + ds, m);
    } else if ms == NatToString(m) {
      MonthOneDigit(ms + "-" + ds, m);
    } else {
      MonthZeroPadded(ms + "-" + ds, m);
    }
  }

  lemma MonthOneDigit(r: string, m: nat)
    requires 1 <= m <= 9 && |r| >= 2 && r[0] == DigitChar(m) && r[1] == '-'
    ensures MonthToken(r) == Some((m, 1))
  {
  }

  lemma MonthZeroPadded(r: string, m: nat)
    requires 1 <= m <= 9 && |r| >= 2 && r[0] == '0' && r[1] == DigitChar(m)
    ensures MonthToken(r) == Some((m, 2))
  {
  }

  lemma MonthTwoDigits(r: string, m: nat)
    requires 10 <= m <= 12 && |r| >= 2 && r[0] == '1' && r[1] == DigitChar(m % 10)
    ensures MonthToken(r) == Some((m, 2))
  {
  }

  lemma DayTokenOf(d: nat, ds: string)
    requires 1 <= d <= 31 && (ds == Pad2(d) || ds == NatToString(d))
    ensures DayToken(ds) == Some((d, |ds|))
  {
    if d < 10 {
      PaddedField(d);
      PlainField(d);
      assert '1' <= DigitChar(d) <= '9';
      if ds == NatToString(d) {
        assert ds == [DigitChar(d)];
      } else {
        assert ds == ['0', DigitChar(d)];
      }
    } else {
      TwoDigitDay(d, ds);
    }
  }

  lemma TwoDigitDay(d: nat, ds: string)
    requires 10 <= d <= 31 && (ds == Pad2(d) || ds == NatToString(d))
    ensures |ds| == 2 && DayToken(ds) == Some((d, 2))
  {
    PaddedField(d);
    PlainField(d);
    var hi, lo := d / 10, d % 10;
    assert ds == [DigitChar(hi), DigitChar(lo)];
    assert DigitChar(hi) == (if hi == 1 then '1' else if hi == 2 then '2' else '3');
    assert hi == 3 ==> DigitChar(lo) == (if lo == 0 then '0' else '1');
  }

  /** `YYYY-<month>-<day>` with the right fields parses to that date. */
  lemma ParseYmdParts(y: string, ms: string, ds: string, c: Civil)
    requires |y| == 4 && AllDigits(y) && DigitsValue(y) == c.year && Valid(c) && c.year >= 1
    requires MonthToken(ms + "-" + ds) == Some((c.month, |ms|)) && DayToken(ds) == Some((c.day, |ds|))
    ensures ParseYmd(y + "-" + ms + "-" + ds) == Some(c)
  {
    var s := y + "-" + ms + "-" + ds;
    assert s[..4] == y;
    assert s[5..] == ms + "-" + ds;
    assert s[5 + |ms|] == '-';
    assert s[5 + |ms| + 1..] == ds;
  }

  /**
   * The text of a date with a four-digit year is accepted, zero-padded or
   * not, and means midnight of that day.
   */
  lemma TimestampOfText(c: Civil, padded: bool)
    requires Valid(c) && 1 <= c.year <= 9999
    ensures var ms, ds := (if padded then Pad2(c.month) else NatToString(c.month)), (if padded then Pad2(c.day) else NatToString(c.day));
      DateToTimestamp(PadNat(c.year, 4) + "-" + ms + "-" + ds) == Ok(DayNumber(c) * MsPerDay)
  {
    assert Pow10(4) == 10000;
    PadNatLength(c.year, 4);
    PadNatValue(c.year, 4);
    FieldTokens(c.month, c.day, padded);
    var ms, ds := (if padded then Pad2(c.month) else NatToString(c.month)), (if padded then Pad2(c.day) else NatToString(c.day));
    ParseYmdParts(PadNat(c.year, 4), ms, ds, c);
  }

  /** In particular the ISO text of such a date, as the defaults write it. */
  lemma TimestampOfIsoText(c: Civil)
    requires Valid(c) && 1 <= c.year <= 9999
    ensures DateToTimestamp(IsoDateText(c)) == Ok(DayNumber(c) * MsPerDay)
  {
    TimestampOfText(c, true);
  }

  /** Accepted texts map to distinct instants in calendar order. */
  lemma TimestampOrder(a: string, b: string)
    requires DateToTimestamp(a).Ok? && DateToTimestamp(b).Ok?
    ensures var ca, cb := ParseYmd(a).value, ParseYmd(b).value;
      (DateToTimestamp(a).value <= DateToTimestamp(b).value <==> !Before(cb, ca))
      && (DateToTimestamp(a).value == DateToTimestamp(b).value <==> ca == cb)
  {
    DayNumberOrder(ParseYmd(a).value, ParseYmd(b).value);
    DayNumberOrder(ParseYmd(b).value, ParseYmd(a).value);
  }

  // ---------------------------------------------------------------------------
  // _normalize_svc_ids

  /** The scalar values a service ID can be given as. */
  datatype Scalar = ScalarNone | ScalarInt(i: int) | ScalarStr(s: string)

  /** `str(x)`. */
  function ScalarText(x: Scalar): string {
    match x
    case ScalarNone => "None"
    case ScalarInt(i) => IntToString(i)
    case ScalarStr(s) => s
  }

  /** The service-ID argument: `None`, a list or tuple of scalars, or one scalar. */
  datatype SvcArg = NoIds | IdList(items: seq<Scalar>) | IdScalar(x: Scalar)

  function Texts(items: seq<Scalar>): (r: seq<string>)
    ensures |r| == |items| && forall i | 0 <= i < |items| :: r[i] == ScalarText(items[i])
  {
    seq(|items|, i requires 0 <= i < |items| => ScalarText(items[i]))
  }

  /** `_normalize_svc_ids(x)`. */
  function NormalizeSvcIds(x: SvcArg): (r: string)
    ensures x.NoIds? || (x.IdList? && x.items == []) ==> r == ""
    ensures x.IdScalar? ==> r == ScalarText(x.x)
  {
    match x
    case NoIds => ""
    case IdList(items) => Join(Texts(items), ",")
    case IdScalar(v) => ScalarText(v)
  }

  /** The eighteen service IDs used when none are given. */
  const DefaultSvcIdList: seq<string> := ["879", "898", "1145", "1203", "1297", "1310", "1360", "1397", "1418",
    "1420", "1455", "1488", "1489", "1494", "1495", "1514", "1527", "1541"]

  /** The default text: those IDs joined by commas. */
  const DefaultSvcIds: string := Join(DefaultSvcIdList, ",")

  /** `_normalize_svc_ids(svc_ids) or DEFAULT`. */
  function SvcIdsText(x: SvcArg): (r: string)
    ensures r != ""
    ensures r == DefaultSvcIds <==> NormalizeSvcIds(x) == "" || NormalizeSvcIds(x) == DefaultSvcIds
    ensures NormalizeSvcIds(x) != "" ==> r == NormalizeSvcIds(x)
  {
    var n := NormalizeSvcIds(x);
    if n == "" then DefaultSvcIds else n
  }

  /** The default text splits back into the eighteen IDs. */
  lemma DefaultSvcIdsSplit()
    ensures Split(DefaultSvcIds, ",") == DefaultSvcIdList && |DefaultSvcIdList| == 18
  {
    SplitJoinOfPieces(DefaultSvcIdList, ',');
  }

  /** A non-empty list of IDs without commas is recovered by splitting the text on `,`. */
  lemma NormalizeSvcIdsSplits(items: seq<Scalar>)
    requires |items| > 0 && forall i | 0 <= i < |items| :: ',' !in ScalarText(items[i])
    ensures Split(NormalizeSvcIds(IdList(items)), ",") == Texts(items)
  {
    SplitJoinOfPieces(Texts(items), ',');
  }

  /** A list normalises to the empty text (and so to the default) exactly when it is empty or one empty string. */
  lemma NormalizeSvcIdsEmpty(items: seq<Scalar>)
    ensures NormalizeSvcIds(IdList(items)) == "" <==> items == [] || items == [ScalarStr("")]
  {
    var t := Texts(items);
    if |items| == 1 {
      assert Join(t, ",") == t[0];
      if ScalarText(items[0]) == "" {
        assert items[0] == ScalarStr("");
      }
    } else if |items| > 1 {
      JoinCons(t[0], t[1..], ",");
      assert [t[0]] + t[1..] == t;
    }
  }

  // ---------------------------------------------------------------------------
  // _prepare_url

  /**
   * `_prepare_url(base, params)`: `requests` appends the `quote_plus`-encoded
   * pairs after `?` (nothing when there are none), and every `%2C` of the
   * whole URL is then turned back into `,`.
   */
  function PrepareUrl(base: string, params: seq<(string, string)>): string {
    var query := FormEncode(params, PythonSafe);
    UnescapeCommas(if query == "" then base else base + "?" + query)
  }

  /** Whatever the base and parameters, the URL holds no `%2C`. */
  lemma PrepareUrlHasNoEscapedComma(base: string, params: seq<(string, string)>)
    ensures !Contains(PrepareUrl(base, params), "%2C")
  {
    var query := FormEncode(params, PythonSafe);
    UnescapeLeavesNoEscapedComma(if query == "" then base else base + "?" + query);
  }

  /**
   * For a base without broken escapes and a non-empty parameter list, the
   * URL is the base, `?`, and the pairs encoded with the comma kept raw; the
   * form parser reads that query back as exactly the parameters.
   */
  lemma PrepareUrlShape(base: string, params: seq<(string, string)>)
    requires PctComplete(base) && params != []
    ensures var q := FormEncode(params, WithComma(PythonSafe));
      PrepareUrl(base, params) == UnescapeCommas(base) + "?" + q && FormDecode(q) == Some(params)
  {
    KeepSetsAreFormSafe();
    var e := FormEncode(params, PythonSafe);
    ParseEncodedPair(params[0], PythonSafe);
    assert e != "" by {
      if |params| > 1 {
        assert |e| >= |EncodePair(params[0], PythonSafe)|;
      }
    }
    UnescapeFormEncode(params, PythonSafe);
    UnescapeJoin(base, '?', e);
    FormRoundTrip(params, WithComma(PythonSafe));
  }

  // ---------------------------------------------------------------------------
  // Cookie import

  /** A cookie as the browser reports it; `domain` and `path` may be missing. */
  datatype BrowserCookie = BrowserCookie(name: string, value: string, domain: Option<string>, path: Option<string>)

  /** Where the session's jar files a cookie: domain, path and name. */
  datatype CookieKey = CookieKey(domain: string, path: string, name: string)

  /** `c.get("domain") or ""`. */
  function CookieDomain(c: BrowserCookie): string {
    if c.domain.Some? then c.domain.value else ""
  }

  /** `c.get("path", "/")`. */
  function CookiePath(c: BrowserCookie): string {
    if c.path.Some? then c.path.value else "/"
  }

  function KeyOf(c: BrowserCookie): CookieKey {
    CookieKey(CookieDomain(c), CookiePath(c), c.name)
  }

  /** The import filter: the domain contains the filter text. */
  predicate Imports(filter: string, c: BrowserCookie) {
    Contains(CookieDomain(c), filter)
  }

  /** The jar after setting, in order, every cookie the filter accepts (a later one replaces an earlier one with the same key). */
  function JarAfter(jar: map<CookieKey, string>, cookies: seq<BrowserCookie>, filter: string): map<CookieKey, string>
    decreases |cookies|
  {
    if cookies == [] then jar
    else
      var j := JarAfter(jar, cookies[..|cookies| - 1], filter);
      var c := cookies[|cookies| - 1];
      if Imports(filter, c) then j[KeyOf(c) := c.value] else j
  }

  /** How many cookies the filter accepts. */
  function CountImported(cookies: seq<BrowserCookie>, filter: string): nat
    decreases |cookies|
  {
    if cookies == [] then 0
    else CountImported(cookies[..|cookies| - 1], filter) + (if Imports(filter, cookies[|cookies| - 1]) then 1 else 0)
  }

  /** A key is in the new jar iff it was there before or an accepted cookie has it. */
  lemma {:induction false} JarAfterKeys(jar: map<CookieKey, string>, cookies: seq<BrowserCookie>, filter: string, k: CookieKey)
    ensures k in JarAfter(jar, cookies, filter) <==>
      k in jar || exists i | 0 <= i < |cookies| :: Imports(filter, cookies[i]) && KeyOf(cookies[i]) == k
    decreases |cookies|
  {
    if cookies != [] {
      var front := cookies[..|cookies| - 1];
      JarAfterKeys(jar, front, filter, k);
      assert forall i | 0 <= i < |front| :: front[i] == cookies[i];
    }
  }

  /** The value stored under a key is that of the last accepted cookie with that key. */
  lemma {:induction false} JarAfterLastWins(jar: map<CookieKey, string>, cookies: seq<BrowserCookie>, filter: string, i: int)
    requires 0 <= i < |cookies| && Imports(filter, cookies[i])
    requires forall j | i < j < |cookies| :: !(Imports(filter, cookies[j]) && KeyOf(cookies[j]) == KeyOf(cookies[i]))
    ensures var j := JarAfter(jar, cookies, filter);
      KeyOf(cookies[i]) in j && j[KeyOf(cookies[i])] == cookies[i].value
    decreases |cookies|
  {
    if i < |cookies| - 1 {
      var front := cookies[..|cookies| - 1];
      assert front[i] == cookies[i];
      JarAfterLastWins(jar, front, filter, i);
    }
  }

  /** Keys no accepted cookie has keep their old value. */
  lemma {:induction false} JarAfterKeepsOthers(jar: map<CookieKey, string>, cookies: seq<BrowserCookie>, filter: string, k: CookieKey)
    requires k in jar
    requires forall i | 0 <= i < |cookies| :: !(Imports(filter, cookies[i]) && KeyOf(cookies[i]) == k)
    ensures k in JarAfter(jar, cookies, filter) && JarAfter(jar, cookies, filter)[k] == jar[k]
    decreases |cookies|
  {
    if cookies != [] {
      var front := cookies[..|cookies| - 1];
      assert forall i | 0 <= i < |front| :: front[i] == cookies[i];
      JarAfterKeepsOthers(jar, front, filter, k);
    }
  }

  /** The count is at most the number of cookies, all of them for the empty filter, none when none match. */
  lemma CountImportedBounds(cookies: seq<BrowserCookie>, filter: string)
    ensures CountImported(cookies, filter) <= |cookies|
    ensures CountImported(cookies, filter) == 0 <==> forall i | 0 <= i < |cookies| :: !Imports(filter, cookies[i])
    ensures CountImported(cookies, filter) == |cookies| <==> forall i | 0 <= i < |cookies| :: Imports(filter, cookies[i])
  {
    CountImportedNone(cookies, filter);
    CountImportedAll(cookies, filter);
  }

  lemma {:induction false} CountImportedNone(cookies: seq<BrowserCookie>, filter: string)
    ensures CountImported(cookies, filter) == 0 <==> forall i | 0 <= i < |cookies| :: !Imports(filter, cookies[i])
    decreases |cookies|
  {
    if cookies != [] {
      var front := cookies[..|cookies| - 1];
      CountImportedNone(front, filter);
      assert forall i | 0 <= i < |front| :: front[i] == cookies[i];
    }
  }

  lemma {:induction false} CountImportedAll(cookies: seq<BrowserCookie>, filter: string)
    ensures CountImported(cookies, filter) <= |cookies|
    ensures CountImported(cookies, filter) == |cookies| <==> forall i | 0 <= i < |cookies| :: Imports(filter, cookies[i])
    decreases |cookies|
  {
    if cookies != [] {
      var front := cookies[..|cookies| - 1];
      CountImportedAll(front, filter);
      assert forall i | 0 <= i < |front| :: front[i] == cookies[i];
    }
  }

  /** The empty filter accepts every cookie. */
  lemma EmptyFilterImportsAll(c: BrowserCookie)
    ensures Imports("", c)
  {
    assert OccursAt(CookieDomain(c), "", 0);
  }

  // ---------------------------------------------------------------------------
  // download_data

  /** What `download_data` raises. */
  datatype Failure = ValueError(message: string) | HttpError(status: int)

  /** The visible result: an exception, or the returned file name (or `None`). */
  datatype Outcome = Raised(failure: Failure) | Returned(file: Option<string>)

  /** The server's answer, as the downloader sees it. */
  datatype Response = Response(
    status: int,
    url: string,
    contentType: Option<string>,
    disposition: Option<string>,
    content: seq<Utf8.byte>,
    chunks: seq<seq<Utf8.byte>>)

  /**
   * The arguments of `download_data`; `cusId` and `proId` default to 316
   * and 492 in the source.
   */
  datatype DownloadArgs = DownloadArgs(
    startDate: Option<string>,
    endDate: Option<string>,
    svcIds: SvcArg,
    cusId: int,
    proId: int,
    outputFile: Option<string>)

  /**
   * The environment: today's date, the `%Y%m%d_%H%M%S` time stamp, the
   * response to the one request, and the bytes read back from the written
   * file (`None` when reading fails).
   */
  datatype Environment = Environment(today: Civil, stamp: string, response: Response, readBack: Option<seq<Utf8.byte>>)

  /** One run: the URL requested (if any), the files written, the byte count, the outcome. */
  datatype Run = Run(request: Option<string>, writes: seq<(string, seq<Utf8.byte>)>, total: nat, outcome: Outcome)

  const BaseUrl: string := "https://www.wareconn.com" + "/r/Summary/downBaseInfo"

  /** `f"{start_ts},{end_ts}"`. */
  function DateParam(startTs: int, endTs: int): string {
    IntToString(startTs) + "," + IntToString(endTs)
  }

  /** The query parameters, in the dictionary's order; `svc` is the service-ID text. */
  function QueryParams(a: DownloadArgs, startTs: int, endTs: int, svc: string): seq<(string, string)> {
    [("cusId", IntToString(a.cusId)), ("proId", IntToString(a.proId)), ("stcName", ""),
     ("date", DateParam(startTs, endTs)), ("pn", ""), ("pmoId", ""), ("svc_id", svc),
     ("svcNow_id", ""), ("acc_id", ""), ("type", "0")]
  }

  /** `resp.url and "login" in resp.url.lower()`. */
  predicate IsLoginRedirect(url: string) {
    url != "" && Contains(ToLowerAscii(url), "login")
  }

  /** The server's name: the text after the last `filename=`, stripped of `"`, `;` and space. */
  function DispositionName(cd: string): (r: string)
    ensures !Contains(cd, "filename=") ==> r == ""
  {
    if Contains(cd, "filename=") then StripChars(Last(Split(cd, "filename=")), {'"', ';', ' '}) else ""
  }

  /** The output name: the caller's, else the server's, else a time-stamped default. */
  function ChooseFilename(outputFile: Option<string>, disposition: Option<string>, stamp: string): string {
    if outputFile.Some? then outputFile.value
    else
      var fromServer := DispositionName(if disposition.Some? then disposition.value else "");
      if fromServer != "" then fromServer else "wareconn_data_" + stamp + ".xlsx"
  }

  /** `name.rsplit(".", 1)[0] + "_debug.html"`. */
  function DebugName(name: string): string {
    BeforeLast(name, '.') + "_debug.html"
  }

  /** The bytes the streamed write puts in the file: the chunks, in order. */
  function Body(chunks: seq<seq<Utf8.byte>>): seq<Utf8.byte>
    decreases |chunks|
  {
    if chunks == [] then [] else Body(chunks[..|chunks| - 1]) + chunks[|chunks| - 1]
  }

  /** `total`: the lengths of the non-empty chunks, added up. */
  function NonEmptyTotal(chunks: seq<seq<Utf8.byte>>): nat
    decreases |chunks|
  {
    if chunks == [] then 0
    else
      var c := chunks[|chunks| - 1];
      NonEmptyTotal(chunks[..|chunks| - 1]) + (if c != [] then |c| else 0)
  }

  lemma {:induction false} TotalIsBodyLength(chunks: seq<seq<Utf8.byte>>)
    ensures NonEmptyTotal(chunks) == |Body(chunks)|
    decreases |chunks|
  {
    if chunks != [] {
      TotalIsBodyLength(chunks[..|chunks| - 1]);
    }
  }

  predicate BytesStartWith(b: seq<Utf8.byte>, p: seq<Utf8.byte>) {
    |p| <= |b| && b[..|p|] == p
  }

  /** The ZIP local file header signature `PK\x03\x04` (section 4.3.7 of PKWARE's APPNOTE). */
  const ZipSignature: seq<Utf8.byte> := [0x50, 0x4B, 0x03, 0x04]

  /** The compound file signature `D0 CF 11 E0` (section 2.2 of MS-CFB). */
  const OleSignature: seq<Utf8.byte> := [0xD0, 0xCF, 0x11, 0xE0]

  /** `first8 = f.read(8)` then the two `startswith` tests. */
  predicate LooksLikeExcel(file: seq<Utf8.byte>) {
    var first8 := if |file| <= 8 then file else file[..8];
    BytesStartWith(first8, ZipSignature) || BytesStartWith(first8, OleSignature)
  }

  /** The first eight bytes decide exactly as the whole file's first four. */
  lemma LooksLikeExcelMeaning(file: seq<Utf8.byte>)
    ensures LooksLikeExcel(file) <==> BytesStartWith(file, ZipSignature) || BytesStartWith(file, OleSignature)
  {
    if |file| > 8 {
      assert file[..8][..4] == file[..4];
    }
  }

  /** The date texts after the defaults: today, and six days before it. */
  function EndText(a: DownloadArgs, today: Civil): string
    requires Valid(today)
  {
    if a.endDate.Some? then a.endDate.value else IsoDateText(today)
  }

  function StartText(a: DownloadArgs, today: Civil): string
    requires Valid(today)
  {
    if a.startDate.Some? then a.startDate.value else IsoDateText(AddDays(today, -6))
  }

  /** The two time stamps, or the `ValueError` raised before any request. */
  function TimestampRange(a: DownloadArgs, today: Civil): (r: Result<(int, int)>)
    requires Valid(today)
    ensures r.Ok? <==> (DateToTimestamp(StartText(a, today)).Ok? && DateToTimestamp(EndText(a, today)).Ok?
      && DateToTimestamp(StartText(a, today)).value <= DateToTimestamp(EndText(a, today)).value)
    ensures r.Ok? ==> r.value == (DateToTimestamp(StartText(a, today)).value, DateToTimestamp(EndText(a, today)).value)
    ensures DateToTimestamp(StartText(a, today)).Err? ==> r == Err(DateToTimestamp(StartText(a, today)).error)
  {
    match DateToTimestamp(StartText(a, today))
    case Err(e) => Err(e)
    case Ok(s) =>
      match DateToTimestamp(EndText(a, today))
      case Err(e) => Err(e)
      case Ok(t) => if s > t then Err("start_date must be <= end_date") else Ok((s, t))
  }

  /** What happens after the request: the files written, the byte count and the outcome. */
  datatype Answer = Answer(writes: seq<(string, seq<Utf8.byte>)>, total: nat, outcome: Outcome)

  /** The ordered classification: HTTP error, login redirect, HTML body, streamed write and signature check. */
  function Classify(outputFile: Option<string>, env: Environment): Answer {
    var r := env.response;
    if 400 <= r.status < 600 then Answer([], 0, Raised(HttpError(r.status)))
    else if IsLoginRedirect(r.url) then
      var stem := if outputFile.Some? && outputFile.value != "" then outputFile.value else "wareconn_download";
      Answer([(stem + "_debug.html", r.content)], 0, Returned(None))
    else
      var ctype := ToLowerAscii(if r.contentType.Some? then r.contentType.value else "");
      var name := ChooseFilename(outputFile, r.disposition, env.stamp);
      if Contains(ctype, "text/html") then Answer([(DebugName(name), r.content)], 0, Returned(None))
      else
        var ok := env.readBack.Some? && LooksLikeExcel(env.readBack.value);
        Answer([(name, Body(r.chunks))], NonEmptyTotal(r.chunks), Returned(if ok then Some(name) else None))
  }

  /** What one call of `download_data` does, in the order the source does it. */
  function DownloadSpec(base: string, a: DownloadArgs, env: Environment): Run
    requires Valid(env.today)
  {
    match TimestampRange(a, env.today)
    case Err(e) => Run(None, [], 0, Raised(ValueError(e)))
    case Ok((s, t)) =>
      var c := Classify(a.outputFile, env);
      Run(Some(PrepareUrl(base, QueryParams(a, s, t, SvcIdsText(a.svcIds)))), c.writes, c.total, c.outcome)
  }

  /** The streamed write: every non-empty chunk appended to the file, `total` counting its bytes. */
  method WriteChunks(chunks: seq<seq<Utf8.byte>>) returns (written: seq<Utf8.byte>, total: nat)
    ensures written == Body(chunks) && total == NonEmptyTotal(chunks)
  {
    total := 0;
    written := [];
    var i := 0;
    while i < |chunks|
      invariant 0 <= i <= |chunks|
      invariant written == Body(chunks[..i])
      invariant total == NonEmptyTotal(chunks[..i])
    {
      var chunk := chunks[i];
      assert chunks[..i + 1][..i] == chunks[..i];
      if chunk != [] {
        written := written + chunk;
        total := total + |chunk|;
      }
      i := i + 1;
    }
    assert chunks[..i] == chunks;
  }

  /** The downloader object: its base URL, its cookie filter and its session's cookie jar. */
  class Downloader {
    var baseUrl: string
    var domainFilter: string
    var jar: map<CookieKey, string>

    constructor (filter: string)
      ensures baseUrl == BaseUrl && domainFilter == filter && jar == map[]
    {
      baseUrl := BaseUrl;
      domainFilter := filter;
      jar := map[];
    }

    /** The cookie loop of the interactive login: copy the accepted cookies, count them. */
    method ImportCookies(cookies: seq<BrowserCookie>) returns (imported: nat)
      modifies this
      ensures jar == JarAfter(old(jar), cookies, domainFilter)
      ensures imported == CountImported(cookies, domainFilter)
      ensures baseUrl == old(baseUrl) && domainFilter == old(domainFilter)
    {
      imported := 0;
      var i := 0;
      while i < |cookies|
        invariant 0 <= i <= |cookies|
        invariant jar == JarAfter(old(jar), cookies[..i], domainFilter)
        invariant imported == CountImported(cookies[..i], domainFilter)
        invariant baseUrl == old(baseUrl) && domainFilter == old(domainFilter)
      {
        var c := cookies[i];
        assert cookies[..i + 1][..i] == cookies[..i];
        var dom := if c.domain.Some? then c.domain.value else "";
        if Contains(dom, domainFilter) {
          jar := jar[CookieKey(dom, if c.path.Some? then c.path.value else "/", c.name) := c.value];
          imported := imported + 1;
        }
        i := i + 1;
      }
      assert cookies[..i] == cookies;
    }

    /** `download_data`: checks, one request, then the ordered classification of the response. */
    method DownloadData(a: DownloadArgs, env: Environment) returns (run: Run)
      requires Valid(env.today)
      ensures run == DownloadSpec(baseUrl, a, env)
    {
      var startTs := DateToTimestamp(StartText(a, env.today));
      if startTs.Err? {
        return Run(None, [], 0, Raised(ValueError(startTs.error)));
      }
      var endTs := DateToTimestamp(EndText(a, env.today));
      if endTs.Err? {
        return Run(None, [], 0, Raised(ValueError(endTs.error)));
      }
      if startTs.value > endTs.value {
        return Run(None, [], 0, Raised(ValueError("start_date must be <= end_date")));
      }
      var fullUrl := PrepareUrl(baseUrl, QueryParams(a, startTs.value, endTs.value, SvcIdsText(a.svcIds)));
      var answer := Respond(a.outputFile, env);
      run := Run(Some(fullUrl), answer.writes, answer.total, answer.outcome);
    }
  }

  /** The response handling of `download_data`, with its chunk loop. */
  method Respond(outputFile: Option<string>, env: Environment) returns (answer: Answer)
    ensures answer == Classify(outputFile, env)
  {
    var resp := env.response;
    if 400 <= resp.status < 600 {
      return Answer([], 0, Raised(HttpError(resp.status)));
    }
    if resp.url != "" && Contains(ToLowerAscii(resp.url), "login") {
      var stem := if outputFile.Some? && outputFile.value != "" then outputFile.value else "wareconn_download";
      return Answer([(stem + "_debug.html", resp.content)], 0, Returned(None));
    }
    var ctype := ToLowerAscii(if resp.contentType.Some? then resp.contentType.value else "");
    var name := ChooseFilename(outputFile, resp.disposition, env.stamp);
    if Contains(ctype, "text/html") {
      return Answer([(DebugName(name), resp.content)], 0, Returned(None));
    }
    answer := SaveBody(name, resp.chunks, env.readBack);
  }

  /** The streamed write to `name`, then the signature check of the file read back. */
  method SaveBody(name: string, chunks: seq<seq<Utf8.byte>>, readBack: Option<seq<Utf8.byte>>) returns (answer: Answer)
    ensures answer.writes == [(name, Body(chunks))] && answer.total == NonEmptyTotal(chunks)
    ensures answer.outcome == Returned(if readBack.Some? && LooksLikeExcel(readBack.value) then Some(name) else None)
  {
    var written, total := WriteChunks(chunks);
    var result := CheckSignature(name, readBack);
    answer := Answer([(name, written)], total, Returned(result));
  }

  /** The file is reported as saved only when its first bytes carry a zip or OLE signature. */
  method CheckSignature(name: string, readBack: Option<seq<Utf8.byte>>) returns (result: Option<string>)
    ensures result.Some? <==> readBack.Some? && LooksLikeExcel(readBack.value)
    ensures result.Some? ==> result.value == name
  {
    result := None;
    if readBack.Some? {
      var file := readBack.value;
      var first8 := if |file| <= 8 then file else file[..8];
      if BytesStartWith(first8, ZipSignature) || BytesStartWith(first8, OleSignature) {
        result := Some(name);
      }
    }
  }

  // ---------------------------------------------------------------------------
  // Properties of a run

  /** No request is made exactly when a date fails to parse or the range is reversed; then nothing is written. */
  lemma NoRequestOnBadDates(base: string, a: DownloadArgs, env: Environment)
    requires Valid(env.today)
    ensures var run := DownloadSpec(base, a, env);
      var s, t := DateToTimestamp(StartText(a, env.today)), DateToTimestamp(EndText(a, env.today));
      (run.request.None? <==> s.Err? || t.Err? || s.value > t.value)
      && (run.request.None? ==> run.writes == [] && run.outcome.Raised? && run.outcome.failure.ValueError?)
      && (s.Ok? && t.Ok? && s.value > t.value ==> run.outcome == Raised(ValueError("start_date must be <= end_date")))
  {
  }

  /**
   * When the request is made, it is for the base URL followed by the ten
   * parameters with raw commas, and its `date` parameter reads back as
   * exactly `"<start>,<end>"`.
   */
  lemma RequestCarriesDateRange(a: DownloadArgs, env: Environment)
    requires Valid(env.today)
    requires DownloadSpec(BaseUrl, a, env).request.Some?
    ensures var s, t := DateToTimestamp(StartText(a, env.today)).value, DateToTimestamp(EndText(a, env.today)).value;
      var params := QueryParams(a, s, t, SvcIdsText(a.svcIds));
      var q := FormEncode(params, WithComma(PythonSafe));
      s <= t
      && DownloadSpec(BaseUrl, a, env).request == Some(BaseUrl + "?" + q)
      && FormDecode(q) == Some(params)
      && params[3] == ("date", IntToString(s) + "," + IntToString(t))
      && params[6] == ("svc_id", SvcIdsText(a.svcIds))
  {
    BaseUrlPlain();
    RequestOnPlainBase(BaseUrl, a, env);
    QueryParamsFields(a, DateToTimestamp(StartText(a, env.today)).value, DateToTimestamp(EndText(a, env.today)).value, SvcIdsText(a.svcIds));
  }

  /** The same for any base URL whose escapes are complete and hold no escaped comma. */
  lemma RequestOnPlainBase(base: string, a: DownloadArgs, env: Environment)
    requires Valid(env.today) && PctComplete(base) && UnescapeCommas(base) == base
    requires DownloadSpec(base, a, env).request.Some?
    ensures var s, t := DateToTimestamp(StartText(a, env.today)).value, DateToTimestamp(EndText(a, env.today)).value;
      var params := QueryParams(a, s, t, SvcIdsText(a.svcIds));
      var q := FormEncode(params, WithComma(PythonSafe));
      s <= t
      && DownloadSpec(base, a, env).request == Some(base + "?" + q)
      && FormDecode(q) == Some(params)
  {
    var s, t := DateToTimestamp(StartText(a, env.today)).value, DateToTimestamp(EndText(a, env.today)).value;
    RequestOf(base, a, env);
    PrepareUrlShape(base, QueryParams(a, s, t, SvcIdsText(a.svcIds)));
  }

  /** The `date` parameter is the two time stamps joined by a comma, and `svc_id` the normalised list. */
  lemma QueryParamsFields(a: DownloadArgs, startTs: int, endTs: int, svc: string)
    ensures var p := QueryParams(a, startTs, endTs, svc);
      |p| == 10 && p[3] == ("date", IntToString(startTs) + "," + IntToString(endTs)) && p[6] == ("svc_id", svc)
  {
  }

  /** A request is made only after both time stamps are read, in order. */
  lemma RequestOf(base: string, a: DownloadArgs, env: Environment)
    requires Valid(env.today)
    requires DownloadSpec(base, a, env).request.Some?
    ensures var s, t := DateToTimestamp(StartText(a, env.today)), DateToTimestamp(EndText(a, env.today));
      s.Ok? && t.Ok? && s.value <= t.value
      && DownloadSpec(base, a, env).request == Some(PrepareUrl(base, QueryParams(a, s.value, t.value, SvcIdsText(a.svcIds))))
  {
  }

  /** The base URL holds no escape, so comma unescaping leaves it alone. */
  lemma BaseUrlPlain()
    ensures PctComplete(BaseUrl) && UnescapeCommas(BaseUrl) == BaseUrl
  {
    assert '%' !in BaseUrl;
    ReplaceAllWithoutHead(BaseUrl, "%2C", ",");
  }

  /**
   * A login redirect is decided first: the body goes to the debug file named
   * after the caller's output name, and `None` is returned, whatever the
   * content type or disposition say.
   */
  lemma LoginRedirectFirst(base: string, a: DownloadArgs, env: Environment)
    requires Valid(env.today)
    requires DownloadSpec(base, a, env).request.Some?
    requires !(400 <= env.response.status < 600) && IsLoginRedirect(env.response.url)
    ensures var run := DownloadSpec(base, a, env);
      var stem := if a.outputFile.Some? && a.outputFile.value != "" then a.outputFile.value else "wareconn_download";
      run.writes == [(stem + "_debug.html", env.response.content)] && run.outcome == Returned(None)
      && forall ct, cd :: DownloadSpec(base, a, env.(response := env.response.(contentType := ct, disposition := cd))) == run
  {
  }

  /**
   * The file name: the caller's when given; else the text after the last
   * `filename=` of the disposition, which holds no further `filename=`; else
   * the time-stamped default.
   */
  lemma FilenamePriority(outputFile: Option<string>, disposition: Option<string>, stamp: string)
    ensures outputFile.Some? ==> ChooseFilename(outputFile, disposition, stamp) == outputFile.value
    ensures var cd := if disposition.Some? then disposition.value else "";
      outputFile.None? && DispositionName(cd) == "" ==> ChooseFilename(outputFile, disposition, stamp) == "wareconn_data_" + stamp + ".xlsx"
    ensures var cd := if disposition.Some? then disposition.value else "";
      outputFile.None? && DispositionName(cd) != "" ==> ChooseFilename(outputFile, disposition, stamp) == DispositionName(cd)
  {
  }

  /** The server's name comes from the text after the last `filename=`, which holds no further `filename=`. */
  lemma DispositionNameTail(cd: string)
    requires Contains(cd, "filename=")
    ensures var tail := Last(Split(cd, "filename="));
      (exists p :: cd == p + "filename=" + tail) && !Contains(tail, "filename=")
      && DispositionName(cd) == StripChars(tail, {'"', ';', ' '})
  {
    SplitLastPiece(cd, "filename=");
  }

  /**
   * An HTML answer (after the login check) writes the body to
   * `<name without its last extension>_debug.html` and returns `None`;
   * otherwise the chunks are written to the chosen name, `total` is their
   * length, and the name is returned only when the read-back bytes carry an
   * Excel signature.
   */
  lemma ResponseClassification(base: string, a: DownloadArgs, env: Environment)
    requires Valid(env.today)
    requires DownloadSpec(base, a, env).request.Some?
    requires !(400 <= env.response.status < 600) && !IsLoginRedirect(env.response.url)
    ensures var run := DownloadSpec(base, a, env);
      var r := env.response;
      var name := ChooseFilename(a.outputFile, r.disposition, env.stamp);
      var html := Contains(ToLowerAscii(if r.contentType.Some? then r.contentType.value else ""), "text/html");
      (html ==> run.writes == [(DebugName(name), r.content)] && run.outcome == Returned(None))
      && (!html ==> (run.writes == [(name, Body(r.chunks))] && run.total == |Body(r.chunks)|
          && (run.outcome == Returned(Some(name)) <==>
              env.readBack.Some? && (BytesStartWith(env.readBack.value, ZipSignature) || BytesStartWith(env.readBack.value, OleSignature)))
          && (run.outcome != Returned(Some(name)) ==> run.outcome == Returned(None))))
  {
    TotalIsBodyLength(env.response.chunks);
    if env.readBack.Some? {
      LooksLikeExcelMeaning(env.readBack.value);
    }
  }

  /** When the file on disk is what was written, the result depends only on the downloaded bytes. */
  lemma FaithfulReadBack(base: string, a: DownloadArgs, env: Environment)
    requires Valid(env.today)
    requires DownloadSpec(base, a, env).request.Some?
    requires !(400 <= env.response.status < 600) && !IsLoginRedirect(env.response.url)
    requires !Contains(ToLowerAscii(if env.response.contentType.Some? then env.response.contentType.value else ""), "text/html")
    requires env.readBack == Some(Body(env.response.chunks))
    ensures var data := Body(env.response.chunks);
      DownloadSpec(base, a, env).outcome.file.Some? <==> BytesStartWith(data, ZipSignature) || BytesStartWith(data, OleSignature)
  {
    LooksLikeExcelMeaning(Body(env.response.chunks));
  }
}
