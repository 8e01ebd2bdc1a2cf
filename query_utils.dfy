/**
 * frontend-web/src/utils/queryUtils.js: the query string the dashboard
 * sends for station, fixture and error-code queries, the cache key it is
 * stored under, and the cache-first fetch. The cache, the `setDataCache`
 * callback and the network are parameters: the model says which value is
 * returned, what the callback receives and what the cache holds afterwards.
 */
module QueryUtils {
  import opened Wrappers
  import opened Strings
  import opened Sequences
  import opened JsValues
  import opened JsDates
  import opened PercentEncoding

  // ---------------------------------------------------------------------------
  // Dates

  /** The time of day `formatDateParam` sets: the first or the last millisecond. */
  function DayEdge(isEndDate: bool): (ms: nat)
    ensures ms < MsPerDay
  {
    if isEndDate then 23 * 3_600_000 + 59 * 60_000 + 59 * 1000 + 999 else 0
  }

  /** `formatDateParam(date, isEndDate)`: a copy moved to the edge of its UTC day, as ISO text. */
  function FormatDateParam(date: JsDate, isEndDate: bool): Result<string> {
    ToIsoString(if isEndDate then SetHours(date, 23, 59, 59, 999) else SetHours(date, 0, 0, 0, 0))
  }

  /**
   * The parameter keeps the date's UTC calendar day and moves it to the
   * first millisecond of that day, or to the last one (86 399 999 ms, that
   * is 23:59:59.999) for an end date; it throws only for an invalid date or
   * one moved past the last representable instant.
   */
  lemma FormatDateParamKeepsDay(date: JsDate, isEndDate: bool)
    requires date.Instant?
    ensures DayEdge(isEndDate) == if isEndDate then MsPerDay - 1 else 0
    ensures var inRange := -MaxTime <= Millis(date.day, DayEdge(isEndDate)) <= MaxTime;
      FormatDateParam(date, isEndDate) == if inRange
        then Ok(IsoDateText(date.day) + "T" + IsoTimeText(DayEdge(isEndDate)) + "Z")
        else Err("RangeError: Invalid time value")
  {
    if isEndDate {
      SetHoursWithinDay(date, 23, 59, 59, 999);
    } else {
      SetHoursWithinDay(date, 0, 0, 0, 0);
    }
  }

  lemma FormatDateParamInvalid(isEndDate: bool)
    ensures FormatDateParam(Invalid, isEndDate).Err?
  {
  }

  // ---------------------------------------------------------------------------
  // Parameters

  /** `param?.value` is truthy. */
  predicate Supplied(param: Value) {
    Truthy(OptField(param, "value"))
  }

  /** `params.append(param.id, param.value)`: both converted to text. */
  function ParamPair(param: Value): (string, string) {
    (JsValues.ToText(OptField(param, "id")), JsValues.ToText(OptField(param, "value")))
  }

  /** The pairs the `forEach` appends. */
  function ParameterPairs(parameters: seq<Value>): seq<(string, string)> {
    Map(Filter(parameters, Supplied), ParamPair)
  }

  /** The appended date, if the date was passed; throws as `formatDateParam` does. */
  function DatePair(name: string, date: Option<JsDate>, isEndDate: bool): Result<seq<(string, string)>> {
    match date
    case None => Ok([])
    case Some(d) =>
      match FormatDateParam(d, isEndDate)
      case Err(e) => Err(e)
      case Ok(text) => Ok([(name, text)])
  }

  /** What `buildParams` appends, in order; `None` is a date that was not passed. */
  function Params(parameters: seq<Value>, startDate: Option<JsDate>, endDate: Option<JsDate>): Result<seq<(string, string)>> {
    match DatePair("startDate", startDate, false)
    case Err(e) => Err(e)
    case Ok(s) =>
      match DatePair("endDate", endDate, true)
      case Err(e) => Err(e)
      case Ok(en) => Ok(ParameterPairs(parameters) + s + en)
  }

  /** `buildParams(parameters, startDate, endDate)`: the pairs of the `URLSearchParams` it fills. */
  method BuildParams(parameters: seq<Value>, startDate: Option<JsDate>, endDate: Option<JsDate>)
    returns (r: Result<seq<(string, string)>>)
    ensures r == Params(parameters, startDate, endDate)
  {
    var params: seq<(string, string)> := [];
    var i := 0;
    while i < |parameters|
      invariant 0 <= i <= |parameters|
      invariant params == ParameterPairs(parameters[..i])
    {
      var param := parameters[i];
      assert parameters[..i + 1] == parameters[..i] + [param];
      FilterSnoc(parameters[..i], param, Supplied);
      if Truthy(OptField(param, "value")) {
        MapSnoc(Filter(parameters[..i], Supplied), param, ParamPair);
        params := params + [ParamPair(param)];
      }
      i := i + 1;
    }
    assert parameters[..i] == parameters;
    var withStart := AppendDate(params, "startDate", startDate, false);
    if withStart.Err? {
      return Err(withStart.error);
    }
    var withEnd := AppendDate(withStart.value, "endDate", endDate, true);
    if withEnd.Err? {
      return Err(withEnd.error);
    }
    return Ok(withEnd.value);
  }

  /** `if (date) params.append(name, formatDateParam(date, isEndDate))`. */
  method AppendDate(params: seq<(string, string)>, name: string, date: Option<JsDate>, isEndDate: bool)
    returns (r: Result<seq<(string, string)>>)
    ensures DatePair(name, date, isEndDate).Err? ==> r == Err(DatePair(name, date, isEndDate).error)
    ensures DatePair(name, date, isEndDate).Ok? ==> r == Ok(params + DatePair(name, date, isEndDate).value)
  {
    if date.None? {
      return Ok(params + []);
    }
    var text := FormatDateParam(date.value, isEndDate);
    if text.Err? {
      return Err(text.error);
    }
    return Ok(params + [(name, text.value)]);
  }

  /**
   * The supplied parameters come first, each once and in input order; a
   * parameter with a falsy value adds nothing; the start date and then the
   * end date follow, each only when passed.
   */
  lemma ParamsLayout(parameters: seq<Value>, startDate: Option<JsDate>, endDate: Option<JsDate>)
    requires Params(parameters, startDate, endDate).Ok?
    ensures var ps := Params(parameters, startDate, endDate).value;
      var n := Count(parameters, Supplied);
      var dates := (if startDate.Some? then 1 else 0) + (if endDate.Some? then 1 else 0);
      |ps| == n + dates
      && ps[..n] == Map(Filter(parameters, Supplied), ParamPair)
      && (startDate.Some? ==> ps[n].0 == "startDate")
      && (endDate.Some? ==> ps[|ps| - 1].0 == "endDate")
  {
    FilterLength(parameters, Supplied);
    ThreePartLayout(ParameterPairs(parameters), DatePair("startDate", startDate, false).value,
      DatePair("endDate", endDate, true).value);
  }

  lemma ThreePartLayout<T>(a: seq<T>, b: seq<T>, c: seq<T>)
    ensures |a + b + c| == |a| + |b| + |c| && (a + b + c)[..|a|] == a
    ensures b != [] ==> (a + b + c)[|a|] == b[0]
    ensures c != [] ==> (a + b + c)[|a + b + c| - 1] == c[|c| - 1]
  {
    assert (a + b + c)[..|a|] == a;
  }

  /** A parameter whose value is falsy, or that is itself missing, is not sent. */
  lemma UnsuppliedSkipped(parameters: seq<Value>, p: Value)
    requires !Supplied(p)
    ensures ParameterPairs(parameters + [p]) == ParameterPairs(parameters)
  {
    FilterSnoc(parameters, p, Supplied);
  }

  // ---------------------------------------------------------------------------
  // Cache key

  /** `params.toString()`: the WHATWG form serialisation. */
  function QueryString(pairs: seq<(string, string)>): string {
    FormEncode(pairs, WhatwgFormSafe)
  }

  /** `` `${key}_${params.toString()}` ``. */
  function CacheKey(key: Value, pairs: seq<(string, string)>): string {
    JsValues.ToText(key) + "_" + QueryString(pairs)
  }

  /** `` `${API_BASE}${API_Route}${params.toString()}` ``. */
  function Url(apiBase: Value, apiRoute: Value, pairs: seq<(string, string)>): string {
    JsValues.ToText(apiBase) + JsValues.ToText(apiRoute) + QueryString(pairs)
  }

  /**
   * Under one key, the cache key determines the parameter list: two
   * different lists never share a cache entry.
   */
  lemma CacheKeyInjective(key: Value, a: seq<(string, string)>, b: seq<(string, string)>)
    requires CacheKey(key, a) == CacheKey(key, b)
    ensures a == b
  {
    var prefix := JsValues.ToText(key) + "_";
    assert CacheKey(key, a)[|prefix|..] == QueryString(a);
    assert CacheKey(key, b)[|prefix|..] == QueryString(b);
    KeepSetsAreFormSafe();
    FormEncodeInjective(a, b, WhatwgFormSafe);
  }

  /** The query can be read back from the URL: the text after the base and route parses to the list. */
  lemma UrlCarriesParams(apiBase: Value, apiRoute: Value, pairs: seq<(string, string)>)
    ensures var prefix := JsValues.ToText(apiBase) + JsValues.ToText(apiRoute);
      FormDecode(Url(apiBase, apiRoute, pairs)[|prefix|..]) == Some(pairs)
  {
    var prefix := JsValues.ToText(apiBase) + JsValues.ToText(apiRoute);
    assert Url(apiBase, apiRoute, pairs)[|prefix|..] == QueryString(pairs);
    KeepSetsAreFormSafe();
    FormRoundTrip(pairs, WhatwgFormSafe);
  }

  // ---------------------------------------------------------------------------
  // fetchWithCache

  /** What the network gives: a rejected `fetch`, or a response with its status and its body as JSON, if it parses. */
  datatype Response = Rejected(reason: string) | Responded(ok: bool, status: int, json: Option<Value>)

  /** The returned value, the argument `setDataCache` was called with, the cache afterwards, and whether `fetch` was called. */
  datatype Outcome = Outcome(result: Value, setArg: Option<Value>, cache: map<string, Value>, fetched: bool)

  /** The body of the `try` after a cache miss: throws, or the mapped rows (`[]` for a non-array body). */
  function Fetched(response: Response, mapFn: Value -> Result<Value>): Result<Value> {
    match response
    case Rejected(reason) => Err(reason)
    case Responded(ok, status, json) =>
      if !ok then Err("HTTP error! status: " + IntToString(status))
      else match json
        case None => Err("SyntaxError")
        case Some(data) =>
          if data.Arr? then
            match MapResult(data.items, mapFn)
            case Err(e) => Err(e)
            case Ok(mapped) => Ok(Arr(mapped))
          else Ok(Arr([]))
  }

  /** `dataCache.get(cacheKey)`: `undefined` when there is no entry. */
  function Lookup(cache: map<string, Value>, cacheKey: string): Value {
    if cacheKey in cache then cache[cacheKey] else Undefined
  }

  /** `fetchWithCache(url, cacheKey, setDataCache, mapFn)`. */
  function FetchWithCache(cache: map<string, Value>, cacheKey: string, setterIsFunction: bool,
                          response: Response, mapFn: Value -> Result<Value>): Outcome
  {
    var cached := Lookup(cache, cacheKey);
    if Truthy(cached) then
      if setterIsFunction then Outcome(cached, Some(cached), cache, false)
      else Outcome(Arr([]), None, cache, false)
    else
      match Fetched(response, mapFn)
      case Err(_) => Outcome(Arr([]), if setterIsFunction then Some(Arr([])) else None, cache, true)
      case Ok(mapped) =>
        if setterIsFunction then Outcome(mapped, Some(mapped), cache[cacheKey := mapped], true)
        else Outcome(mapped, None, cache, true)
  }

  /** A cache hit returns the cached value and hands it to `setDataCache`, without fetching. */
  lemma CacheHitSkipsFetch(cache: map<string, Value>, cacheKey: string, response: Response, mapFn: Value -> Result<Value>)
    requires cacheKey in cache && Truthy(cache[cacheKey])
    ensures var o := FetchWithCache(cache, cacheKey, true, response, mapFn);
      o.result == cache[cacheKey] && o.setArg == Some(cache[cacheKey]) && o.cache == cache && !o.fetched
  {
  }

  /** On any error the result is `[]`, `setDataCache([])` is called, and the cache is untouched. */
  lemma ErrorGivesEmpty(cache: map<string, Value>, cacheKey: string, setterIsFunction: bool,
                        response: Response, mapFn: Value -> Result<Value>)
    requires !Truthy(Lookup(cache, cacheKey)) && Fetched(response, mapFn).Err?
    ensures var o := FetchWithCache(cache, cacheKey, setterIsFunction, response, mapFn);
      o.result == Arr([]) && o.cache == cache && o.fetched
      && o.setArg == if setterIsFunction then Some(Arr([])) else None
  {
  }

  /** A rejected fetch, a failed status, an unparsable body and a throwing row mapping are all errors. */
  lemma WhatFails(response: Response, mapFn: Value -> Result<Value>)
    ensures response.Rejected? ==> Fetched(response, mapFn).Err?
    ensures response.Responded? && !response.ok ==> Fetched(response, mapFn).Err?
    ensures response.Responded? && response.ok && response.json.None? ==> Fetched(response, mapFn).Err?
    ensures response.Responded? && response.ok && response.json.Some? && response.json.value.Arr?
      && (exists i | 0 <= i < |response.json.value.items| :: mapFn(response.json.value.items[i]).Err?)
      ==> Fetched(response, mapFn).Err?
  {
    if response.Responded? && response.ok && response.json.Some? && response.json.value.Arr? {
      var rows := response.json.value.items;
      MapResultThrows(rows, mapFn);
    }
  }

  /**
   * After a successful fetch with a callback, the mapped rows are stored,
   * and the next call under the same key returns them without fetching,
   * whatever the network would have answered.
   */
  lemma StoredThenHit(cache: map<string, Value>, cacheKey: string, response: Response, later: Response,
                      mapFn: Value -> Result<Value>)
    requires !Truthy(Lookup(cache, cacheKey)) && Fetched(response, mapFn).Ok?
    ensures var o := FetchWithCache(cache, cacheKey, true, response, mapFn);
      var o2 := FetchWithCache(o.cache, cacheKey, true, later, mapFn);
      o.result.Arr? && o.cache == cache[cacheKey := o.result]
      && o2.result == o.result && !o2.fetched && o2.cache == o.cache
  {
  }

  /** A body that is not an array maps to `[]`. */
  lemma NonArrayBodyIsEmpty(status: int, data: Value, mapFn: Value -> Result<Value>)
    requires !data.Arr?
    ensures Fetched(Responded(true, status, Some(data)), mapFn) == Ok(Arr([]))
  {
  }
}
