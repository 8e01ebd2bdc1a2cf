# Fox_app data utilities, modelled in Dafny

This project models the data-handling core of the Fox_app dashboard, a React/Electron front end for factory test and packing data. It covers:

- the Wareconn report export: the Python downloader `wareconn_downloader.py` and the JavaScript URL builder and filename parser of `fetchWareconnUtils.js`;
- the SNFN error-code aggregation: both `parseSnFnData` variants and `processStationData`;
- the packing roll-ups: weekend-to-Friday roll-up, sort-line roll-up and chart series; the packing widget's date range, groups, daily totals and copy-column text;
- output sanitisation: CSV cell escaping, export validation, filename sanitisation, and both `textUtils` variants;
- the SQL template substitution of the query page;
- the dashboard settings reducer and widget reconstruction;
- query-parameter building with its cache key;
- the throughput station filter and sort.

Each source file is one module. Pure code (expressions, `map`/`filter`/`sort` chains) is written as functions. Code that loops and accumulates is written as methods with loop invariants. Each method is proved equal to a specification function, and the properties are proved as lemmas about those functions. The downloader's cookie import is a class whose method updates the session jar in place.

The JavaScript and Python run-time behaviour the core relies on lives in shared modules:

- `JsValues`, `JsNumbers` and `JsObjects`: dynamic values, `Number()` conversion, truthiness, and objects as insertion-ordered entry lists;
- `JsDates` and `CivilDates`: `Date` as an invalid date or a UTC instant (civil day plus milliseconds), `Date.UTC` normalisation, `toISOString`;
- `Strings`, `Sequences`, `Sorting` and `Grouping`: `split`, `join`, `replace` with a global pattern, `trim`, a stable sort, deduplication, and grouping with a `Map`;
- `PercentEncoding` and `Utf8`: Python's `quote_plus`, the WHATWG form serializer and `decodeURIComponent`.

The network, the file system, the browser, the clipboard and the clock are inputs or are left out. Their values are parameters of the operations.

Where the documentation and the code disagree, the model follows the code:

- `isSameUTCDay` is reflexive only on valid dates, because `NaN === NaN` is false.
- The desktop `truncateText` never truncates when no length is passed.
- The web `truncateText` overruns its limit (see Findings).
- The weekend roll-ups file a date key that does not parse under `NaN/NaN/NaN`.
- `processPackingData` throws on a key with no day part, because it calls `padStart` on `undefined`.

## Model

| member | source | states |
|---|---|---|
| WareconnDownloader.ParseYmd | frontend/src/scripts/wareconn_downloader.py:184 | what `strptime(s, "%Y-%m-%d")` accepts is a valid calendar day with a year from 1 to 9999 |
| WareconnDownloader.DateToTimestamp | frontend/src/scripts/wareconn_downloader.py:181-187 | succeeds exactly when the text parses, giving that day's midnight in epoch milliseconds; otherwise a `ValueError` whose message contains the offending text (never a default) |
| WareconnDownloader.TimestampOfText | frontend/src/scripts/wareconn_downloader.py:181-187 | every valid day written `YYYY-M-D`, with or without zero padding, converts to its midnight |
| WareconnDownloader.TimestampOfIsoText | frontend/src/scripts/wareconn_downloader.py:221-224 | the default dates, written by `strftime("%Y-%m-%d")`, always convert |
| WareconnDownloader.TimestampOrder | frontend/src/scripts/wareconn_downloader.py:227-229 | two accepted dates compare as their calendar days, and have equal stamps only for the same day |
| WareconnDownloader.NormalizeSvcIds | frontend/src/scripts/wareconn_downloader.py:190-195 | `None` and the empty list give `""`, a single value gives `str(value)` |
| WareconnDownloader.NormalizeSvcIdsSplits | frontend/src/scripts/wareconn_downloader.py:193-194 | a non-empty list of comma-free IDs is recovered from the text by splitting on `,`: the text is the comma-join of `str` of each element |
| WareconnDownloader.NormalizeSvcIdsEmpty | frontend/src/scripts/wareconn_downloader.py:190-195 | a list normalises to `""` exactly when it is empty or holds one empty string |
| WareconnDownloader.SvcIdsText | frontend/src/scripts/wareconn_downloader.py:232-234 | never empty; the normalised text when that is non-empty, else the fixed default |
| WareconnDownloader.DefaultSvcIdsSplit | frontend/src/scripts/wareconn_downloader.py:232-234 | the default is the comma-join of 18 service IDs |
| WareconnDownloader.PrepareUrlHasNoEscapedComma | frontend/src/scripts/wareconn_downloader.py:198-206 | whatever the base and parameters, the URL never contains `%2C` |
| WareconnDownloader.PrepareUrlShape | frontend/src/scripts/wareconn_downloader.py:198-206 | the URL is the base, `?` and the `quote_plus`-encoded pairs with raw commas, and the form parser reads that query back as exactly the parameters |
| WareconnDownloader.Downloader.constructor | frontend/src/scripts/wareconn_downloader.py:27-34 | the fixed export base URL, the given domain filter, an empty cookie jar |
| WareconnDownloader.Downloader.ImportCookies | frontend/src/scripts/wareconn_downloader.py:148-157 | the jar gains exactly the cookies whose domain contains the filter, in order; `imported` is their number |
| WareconnDownloader.JarAfterKeys | frontend/src/scripts/wareconn_downloader.py:150-155 | a key is in the new jar iff it was there before or an accepted cookie carries it |
| WareconnDownloader.JarAfterLastWins | frontend/src/scripts/wareconn_downloader.py:150-155 | the value stored under a key is that of the last accepted cookie with that name, domain and path (path defaulting to `/`) |
| WareconnDownloader.JarAfterKeepsOthers | frontend/src/scripts/wareconn_downloader.py:150-155 | keys no accepted cookie carries keep their value |
| WareconnDownloader.CountImportedBounds | frontend/src/scripts/wareconn_downloader.py:149-156 | the count is at most the number of cookies, zero iff none matches, all iff every one matches |
| WareconnDownloader.EmptyFilterImportsAll | frontend/src/scripts/wareconn_downloader.py:151-152 | the empty filter accepts every cookie, including one without a domain |
| WareconnDownloader.TimestampRange | frontend/src/scripts/wareconn_downloader.py:227-230 | both stamps when both dates parse and start ≤ end; the start's error first, then the end's, then "start_date must be <= end_date" |
| WareconnDownloader.NoRequestOnBadDates | frontend/src/scripts/wareconn_downloader.py:227-230 | no request is made exactly when a date fails or the range is reversed, and then nothing is written and a `ValueError` is raised |
| WareconnDownloader.QueryParamsFields | frontend/src/scripts/wareconn_downloader.py:236-247 | ten parameters; `date` is `"<start_ts>,<end_ts>"` and `svc_id` the service-ID text |
| WareconnDownloader.RequestOf | frontend/src/scripts/wareconn_downloader.py:227-252 | a request is made only once both stamps are read and ordered, for the prepared URL of the ten parameters |
| WareconnDownloader.RequestCarriesDateRange | frontend/src/scripts/wareconn_downloader.py:236-252 | the request on the export base is base, `?` and the encoded parameters with raw commas; the query reads back as the parameters, `date` as exactly `"<start_ts>,<end_ts>"` |
| WareconnDownloader.RequestOnPlainBase | frontend/src/scripts/wareconn_downloader.py:198-206 | the same for any base URL whose escapes are complete and hold no `%2C` |
| WareconnDownloader.BaseUrlPlain | frontend/src/scripts/wareconn_downloader.py:33 | the export base URL holds no escape, so unescaping commas leaves it unchanged |
| WareconnDownloader.DispositionName | frontend/src/scripts/wareconn_downloader.py:278-280 | no name when the disposition has no `filename=` |
| WareconnDownloader.DispositionNameTail | frontend/src/scripts/wareconn_downloader.py:278-280 | the name is the text after the last `filename=` (which holds no further one), stripped of `"`, `;` and space |
| WareconnDownloader.FilenamePriority | frontend/src/scripts/wareconn_downloader.py:274-281 | the caller's name wins; else the server's when non-empty; else `wareconn_data_<ts>.xlsx` |
| WareconnDownloader.LoginRedirectFirst | frontend/src/scripts/wareconn_downloader.py:262-269 | a final URL containing `login` (any case) writes the body to `(output_file or "wareconn_download") + "_debug.html"` and returns `None`, whatever the content type and disposition |
| WareconnDownloader.ResponseClassification | frontend/src/scripts/wareconn_downloader.py:283-318 | an HTML content type writes `<name without last extension>_debug.html` and returns `None`; otherwise the non-empty chunks are written, `total` is their length, and the name is returned iff the read-back bytes start with a ZIP or OLE signature, else `None` |
| WareconnDownloader.FaithfulReadBack | frontend/src/scripts/wareconn_downloader.py:304-318 | when the file reads back as written, the name is returned iff the downloaded bytes carry an Excel signature |
| WareconnDownloader.LooksLikeExcelMeaning | frontend/src/scripts/wareconn_downloader.py:307-310 | the signature test accepts exactly `PK\x03\x04` or `\xd0\xcf\x11\xe0` at the start |
| WareconnDownloader.TotalIsBodyLength | frontend/src/scripts/wareconn_downloader.py:294-299 | the running `total` equals the length of the concatenated non-empty chunks |
| WareconnDownloader.WriteChunks | frontend/src/scripts/wareconn_downloader.py:294-299 | the loop writes exactly the non-empty chunks, in order, and sums their lengths |
| WareconnDownloader.Respond | frontend/src/scripts/wareconn_downloader.py:262-318 | the response handling does what the classification function states |
| WareconnDownloader.Downloader.DownloadData | frontend/src/scripts/wareconn_downloader.py:210-318 | a run's request, file writes, total and result are those of the specification function |
| FetchWareconn.EpochMsLocalMidnight | frontend/src/utils/fetchWareconnUtils.js:6-9 | an unparsable or missing date gives `NaN` |
| FetchWareconn.EpochOfIsoText | frontend/src/utils/fetchWareconnUtils.js:6-9 | a `YYYY-MM-DD` text of a valid day with a year from 100 to 9999 gives that day's midnight in epoch milliseconds |
| FetchWareconn.EpochTwoDigitYear | frontend/src/utils/fetchWareconnUtils.js:6-9 | a year written `0000`..`0099` comes back as 1900..1999, because the three-argument `Date` constructor reads such years so |
| FetchWareconn.EpochAgreesWithDownloader | frontend/src/utils/fetchWareconnUtils.js:6-9 | for such a day the browser helper and the Python downloader put the same stamp in `date` |
| FetchWareconn.WareconnParamsFields | frontend/src/utils/fetchWareconnUtils.js:27-38 | ten parameters in order; `date` is `"<startMs>,<endMs>"` and `svc_id` the comma-join of the IDs; an absent `cusId` becomes `"undefined"`; the other absent fields take their declared defaults (`""`, type `"0"`) |
| FetchWareconn.BuildWareconnUrlShape | frontend/src/utils/fetchWareconnUtils.js:10-40 | the URL is base, hook, `?` and a query that the form parser reads back as exactly the ten parameters; the query holds no raw comma, and `date` carries the two midnight stamps |
| FetchWareconn.WhatwgQuery | frontend/src/utils/fetchWareconnUtils.js:27-39 | `URLSearchParams.toString()` text reads back as its pairs and escapes every comma |
| FetchWareconn.DispositionFilename | frontend/src/utils/fetchWareconnUtils.js:63-65 | `null` exactly when the regular expression does not match; a malformed escape throws `URIError` |
| FetchWareconn.NoFilenameWithoutKeyword | frontend/src/utils/fetchWareconnUtils.js:64-65 | a header without `filename` in any case names no file |
| FetchWareconn.FirstSomeLeftmost | frontend/src/utils/fetchWareconnUtils.js:64 | the match is the leftmost one: none iff no position matches, otherwise the capture at the first matching position |
| FetchWareconn.MatchAtShape | frontend/src/utils/fetchWareconnUtils.js:64 | a capture of `([^;]+)` is non-empty and free of `;` |
| FetchWareconn.StripQuotesOfQuoted | frontend/src/utils/fetchWareconnUtils.js:65 | removing the quotes undoes quoting, and text without quotes is left alone |
| FetchWareconn.QuotedFilenameRoundTrip | frontend/src/utils/fetchWareconnUtils.js:63-65 | a header whose first `filename` is `filename="<encodeURIComponent(name)>"` yields `name` |
| FetchWareconn.ExtendedFilenameRoundTrip | frontend/src/utils/fetchWareconnUtils.js:63-65 | a header whose first `filename` is `filename*=UTF-8''<encodeURIComponent(name)>` yields `name` |
| FetchWareconn.ExtendedFilenameEmpty | frontend/src/utils/fetchWareconnUtils.js:64 | `filename*=UTF-8''` with nothing after it yields the text `UTF-8''` itself, because the optional group backs off |
| FetchWareconn.StoreKey | frontend/src/utils/fetchWareconnUtils.js:80 | a given store key is used as is |
| FetchWareconn.StoreKeyFields | frontend/src/utils/fetchWareconnUtils.js:80 | the default key splits on `:` into `wareconn`, `stationOutput`, the sheet name (or `sheet`) and the clock reading |
| FetchWareconn.StoreKeyKeepsEmptySheetName | frontend/src/utils/fetchWareconnUtils.js:80 | `??` keeps an empty sheet name rather than replacing it with `sheet` |
| ExportUtils.StripPrefix | frontend/src/utils/exportUtils.js:1 | the result is a suffix of the text; everything removed in front is U+FEFF, U+200B or white space, and the result does not start with one of them |
| ExportUtils.Defuse | frontend/src/utils/exportUtils.js:8-11 | a `'` is put in front exactly when the text, after the leading junk, starts with `=`, `+`, `-` or `@` |
| ExportUtils.DefusedStartsWithQuote | frontend/src/utils/exportUtils.js:8-11 | a defused cell starts with `'`, so it no longer looks like a formula |
| ExportUtils.SanitizeCsvCell | frontend/src/utils/exportUtils.js:3-21 | `null`/`undefined` give `""`; otherwise the defused text, wrapped in quotes with inner quotes doubled exactly when it holds `"`, `,` or a line feed |
| ExportUtils.CellReadsBack | frontend/src/utils/exportUtils.js:13-19 | an RFC 4180 field reader reads every non-nullish sanitised cell back as the defused text |
| ExportUtils.CleanCell | frontend/src/utils/exportUtils.js:27-49 | a cell whose text matches any of the eight patterns (ignoring case) becomes `[CONTENT_SANITIZED]`; any other cell is sanitised |
| ExportUtils.CleanRow | frontend/src/utils/exportUtils.js:27-50 | each cell of a row is cleaned, positions kept |
| ExportUtils.KeptRows | frontend/src/utils/exportUtils.js:25 | only non-empty arrays are kept, in order |
| ExportUtils.KeptRowsConcat | frontend/src/utils/exportUtils.js:25 | filtering distributes over concatenation |
| ExportUtils.ValidateExportData | frontend/src/utils/exportUtils.js:23-53 | one cleaned row per kept row, in order |
| ExportUtils.ReplaceSpecial | frontend/src/utils/exportUtils.js:101 | same length; position by position, a word character, `.`, `-` or white space is kept and any other character becomes `_` |
| ExportUtils.SpacesToUnderscore | frontend/src/utils/exportUtils.js:102 | the result is the left-to-right run collapse `CollapseRuns` of white space: each maximal run becomes one `_` and every other character stays in place; deleting `_` from the result gives the input with white space and `_` deleted; only word characters, `.` and `-` remain |
| ExportUtils.CollapseKeepsLetters | frontend/src/utils/exportUtils.js:102-103 | for any run test, deleting `_` from the run collapse leaves exactly the characters that neither pass the test nor are `_`, in order |
| ExportUtils.SqueezeUnderscores | frontend/src/utils/exportUtils.js:103 | the result is the run collapse `CollapseRuns` of `_`: each maximal run of `_` becomes one `_` and every other character stays in place; deleting `_` gives the same text before and after; `_` occurs in the result exactly when it occurs in the input; no two `_` in a row remain; the first character is kept |
| ExportUtils.SanitizeFilename | frontend/src/utils/exportUtils.js:99-105 | at most 255 characters, all safe, and no `__` |
| ExportUtils.SafeNameUnchanged | frontend/src/utils/exportUtils.js:99-105 | a name that is already safe, free of `__` and at most 255 long is left unchanged |
| ExportUtils.DownloadName | frontend/src/utils/exportUtils.js:77-78 | the sanitised name, with `.csv` appended unless it already ends so in any case |
| ExportUtils.CsvRows | frontend/src/utils/exportUtils.js:58-62 | the sanitised header row followed by the validated data rows |
| ExportUtils.ExportSecureCsv | frontend/src/utils/exportUtils.js:55-97 | the file text is the BOM followed by the rows joined by `,` and lines joined by line feeds; the name is the download name |
| ExportUtils.LinesSplitBack | frontend/src/utils/exportUtils.js:63-69 | when no cell holds a line feed, splitting the text after the BOM at line feeds gives back the lines |
| ExportUtils.CellsSplitBack | frontend/src/utils/exportUtils.js:64 | a line of comma-free cells splits back into its cells |
| TextUtils.SliceTo | frontend/src/utils/textUtils.js:4 | `slice(0, end)` gives a prefix: of length `end` when in range, counting from the back for a negative `end`, empty for `NaN` |
| TextUtils.Truncate | frontend/src/utils/textUtils.js:4 | a text no longer than the limit is returned unchanged; for a limit of at least 1, a longer one keeps its first `maxLength - 1` characters followed by the suffix |
| TextUtils.TruncateText | frontend/src/utils/textUtils.js:2-5 | a non-string gives `''`; a string is truncated with `…` |
| TextUtils.TruncateFits | frontend/src/utils/textUtils.js:4 | a text that fits is returned as it is |
| TextUtils.TruncateWithoutLength | frontend/src/utils/textUtils.js:4 | without a `maxLength` (`text.length > undefined` is false) nothing is cut |
| TextUtils.TruncateLong | frontend/src/utils/textUtils.js:4 | a text longer than a positive limit comes back exactly `maxLength` long: its first `maxLength - 1` characters and `…` |
| TextUtils.TruncateIdempotent | frontend/src/utils/textUtils.js:2-5 | truncating twice to the same positive limit is truncating once |
| TextUtils.TruncateNumericText | frontend/src/utils/textUtils.js:4 | a numeric string works as the limit, as `>` and `-` convert it |
| TextUtils.TruncateZero | frontend/src/utils/textUtils.js:4 | a limit of 0 drops the last character and appends `…`, since `slice(0, -1)` counts from the back |
| TextUtils.EscapeRemovesBrackets | frontend/src/utils/textUtils.js:7 | no `<` or `>` is left |
| TextUtils.EscapeIsCharwise | frontend/src/utils/textUtils.js:7 | the two global replacements in a row are the same as escaping character by character |
| TextUtils.EscapeIdempotent | frontend/src/utils/textUtils.js:7 | escaping twice is escaping once |
| TextUtils.EscapeWithoutBrackets | frontend/src/utils/textUtils.js:7 | a text without brackets is unchanged |
| TextUtils.SanitizeText | frontend/src/utils/textUtils.js:6-8 | succeeds exactly on strings, with the bracket escape; any other value throws, since it has no `replace` |
| TextUtilsWeb.WithDefault | frontend-web/src/utils/textUtils.js:2 | a missing `maxLength` becomes 75, any other value is kept |
| TextUtilsWeb.TruncateText | frontend-web/src/utils/textUtils.js:2-5 | a non-string gives `''`; a string is truncated to the limit (default 75) with the three-character suffix `â€¦` |
| TextUtilsWeb.DefaultLength | frontend-web/src/utils/textUtils.js:2-4 | a text of at most 75 characters is unchanged without a limit |
| TextUtilsWeb.TruncateFits | frontend-web/src/utils/textUtils.js:4 | a text that fits is returned as it is |
| TextUtilsWeb.TruncateOverruns | frontend-web/src/utils/textUtils.js:4 | as written, a truncated text is `maxLength + 2` long |
| TextUtilsWeb.TruncateOverrunsAtDefault | frontend-web/src/utils/textUtils.js:4 | 76 characters cut at the default limit come back as 77 |
| TextUtilsWeb.TruncateTextIntended | frontend-web/src/utils/textUtils.js:2-5 | the same cut with the one-character `…` |
| TextUtilsWeb.IntendedFitsLimit | frontend-web/src/utils/textUtils.js:4 | with `…`, a truncated text is exactly `maxLength` long |
| TextUtilsWeb.IntendedNeverLonger | frontend-web/src/utils/textUtils.js:4 | with `…`, no result is longer than a positive limit |
| TextUtilsWeb.SanitizeText | frontend-web/src/utils/textUtils.js:6-9 | a non-string gives `''`; a string is escaped and holds no `<` or `>` |
| TextUtilsWeb.SanitizeIdempotent | frontend-web/src/utils/textUtils.js:6-9 | sanitising twice is sanitising once |
| SnfnCommon.MoreCountStrictWeak | frontend/src/utils/snfn/transform.js:72 | on numeric counts, `(a, b) => b[1] - a[1]` is a consistent comparator (a strict weak order) |
| SnfnCommon.NonIncreasing | frontend/src/utils/snfn/transform.js:67-74 | codes sorted by it list counts that never increase |
| SnfnCommon.DefaultLessStrictWeak | frontend/src/utils/snfn/transform.js:76-78 | the default `sort()` order (by string form, `undefined` last) is a strict weak order |
| SnfnCommon.SortedValuesMeaning | frontend/src/utils/snfn/transform.js:76-78 | `Array.from(set).sort()` holds exactly the values added, each once, in default sort order |
| SnfnCommon.SetOfPrims | frontend/src/utils/snfn/transform.js:13-15 | on primitives, the `Set`'s SameValueZero is equality |
| SnfnCommon.JoinTexts | frontend/src/utils/snfn/transform.js:83 | `join` writes `null` and `undefined` as empty text and anything else as its string form |
| SnfnCommon.FlattenDescs | frontend/src/utils/snfn/transform.js:81-84 | one `[key, descriptions joined by line feeds]` per map entry, in order |
| SnfnCommon.AddDesc | frontend/src/utils/snfn/transform.js:43-45 | the map gains the key if it was missing and keeps every other key |
| SnfnCommon.DescsKeys | frontend/src/utils/snfn/transform.js:43-45 | the description map has one entry per distinct key, in order of first appearance |
| SnfnCommon.DescsGet | frontend/src/utils/snfn/transform.js:43-45 | each key's set holds the descriptions filed under it, each once, in order of first appearance |
| SnfnCommon.FlattenedDescs | frontend/src/utils/snfn/transform.js:81-84 | `allCodeDesc[i]` is the i-th distinct key with its distinct descriptions joined by line feeds |
| SnfnCommon.TruthyModelsMembers | frontend/src/utils/snfn/transform.js:41 | a model is collected exactly when some row has it and it is truthy |
| SnfnTransformList.Kept | frontend/src/utils/snfn/transform.js:31-33 | only rows with a valid time inside `[startDate, endDate]` and a count that is not `=== 0` are processed |
| SnfnTransformList.KeptPrefix | frontend/src/utils/snfn/transform.js:18-33 | the rows kept from a prefix are a prefix of those kept from all rows |
| SnfnTransformList.FindStation | frontend/src/utils/snfn/transform.js:37 | `findIndex` gives the first station whose key is the group key, or none when no station has it |
| SnfnTransformList.FindStationKeys | frontend/src/utils/snfn/transform.js:37 | a station is found exactly when some station carries the key |
| SnfnTransformList.FindStationSnoc | frontend/src/utils/snfn/transform.js:47-51 | a station pushed at the end is found only when no earlier one has its key |
| SnfnTransformList.FindStationUpdate | frontend/src/utils/snfn/transform.js:53-63 | changing a station's codes does not move any lookup |
| SnfnTransformList.FindCode | frontend/src/utils/snfn/transform.js:54 | `findIndex` gives the first code that is `===` the error code, or none |
| SnfnTransformList.GroupRow | frontend/src/utils/snfn/transform.js:35-64 | the station branch for one row: a new key pushes `[[key, label], [EC, Number(TN), [[SN, PN, MD]]]]`; a known code adds the count and the triple if new; an error code equal to the key reaches the label and throws |
| SnfnTransformList.AddRowKeys | frontend/src/utils/snfn/transform.js:47-64 | one row opens a station for a new key and otherwise keeps the keys |
| SnfnTransformList.GroupedKeys | frontend/src/utils/snfn/transform.js:18-65 | `data` has one station per distinct group key, in order of first appearance |
| SnfnTransformList.GroupedErr | frontend/src/utils/snfn/transform.js:54-59 | the loop throws exactly when some row's error code equals its group key after an earlier row opened that group, and the error is the `.some` one |
| SnfnTransformList.GroupedErrSticks | frontend/src/utils/snfn/transform.js:18-65 | once the loop throws, later rows do not change the outcome |
| SnfnTransformList.ThrowsForAll | frontend/src/utils/snfn/transform.js:18-65 | a row that throws makes the whole call throw the same error |
| SnfnTransformList.GroupedSnoc | frontend/src/utils/snfn/transform.js:18-65 | one more row is one more grouping step, one more description and one more truthy model |
| SnfnTransformList.SortGroups | frontend/src/utils/snfn/transform.js:68-74 | every station's codes are sorted, labels and station order kept |
| SnfnTransformList.SortEachGroup | frontend/src/utils/snfn/transform.js:68-74 | the sorting loop sorts every group in place; a group whose counts are numbers ends in non-increasing count order |
| SnfnTransformList.SortGroupsByCount | frontend/src/utils/snfn/transform.js:68-74 | a station whose counts are numbers has its codes in non-increasing count order after sorting |
| SnfnTransformList.GroupedHolds | frontend/src/utils/snfn/transform.js:18-65 | after the loop, every station holds what its accepted rows make it hold: first row's label, distinct codes, distinct triples, summed counts |
| SnfnTransformList.SortedHoldsIn | frontend/src/utils/snfn/transform.js:68-74 | sorting a station's codes keeps its label, its codes, their counts and their triples |
| SnfnTransformList.ParsedHolds | frontend/src/utils/snfn/transform.js:18-74 | each returned station holds what its accepted rows make it hold |
| SnfnTransformList.CodesOnce | frontend/src/utils/snfn/transform.js:54-56 | no two codes of a station are `===`, because a code already present is found and added to |
| SnfnTransformList.SerialsOnce | frontend/src/utils/snfn/transform.js:58-61 | no serial list holds two `===` triples |
| SnfnTransformList.CodeEntries | frontend/src/utils/snfn/transform.js:50-62 | a code stands for the non-empty set of accepted rows of its station with a `===` code; its count is the sum of their `Number(code_count)`, repeated triples included, and its serials are exactly their triples |
| SnfnTransformList.CodeRowsMean | frontend/src/utils/snfn/transform.js:50-62 | the rows a tallied entry stands for carry its group key and a `===` code, and its serial list holds exactly their triples |
| SnfnTransformList.RowCodeFound | frontend/src/utils/snfn/transform.js:47-62 | every accepted row whose error code is not the number `NaN` finds an entry for that code in its station |
| SnfnTransformList.StationLabel | frontend/src/utils/snfn/transform.js:47-51 | a station's secondary label is that of the first accepted row of its group |
| SnfnTransformList.CodesByCount | frontend/src/utils/snfn/transform.js:68-74 | when every accepted count is a number, each station lists its codes by non-increasing count |
| SnfnTransformList.CollectRow | frontend/src/utils/snfn/transform.js:39-45 | after one more row, the sets and the description map are those of the rows so far |
| SnfnTransformList.MetaStep | frontend/src/utils/snfn/transform.js:39-45 | the metadata after one more row is the `Set.add`/`Map` update of that row |
| SnfnTransformList.ScanRows | frontend/src/utils/snfn/transform.js:18-65 | the `forEach` gives the grouping of the kept rows, or its error; on success the sets hold the distinct codes, group keys and truthy models and the map the descriptions |
| SnfnTransformList.ParseOf | frontend/src/utils/snfn/transform.js:67-86 | what the loops leave behind is the specified result |
| SnfnTransformList.ParseSnFnData | frontend/src/utils/snfn/transform.js:6-87 | the function returns the sorted groups, the sorted distinct codes, stations and truthy models, and the flattened descriptions, or throws the grouping error |
| SnfnTransformMap.UpdateCode | frontend/src/utils/snfn/snfnTransform.js:65-80 | the code map after one row: the code's entry is created with count 0 if new, its count gains `Number(TN)` and its serial key's count gains 1 |
| SnfnTransformMap.GroupRow | frontend/src/utils/snfn/snfnTransform.js:56-80 | the station map after one row: the station is created with its label if new, and the row is filed under its renamed code |
| SnfnTransformMap.CollectRow | frontend/src/utils/snfn/snfnTransform.js:44-54 | after one more row, the sets and the description map are those of the rows so far |
| SnfnTransformMap.MetaStep | frontend/src/utils/snfn/snfnTransform.js:44-54 | the metadata after one more row is the `Set.add`/`Map` update of that row |
| SnfnTransformMap.TakeRow | frontend/src/utils/snfn/snfnTransform.js:38-80 | one accepted row keeps the station map and metadata equal to those of the rows so far |
| SnfnTransformMap.StationMapSnoc | frontend/src/utils/snfn/snfnTransform.js:56-80 | the station map of one more row is one more grouping step |
| SnfnTransformMap.ScanRows | frontend/src/utils/snfn/snfnTransform.js:19-81 | the `for...of` loop leaves the station map and metadata of exactly the accepted rows |
| SnfnTransformMap.ParseSnFnData | frontend/src/utils/snfn/snfnTransform.js:4-112 | the function returns the specified result |
| SnfnTransformMap.StationAt | frontend/src/utils/snfn/snfnTransform.js:56-63 | each station entry is filed under a key some accepted row has; its label holds that key and the sub-label of its first row, and its code map groups that station's rows by code |
| SnfnTransformMap.CodeAt | frontend/src/utils/snfn/snfnTransform.js:65-80 | each code entry is filed under a code some of the station's rows have; its count is their sum and its serial map counts their serial keys |
| SnfnTransformMap.StationsInOrder | frontend/src/utils/snfn/snfnTransform.js:84 | stations come out once each, in the order of their first accepted row |
| SnfnTransformMap.StationLabel | frontend/src/utils/snfn/snfnTransform.js:57-62 | a station's sub-label is that of its first accepted row |
| SnfnTransformMap.CodeEntries | frontend/src/utils/snfn/snfnTransform.js:84-97 | each output code is the renamed code of some of the station's accepted rows; its count is the sum of their `Number(code_count)` and its serial list splits the counts of their serial keys |
| SnfnTransformMap.SerialCountsAddUp | frontend/src/utils/snfn/snfnTransform.js:78-80 | the serial counts of a code add up to the number of its accepted rows |
| SnfnTransformMap.SerialEntry | frontend/src/utils/snfn/snfnTransform.js:91-94 | each serial entry is the split key of some row, with the number of rows that have that key |
| SnfnTransformMap.MoreAccStrictWeak | frontend/src/utils/snfn/snfnTransform.js:88 | on numeric counts, `bObj.count - aObj.count` is a strict weak order |
| SnfnTransformMap.CodesByCount | frontend/src/utils/snfn/snfnTransform.js:86-88 | when every accepted count is a number, each station lists its codes by non-increasing count |
| SnfnTransformMap.TecRenames | frontend/src/utils/snfn/snfnTransform.js:38 | `ECnan` and `EC_na` become `NAN`; every other code is kept |
| SnfnTransformMap.NanRenamed | frontend/src/utils/snfn/snfnTransform.js:38-45 | neither `ECnan` nor `EC_na` appears in the station data or in `allErrorCodes` |
| SnfnTransformMap.SkippedRowChangesNothing | frontend/src/utils/snfn/snfnTransform.js:33-36 | a row without a string code or a count, outside the window, or with a count of 0 changes nothing in the result |
| SnfnTransformMap.AcceptedRowShows | frontend/src/utils/snfn/snfnTransform.js:33-80 | an accepted row's station and renamed code appear in `allStations`, `allErrorCodes` and `data` |
| SnfnTransformMap.SerialKeyRoundTrip | frontend/src/utils/snfn/snfnTransform.js:78-92 | splitting `SN::PN::MD` on `::` gives the three fields back when none holds `::` and neither of the first two ends in `:` |
| SnfnTransformMap.MissingModelReadsUndefined | frontend/src/utils/snfn/snfnTransform.js:78-92 | a row without a model comes back with the string `"undefined"` as its model |
| SnfnTransformMap.SerialKeyLossy | frontend/src/utils/snfn/snfnTransform.js:78-92 | a serial number holding `::` or ending in `:` does not come back as it was |
| SnfnTransformMap.FirstPieceCut | frontend/src/utils/snfn/snfnTransform.js:92 | a first field holding `::` or ending in `:` is cut short by the split |
| SnfnTransformMap.ErrorCodesMeaning | frontend/src/utils/snfn/snfnTransform.js:45-101 | `allErrorCodes` holds each renamed code of an accepted row once, in the default sort order |
| SnfnTransformMap.StationsMeaning | frontend/src/utils/snfn/snfnTransform.js:46-102 | `allStations` holds each station key of an accepted row once, in increasing order |
| SnfnTransformMap.ModelsMeaning | frontend/src/utils/snfn/snfnTransform.js:47-103 | `allModels` holds each truthy model of an accepted row once, in the default sort order |
| SnfnTransformMap.DescriptionsMeaning | frontend/src/utils/snfn/snfnTransform.js:50-109 | one entry per distinct station key plus code, in order of first appearance, holding its distinct descriptions joined by line feeds |
| SnfnDataUtils.AdmitsPrim | frontend/src/utils/snfn/snfnDataUtils.js:36-37 | a filter admits a value exactly when it is empty or holds the value |
| SnfnDataUtils.NarrowCodeMeaning | frontend/src/utils/snfn/snfnDataUtils.js:45-52 | a narrowed code keeps its code; its serial list is the input's entries whose `md ?? ''` the model filter admits, in order; its count is their number |
| SnfnDataUtils.NarrowCodesMeaning | frontend/src/utils/snfn/snfnDataUtils.js:44-59 | a code survives exactly when the error-code filter admits it and some serial entry is left after the model filter |
| SnfnDataUtils.CodesKeepOrder | frontend/src/utils/snfn/snfnDataUtils.js:44-59 | surviving codes keep their relative order |
| SnfnDataUtils.Present | frontend/src/utils/snfn/snfnDataUtils.js:67 | `.filter(Boolean)` keeps exactly the stations that are not `null` |
| SnfnDataUtils.SurvivorFrom | frontend/src/utils/snfn/snfnDataUtils.js:32-67 | every surviving station comes from an input station the station filter admits, narrowed to its surviving codes |
| SnfnDataUtils.SurvivorTo | frontend/src/utils/snfn/snfnDataUtils.js:32-67 | every admitted input station with a surviving code survives |
| SnfnDataUtils.StationsMeaning | frontend/src/utils/snfn/snfnDataUtils.js:23-92 | the result is a permutation of the survivors, and a station is in it exactly when the filter admits its id and some of its codes survive |
| SnfnDataUtils.SurvivorsHaveSums | frontend/src/utils/snfn/snfnDataUtils.js:51-78 | every surviving station's total is a number, since its counts are list lengths |
| SnfnDataUtils.PrecedesByCount | frontend/src/utils/snfn/snfnDataUtils.js:71-79 | by count, a station comes first when its total is smaller (ascending) or larger (descending) |
| SnfnDataUtils.ByCountStrictWeak | frontend/src/utils/snfn/snfnDataUtils.js:71-79 | that comparator is consistent on stations with numeric totals |
| SnfnDataUtils.ByCountOrder | frontend/src/utils/snfn/snfnDataUtils.js:70-90 | sorted by count, the totals never decrease (ascending) or never increase (descending) |
| SnfnDataUtils.PrecedesById | frontend/src/utils/snfn/snfnDataUtils.js:80-89 | by id, a station comes first when `localeCompare` of the ids is negative (ascending) or positive (descending) |
| SnfnDataUtils.ByIdStrictWeak | frontend/src/utils/snfn/snfnDataUtils.js:80-89 | for a consistent `localeCompare`, that comparator is a strict weak order |
| SnfnDataUtils.ByIdOrder | frontend/src/utils/snfn/snfnDataUtils.js:70-90 | sorted by id, each id compares at most equal to every later one (ascending) or at least equal (descending) |
| WeekendRollup.Piece | frontend/src/utils/packingPage/packingDataUtils.js:31-32 | a missing piece of the split reads as `NaN`; a present one is converted with unary `+` |
| WeekendRollup.ParseSlashDateMidnight | frontend/src/utils/packingPage/packingDataUtils.js:32 | a key read with `Date.UTC` is a midnight |
| WeekendRollup.SortKey | frontend/src/utils/packingPage/packingDataUtils.js:50-56 | the sort key is the time value of the date the key reads as |
| WeekendRollup.RollBackMeaning | frontend/src/utils/packingPage/packingDataUtils.js:35-37 | an invalid date stays invalid; a valid one moves from Saturday back one day and from Sunday back two, keeping its time of day, and never lands on a weekend |
| WeekendRollup.Format | frontend/src/utils/packingPage/packingDataUtils.js:11-22 | an invalid date writes `NaN/NaN/NaN`; a valid one writes month and day padded to two digits (`MM/DD/YYYY`) or unpadded (`M/D/YYYY`), then the year |
| WeekendRollup.RollIsWeekday | frontend/src/utils/packingPage/packingDataUtils.js:31-39 | a key is filed under `NaN/NaN/NaN` exactly when it does not read as a date; otherwise under a weekday |
| WeekendRollup.FormatReadsBack | frontend/src/utils/packingPage/packingDataUtils.js:11-56 | a day written in either style reads back as that day, with its midnight as sort key |
| WeekendRollup.GoodKeyReadable | frontend/src/utils/packingPage/packingDataUtils.js:31-39 | the text a good key is filed under reads back as the rolled-back weekday |
| WeekendRollup.ReadableKeysDiffer | frontend/src/utils/packingPage/packingDataUtils.js:50-56 | different readable dates have different sort keys |
| WeekendRollup.DateLessConsistent | frontend/src/utils/packingPage/packingDataUtils.js:50-56 | on dates with a time value the comparator is a strict weak order |
| WeekendRollup.SortChronological | frontend/src/utils/packingPage/packingDataUtils.js:50-56 | sorting distinct readable dates puts them in strictly increasing time order |
| WeekendRollup.AllRolledFrom | frontend/src/utils/packingPage/packingDataUtils.js:24-47 | every listed date is the filing of some key of the input |
| WeekendRollup.AllRolledReadable | frontend/src/utils/packingPage/packingDataUtils.js:24-47 | when every key is good, every listed date reads back |
| WeekendRollup.SortedDatesChronological | frontend/src/utils/packingPage/packingDataUtils.js:42-56 | the list holds each filed date once, in strictly increasing time order |
| WeekendRollup.FileCounts | frontend/src/utils/packingPage/packingDataUtils.js:28-46 | the inner loop tallies each count under its filed date and appends each unseen date once, keeping `seen` equal to the list's contents |
| PackingDataUtils.RollupWeekendCounts | frontend/src/utils/packingPage/packingDataUtils.js:5-59 | the result maps each key to its rolled-up bucket, and `sortedDates` is the distinct filed dates sorted by time |
| PackingDataUtils.RollupCounts | frontend/src/utils/packingPage/packingDataUtils.js:24-47 | each part's count under a date is the sum of its counts on the days filed there, and its total is unchanged |
| PackingDataUtils.SortedDatesOrdered | frontend/src/utils/packingPage/packingDataUtils.js:42-58 | when every key reads as a date, `sortedDates` lists each filed date once, in strictly increasing time order |
| PackingDataUtilsWeb.RollupParts | frontend-web/src/utils/packingPage/packingDataUtils.js:32-47 | the loop over a model's parts rolls up each part and appends its unseen dates |
| PackingDataUtilsWeb.ModelDatesStep | frontend-web/src/utils/packingPage/packingDataUtils.js:27-55 | one more model appends the filed dates of its parts |
| PackingDataUtilsWeb.RollupWeekendCounts | frontend-web/src/utils/packingPage/packingDataUtils.js:4-65 | the result maps each model to its group, and `sortedDates` is the distinct filed dates sorted by time |
| PackingDataUtilsWeb.ProcessedGroup | frontend-web/src/utils/packingPage/packingDataUtils.js:27-55 | each model name of the input maps to its group |
| PackingDataUtilsWeb.GroupCounts | frontend-web/src/utils/packingPage/packingDataUtils.js:28-47 | a group holds the model's part numbers, and each part's counts are rolled up (unpadded dates) and conserved |
| PackingDataUtilsWeb.GroupLabelsShown | frontend-web/src/utils/packingPage/packingDataUtils.js:50-54 | a named model's group always shows labels: its own when truthy, else the name and `<name> Total` |
| PackingDataUtilsWeb.ModelDatesReadable | frontend-web/src/utils/packingPage/packingDataUtils.js:11-20 | when every key is good, every filed date reads back |
| PackingDataUtilsWeb.SortedDatesOrdered | frontend-web/src/utils/packingPage/packingDataUtils.js:40-62 | when every key reads as a date, `sortedDates` lists each filed date once, in strictly increasing time order |
| SortDataUtils.AllocateBuckets | frontend-web/src/utils/packingPage/sortDataUtils.js:4-5 | one empty bucket per listed code |
| SortDataUtils.EmptyBucketsGet | frontend-web/src/utils/packingPage/sortDataUtils.js:4-5 | a key has a bucket exactly when it is listed, and that bucket starts empty |
| SortDataUtils.AddCounts | frontend-web/src/utils/packingPage/sortDataUtils.js:14-31 | the inner loop adds each count into the bucket under its rolled-back `M/D/YYYY` date |
| SortDataUtils.RollupSortData | frontend-web/src/utils/packingPage/sortDataUtils.js:2-35 | the function returns the listed codes' buckets after all counts of listed codes are added |
| SortDataUtils.RollupStep | frontend-web/src/utils/packingPage/sortDataUtils.js:8-32 | one more input code is one more step of the outer loop |
| SortDataUtils.RollupKeys | frontend-web/src/utils/packingPage/sortDataUtils.js:8-32 | the loop adds no key: only pre-allocated buckets are filled |
| SortDataUtils.RollupAbsent | frontend-web/src/utils/packingPage/sortDataUtils.js:8-32 | a code the input does not have keeps its bucket |
| SortDataUtils.RollupAt | frontend-web/src/utils/packingPage/sortDataUtils.js:10-11 | an input code with a bucket gets its counts added; one without stays absent |
| SortDataUtils.SortRollupKeys | frontend-web/src/utils/packingPage/sortDataUtils.js:2-11 | the result has a bucket for exactly the listed codes (by default `506` and `520`) |
| SortDataUtils.SortRollupCounts | frontend-web/src/utils/packingPage/sortDataUtils.js:13-31 | a listed code shows under each date the sum of its counts on the days that roll there, and its total is kept |
| SortDataUtils.SortRollupMissing | frontend-web/src/utils/packingPage/sortDataUtils.js:5-11 | a listed code the input lacks keeps an empty bucket |
| PackingCharts.DayKey | frontend/src/utils/packingCharts/packingChartsDataUtils.js:8-9 | the key throws exactly when the date text has no `/`, since then `day` is `undefined` |
| PackingCharts.DayKeyIsIso | frontend/src/utils/packingCharts/packingChartsDataUtils.js:8-9 | a day written `M/D/YYYY` with a four-digit year gets its ISO date as key, so different days get different keys |
| PackingCharts.AddPart | frontend/src/utils/packingCharts/packingChartsDataUtils.js:7-11 | the inner loop adds one part's counts under their ISO keys, or throws when a key has no day |
| PackingCharts.ChartsStep | frontend/src/utils/packingCharts/packingChartsDataUtils.js:3-12 | one more part is skipped unless its model is truthy and selected; otherwise it throws or adds its counts |
| PackingCharts.ChartsErrSticks | frontend/src/utils/packingCharts/packingChartsDataUtils.js:3-12 | once the loop throws, later parts do not change the outcome |
| PackingCharts.ProcessPackingData | frontend/src/utils/packingCharts/packingChartsDataUtils.js:1-14 | the function returns the specified map, or throws its error |
| PackingCharts.ChartsMeaning | frontend/src/utils/packingCharts/packingChartsDataUtils.js:1-14 | the call throws exactly when a selected part has a key without a day; otherwise each key shows the sum of the selected parts' counts under it, and the grand total is the selected parts' total |
| WidgetUtils.FindConfig | frontend/src/utils/widgetUtils.js:7 | `find` gives the first catalogue entry whose type is `===` the saved type, and none exactly when no entry matches |
| WidgetUtils.RebuildMeaning | frontend/src/utils/widgetUtils.js:8-11 | the rebuilt widget keeps every saved property except `Widget`, which is the catalogue's component; it survives the filter exactly when that component is truthy |
| WidgetUtils.UnknownTypeDropped | frontend/src/utils/widgetUtils.js:7-12 | a saved type the catalogue does not know is dropped |
| WidgetUtils.ReconstructKeepsKnown | frontend/src/utils/widgetUtils.js:5-13 | the result is the rebuilt known saved widgets, in saved order |
| WidgetUtils.ReconstructLength | frontend/src/utils/widgetUtils.js:5-13 | never more widgets than saved, and as many when every saved type has a component |
| DateUtils.ToUtcDateString | frontend/src/utils/dateUtils.js:4-14 | a Date, text or time value that makes a valid date writes `MM/DD/YYYY` of its UTC day; an invalid one writes `NaN/NaN/NaN` |
| DateUtils.FormatTimeValue | frontend/src/utils/dateUtils.js:4-14 | a time value formats as the Date it is the time of |
| JsDates.DateOfTime | frontend/src/utils/dateUtils.js:8 | `new Date(number)` is a valid date exactly for an integer within 8.64e15 milliseconds of the epoch, and has that time value |
| JsDates.DateOfTimeValue | frontend/src/utils/dateUtils.js:8 | `new Date(d.getTime())` gives back `d`, invalid dates included |
| DateUtils.CreateThenFormat | frontend/src/utils/dateUtils.js:23-25 | numbers of a valid day with a year from 100 give that day's midnight, which formats back as that day |
| DateUtils.CreateFromTextThenFormat | frontend/src/utils/dateUtils.js:23-25 | the same day's texts (year, padded month and day) give the same midnight |
| DateUtils.CreateOfNumbers | frontend/src/utils/dateUtils.js:24 | the month is one-based: `Date.UTC(year, month - 1, day)` |
| DateUtils.CreateTwoDigitYear | frontend/src/utils/dateUtils.js:24 | years 0..99 are read as 1900..1999 |
| DateUtils.IsSameUtcDayMeaning | frontend/src/utils/dateUtils.js:33-39 | true exactly when both dates are valid and on the same UTC day; symmetric; false for an invalid date even against itself, since `NaN === NaN` is false |
| DateUtils.GetDateRangeArray | frontend/src/utils/dateUtils.js:46-55 | the loop builds the specified list of ISO days |
| DateUtils.DateRangeArrayDays | frontend/src/utils/dateUtils.js:46-55 | for two valid dates: empty exactly when the end day is before the start day; otherwise one entry per day, from the start's ISO day to the end's, and entry `i` reads back as the start day plus `i` |
| DateUtils.DateRangeEmpty | frontend/src/utils/dateUtils.js:50 | the list is empty exactly when the end day is before the start day |
| DateUtils.DateRangeEnds | frontend/src/utils/dateUtils.js:46-55 | otherwise it runs from the start's ISO day to the end's, one entry per day |
| DateUtils.DateRangeParses | frontend/src/utils/dateUtils.js:51-52 | entry `i` reads back as the start day plus `i` days |
| GlobalSettings.KindOf | frontend/src/data/GlobalSettingsContext.js:15-31 | an action takes the default branch exactly when its `type` is not one of the seven handled strings |
| GlobalSettings.Spread | frontend/src/data/GlobalSettingsContext.js:21 | spreading an array gives its items, a string its characters, and anything else throws |
| GlobalSettings.SetDateRangeOnlyDates | frontend/src/data/GlobalSettingsContext.js:16-17 | `SET_DATE_RANGE` sets both dates and keeps every other property |
| GlobalSettings.SetOneProperty | frontend/src/data/GlobalSettingsContext.js:18-29 | `SET_BAR_LIMIT` and `SET_PAGE` each set one property and keep the rest |
| GlobalSettings.AddWidgetAppends | frontend/src/data/GlobalSettingsContext.js:20-21 | `ADD_WIDGET` appends the widget after the existing ones, which keep their order |
| GlobalSettings.AddWidgetNeedsList | frontend/src/data/GlobalSettingsContext.js:21 | adding to widgets that cannot be spread throws |
| GlobalSettings.KeepWidgetsThrows | frontend/src/data/GlobalSettingsContext.js:23 | the removal throws exactly when reading some widget's `id` or calling `includes` throws |
| GlobalSettings.KeepWidgetsKeeps | frontend/src/data/GlobalSettingsContext.js:23 | otherwise it keeps exactly the widgets whose id is not listed, in order |
| GlobalSettings.KeepWidgetsAgain | frontend/src/data/GlobalSettingsContext.js:23 | filtering the kept widgets again changes nothing |
| GlobalSettings.RemoveWidgetsIdempotent | frontend/src/data/GlobalSettingsContext.js:22-23 | removing the same ids twice is removing them once |
| GlobalSettings.RemoveWidgetsKeepsUnlisted | frontend/src/data/GlobalSettingsContext.js:22-23 | removal keeps exactly the unlisted widgets and every other property |
| GlobalSettings.ReorderReplaces | frontend/src/data/GlobalSettingsContext.js:24-25 | reordering replaces the list with the action's list and keeps every other property |
| GlobalSettings.LoadSettingsMerges | frontend/src/data/GlobalSettingsContext.js:26-27 | loading is a shallow merge: supplied keys win, the others are kept |
| GlobalSettings.UnknownActionUnchanged | frontend/src/data/GlobalSettingsContext.js:30-31 | any other action type returns the state unchanged |
| GlobalSettings.UpdateWidgetSettingsIgnored | frontend/src/data/GlobalSettingsContext.js:14-33 | `UPDATE_WIDGET_SETTINGS` is not handled, so it changes nothing |
| GlobalSettings.ProjectWidgetsMeaning | frontend/src/data/GlobalSettingsContext.js:64-68 | each saved widget holds exactly the `id`, `type` and `position` of the state's widget |
| GlobalSettings.SnapshotKeys | frontend/src/data/GlobalSettingsContext.js:60-69 | the snapshot holds the two dates, the bar limit and the projected widgets, one per widget, and not the current page |
| QueryUtils.DayEdge | frontend-web/src/utils/queryUtils.js:8 | the time of day set is within the day |
| QueryUtils.FormatDateParamKeepsDay | frontend-web/src/utils/queryUtils.js:6-10 | a valid date keeps its UTC day and moves to its first millisecond, or to 23:59:59.999 for an end date, written as ISO text; it throws `RangeError` only when that instant is out of range |
| QueryUtils.FormatDateParamInvalid | frontend-web/src/utils/queryUtils.js:9 | an invalid date throws |
| QueryUtils.BuildParams | frontend-web/src/utils/queryUtils.js:14-22 | the loop appends the pairs of the specification, or throws its error |
| QueryUtils.ParamsLayout | frontend-web/src/utils/queryUtils.js:16-20 | the supplied parameters come first, in input order; then `startDate` and then `endDate`, each only when passed |
| QueryUtils.UnsuppliedSkipped | frontend-web/src/utils/queryUtils.js:17 | a parameter that is missing or has a falsy value is not sent |
| QueryUtils.CacheKeyInjective | frontend-web/src/utils/queryUtils.js:89 | under one key, two different parameter lists never share a cache key |
| QueryUtils.UrlCarriesParams | frontend-web/src/utils/queryUtils.js:90 | the text after base and route in the URL parses back to the parameter list |
| QueryUtils.CacheHitSkipsFetch | frontend-web/src/utils/queryUtils.js:28-33 | a truthy cache entry is returned and handed to `setDataCache`, without fetching |
| QueryUtils.ErrorGivesEmpty | frontend-web/src/utils/queryUtils.js:46-50 | on any error the result is `[]`, `setDataCache([])` is called when it is a function, and the cache is untouched |
| QueryUtils.WhatFails | frontend-web/src/utils/queryUtils.js:37-40 | a rejected fetch, a failed status, an unparsable body and a throwing row mapping are all errors |
| QueryUtils.StoredThenHit | frontend-web/src/utils/queryUtils.js:28-45 | after a successful fetch with a callback the rows are stored, and the next call under that key returns them without fetching, whatever the network would answer |
| QueryUtils.NonArrayBodyIsEmpty | frontend-web/src/utils/queryUtils.js:40 | a body that is not an array maps to `[]` |
| Throughput.PartCount | frontend/src/components/hooks/throughput/useDataProcessing.js:18-20 | never negative; a non-negative integer is kept, a negative one becomes 0, and `null` or `undefined` becomes 0 |
| Throughput.Percent | frontend/src/components/hooks/throughput/useDataProcessing.js:21 | always within [0, 100], and a value already in that range is kept |
| Throughput.NewRow | frontend/src/components/hooks/throughput/useDataProcessing.js:23-31 | the trimmed station name, non-negative counts, and a yield in [0, 100] |
| Throughput.CountsAsWritten | frontend/src/components/hooks/throughput/useDataProcessing.js:18-27 | non-negative integer counts are copied as written, and the yield is clamped |
| Throughput.NotAnObjectGivesNothing | frontend/src/components/hooks/throughput/useDataProcessing.js:14 | anything falsy or not an object gives no rows |
| Throughput.MissingCountsThrow | frontend/src/components/hooks/throughput/useDataProcessing.js:16-18 | a station whose data is `null` or `undefined` makes the whole call throw, since reading `totalParts` of it fails |
| Throughput.MappedRowsClean | frontend/src/components/hooks/throughput/useDataProcessing.js:17-32 | every mapped row has a trimmed name, non-negative counts and a yield in [0, 100] |
| Throughput.ArrangeKeeps | frontend/src/components/hooks/throughput/useDataProcessing.js:33-51 | a row is in the output exactly when it passes both filters |
| Throughput.RowsAreClean | frontend/src/components/hooks/throughput/useDataProcessing.js:13-51 | every output row has a trimmed non-empty name, at least ten parts and a yield in [0, 100]; without `showRepairStations` no name mentions REPAIR or DEBUG in any case |
| Throughput.OutputIsFilteredRows | frontend/src/components/hooks/throughput/useDataProcessing.js:16-51 | for a call that does not throw, a row is in the output exactly when it is a mapped row with at least ten parts, a non-empty name and, without `showRepairStations`, no REPAIR or DEBUG in its name |
| Throughput.VolumeOrder | frontend/src/components/hooks/throughput/useDataProcessing.js:44-51 | by volume, and for any unlisted `sortBy`, rows come in non-increasing `totalParts` |
| Throughput.UnlistedIsVolume | frontend/src/components/hooks/throughput/useDataProcessing.js:51 | an unlisted `sortBy` sorts exactly as `volume` does |
| Throughput.ArrangeOrdered | frontend/src/components/hooks/throughput/useDataProcessing.js:44-51 | the kept rows come out sorted by the chosen comparator whenever that comparator is a strict weak order |
| Throughput.ArrangeAlphabetical | frontend/src/components/hooks/throughput/useDataProcessing.js:48-51 | alphabetically arranged rows never put a name after one `localeCompare` puts behind it |
| Throughput.AlphabeticalOrder | frontend/src/components/hooks/throughput/useDataProcessing.js:48-51 | the same for the whole call |
| QueryPage.QuoteItem | frontend/src/components/pages/quality/QueryPage.js:62 | an item becomes a quoted string: it starts and ends with a quote and holds no quote between them |
| QueryPage.HandleSubmit | frontend/src/components/pages/quality/QueryPage.js:52-97 | an empty query submits nothing; otherwise the four list passes run in order, then every `{start}` and `{end}` becomes the UTC day of its date, and an invalid date makes the call throw |
| QueryPage.ItemsShape | frontend/src/components/pages/quality/QueryPage.js:58-61 | every list item is non-empty, holds no comma and has no white space at either end |
| QueryPage.FormatListSplitsBack | frontend/src/components/pages/quality/QueryPage.js:58-63 | splitting the formatted list on `,` gives back exactly the quoted items, in order |
| QueryPage.FormatListEmpty | frontend/src/components/pages/quality/QueryPage.js:58-63 | the formatted list is empty exactly when the input has no items |
| QueryPage.BlankInputGivesEmpty | frontend/src/components/pages/quality/QueryPage.js:58-63 | an input of only commas and white space gives no items and an empty list |
| QueryPage.EmptyInputKeepsPlaceholder | frontend/src/components/pages/quality/QueryPage.js:57-65 | an empty optional input skips its pass and leaves the text, placeholder included, unchanged |
| QueryPage.NoInputsKeepQuery | frontend/src/components/pages/quality/QueryPage.js:55-92 | with all four optional inputs empty the list passes leave the query unchanged |
| QueryPage.PassReplacesEveryOccurrence | frontend/src/components/pages/quality/QueryPage.js:64 | a pass cuts the text at every placeholder occurrence, none of the pieces holds the placeholder, and the pieces are rejoined by the list |
| QueryPage.DatesAsCalendarDays | frontend/src/components/pages/quality/QueryPage.js:94-95 | a date within years 0-9999 is written as its ten-character `YYYY-MM-DD` UTC day, the first ten characters of its ISO text |
| PackingOutputWidget.BuildDateRange | frontend/src/components/pagecomp/widget/PackingOutputWidget.jsx:80-97 | the `while (current <= end)` loop returns exactly the label list `DateRange` describes |
| PackingOutputWidget.DateRangeLabels | frontend/src/components/pagecomp/widget/PackingOutputWidget.jsx:80-97 | the list is empty exactly when the start is not `<=` the end (an Invalid Date included); otherwise label `i` is the M/D/YYYY text of the day `i` days after the start |
| PackingOutputWidget.DateRangeInclusive | frontend/src/components/pagecomp/widget/PackingOutputWidget.jsx:80-97 | when the start's time of day is not later than the end's, the list runs from the start day to the end day inclusive, one label per day, and is empty when the start day is after the end day |
| PackingOutputWidget.DateRangeLateStart | frontend/src/components/pagecomp/widget/PackingOutputWidget.jsx:91-94 | when the start's time of day is later than the end's, the list stops the day before the end day |
| PackingOutputWidget.IndexOf | frontend/src/components/pagecomp/widget/PackingOutputWidget.jsx:122 | `indexOf` gives the first position of the name, and -1 exactly when it is not listed |
| PackingOutputWidget.GroupOrderPositions | frontend/src/components/pagecomp/widget/PackingOutputWidget.jsx:104-122 | Tesla SXM4, Tesla SXM5, SXM6 and RED OCTOBER get orders 0 to 3, any other model -1 |
| PackingOutputWidget.SomeDate | frontend/src/components/pagecomp/widget/PackingOutputWidget.jsx:112 | the `some` test throws exactly when there is a date and the part is `null` or `undefined`; otherwise it holds exactly when some date of the range has a value that is neither |
| PackingOutputWidget.ActiveNumbers | frontend/src/components/pagecomp/widget/PackingOutputWidget.jsx:109-114 | the part filter throws exactly when there is a date and some part is nullish; otherwise it gives the numbers of the active parts, in entry order |
| PackingOutputWidget.MakeGroupMeaning | frontend/src/components/pagecomp/widget/PackingOutputWidget.jsx:107-123 | one model's group throws exactly when its part filter does, and is otherwise the group of that model |
| PackingOutputWidget.AllGroupsThrow | frontend/src/components/pagecomp/widget/PackingOutputWidget.jsx:102-140 | mapping the models throws exactly when some model has a nullish part and there is a date |
| PackingOutputWidget.AllGroupsEach | frontend/src/components/pagecomp/widget/PackingOutputWidget.jsx:106-124 | without a throw, the `i`-th mapped group is that of the `i`-th model entry |
| PackingOutputWidget.GroupsMeaning | frontend/src/components/pagecomp/widget/PackingOutputWidget.jsx:100-141 | a throw gives no groups; otherwise a group is shown exactly when it is the group of some model and has an active part |
| PackingOutputWidget.GroupPartsMeaning | frontend/src/components/pagecomp/widget/PackingOutputWidget.jsx:109-115 | a part number is listed under its group exactly when it is the trimmed number of an active part |
| PackingOutputWidget.GroupPartsSorted | frontend/src/components/pagecomp/widget/PackingOutputWidget.jsx:115 | under a consistent `localeCompare` a group's part numbers are in non-decreasing order |
| PackingOutputWidget.GroupPrecedesCases | frontend/src/components/pagecomp/widget/PackingOutputWidget.jsx:126-136 | two listed groups go by position, a listed group comes before an unlisted one, and two unlisted ones go by key |
| PackingOutputWidget.GroupBeforeStrictWeak | frontend/src/components/pagecomp/widget/PackingOutputWidget.jsx:126-136 | under a consistent `localeCompare` the group comparator is a strict weak order, so the sort is well defined |
| PackingOutputWidget.GroupsOrdered | frontend/src/components/pagecomp/widget/PackingOutputWidget.jsx:104-136 | under a consistent `localeCompare` the listed models come first, in list order, and the others follow in key order |
| PackingOutputWidget.ComputeDailyTotals | frontend/src/components/pagecomp/widget/PackingOutputWidget.jsx:144-171 | the `reduce` over the dates returns exactly the totals `DailyTotals` describes, and nothing when a read throws |
| PackingOutputWidget.SumDay | frontend/src/components/pagecomp/widget/PackingOutputWidget.jsx:148-158 | the nested `forEach` loops throw exactly when some part of a model with parts is nullish, and otherwise add up every part's value for the day |
| PackingOutputWidget.DailyTotalsMeaning | frontend/src/components/pagecomp/widget/PackingOutputWidget.jsx:147-163 | when nothing throws, every date of the range has an entry, in range order, holding the sum over all parts of all models, and no other key has one |
| PackingOutputWidget.DailyTotalsThrow | frontend/src/components/pagecomp/widget/PackingOutputWidget.jsx:167-170 | a nullish part empties the totals as soon as there is a date |
| PackingOutputWidget.DaySumZero | frontend/src/components/pagecomp/widget/PackingOutputWidget.jsx:154 | a day without any truthy value sums to zero |
| PackingOutputWidget.DaySumNaN | frontend/src/components/pagecomp/widget/PackingOutputWidget.jsx:154-155 | the day's sum is a number exactly when every part's value converts to one; any other value makes the day `NaN` |
| PackingOutputWidget.ColumnCells | frontend/src/components/pagecomp/widget/PackingOutputWidget.jsx:177-178 | reading a model's column throws exactly when a part is nullish; otherwise there is one cell per part, its value for the date or empty |
| PackingOutputWidget.CopyColumnLines | frontend/src/components/pagecomp/widget/PackingOutputWidget.jsx:176-179 | a model column without line breaks in its values splits back into one line per part, in entry order |
| PackingOutputWidget.CellTextMeaning | frontend/src/components/pagecomp/widget/PackingOutputWidget.jsx:178 | a missing or falsy value is an empty line, and a present string or non-zero number is its text |
| PackingOutputWidget.CopyDailyTotal | frontend/src/components/pagecomp/widget/PackingOutputWidget.jsx:180-181 | the DAILY TOTAL column is the day's total as text, or empty when the day has no entry |
| PackingOutputWidget.CopySortLines | frontend/src/components/pagecomp/widget/PackingOutputWidget.jsx:182-183 | the SORT column is two lines, the 506 value and then the 520 value for the day, each empty when missing or falsy |

## Left out

- Time zones: the host is taken to run in UTC. `date_to_timestamp`, `epochMsLocalMidnight` and `getDateRangeArray` read local fields, and under another zone the day can shift or repeat; local midnight is UTC midnight here.
- The clock: `getInitialStartDate`, the settings reducer's initial state and the downloader's `datetime.now()` read the current time. Today's date and the time stamp are parameters. `normalizeDate` depends only on its argument.
- Numbers: only integers are modelled, plus `NaN`. `Number()` of text reads optionally signed ASCII digits after trimming, and the empty text as 0. Any other numeric syntax (decimals, exponents, hexadecimal, `Infinity`) is `NaN`.
- Floating point: `failureRate` and `impactScore` in the throughput rows, and `toFixed` rounding, are not modelled.
- Throughput.ProcessModelData: the `failureRate` and `impactScore` sort orders are excluded by a precondition, as are the lemmas about the call, because those fields are floating point.
- Throughput.ProcessModelData: `sortMap[sortBy]` also finds names inherited from `Object.prototype` (such as `constructor`). That case is not modelled; an unlisted name sorts by volume.
- Strings are sequences of Unicode characters, not UTF-16 code units. `length` and `slice` of text outside the Basic Multilingual Plane differ.
- `toUpperCase` and `toLowerCase` convert ASCII letters only.
- `localeCompare` is a comparison parameter. Lemmas about sort order require it to be a consistent order; a sort under an inconsistent comparator (for example `NaN` keys) is implementation-defined in JavaScript and is modelled as a stable insertion sort.
- Objects keep insertion order for every key. JavaScript lists integer-like keys first, in numeric order, and that reordering is not modelled.
- QueryPage.HandleSubmit: `$&`, `$'` and the other `$` patterns in a replacement text are taken literally; JavaScript interprets them.
- QueryPage.HandleSubmit: `handleQuery`, the POST request that runs the built query, is not part of this model.
- The query fetchers: `fetchWithCache` is modelled with the cache as a parameter and the fetch as an input. The `parseFloat`/`parseInt` row mappings of the `fetch…Query` wrappers are a mapping parameter. `importQuery` is network I/O.
- QueryUtils.FetchWithCache: a `setDataCache` that throws is not modelled.
- QueryUtils.BuildParams: a truthy date that is not a `Date` (one without `setUTCHours`) is not modelled; dates are valid or invalid `Date` values.
- QueryUtils.FormatDateParamKeepsDay: the time of day is stated in milliseconds of the day (86 399 999 for 23:59:59.999), not as clock fields.
- Exports: `jsonExport`, the Blob and DOM download of `exportSecureCSV` and the XLSX parse and IndexedDB store of `fetchParseStoreWareconn` are not part of this model. The CSV text and the file name are.
- SnfnTransformMap.ParseSnFnData: the source mutates its station map in place. It is modelled on values, so aliasing of the nested entries is not captured.
- SnfnTransformMap.SerialKeyLossy: shows the loss only for a serial number holding `::` or ending in `:`. The matching faithful case is `SerialKeyRoundTrip`; part and model numbers are covered there only.
- SnfnTransformMap.CodesByCount: requires every accepted count to be a number. A `NaN` count makes the JavaScript comparator inconsistent.
- SnfnTransformList.CodesByCount: requires every accepted count to be a number. A `NaN` count makes the JavaScript comparator inconsistent, and the order is then implementation-defined.
- SnfnTransformList.CodeEntries: an error code that is the number `NaN` is never `===` itself, so each such row opens an entry of its own. Counts and serials are stated for the other codes.
- PackingOutputWidget.CopyColumnLines: the clipboard write, `setCopied` and the `setTimeout` reset of `handleCopyColumn` are effects and are left out.
- PackingOutputWidget.BuildDateRange: start and end are `Date` values. `new Date(x)` of a text or number setting is not modelled.
- WareconnDownloader.ParseYmd: reads ASCII digits only. The `\d` of `strptime`'s `%Y`, `%m` and `%d` also matches other Unicode decimal digits (Arabic-Indic digits, for example), which `int()` converts; such text is rejected here.
- WareconnDownloader.PrepareUrl: models `requests`' URL preparation as the base, `?` and the encoded query. `requests` also adds `/` to a base without a path, joins a base that already has a query with `&`, lower-cases the host, keeps a fragment after the query and escapes spaces and non-ASCII characters of the base (`requote_uri`). PrepareUrlShape and RequestOnPlainBase state the simplified form; on the fixed export base (RequestCarriesDateRange) the two agree.
- WareconnDownloader.Respond: a transport error of `session.get` (connection failure, the 60-second timeout), a failing `open(..., "wb")` of the output or debug file (an empty name, or a server file name with a directory part such as `x/y.xlsx`) and an error raised while iterating `iter_content` propagate out of `download_data` in the source. They have no outcome here, and Downloader.DownloadData inherits the gap.
- JsDates.ParseDate: `new Date(text)` is modelled for the date-only forms `YYYY`, `YYYY-MM` and `YYYY-MM-DD` of section 21.4.1.32 of ECMA-262. The date-time forms (`YYYY-MM-DDTHH:mm`, with seconds, milliseconds, `Z` or an offset) and the implementation-defined fallback formats give Invalid Date here.
- FetchWareconn.EpochMsLocalMidnight: inherits the JsDates.ParseDate gap. Date-time text such as `2024-01-05T10:00:00Z` gives `NaN` here, where the source gives that day's midnight.
- DateUtils.ToUtcDateString: inherits the JsDates.ParseDate gap. Date-time text reads as Invalid Date and writes `NaN/NaN/NaN` here. Dates and numbers are modelled.
- SnfnCommon.Row: `fixture_no` and `workstation_name` are texts. Both transforms group on whatever those fields hold; a `null` or a number there is not modelled.
- The downloader's browser automation, interactive login, network probe and sleeps are left out. The HTTP session, the response (final URL, headers, chunks) and the bytes read back from disk are inputs; file writes are outputs.
- GlobalSettings: the load and save effects of the provider, through `localStorage`, are left out. The saved snapshot is modelled.
- React rendering, hooks, charts and the Express back end are not part of this model.

## Findings

| source | as written | input that shows it | evidently intended | confidence | as-written member | corrected member |
|---|---|---|---|---|---|---|
| frontend-web/src/utils/textUtils.js:4 | the suffix is `â€¦`, three characters (the UTF-8 bytes of `…` read as Windows-1252), so a cut text has `maxLength + 2` characters | 76 `a` characters with no `maxLength` come back as 77 characters | the one-character `…`, so a cut text has exactly `maxLength` characters | not executed | TextUtilsWeb.TruncateOverrunsAtDefault | TextUtilsWeb.IntendedNeverLonger |
