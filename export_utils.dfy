/**
 * frontend/src/utils/exportUtils.js: CSV export with formula-injection
 * prefixing, RFC 4180 quoting (section 2, rules 6 and 7), a blacklist of
 * script-like cell contents and a filename sanitiser. The Blob and DOM
 * download steps are I/O; `ExportSecureCsv` returns the file text and name.
 */
module ExportUtils {
  import opened Wrappers
  import opened Strings
  import opened JsValues
  import opened Sorting
  import opened Sequences

  // ---------------------------------------------------------------------------
  // Cells

  /** Characters `stripPrefix` removes from the front: U+FEFF, U+200B and `\s`. */
  predicate IsPrefixJunk(c: char) {
    IsJsSpace(c) || c == '\U{200B}'
  }

  /** `String(s).replace(/^[\uFEFF\u200B\s]+/, '')` on a string. */
  function StripPrefix(s: string): (r: string)
    ensures |r| <= |s| && r == s[|s| - |r|..]
    ensures |r| > 0 ==> !IsPrefixJunk(r[0])
    ensures forall i | 0 <= i < |s| - |r| :: IsPrefixJunk(s[i])
    decreases |s|
  {
    if |s| > 0 && IsPrefixJunk(s[0]) then
      var r := StripPrefix(s[1..]);
      assert forall i | 0 <= i < |s| - |r| :: IsPrefixJunk(s[i]) by {
        forall i | 1 <= i < |s| - |r| ensures IsPrefixJunk(s[i]) {
          assert s[i] == s[1..][i - 1];
        }
      }
      r
    else s
  }

  /** `/^[=+\-@]/`: a spreadsheet would read the text as a formula. */
  predicate IsFormulaStart(c: char) {
    c == '=' || c == '+' || c == '-' || c == '@'
  }

  predicate LooksLikeFormula(s: string) {
    var t := StripPrefix(s);
    |t| > 0 && IsFormulaStart(t[0])
  }

  /** The formula guard: a `'` in front of text that would start a formula. */
  function Defuse(s: string): (r: string)
    ensures LooksLikeFormula(s) ==> r == "'" + s
    ensures !LooksLikeFormula(s) ==> r == s
  {
    if LooksLikeFormula(s) then "'" + s else s
  }

  /** Quoting is needed when the text holds `"`, `,` or a line feed. */
  predicate NeedsQuotes(s: string) {
    '"' in s || ',' in s || '\n' in s
  }

  /** `"` + the text with every `"` doubled + `"`. */
  function Quote(s: string): (r: string)
    ensures |r| >= 2 && r[0] == '"' && r[|r| - 1] == '"'
  {
    ReplaceAllChar(s, '"', "\"\"");
    "\"" + ReplaceAll(s, "\"", "\"\"") + "\""
  }

  /** `sanitizeCSVCell(value)`. */
  function SanitizeCsvCell(value: Value): (r: string)
    ensures IsNullish(value) ==> r == ""
    ensures !IsNullish(value) && !NeedsQuotes(Defuse(ToText(value))) ==> r == Defuse(ToText(value))
    ensures !IsNullish(value) && NeedsQuotes(Defuse(ToText(value))) ==> r == Quote(Defuse(ToText(value)))
  {
    if IsNullish(value) then ""
    else
      var cell := Defuse(ToText(value));
      if NeedsQuotes(cell) then Quote(cell) else cell
  }

  // ---------------------------------------------------------------------------
  // Reading a field back (RFC 4180, section 2, rules 5-7)

  /**
   * The rest of a quoted field after its opening quote: `""` stands for one
   * quote, and a single `"` must close the field at its very end.
   */
  function ReadQuoted(t: string): (r: Option<string>)
    decreases |t|
  {
    if t == [] then None
    else if t[0] != '"' then
      match ReadQuoted(t[1..])
      case None => None
      case Some(u) => Some([t[0]] + u)
    else if |t| == 1 then Some("")
    else if t[1] == '"' then
      match ReadQuoted(t[2..])
      case None => None
      case Some(u) => Some("\"" + u)
    else None
  }

  /** The text a CSV reader takes from one field. */
  function ReadField(f: string): Option<string> {
    if |f| > 0 && f[0] == '"' then ReadQuoted(f[1..]) else Some(f)
  }

  lemma {:induction false} ReadQuotedDoubled(p: string)
    ensures ReadQuoted(ReplaceChar(p, '"', "\"\"") + "\"") == Some(p)
    decreases |p|
  {
    if p != [] {
      var rest := ReplaceChar(p[1..], '"', "\"\"") + "\"";
      ReadQuotedDoubled(p[1..]);
      if p[0] == '"' {
        assert ReplaceChar(p, '"', "\"\"") + "\"" == "\"\"" + rest;
        assert ("\"\"" + rest)[2..] == rest;
      } else {
        assert ReplaceChar(p, '"', "\"\"") + "\"" == [p[0]] + rest;
        assert ([p[0]] + rest)[1..] == rest;
      }
      assert [p[0]] + p[1..] == p;
    }
  }

  /** A quoted field reads back as the text it quotes. */
  lemma ReadQuote(p: string)
    ensures ReadField(Quote(p)) == Some(p)
  {
    ReplaceAllChar(p, '"', "\"\"");
    var body := ReplaceChar(p, '"', "\"\"") + "\"";
    assert Quote(p) == "\"" + body;
    assert Quote(p)[1..] == body;
    ReadQuotedDoubled(p);
  }

  /**
   * The round trip of a cell: a CSV reader gets back exactly the cell's
   * text, with a `'` in front when the text would start a formula.
   */
  lemma CellReadsBack(value: Value)
    requires !IsNullish(value)
    ensures ReadField(SanitizeCsvCell(value)) == Some(Defuse(ToText(value)))
  {
    var cell := Defuse(ToText(value));
    if NeedsQuotes(cell) {
      ReadQuote(cell);
    } else {
      assert |cell| > 0 ==> cell[0] != '"';
    }
  }

  /**
   * What a reader gets back never starts a formula: the guard's `'` is not
   * a prefix character, so the guarded text begins with it even after
   * stripping.
   */
  lemma DefusedStartsWithQuote(s: string)
    requires LooksLikeFormula(s)
    ensures StripPrefix(Defuse(s)) == Defuse(s) && !LooksLikeFormula(Defuse(s))
  {
    var d := "'" + s;
    assert d[0] == '\'' && !IsPrefixJunk('\'');
    assert StripPrefix(d) == d;
    assert !IsFormulaStart(d[0]);
  }

  // ---------------------------------------------------------------------------
  // Rows

  /** The eight patterns, all ASCII, matched case-insensitively. */
  const SuspiciousPatterns: seq<string> := [
    "cmd", "powershell", "javascript:", "data:text/html",
    "vbscript:", "<script", "document.cookie", "window.location"
  ]

  /**
   * `suspiciousPatterns.some(p => p.test(cellStr))`. For an ASCII
   * pattern, matching under `/i` is matching the ASCII-lowercased text.
   */
  predicate Suspicious(cellStr: string) {
    exists k | 0 <= k < |SuspiciousPatterns| :: Contains(ToLowerAscii(cellStr), SuspiciousPatterns[k])
  }

  const Placeholder: string := "[CONTENT_SANITIZED]"

  /** One data cell: the placeholder if suspicious, else the escaped cell. */
  function CleanCell(cell: Value): (r: string)
    ensures Suspicious(ToText(cell)) ==> r == Placeholder
    ensures !Suspicious(ToText(cell)) ==> r == SanitizeCsvCell(cell)
  {
    if Suspicious(ToText(cell)) then Placeholder else SanitizeCsvCell(cell)
  }

  function CleanRow(row: seq<Value>): (r: seq<string>)
    ensures |r| == |row| && forall i | 0 <= i < |row| :: r[i] == CleanCell(row[i])
  {
    seq(|row|, i requires 0 <= i < |row| => CleanCell(row[i]))
  }

  /** `row => Array.isArray(row) && row.length > 0`. */
  predicate KeepRow(row: Value) {
    row.Arr? && |row.items| > 0
  }

  /** The rows `filter` keeps, in order. */
  function KeptRows(data: seq<Value>): (rows: seq<seq<Value>>)
    ensures |rows| <= |data|
    ensures forall k | 0 <= k < |rows| :: |rows[k]| > 0 && Arr(rows[k]) in data
    decreases |data|
  {
    if data == [] then []
    else
      var rest := KeptRows(data[1..]);
      if KeepRow(data[0]) then [data[0].items] + rest else rest
  }

  /** Filtering works row by row: it keeps the order of what survives. */
  lemma {:induction false} KeptRowsConcat(a: seq<Value>, b: seq<Value>)
    ensures KeptRows(a + b) == KeptRows(a) + KeptRows(b)
    decreases |a|
  {
    if a == [] {
      assert a + b == b;
    } else {
      assert (a + b)[1..] == a[1..] + b;
      KeptRowsConcat(a[1..], b);
    }
  }

  /** A single row is kept exactly when it is a non-empty array. */
  lemma KeptRowsSingle(row: Value)
    ensures KeptRows([row]) == if KeepRow(row) then [row.items] else []
  {
  }

  /** `validateExportData(data)`. */
  function ValidateExportData(data: seq<Value>): (r: seq<seq<string>>)
    ensures |r| == |KeptRows(data)|
    ensures forall k | 0 <= k < |r| :: r[k] == CleanRow(KeptRows(data)[k])
  {
    var rows := KeptRows(data);
    seq(|rows|, k requires 0 <= k < |rows| => CleanRow(rows[k]))
  }

  // ---------------------------------------------------------------------------
  // File names

  /** `\w`: ASCII letters, digits and `_`. */
  predicate IsWordChar(c: char) {
    ('a' <= c <= 'z') || ('A' <= c <= 'Z') || ('0' <= c <= '9') || c == '_'
  }

  /** The characters a sanitised file name may hold: `[A-Za-z0-9_.-]`. */
  predicate IsSafeNameChar(c: char) {
    IsWordChar(c) || c == '.' || c == '-'
  }

  /** `.replace(/[^\w\s.-]/gi, '_')`. */
  function ReplaceSpecial(s: string): (r: string)
    ensures |r| == |s|
    ensures forall i | 0 <= i < |s| :: IsSafeNameChar(s[i]) || IsJsSpace(s[i]) ==> r[i] == s[i]
    ensures forall i | 0 <= i < |s| :: !(IsSafeNameChar(s[i]) || IsJsSpace(s[i])) ==> r[i] == '_'
    ensures forall i | 0 <= i < |r| :: IsSafeNameChar(r[i]) || IsJsSpace(r[i])
  {
    seq(|s|, i requires 0 <= i < |s| => if IsSafeNameChar(s[i]) || IsJsSpace(s[i]) then s[i] else '_')
  }

  predicate IsUnderscore(c: char) {
    c == '_'
  }

  predicate NotUnderscore(c: char) {
    c != '_'
  }

  /** Neither white space nor `_`: the characters the two run rewrites keep as they are. */
  predicate IsNameLetter(c: char) {
    !IsJsSpace(c) && c != '_'
  }

  /**
   * Read left to right: each maximal run of characters passing `p` is
   * written as one `_`, every other character is copied; `inRun` says the
   * character before `s` passed `p`.
   */
  function CollapseRuns(s: string, p: char -> bool, inRun: bool): string
    decreases |s|
  {
    if s == [] then []
    else if p(s[0]) then (if inRun then "" else "_") + CollapseRuns(s[1..], p, true)
    else [s[0]] + CollapseRuns(s[1..], p, false)
  }

  /** The first character of `s` writes its piece, and the rest follows. */
  lemma CollapseCons(s: string, p: char -> bool, inRun: bool)
    requires s != []
    ensures CollapseRuns(s, p, inRun) == (if p(s[0]) then (if inRun then "" else "_") else [s[0]]) + CollapseRuns(s[1..], p, p(s[0]))
  {
  }

  /** Deleting `_` from the collapsed text leaves the characters that pass neither `p` nor `c == '_'`. */
  lemma {:induction false} CollapseKeepsLetters(s: string, p: char -> bool, q: char -> bool, inRun: bool)
    requires forall c :: q(c) == (!p(c) && c != '_')
    ensures Filter(CollapseRuns(s, p, inRun), NotUnderscore) == Filter(s, q)
    decreases |s|
  {
    if s != [] {
      var c, t := s[0], s[1..];
      var rest := CollapseRuns(t, p, p(c));
      var piece := if p(c) then (if inRun then "" else "_") else [c];
      assert CollapseRuns(s, p, inRun) == piece + rest;
      assert s == [c] + t;
      CollapseKeepsLetters(t, p, q, p(c));
      FilterConcat(piece, rest, NotUnderscore);
      FilterConcat([c], t, q);
      assert Filter(piece, NotUnderscore) == Filter([c], q) by {
        FilterSnoc([], c, q);
        FilterSnoc([], c, NotUnderscore);
        FilterSnoc([], '_', NotUnderscore);
      }
    }
  }

  /**
   * `.replace(/\s+/g, '_')`: each maximal run of white space becomes one
   * `_`; the other characters, `_` among them, stay where they are.
   */
  function SpacesToUnderscore(s: string): (r: string)
    requires forall i | 0 <= i < |s| :: IsSafeNameChar(s[i]) || IsJsSpace(s[i])
    ensures r == CollapseRuns(s, IsJsSpace, false)
    ensures Filter(r, NotUnderscore) == Filter(s, IsNameLetter)
    ensures forall i | 0 <= i < |r| :: IsSafeNameChar(r[i])
    ensures |r| <= |s|
    decreases |s|
  {
    CollapseKeepsLetters(s, IsJsSpace, IsNameLetter, false);
    if s == [] then []
    else if IsJsSpace(s[0]) then
      var t := TrimStart(s[1..]);
      assert forall i | 0 <= i < |t| :: IsSafeNameChar(t[i]) || IsJsSpace(t[i]) by {
        assert forall i | 0 <= i < |t| :: t[i] == s[|s| - |t| + i];
      }
      SpacesStep(s);
      SafeCons('_', SpacesToUnderscore(t));
      "_" + SpacesToUnderscore(t)
    else
      SpacesStep(s);
      SafeCons(s[0], SpacesToUnderscore(s[1..]));
      [s[0]] + SpacesToUnderscore(s[1..])
  }

  /** One step of the run collapse on white space: a run writes one `_`, any other character stays. */
  lemma SpacesStep(s: string)
    requires s != []
    ensures IsJsSpace(s[0]) ==> CollapseRuns(s, IsJsSpace, false) == "_" + CollapseRuns(TrimStart(s[1..]), IsJsSpace, false)
    ensures !IsJsSpace(s[0]) ==> CollapseRuns(s, IsJsSpace, false) == [s[0]] + CollapseRuns(s[1..], IsJsSpace, false)
  {
    CollapseCons(s, IsJsSpace, false);
    TrimStartRun(s[1..]);
  }

  lemma SafeCons(c: char, u: string)
    requires IsSafeNameChar(c) && forall i | 0 <= i < |u| :: IsSafeNameChar(u[i])
    ensures forall i | 0 <= i < |[c] + u| :: IsSafeNameChar(([c] + u)[i])
  {
  }

  /** A run of white space that continues writes nothing until the run ends. */
  lemma {:induction false} TrimStartRun(s: string)
    ensures CollapseRuns(s, IsJsSpace, true) == CollapseRuns(TrimStart(s), IsJsSpace, false)
    decreases |s|
  {
    if |s| > 0 && IsJsSpace(s[0]) {
      TrimStartRun(s[1..]);
    }
  }

  /** No two underscores in a row. */
  predicate NoDoubleUnderscore(s: string) {
    forall i | 0 <= i < |s| - 1 :: !(s[i] == '_' && s[i + 1] == '_')
  }

  /**
   * `.replace(/_{2,}/g, '_')`: each run of two or more underscores becomes
   * one; a lone underscore and every other character stay where they are.
   */
  function SqueezeUnderscores(s: string): (r: string)
    ensures r == CollapseRuns(s, IsUnderscore, false)
    ensures Filter(r, NotUnderscore) == Filter(s, NotUnderscore)
    ensures '_' in r <==> '_' in s
    ensures NoDoubleUnderscore(r)
    ensures |r| <= |s|
    ensures |s| > 0 ==> |r| > 0 && r[0] == s[0]
    ensures forall c | c !in s :: c !in r
    decreases |s|
  {
    CollapseKeepsLetters(s, IsUnderscore, NotUnderscore, false);
    if |s| <= 1 then s
    else if s[0] == '_' && s[1] == '_' then
      SqueezeStep(s);
      SqueezeUnderscores(s[1..])
    else
      var t := SqueezeUnderscores(s[1..]);
      SqueezeStep(s);
      NoDoubleCons(s[0], t);
      [s[0]] + t
  }

  /** One step of the run collapse on `_`: the first of two `_` goes, any other character stays. */
  lemma SqueezeStep(s: string)
    requires |s| > 1
    ensures s[0] == '_' && s[1] == '_' ==> CollapseRuns(s, IsUnderscore, false) == CollapseRuns(s[1..], IsUnderscore, false)
    ensures !(s[0] == '_' && s[1] == '_') ==> CollapseRuns(s, IsUnderscore, false) == [s[0]] + CollapseRuns(s[1..], IsUnderscore, false)
  {
    var t := s[1..];
    CollapseCons(s, IsUnderscore, false);
    CollapseCons(t, IsUnderscore, true);
    CollapseCons(t, IsUnderscore, false);
    if s[0] == '_' {
      assert IsUnderscore(s[0]);
      if t[0] == '_' {
        assert CollapseRuns(t, IsUnderscore, true) == CollapseRuns(t[1..], IsUnderscore, true);
        assert CollapseRuns(t, IsUnderscore, false) == "_" + CollapseRuns(t[1..], IsUnderscore, true);
      } else {
        assert CollapseRuns(t, IsUnderscore, true) == CollapseRuns(t, IsUnderscore, false);
      }
    }
  }

  lemma NoDoubleCons(c: char, t: string)
    requires NoDoubleUnderscore(t) && (c == '_' && |t| > 0 ==> t[0] != '_')
    ensures NoDoubleUnderscore([c] + t)
  {
    assert forall i | 1 <= i < |t| :: ([c] + t)[i] == t[i - 1] && ([c] + t)[i + 1] == t[i];
  }

  /** `sanitizeFilename(filename)`. */
  function SanitizeFilename(filename: string): (r: string)
    ensures |r| <= 255
    ensures forall i | 0 <= i < |r| :: IsSafeNameChar(r[i])
    ensures NoDoubleUnderscore(r)
  {
    var a := ReplaceSpecial(filename);
    var b := SpacesToUnderscore(a);
    var c := SqueezeUnderscores(b);
    assert forall i | 0 <= i < |c| :: c[i] in b;
    var d := if |c| > 255 then c[..255] else c;
    assert forall i | 0 <= i < |d| :: d[i] == c[i];
    d
  }

  /** A name that is already safe passes through unchanged. */
  lemma {:induction false} SafeNameUnchanged(s: string)
    requires |s| <= 255 && NoDoubleUnderscore(s)
    requires forall i | 0 <= i < |s| :: IsSafeNameChar(s[i])
    ensures SanitizeFilename(s) == s
  {
    assert ReplaceSpecial(s) == s;
    NoSpacesUnchanged(s);
    SqueezeNoDouble(s);
  }

  lemma {:induction false} NoSpacesUnchanged(s: string)
    requires forall i | 0 <= i < |s| :: IsSafeNameChar(s[i])
    ensures SpacesToUnderscore(s) == s
    decreases |s|
  {
    if s != [] {
      var c, t := s[0], s[1..];
      assert IsSafeNameChar(c);
      assert !IsJsSpace(c);
      assert forall i | 0 <= i < |t| :: t[i] == s[i + 1];
      NoSpacesUnchanged(t);
      assert SpacesToUnderscore(s) == [c] + SpacesToUnderscore(t);
    }
  }

  lemma {:induction false} SqueezeNoDouble(s: string)
    requires NoDoubleUnderscore(s)
    ensures SqueezeUnderscores(s) == s
    decreases |s|
  {
    if |s| > 1 {
      SqueezeNoDouble(s[1..]);
    }
  }

  /** ASCII lowercasing of a safe name is exactly `toLowerCase`. */
  function DownloadName(filename: string): (r: string)
    ensures forall i | 0 <= i < |r| :: IsSafeNameChar(r[i])
    ensures EndsWith(ToLowerAscii(r), ".csv")
    ensures EndsWith(ToLowerAscii(SanitizeFilename(filename)), ".csv") ==> r == SanitizeFilename(filename)
    ensures !EndsWith(ToLowerAscii(SanitizeFilename(filename)), ".csv") ==> r == SanitizeFilename(filename) + ".csv"
  {
    if EndsWith(ToLowerAscii(SanitizeFilename(filename)), ".csv") then SanitizeFilename(filename)
    else
      CsvSuffixed(SanitizeFilename(filename));
      SanitizeFilename(filename) + ".csv"
  }

  /** Appending `.csv` keeps the name safe and makes it end in `.csv`, in any case. */
  lemma CsvSuffixed(safe: string)
    requires forall i | 0 <= i < |safe| :: IsSafeNameChar(safe[i])
    ensures forall i | 0 <= i < |safe + ".csv"| :: IsSafeNameChar((safe + ".csv")[i])
    ensures EndsWith(ToLowerAscii(safe + ".csv"), ".csv")
  {
    assert ToLowerAscii(safe + ".csv")[|safe + ".csv"| - 4..] == ".csv";
  }

  // ---------------------------------------------------------------------------
  // The file

  const Bom: char := '\U{FEFF}'

  /** The CSV lines: the escaped header row, then the validated data rows. */
  function CsvRows(data: seq<Value>, headers: seq<Value>): (rows: seq<seq<string>>)
    ensures |rows| == 1 + |KeptRows(data)|
    ensures rows[0] == seq(|headers|, i requires 0 <= i < |headers| => SanitizeCsvCell(headers[i]))
    ensures rows[1..] == ValidateExportData(data)
  {
    [seq(|headers|, i requires 0 <= i < |headers| => SanitizeCsvCell(headers[i]))] + ValidateExportData(data)
  }

  function Lines(rows: seq<seq<string>>): (ls: seq<string>)
    ensures |ls| == |rows| && forall k | 0 <= k < |rows| :: ls[k] == Join(rows[k], ",")
  {
    seq(|rows|, k requires 0 <= k < |rows| => Join(rows[k], ","))
  }

  /** `exportSecureCSV(data, headers, filename)`: the file's text and download name. */
  function ExportSecureCsv(data: seq<Value>, headers: seq<Value>, filename: string): (r: (string, string))
    ensures |r.0| > 0 && r.0[0] == Bom
    ensures r.0[1..] == Join(Lines(CsvRows(data, headers)), "\n")
    ensures r.1 == DownloadName(filename)
  {
    ([Bom] + Join(Lines(CsvRows(data, headers)), "\n"), DownloadName(filename))
  }

  /** Lines whose cells hold no line feed come back apart when the text is split at line feeds. */
  lemma LinesSplitBack(data: seq<Value>, headers: seq<Value>, filename: string)
    requires forall k, i | 0 <= k < |CsvRows(data, headers)| && 0 <= i < |CsvRows(data, headers)[k]| :: '\n' !in CsvRows(data, headers)[k][i]
    ensures Split(ExportSecureCsv(data, headers, filename).0[1..], "\n") == Lines(CsvRows(data, headers))
  {
    var rows := CsvRows(data, headers);
    var ls := Lines(rows);
    forall k | 0 <= k < |ls| ensures '\n' !in ls[k] {
      JoinAvoids(rows[k], ",", '\n');
    }
    SplitJoinOfPieces(ls, '\n');
  }

  lemma {:induction false} JoinAvoids(parts: seq<string>, sep: string, c: char)
    requires c !in sep && forall i | 0 <= i < |parts| :: c !in parts[i]
    ensures c !in Join(parts, sep)
    decreases |parts|
  {
    if |parts| > 1 {
      JoinAvoids(parts[1..], sep, c);
    }
  }

  /** Cells that needed no quoting come back apart when a line is split at commas. */
  lemma CellsSplitBack(row: seq<string>)
    requires |row| > 0 && forall i | 0 <= i < |row| :: ',' !in row[i]
    ensures Split(Join(row, ","), ",") == row
  {
    SplitJoinOfPieces(row, ',');
  }
}
