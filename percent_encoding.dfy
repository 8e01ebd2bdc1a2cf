/**
 * Percent-encoding of text, in the three variants the model needs:
 *
 *  - Python's `urllib.parse.quote_plus` (what `requests` uses for query
 *    parameters), which keeps `A-Z a-z 0-9 _ . - ~`;
 *  - the application/x-www-form-urlencoded serializer of section 5.2 of the
 *    WHATWG URL Standard (`URLSearchParams.prototype.toString`), which keeps
 *    `* - . 0-9 A-Z _ a-z`;
 *  - ECMAScript's `encodeURIComponent` / `decodeURIComponent`
 *    (sections 19.2.6.4 and 19.2.6.5 of ECMA-262).
 *
 * Text is encoded as UTF-8; each byte is kept as its character, written as
 * `+` (a space, in the two form variants) or written as `%XY` with upper-case
 * hexadecimal digits. A form parser in the style of section 5.1 of the WHATWG
 * URL Standard is the reference that both query builders are checked against.
 */
module PercentEncoding {
  import opened Wrappers
  import opened Strings
  import Utf8

  type byte = Utf8.byte

  const HexDigits: string := "0123456789ABCDEF"

  function HexChar(d: int): (c: char)
    requires 0 <= d < 16
    ensures c != '%' && c != '+' && c != '&' && c != '=' && c != ',' && c != ';' && c != '"'
  {
    HexDigits[d]
  }

  function HexValue(c: char): (r: Option<int>)
    ensures r.Some? ==> 0 <= r.value < 16
  {
    if '0' <= c <= '9' then Some(c as int - '0' as int)
    else if 'A' <= c <= 'F' then Some(c as int - 'A' as int + 10)
    else if 'a' <= c <= 'f' then Some(c as int - 'a' as int + 10)
    else None
  }

  lemma HexValueOfHexChar(d: int)
    requires 0 <= d < 16
    ensures HexValue(HexChar(d)) == Some(d)
  {
    assert HexDigits == ['0', '1', '2', '3', '4', '5', '6', '7', '8', '9', 'A', 'B', 'C', 'D', 'E', 'F'];
  }

  /** `%XY`: a byte written as two upper-case hexadecimal digits. */
  function PctByte(b: byte): (r: string)
    ensures |r| == 3 && r[0] == '%'
    ensures r[1] != '%' && r[2] != '%'
  {
    ['%', HexChar(b / 16), HexChar(b % 16)]
  }

  lemma PctByteComma(b: byte)
    ensures PctByte(b) == "%2C" <==> b == 0x2C
  {
    assert HexDigits == ['0', '1', '2', '3', '4', '5', '6', '7', '8', '9', 'A', 'B', 'C', 'D', 'E', 'F'];
    if PctByte(b) == "%2C" {
      assert HexChar(b / 16) == '2' && HexChar(b % 16) == 'C';
      HexValueOfHexChar(b / 16);
      HexValueOfHexChar(b % 16);
    }
  }

  // ---------------------------------------------------------------------------
  // The byte-wise encoder

  /** `keep` keeps only ASCII bytes, and never `%`. */
  ghost predicate KeepsAscii(keep: byte -> bool) {
    forall b: byte :: keep(b) ==> b < 0x80 && b != 0x25
  }

  /** `keep` also leaves the form delimiters `+`, `&` and `=` to be escaped. */
  ghost predicate FormSafe(keep: byte -> bool) {
    KeepsAscii(keep) && !keep(0x2B) && !keep(0x26) && !keep(0x3D)
  }

  /** One byte: kept, `+` for a space when `plus` is set, or `%XY`. */
  function EncodeByte(b: byte, keep: byte -> bool, plus: bool): (r: string)
    ensures 1 <= |r| <= 3
  {
    if keep(b) then [b as char]
    else if plus && b == 0x20 then "+"
    else PctByte(b)
  }

  function EncodeBytes(bs: seq<byte>, keep: byte -> bool, plus: bool): string
    decreases |bs|
  {
    if bs == [] then "" else EncodeByte(bs[0], keep, plus) + EncodeBytes(bs[1..], keep, plus)
  }

  /** Percent-encodes the UTF-8 form of a string. */
  function EncodeText(s: string, keep: byte -> bool, plus: bool): string {
    EncodeBytes(Utf8.Encode(s), keep, plus)
  }

  lemma {:induction false} EncodeBytesAppend(a: seq<byte>, b: seq<byte>, keep: byte -> bool, plus: bool)
    ensures EncodeBytes(a + b, keep, plus) == EncodeBytes(a, keep, plus) + EncodeBytes(b, keep, plus)
    decreases |a|
  {
    if a == [] {
      assert a + b == b;
    } else {
      assert (a + b)[0] == a[0] && (a + b)[1..] == a[1..] + b;
      EncodeBytesAppend(a[1..], b, keep, plus);
    }
  }

  /** Python's `_ALWAYS_SAFE` set: `A-Z a-z 0-9 _ . - ~`. */
  predicate PythonSafe(b: byte) {
    (0x41 <= b <= 0x5A) || (0x61 <= b <= 0x7A) || (0x30 <= b <= 0x39)
    || b == 0x5F || b == 0x2E || b == 0x2D || b == 0x7E
  }

  /** Bytes the WHATWG form serializer leaves alone: `* - . 0-9 A-Z _ a-z`. */
  predicate WhatwgFormSafe(b: byte) {
    b == 0x2A || b == 0x2D || b == 0x2E || (0x30 <= b <= 0x39)
    || (0x41 <= b <= 0x5A) || b == 0x5F || (0x61 <= b <= 0x7A)
  }

  /** The characters `encodeURIComponent` leaves alone: letters, digits and `- _ . ! ~ * ' ( )`. */
  predicate UriUnreserved(b: byte) {
    (0x41 <= b <= 0x5A) || (0x61 <= b <= 0x7A) || (0x30 <= b <= 0x39)
    || b == 0x2D || b == 0x5F || b == 0x2E || b == 0x21 || b == 0x7E
    || b == 0x2A || b == 0x27 || b == 0x28 || b == 0x29
  }

  /** A keep-set extended with the comma. */
  function WithComma(keep: byte -> bool): byte -> bool {
    (b: byte) => keep(b) || b == 0x2C
  }

  lemma KeepSetsAreFormSafe()
    ensures FormSafe(PythonSafe) && FormSafe(WhatwgFormSafe)
    ensures FormSafe(WithComma(PythonSafe))
    ensures KeepsAscii(UriUnreserved)
  {
  }

  /** `urllib.parse.quote_plus(s)`. */
  function QuotePlus(s: string): string {
    EncodeText(s, PythonSafe, true)
  }

  // ---------------------------------------------------------------------------
  // application/x-www-form-urlencoded lists

  /** The name and value of one pair. */
  function EncodePair(p: (string, string), keep: byte -> bool): string {
    EncodeText(p.0, keep, true) + "=" + EncodeText(p.1, keep, true)
  }

  /**
   * `name=value` pieces joined by `&`: `urlencode(pairs)` with the Python
   * keep-set, `new URLSearchParams(pairs).toString()` with the WHATWG one.
   */
  function FormEncode(pairs: seq<(string, string)>, keep: byte -> bool): string
    decreases |pairs|
  {
    if |pairs| == 0 then ""
    else if |pairs| == 1 then EncodePair(pairs[0], keep)
    else EncodePair(pairs[0], keep) + "&" + FormEncode(pairs[1..], keep)
  }

  /**
   * Percent-decoding of one name or value after `+` has been read as a space
   * (section 5.1 of the WHATWG URL Standard). A `%` not followed by two
   * hexadecimal digits is kept. The standard works on the UTF-8 bytes of the
   * text; since `%`, `+` and hexadecimal digits are ASCII and never occur
   * inside a multi-byte sequence, reading character by character is the same.
   */
  function FormDecodeBytes(s: string): seq<byte>
    decreases |s|
  {
    if s == [] then []
    else if s[0] == '%' && |s| >= 3 && HexValue(s[1]).Some? && HexValue(s[2]).Some? then
      [HexValue(s[1]).value * 16 + HexValue(s[2]).value] + FormDecodeBytes(s[3..])
    else if s[0] == '+' then [0x20] + FormDecodeBytes(s[1..])
    else Utf8.EncodeChar(s[0]) + FormDecodeBytes(s[1..])
  }

  /** A name or a value; `None` when the bytes are not UTF-8. */
  function FormDecodeText(s: string): Option<string> {
    Utf8.Decode(FormDecodeBytes(s))
  }

  /** One non-empty piece: split at the first `=`, or all name. */
  function ParsePair(piece: string): Option<(string, string)> {
    var i := IndexOf(piece, '=');
    var name := if i < 0 then piece else piece[..i];
    var value := if i < 0 then "" else piece[i + 1..];
    match (FormDecodeText(name), FormDecodeText(value))
    case (Some(n), Some(v)) => Some((n, v))
    case _ => None
  }

  function ParsePieces(pieces: seq<string>): Option<seq<(string, string)>>
    decreases |pieces|
  {
    if pieces == [] then Some([])
    else if pieces[0] == "" then ParsePieces(pieces[1..])
    else match (ParsePair(pieces[0]), ParsePieces(pieces[1..]))
      case (Some(p), Some(rest)) => Some([p] + rest)
      case _ => None
  }

  /** The form parser: split on `&`, skip empty pieces, decode each pair. */
  function FormDecode(q: string): Option<seq<(string, string)>> {
    ParsePieces(Split(q, "&"))
  }

  // ---------------------------------------------------------------------------
  // Round trip of the form encoding

  lemma FormDecodeEncodeByte(b: byte, rest: string, keep: byte -> bool)
    requires FormSafe(keep)
    ensures FormDecodeBytes(EncodeByte(b, keep, true) + rest) == [b] + FormDecodeBytes(rest)
  {
    var e := EncodeByte(b, keep, true);
    var s := e + rest;
    if keep(b) {
      assert s[0] == b as char && s[1..] == rest;
      assert Utf8.EncodeChar(b as char) == [b];
    } else if b == 0x20 {
      assert s[0] == '+' && s[1..] == rest;
    } else {
      HexValueOfHexChar(b / 16);
      HexValueOfHexChar(b % 16);
      assert s[1] == HexChar(b / 16) && s[2] == HexChar(b % 16);
      assert s[3..] == rest;
    }
  }

  lemma {:induction false} FormDecodeEncodeBytes(bs: seq<byte>, keep: byte -> bool)
    requires FormSafe(keep)
    ensures FormDecodeBytes(EncodeBytes(bs, keep, true)) == bs
    decreases |bs|
  {
    if bs != [] {
      FormDecodeEncodeByte(bs[0], EncodeBytes(bs[1..], keep, true), keep);
      FormDecodeEncodeBytes(bs[1..], keep);
      assert [bs[0]] + bs[1..] == bs;
    }
  }

  /** Decoding an encoded name or value gives it back. */
  lemma FormDecodeEncodeText(s: string, keep: byte -> bool)
    requires FormSafe(keep)
    ensures FormDecodeText(EncodeText(s, keep, true)) == Some(s)
  {
    FormDecodeEncodeBytes(Utf8.Encode(s), keep);
    Utf8.DecodeEncode(s);
  }

  /** The characters an encoding can contain, apart from kept bytes. */
  lemma {:induction false} EncodeBytesAvoids(bs: seq<byte>, keep: byte -> bool, plus: bool, c: char)
    requires c == '&' || c == '=' || c == ',' || c == ';' || c == '"'
    requires !keep(c as int)
    ensures c !in EncodeBytes(bs, keep, plus)
    decreases |bs|
  {
    if bs != [] {
      EncodeBytesAvoids(bs[1..], keep, plus, c);
      var e := EncodeByte(bs[0], keep, plus);
      if keep(bs[0]) {
        assert e == [bs[0] as char];
        assert bs[0] != c as int;
      }
    }
  }

  lemma FormSafeAvoidsDelimiters(s: string, keep: byte -> bool)
    requires FormSafe(keep)
    ensures '&' !in EncodeText(s, keep, true) && '=' !in EncodeText(s, keep, true)
  {
    EncodeBytesAvoids(Utf8.Encode(s), keep, true, '&');
    EncodeBytesAvoids(Utf8.Encode(s), keep, true, '=');
  }

  lemma ParseEncodedPair(p: (string, string), keep: byte -> bool)
    requires FormSafe(keep)
    ensures EncodePair(p, keep) != "" && '&' !in EncodePair(p, keep)
    ensures ParsePair(EncodePair(p, keep)) == Some(p)
  {
    var n := EncodeText(p.0, keep, true);
    var v := EncodeText(p.1, keep, true);
    FormSafeAvoidsDelimiters(p.0, keep);
    FormSafeAvoidsDelimiters(p.1, keep);
    var piece := n + "=" + v;
    assert piece[|n|] == '=';
    assert piece[..|n|] == n;
    var i := IndexOf(piece, '=');
    assert i == |n|;
    assert piece[i + 1..] == v;
    FormDecodeEncodeText(p.0, keep);
    FormDecodeEncodeText(p.1, keep);
  }

  /** Each pair encoded on its own. */
  function EncodePairs(pairs: seq<(string, string)>, keep: byte -> bool): (r: seq<string>)
    ensures |r| == |pairs|
    decreases |pairs|
  {
    if pairs == [] then [] else [EncodePair(pairs[0], keep)] + EncodePairs(pairs[1..], keep)
  }

  /** Splitting an encoded list on `&` gives the encoded pairs. */
  lemma {:induction false} SplitFormEncode(pairs: seq<(string, string)>, keep: byte -> bool)
    requires FormSafe(keep) && |pairs| > 0
    ensures Split(FormEncode(pairs, keep), "&") == EncodePairs(pairs, keep)
    decreases |pairs|
  {
    var e := EncodePair(pairs[0], keep);
    ParseEncodedPair(pairs[0], keep);
    NoCharNoOccurrence(e, '&');
    if |pairs| == 1 {
      SplitWithoutSeparator(e, "&");
    } else {
      SplitFormEncode(pairs[1..], keep);
      SplitEncodeStep(pairs, keep);
    }
  }

  lemma SplitEncodeStep(pairs: seq<(string, string)>, keep: byte -> bool)
    requires FormSafe(keep) && |pairs| > 1
    requires Split(FormEncode(pairs[1..], keep), "&") == EncodePairs(pairs[1..], keep)
    ensures Split(FormEncode(pairs, keep), "&") == EncodePairs(pairs, keep)
  {
    var e := EncodePair(pairs[0], keep);
    ParseEncodedPair(pairs[0], keep);
    SplitAfterPiece(e, FormEncode(pairs[1..], keep));
  }

  /** A piece without `&` followed by `&` splits off as the first piece. */
  lemma SplitAfterPiece(e: string, rest: string)
    requires '&' !in e
    ensures Split(e + "&" + rest, "&") == [e] + Split(rest, "&")
  {
    var x := e + "&" + rest;
    forall i | 0 <= i < |e|
      ensures !OccursAt(x, "&", i)
    {
      assert x[i..i + 1] == [e[i]];
    }
    SplitAtFirstOccurrence(e, "&", rest);
  }

  lemma {:induction false} ParseEncodedPieces(pairs: seq<(string, string)>, keep: byte -> bool)
    requires FormSafe(keep)
    ensures ParsePieces(EncodePairs(pairs, keep)) == Some(pairs)
    decreases |pairs|
  {
    if pairs != [] {
      ParseEncodedPieces(pairs[1..], keep);
      ParseEncodedHead(pairs, keep);
    }
  }

  /** The first encoded pair parses in front of the rest. */
  lemma ParseEncodedHead(pairs: seq<(string, string)>, keep: byte -> bool)
    requires FormSafe(keep) && pairs != []
    requires ParsePieces(EncodePairs(pairs[1..], keep)) == Some(pairs[1..])
    ensures ParsePieces(EncodePairs(pairs, keep)) == Some(pairs)
  {
    ParseEncodedPair(pairs[0], keep);
    assert EncodePairs(pairs, keep)[1..] == EncodePairs(pairs[1..], keep);
    ParsePiecesFront(EncodePairs(pairs, keep), pairs);
  }

  /** A non-empty first piece that parses, in front of pieces that parse. */
  lemma ParsePiecesFront(pieces: seq<string>, ps: seq<(string, string)>)
    requires pieces != [] && ps != [] && pieces[0] != ""
    requires ParsePair(pieces[0]) == Some(ps[0]) && ParsePieces(pieces[1..]) == Some(ps[1..])
    ensures ParsePieces(pieces) == Some(ps)
  {
    assert [ps[0]] + ps[1..] == ps;
  }

  /** The form parser recovers every list the serializer writes. */
  lemma FormRoundTrip(pairs: seq<(string, string)>, keep: byte -> bool)
    requires FormSafe(keep)
    ensures FormDecode(FormEncode(pairs, keep)) == Some(pairs)
  {
    if pairs == [] {
      assert Split("", "&") == [""];
    } else {
      SplitFormEncode(pairs, keep);
      ParseEncodedPieces(pairs, keep);
    }
  }

  /** So the serializer is injective. */
  lemma FormEncodeInjective(a: seq<(string, string)>, b: seq<(string, string)>, keep: byte -> bool)
    requires FormSafe(keep) && FormEncode(a, keep) == FormEncode(b, keep)
    ensures a == b
  {
    FormRoundTrip(a, keep);
    FormRoundTrip(b, keep);
  }

  // ---------------------------------------------------------------------------
  // Turning `%2C` back into `,`

  /** Every `%` starts a complete `%XY` triple. */
  predicate PctComplete(s: string) {
    forall k | 0 <= k < |s| && s[k] == '%' :: k + 2 < |s|
  }

  /** `s.replace("%2C", ",")` in Python. */
  function UnescapeCommas(s: string): string {
    ReplaceAll(s, "%2C", ",")
  }

  lemma UnescapeConcat(a: string, b: string)
    requires PctComplete(a)
    ensures UnescapeCommas(a + b) == UnescapeCommas(a) + UnescapeCommas(b)
  {
    ReplaceAllConcat(a, b, "%2C", ",");
  }

  lemma PctCompleteConcat(a: string, b: string)
    requires PctComplete(a) && PctComplete(b)
    ensures PctComplete(a + b)
  {
    forall k | 0 <= k < |a + b| && (a + b)[k] == '%'
      ensures k + 2 < |a + b|
    {
      if k >= |a| {
        assert b[k - |a|] == '%';
      }
    }
  }

  lemma {:induction false} UnescapeEncodeBytes(bs: seq<byte>, keep: byte -> bool, plus: bool)
    requires KeepsAscii(keep)
    ensures PctComplete(EncodeBytes(bs, keep, plus))
    ensures UnescapeCommas(EncodeBytes(bs, keep, plus)) == EncodeBytes(bs, WithComma(keep), plus)
    decreases |bs|
  {
    if bs != [] {
      var b := bs[0];
      var e := EncodeByte(b, keep, plus);
      var rest := EncodeBytes(bs[1..], keep, plus);
      UnescapeEncodeBytes(bs[1..], keep, plus);
      assert PctComplete(e);
      PctCompleteConcat(e, rest);
      UnescapeConcat(e, rest);
      if keep(b) || (plus && b == 0x20) {
        assert UnescapeCommas(e) == e;
      } else {
        PctByteComma(b);
        if b == 0x2C {
          assert e == "%2C";
          assert UnescapeCommas(e) == "," + UnescapeCommas("");
        } else {
          assert e[..3] != "%2C";
          assert UnescapeCommas(e) == [e[0]] + UnescapeCommas(e[1..]);
        }
      }
    }
  }

  lemma UnescapeEncodeText(s: string, keep: byte -> bool)
    requires KeepsAscii(keep)
    ensures PctComplete(EncodeText(s, keep, true))
    ensures UnescapeCommas(EncodeText(s, keep, true)) == EncodeText(s, WithComma(keep), true)
  {
    UnescapeEncodeBytes(Utf8.Encode(s), keep, true);
  }

  /** Unescaping commas distributes over a join by one character other than `%`. */
  lemma UnescapeJoin(a: string, c: char, b: string)
    requires PctComplete(a) && PctComplete(b) && c != '%'
    ensures PctComplete(a + [c] + b)
    ensures UnescapeCommas(a + [c] + b) == UnescapeCommas(a) + [c] + UnescapeCommas(b)
  {
    assert PctComplete([c]);
    PctCompleteConcat(a, [c]);
    PctCompleteConcat(a + [c], b);
    assert a + [c] + b == a + ([c] + b);
    UnescapeConcat(a, [c] + b);
    UnescapeConcat([c], b);
    ReplaceAllShort([c], "%2C", ",");
  }

  lemma UnescapeEncodePair(p: (string, string), keep: byte -> bool)
    requires KeepsAscii(keep)
    ensures PctComplete(EncodePair(p, keep))
    ensures UnescapeCommas(EncodePair(p, keep)) == EncodePair(p, WithComma(keep))
  {
    UnescapeEncodeText(p.0, keep);
    UnescapeEncodeText(p.1, keep);
    UnescapeJoin(EncodeText(p.0, keep, true), '=', EncodeText(p.1, keep, true));
  }

  /**
   * Unescaping the commas of an encoded list is the same as encoding it with
   * the comma added to the keep-set.
   */
  lemma {:induction false} UnescapeFormEncode(pairs: seq<(string, string)>, keep: byte -> bool)
    requires KeepsAscii(keep)
    ensures PctComplete(FormEncode(pairs, keep))
    ensures UnescapeCommas(FormEncode(pairs, keep)) == FormEncode(pairs, WithComma(keep))
    decreases |pairs|
  {
    if pairs != [] {
      var e := EncodePair(pairs[0], keep);
      UnescapeEncodePair(pairs[0], keep);
      if |pairs| > 1 {
        UnescapeFormEncode(pairs[1..], keep);
        UnescapeJoin(e, '&', FormEncode(pairs[1..], keep));
      }
    }
  }

  /** `s.replace("%2C", ",")` never leaves a `%2C` behind, whatever `s` is. */
  lemma UnescapeLeavesNoEscapedComma(s: string)
    ensures !Contains(UnescapeCommas(s), "%2C")
  {
    assert "%2C"[1..] == "2C";
    ReplaceAllLeavesNone(s, "%2C", ",");
  }

  /** The WHATWG serializer writes every comma as `%2C`. */
  lemma WhatwgFormHasNoComma(pairs: seq<(string, string)>)
    ensures ',' !in FormEncode(pairs, WhatwgFormSafe)
    decreases |pairs|
  {
    if pairs != [] {
      EncodeBytesAvoids(Utf8.Encode(pairs[0].0), WhatwgFormSafe, true, ',');
      EncodeBytesAvoids(Utf8.Encode(pairs[0].1), WhatwgFormSafe, true, ',');
      if |pairs| > 1 {
        WhatwgFormHasNoComma(pairs[1..]);
      }
    }
  }

  // ---------------------------------------------------------------------------
  // encodeURIComponent / decodeURIComponent

  /** `encodeURIComponent(s)`. */
  function EncodeUriComponent(s: string): string {
    EncodeText(s, UriUnreserved, false)
  }

  /** The byte written as `%XY` at the front of `s`, if any. */
  function PctAt(s: string): (r: Option<byte>)
  {
    if |s| >= 3 && s[0] == '%' && HexValue(s[1]).Some? && HexValue(s[2]).Some? then
      Some(HexValue(s[1]).value * 16 + HexValue(s[2]).value)
    else None
  }

  /** `n` consecutive `%XY` escapes at the front of `s`. */
  function PctRun(s: string, n: nat): (r: Option<seq<byte>>)
    ensures r.Some? ==> |r.value| == n && 3 * n <= |s|
    decreases n
  {
    if n == 0 then Some([])
    else match PctAt(s)
      case None => None
      case Some(b) =>
        match PctRun(s[3..], n - 1)
        case None => None
        case Some(rest) => Some([b] + rest)
  }

  /**
   * `decodeURIComponent(s)`, following the Decode operation of ECMA-262
   * (section 19.2.6.5) with an empty reserved set; `None` where it throws
   * `URIError`.
   */
  function DecodeUriComponent(s: string): Option<string>
    decreases |s|
  {
    if s == [] then Some([])
    else if s[0] != '%' then
      match DecodeUriComponent(s[1..])
      case None => None
      case Some(rest) => Some([s[0]] + rest)
    else
      match PctAt(s)
      case None => None
      case Some(b0) =>
        var k := Utf8.LeadLength(b0);
        if k == 0 then None
        else match PctRun(s, k)
          case None => None
          case Some(bytes) =>
            match Utf8.DecodeFirst(bytes)
            case None => None
            case Some((c, _)) =>
              match DecodeUriComponent(s[3 * k..])
              case None => None
              case Some(rest) => Some([c] + rest)
  }

  /** Text without `%` decodes to itself. */
  lemma {:induction false} DecodeWithoutPercent(s: string)
    requires '%' !in s
    ensures DecodeUriComponent(s) == Some(s)
    decreases |s|
  {
    if s != [] {
      assert s[0] in s;
      assert forall k | 0 <= k < |s[1..]| :: s[1..][k] == s[k + 1];
      DecodeWithoutPercent(s[1..]);
      assert [s[0]] + s[1..] == s;
    }
  }

  lemma PctAtPctByte(b: byte, rest: string)
    ensures PctAt(PctByte(b) + rest) == Some(b)
    ensures (PctByte(b) + rest)[3..] == rest
  {
    HexValueOfHexChar(b / 16);
    HexValueOfHexChar(b % 16);
  }

  lemma {:induction false} EscapesOnly(bs: seq<byte>)
    requires forall i | 0 <= i < |bs| :: !UriUnreserved(bs[i])
    ensures EncodeBytes(bs, UriUnreserved, false) == PctBytes(bs)
    decreases |bs|
  {
    if bs != [] {
      EscapesOnly(bs[1..]);
    }
  }

  lemma {:induction false} PctRunOfEscapes(bs: seq<byte>, rest: string)
    ensures PctRun(PctBytes(bs) + rest, |bs|) == Some(bs)
    ensures (PctBytes(bs) + rest)[3 * |bs|..] == rest
    decreases |bs|
  {
    if bs != [] {
      PctRunOfEscapes(bs[1..], rest);
      EscapeAtFront(bs, rest);
      PctRunFront(PctBytes(bs) + rest, bs);
      SliceAfterEscape(PctBytes(bs) + rest, PctBytes(bs[1..]) + rest, rest, |bs| - 1);
    }
  }

  lemma EscapeAtFront(bs: seq<byte>, rest: string)
    requires bs != []
    ensures PctAt(PctBytes(bs) + rest) == Some(bs[0])
    ensures (PctBytes(bs) + rest)[3..] == PctBytes(bs[1..]) + rest
  {
    PctBytesCons(bs, rest);
    PctAtPctByte(bs[0], PctBytes(bs[1..]) + rest);
  }

  lemma PctBytesCons(bs: seq<byte>, rest: string)
    requires bs != []
    ensures PctBytes(bs) + rest == PctByte(bs[0]) + (PctBytes(bs[1..]) + rest)
  {
  }

  lemma SliceAfterEscape(s: string, tail: string, rest: string, k: nat)
    requires |s| >= 3 && s[3..] == tail && 3 * k <= |tail| && tail[3 * k..] == rest
    ensures s[3 * (k + 1)..] == rest
  {
    assert s[3 * (k + 1)..] == s[3..][3 * k..];
  }

  lemma PctRunFront(s: string, bs: seq<byte>)
    requires bs != [] && PctAt(s) == Some(bs[0]) && PctRun(s[3..], |bs| - 1) == Some(bs[1..])
    ensures PctRun(s, |bs|) == Some(bs)
  {
    assert [bs[0]] + bs[1..] == bs;
  }

  /** Every byte written as `%XY`. */
  function PctBytes(bs: seq<byte>): (r: string)
    ensures |r| == 3 * |bs|
    decreases |bs|
  {
    if bs == [] then "" else PctByte(bs[0]) + PctBytes(bs[1..])
  }

  /** The decoder's answer once the front character is known. */
  function PrependTo(c: char, r: Option<string>): Option<string> {
    match r
    case None => None
    case Some(t) => Some([c] + t)
  }

  lemma DecodeUriKeptChar(c: char, rest: string)
    requires c as int < 0x80 && UriUnreserved(c as int)
    ensures DecodeUriComponent([c] + rest) == PrependTo(c, DecodeUriComponent(rest))
  {
    assert ([c] + rest)[1..] == rest;
  }

  lemma DecodeUriAsciiEscape(b: byte, rest: string)
    requires b < 0x80
    ensures DecodeUriComponent(PctByte(b) + rest) == PrependTo(b as char, DecodeUriComponent(rest))
  {
    var one: seq<byte> := [b];
    var s := PctByte(b) + rest;
    PctAtPctByte(b, rest);
    assert PctAt(s) == Some(b);
    assert PctRun(s[3..], 0) == Some([]);
    assert PctRun(s, 1) == Some([b] + []);
    assert [b] + [] == one;
    assert Utf8.LeadLength(one[0]) == 1;
    var expected: Option<(char, nat)> := Some((b as char, 1));
    assert Utf8.DecodeFirst(one) == expected;
  }

  lemma DecodeUriMultiByte(c: char, rest: string)
    requires c as int >= 0x80
    ensures DecodeUriComponent(PctBytes(Utf8.EncodeChar(c)) + rest) == PrependTo(c, DecodeUriComponent(rest))
  {
    var bytes := Utf8.EncodeChar(c);
    var s := PctBytes(bytes) + rest;
    Utf8.LeadLengthOfEncodeChar(c);
    PctRunOfEscapes(bytes, rest);
    PctAtPctByte(bytes[0], PctBytes(bytes[1..]) + rest);
    assert s == PctByte(bytes[0]) + (PctBytes(bytes[1..]) + rest);
    assert s[0] == '%';
    Utf8.DecodeFirstEncodeChar(c, []);
    assert bytes + [] == bytes;
  }

  lemma DecodeUriEncodeChar(c: char, rest: string)
    ensures DecodeUriComponent(EncodeBytes(Utf8.EncodeChar(c), UriUnreserved, false) + rest)
      == PrependTo(c, DecodeUriComponent(rest))
  {
    var bytes := Utf8.EncodeChar(c);
    var e := EncodeBytes(bytes, UriUnreserved, false);
    if |bytes| == 1 {
      var b := bytes[0];
      assert bytes == [b] && bytes[1..] == [];
      assert EncodeBytes(bytes[1..], UriUnreserved, false) == "";
      assert e == EncodeByte(b, UriUnreserved, false);
      if UriUnreserved(b) {
        DecodeUriKeptChar(c, rest);
      } else {
        DecodeUriAsciiEscape(b, rest);
      }
    } else {
      EscapesOnly(bytes);
      DecodeUriMultiByte(c, rest);
    }
  }

  /** `decodeURIComponent(encodeURIComponent(s)) === s`. */
  lemma {:induction false} DecodeEncodeUriComponent(s: string)
    ensures DecodeUriComponent(EncodeUriComponent(s)) == Some(s)
    decreases |s|
  {
    if s != [] {
      var e := EncodeBytes(Utf8.EncodeChar(s[0]), UriUnreserved, false);
      var rest := EncodeUriComponent(s[1..]);
      EncodeBytesAppend(Utf8.EncodeChar(s[0]), Utf8.Encode(s[1..]), UriUnreserved, false);
      assert EncodeUriComponent(s) == e + rest;
      DecodeUriEncodeChar(s[0], rest);
      DecodeEncodeUriComponent(s[1..]);
      assert [s[0]] + s[1..] == s;
    }
  }
}
