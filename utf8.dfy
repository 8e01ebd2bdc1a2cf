/**
 * UTF-8 as defined by RFC 3629: the encoding of Unicode scalar values into
 * one to four bytes, and the strict decoder that rejects overlong forms,
 * surrogates and values above U+10FFFF.
 */
module Utf8 {
  import opened Wrappers

  type byte = b: int | 0 <= b < 256

  /** A Unicode scalar value: a code point that is not a surrogate. */
  predicate IsScalar(n: int) {
    (0 <= n < 0xD800) || (0xE000 <= n < 0x11_0000)
  }

  /** Section 3 of RFC 3629: the one-to-four byte form of a character. */
  function EncodeChar(c: char): (r: seq<byte>)
    ensures 1 <= |r| <= 4
    ensures |r| == 1 <==> c as int < 0x80
    ensures |r| == 1 ==> r[0] == c as int
    ensures |r| > 1 ==> forall i | 0 <= i < |r| :: r[i] >= 0x80
  {
    var n := c as int;
    if n < 0x80 then [n]
    else if n < 0x800 then [0xC0 + n / 64, 0x80 + n % 64]
    else if n < 0x1_0000 then [0xE0 + n / 4096, 0x80 + (n / 64) % 64, 0x80 + n % 64]
    else [0xF0 + n / 262144, 0x80 + (n / 4096) % 64, 0x80 + (n / 64) % 64, 0x80 + n % 64]
  }

  /** The UTF-8 encoding of a string. */
  function Encode(s: string): (r: seq<byte>)
    ensures |r| >= |s|
    decreases |s|
  {
    if s == [] then [] else EncodeChar(s[0]) + Encode(s[1..])
  }

  /** The sequence length announced by a lead byte, or 0 when it cannot lead. */
  function LeadLength(b: byte): (k: int)
    ensures 0 <= k <= 4
  {
    if b < 0x80 then 1
    else if 0xC0 <= b < 0xE0 then 2
    else if 0xE0 <= b < 0xF0 then 3
    else if 0xF0 <= b < 0xF8 then 4
    else 0
  }

  predicate IsContinuation(b: byte) {
    0x80 <= b < 0xC0
  }

  /** The smallest scalar value that needs `k` bytes. */
  function MinValue(k: int): int {
    if k == 2 then 0x80 else if k == 3 then 0x800 else 0x1_0000
  }

  /** The value carried by the payload bits of a multi-byte sequence. */
  function PayloadValue(b: seq<byte>): int
    requires 2 <= |b| <= 4
  {
    var b0, b1 := b[0] as int, b[1] as int;
    if |b| == 2 then (b0 - 0xC0) * 64 + (b1 - 0x80)
    else if |b| == 3 then (b0 - 0xE0) * 4096 + (b1 - 0x80) * 64 + (b[2] as int - 0x80)
    else (b0 - 0xF0) * 262144 + (b1 - 0x80) * 4096 + (b[2] as int - 0x80) * 64 + (b[3] as int - 0x80)
  }

  /**
   * Decodes the character at the front of `b`, returning it with the number
   * of bytes it used; `None` for an ill-formed sequence (the table in
   * section 4 of RFC 3629).
   */
  function DecodeFirst(b: seq<byte>): (r: Option<(char, nat)>)
    ensures r.Some? ==> 1 <= r.value.1 <= |b| && r.value.1 == LeadLength(b[0])
  {
    if |b| == 0 then None
    else
      var k := LeadLength(b[0]);
      if k == 0 || |b| < k then None
      else if k == 1 then Some((b[0] as char, 1))
      else if !(forall i | 1 <= i < k :: IsContinuation(b[i])) then None
      else
        var n := PayloadValue(b[..k]);
        if n < MinValue(k) || !IsScalar(n) then None
        else Some((n as char, k))
  }

  /** Strict UTF-8 decoding of a whole byte sequence. */
  function Decode(b: seq<byte>): Option<string>
    decreases |b|
  {
    if b == [] then Some([])
    else match DecodeFirst(b)
      case None => None
      case Some((c, k)) =>
        match Decode(b[k..])
        case None => None
        case Some(rest) => Some([c] + rest)
  }

  lemma DivModRecompose(n: int)
    requires 0 <= n
    ensures n / 4096 * 4096 + (n / 64) % 64 * 64 + n % 64 == n
    ensures n / 262144 * 262144 + (n / 4096) % 64 * 4096 + (n / 64) % 64 * 64 + n % 64 == n
  {
    assert n == n / 64 * 64 + n % 64;
    assert n / 64 == n / 64 / 64 * 64 + (n / 64) % 64;
    assert n / 64 / 64 == n / 4096;
    assert n / 4096 == n / 4096 / 64 * 64 + (n / 4096) % 64;
    assert n / 4096 / 64 == n / 262144;
  }

  /** Decoding the encoding of a character gives it back, whatever follows. */
  lemma DecodeFirstEncodeChar(c: char, rest: seq<byte>)
    ensures DecodeFirst(EncodeChar(c) + rest) == Some((c, |EncodeChar(c)|))
  {
    var e := EncodeChar(c);
    LeadLengthOfEncodeChar(c);
    if |e| > 1 {
      PayloadOfEncodeChar(c);
      PrefixOfAppend(e, rest);
      ContinuationsOfAppend(e, rest);
    }
  }

  lemma PrefixOfAppend(e: seq<byte>, rest: seq<byte>)
    ensures (e + rest)[..|e|] == e
  {
  }

  lemma ContinuationsOfAppend(e: seq<byte>, rest: seq<byte>)
    requires forall i | 1 <= i < |e| :: IsContinuation(e[i])
    ensures forall i | 1 <= i < |e| :: IsContinuation((e + rest)[i])
  {
  }

  /** The payload bits of a multi-byte encoding carry the character's value. */
  lemma PayloadOfEncodeChar(c: char)
    requires |EncodeChar(c)| > 1
    ensures PayloadValue(EncodeChar(c)) == c as int
    ensures MinValue(|EncodeChar(c)|) <= c as int
  {
    var n := c as int;
    DivModRecompose(n);
  }

  /** Decoding the encoding of a string gives it back. */
  lemma {:induction false} DecodeEncode(s: string)
    ensures Decode(Encode(s)) == Some(s)
    decreases |s|
  {
    if s != [] {
      var e := EncodeChar(s[0]);
      DecodeFirstEncodeChar(s[0], Encode(s[1..]));
      assert (e + Encode(s[1..]))[|e|..] == Encode(s[1..]);
      DecodeEncode(s[1..]);
      assert [s[0]] + s[1..] == s;
    }
  }

  /** The lead byte of an encoded character announces the encoding's length. */
  lemma LeadLengthOfEncodeChar(c: char)
    ensures LeadLength(EncodeChar(c)[0]) == |EncodeChar(c)|
    ensures forall i | 1 <= i < |EncodeChar(c)| :: IsContinuation(EncodeChar(c)[i])
  {
    var n := c as int;
    if n < 0x80 {
    } else if n < 0x800 {
      assert n / 64 < 32;
    } else if n < 0x1_0000 {
      assert n / 4096 < 16;
    } else {
      assert n / 262144 < 8;
    }
  }

  /** Characters below U+0080 are their own single byte. */
  predicate IsAscii(s: string) {
    forall i | 0 <= i < |s| :: s[i] as int < 0x80
  }

  /** Encoding splits over concatenation. */
  lemma {:induction false} EncodeAppend(a: string, b: string)
    ensures Encode(a + b) == Encode(a) + Encode(b)
    decreases |a|
  {
    if a != [] {
      assert (a + b)[0] == a[0] && (a + b)[1..] == a[1..] + b;
      EncodeAppend(a[1..], b);
      assert Encode(a + b) == EncodeChar(a[0]) + Encode(a[1..] + b);
    } else {
      assert a + b == b;
    }
  }

  /** An ASCII string encodes to the sequence of its character codes. */
  lemma {:induction false} EncodeAscii(s: string)
    requires IsAscii(s)
    ensures |Encode(s)| == |s|
    ensures forall i | 0 <= i < |s| :: Encode(s)[i] == s[i] as int
    decreases |s|
  {
    if s != [] {
      EncodeAscii(s[1..]);
    }
  }
}
