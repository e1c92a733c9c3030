/**
 * `encodeURIComponent` (ECMA-262 section 19.2.6.5) and, as its inverse, `decodeURIComponent`
 * (section 19.2.6.3). A Dafny `char` is a Unicode scalar value, so every string here is
 * well formed and the encoder never meets a lone surrogate.
 */
module Uri {
  import opened Wrappers

  /** The characters encodeURIComponent leaves alone: ASCII letters, digits and - _ . ! ~ * ' ( ). */
  predicate Unreserved(c: char) {
    || ('A' <= c <= 'Z') || ('a' <= c <= 'z') || ('0' <= c <= '9')
    || c == '-' || c == '_' || c == '.' || c == '!' || c == '~' || c == '*' || c == '\'' || c == '(' || c == ')'
  }

  const HexDigits: string := "0123456789ABCDEF"

  predicate IsHex(c: char) {
    ('0' <= c <= '9') || ('A' <= c <= 'F') || ('a' <= c <= 'f')
  }

  function HexValue(c: char): (v: nat)
    requires IsHex(c)
    ensures v < 16
  {
    if '0' <= c <= '9' then (c as int - '0' as int) as nat
    else if 'A' <= c <= 'F' then (c as int - 'A' as int + 10) as nat
    else (c as int - 'a' as int + 10) as nat
  }

  /** The UTF-8 encoding of one scalar value (RFC 3629, section 3). */
  function Utf8(c: char): (bytes: seq<nat>)
    ensures 1 <= |bytes| <= 4
    ensures forall i :: 0 <= i < |bytes| ==> bytes[i] < 256
  {
    var v := c as int;
    if v < 0x80 then [v]
    else if v < 0x800 then [0xC0 + v / 0x40, 0x80 + v % 0x40]
    else if v < 0x10000 then [0xE0 + v / 0x1000, 0x80 + (v / 0x40) % 0x40, 0x80 + v % 0x40]
    else [0xF0 + v / 0x40000, 0x80 + (v / 0x1000) % 0x40, 0x80 + (v / 0x40) % 0x40, 0x80 + v % 0x40]
  }

  /** `%XX` with upper-case hexadecimal digits. */
  function PercentByte(b: nat): (e: string)
    requires b < 256
    ensures |e| == 3
  {
    ['%', HexDigits[b / 16], HexDigits[b % 16]]
  }

  function PercentBytes(bytes: seq<nat>): (e: string)
    requires forall i :: 0 <= i < |bytes| ==> bytes[i] < 256
    ensures |e| == 3 * |bytes|
  {
    if bytes == [] then [] else PercentByte(bytes[0]) + PercentBytes(bytes[1..])
  }

  function EncodeChar(c: char): string {
    if Unreserved(c) then [c] else PercentBytes(Utf8(c))
  }

  /** `encodeURIComponent(s)`. */
  function EncodeURIComponent(s: string): (e: string)
    ensures |e| >= |s|
    ensures e == [] <==> s == []
  {
    if s == [] then [] else EncodeChar(s[0]) + EncodeURIComponent(s[1..])
  }

  /** The byte written as `%XX` at position i of e, if there is one. */
  function ReadByte(e: string, i: nat): Option<nat> {
    if i + 3 <= |e| && e[i] == '%' && IsHex(e[i + 1]) && IsHex(e[i + 2]) then
      Some(16 * HexValue(e[i + 1]) + HexValue(e[i + 2]))
    else None
  }

  /** The low six bits of a UTF-8 continuation byte read at position i of e, if there is one. */
  function ReadContinuation(e: string, i: nat): Option<nat> {
    match ReadByte(e, i)
    case Some(b) => if 0x80 <= b < 0xC0 then Some(b - 0x80) else None
    case None => None
  }

  predicate IsScalar(v: int) {
    (0 <= v < 0xD800) || (0xE000 <= v < 0x110000)
  }

  function Prepend(c: char, r: Option<string>): Option<string> {
    match r
    case Some(s) => Some([c] + s)
    case None => None
  }

  /**
   * `decodeURIComponent(e)`: None where it throws URIError (a malformed escape, an invalid
   * or overlong UTF-8 sequence, or a surrogate).
   */
  function DecodeURIComponent(e: string): Option<string>
    decreases |e|
  {
    if e == [] then Some([])
    else if e[0] != '%' then Prepend(e[0], DecodeURIComponent(e[1..]))
    else match ReadByte(e, 0)
      case None => None
      case Some(b0) =>
        if b0 < 0x80 then Prepend(b0 as char, DecodeURIComponent(e[3..]))
        else if 0xC0 <= b0 < 0xE0 then
          match ReadContinuation(e, 3)
          case None => None
          case Some(x1) =>
            var v := (b0 - 0xC0) * 0x40 + x1;
            if 0x80 <= v then Prepend(v as char, DecodeURIComponent(e[6..])) else None
        else if 0xE0 <= b0 < 0xF0 then
          match (ReadContinuation(e, 3), ReadContinuation(e, 6))
          case (Some(x1), Some(x2)) =>
            var v := (b0 - 0xE0) * 0x1000 + x1 * 0x40 + x2;
            if 0x800 <= v && IsScalar(v) then Prepend(v as char, DecodeURIComponent(e[9..])) else None
          case _ => None
        else if 0xF0 <= b0 < 0xF8 then
          match (ReadContinuation(e, 3), ReadContinuation(e, 6), ReadContinuation(e, 9))
          case (Some(x1), Some(x2), Some(x3)) =>
            var v := (b0 - 0xF0) * 0x40000 + x1 * 0x1000 + x2 * 0x40 + x3;
            if 0x10000 <= v < 0x110000 then Prepend(v as char, DecodeURIComponent(e[12..])) else None
          case _ => None
        else None
  }

  // ---------------------------------------------------------------------------
  // Properties.

  lemma HexRoundTrip(d: nat)
    requires d < 16
    ensures IsHex(HexDigits[d]) && HexValue(HexDigits[d]) == d
  {
  }

  /** `%XX` reads back as the byte it encodes. */
  lemma ReadPercentByte(b: nat)
    requires b < 256
    ensures ReadByte(PercentByte(b), 0) == Some(b)
  {
    HexRoundTrip(b / 16);
    HexRoundTrip(b % 16);
  }

  /** ReadByte looks only at the three characters at its position: text after them does not matter. */
  lemma ReadBytePrefix(p: string, q: string, i: nat)
    requires i + 3 <= |p|
    ensures ReadByte(p + q, i) == ReadByte(p, i)
  {
  }

  /** ReadByte looks only at the three characters at its position: text before them does not matter. */
  lemma ReadByteShift(p: string, q: string, i: nat)
    ensures ReadByte(p + q, |p| + i) == ReadByte(q, i)
  {
    if i + 3 <= |q| {
      assert (p + q)[|p| + i + 1] == q[i + 1] && (p + q)[|p| + i + 2] == q[i + 2];
    }
  }

  /** The i-th escape of a percent-encoded byte sequence reads back as the i-th byte. */
  lemma {:induction false} ReadBytesAt(bytes: seq<nat>, rest: string, i: nat)
    requires forall k :: 0 <= k < |bytes| ==> bytes[k] < 256
    requires i < |bytes|
    ensures ReadByte(PercentBytes(bytes) + rest, 3 * i) == Some(bytes[i])
  {
    var head := PercentByte(bytes[0]);
    var tail := PercentBytes(bytes[1..]) + rest;
    assert PercentBytes(bytes) + rest == head + tail;
    if i == 0 {
      ReadBytePrefix(head, tail, 0);
      ReadPercentByte(bytes[0]);
    } else {
      ReadBytesAt(bytes[1..], rest, i - 1);
      ReadByteShift(head, tail, 3 * (i - 1));
    }
  }

  /** Decoding the encoding of one character, followed by anything, yields that character first. */
  lemma DecodeEncodeChar(c: char, rest: string)
    ensures DecodeURIComponent(EncodeChar(c) + rest) == Prepend(c, DecodeURIComponent(rest))
  {
    var v := c as int;
    if Unreserved(c) {
      assert (EncodeChar(c) + rest)[1..] == rest;
    } else if v < 0x80 {
      DecodeOneByte(c, rest);
    } else if v < 0x800 {
      DecodeTwoBytes(c, rest);
    } else if v < 0x10000 {
      DecodeThreeBytes(c, rest);
    } else {
      DecodeFourBytes(c, rest);
    }
  }

  lemma DecodeOneByte(c: char, rest: string)
    requires c as int < 0x80
    ensures DecodeURIComponent(PercentBytes(Utf8(c)) + rest) == Prepend(c, DecodeURIComponent(rest))
  {
    var e := PercentBytes(Utf8(c)) + rest;
    ReadBytesAt(Utf8(c), rest, 0);
    assert e[3..] == rest;
  }

  lemma DecodeTwoBytes(c: char, rest: string)
    requires 0x80 <= c as int < 0x800
    ensures DecodeURIComponent(PercentBytes(Utf8(c)) + rest) == Prepend(c, DecodeURIComponent(rest))
  {
    var v := c as int;
    var bytes := Utf8(c);
    var e := PercentBytes(bytes) + rest;
    ReadBytesAt(bytes, rest, 0);
    ReadBytesAt(bytes, rest, 1);
    ContinuationAt(e, 3, bytes[1]);
    assert e[6..] == rest;
    Digits64Two(v);
    DecodeTwoStep(e, bytes[0], v % 0x40);
  }

  lemma DecodeThreeBytes(c: char, rest: string)
    requires 0x800 <= c as int < 0x10000
    ensures DecodeURIComponent(PercentBytes(Utf8(c)) + rest) == Prepend(c, DecodeURIComponent(rest))
  {
    var v := c as int;
    var bytes := Utf8(c);
    var e := PercentBytes(bytes) + rest;
    ReadBytesAt(bytes, rest, 0);
    ReadBytesAt(bytes, rest, 1);
    ContinuationAt(e, 3, bytes[1]);
    ReadBytesAt(bytes, rest, 2);
    ContinuationAt(e, 6, bytes[2]);
    assert e[9..] == rest;
    Digits64(v, v / 0x1000, (v / 0x40) % 0x40, v % 0x40);
    DecodeThreeStep(e, bytes[0], (v / 0x40) % 0x40, v % 0x40);
  }

  lemma DecodeFourBytes(c: char, rest: string)
    requires 0x10000 <= c as int
    ensures DecodeURIComponent(PercentBytes(Utf8(c)) + rest) == Prepend(c, DecodeURIComponent(rest))
  {
    var v := c as int;
    var bytes := Utf8(c);
    var e := PercentBytes(bytes) + rest;
    ReadBytesAt(bytes, rest, 0);
    ReadBytesAt(bytes, rest, 1);
    ContinuationAt(e, 3, bytes[1]);
    ReadBytesAt(bytes, rest, 2);
    ContinuationAt(e, 6, bytes[2]);
    ReadBytesAt(bytes, rest, 3);
    ContinuationAt(e, 9, bytes[3]);
    assert e[12..] == rest;
    Digits64Four(v);
    DecodeFourStep(e, bytes[0], (v / 0x1000) % 0x40, (v / 0x40) % 0x40, v % 0x40);
  }

  /** One step of the decoder over a two-byte sequence. */
  lemma DecodeTwoStep(e: string, b0: nat, x1: nat)
    requires ReadByte(e, 0) == Some(b0) && 0xC0 <= b0 < 0xE0
    requires ReadContinuation(e, 3) == Some(x1)
    ensures |e| >= 6
    ensures var v := (b0 - 0xC0) * 0x40 + x1;
      DecodeURIComponent(e) == if 0x80 <= v then Prepend(v as char, DecodeURIComponent(e[6..])) else None
  {
  }

  /** One step of the decoder over a three-byte sequence. */
  lemma DecodeThreeStep(e: string, b0: nat, x1: nat, x2: nat)
    requires ReadByte(e, 0) == Some(b0) && 0xE0 <= b0 < 0xF0
    requires ReadContinuation(e, 3) == Some(x1) && ReadContinuation(e, 6) == Some(x2)
    ensures |e| >= 9
    ensures var v := (b0 - 0xE0) * 0x1000 + x1 * 0x40 + x2;
      DecodeURIComponent(e) == if 0x800 <= v && IsScalar(v) then Prepend(v as char, DecodeURIComponent(e[9..])) else None
  {
  }

  /** One step of the decoder over a four-byte sequence. */
  lemma DecodeFourStep(e: string, b0: nat, x1: nat, x2: nat, x3: nat)
    requires ReadByte(e, 0) == Some(b0) && 0xF0 <= b0 < 0xF8
    requires ReadContinuation(e, 3) == Some(x1) && ReadContinuation(e, 6) == Some(x2)
    requires ReadContinuation(e, 9) == Some(x3)
    ensures |e| >= 12
    ensures var v := (b0 - 0xF0) * 0x40000 + x1 * 0x1000 + x2 * 0x40 + x3;
      DecodeURIComponent(e) == if 0x10000 <= v < 0x110000 then Prepend(v as char, DecodeURIComponent(e[12..])) else None
  {
  }

  /** A continuation byte read at position i yields its low six bits. */
  lemma ContinuationAt(e: string, i: nat, b: nat)
    requires ReadByte(e, i) == Some(b) && 0x80 <= b < 0xC0
    ensures ReadContinuation(e, i) == Some(b - 0x80)
  {
  }

  /** Two base-64 digits recompose their value. */
  lemma Digits64Two(v: int)
    requires v >= 0
    ensures (v / 0x40) * 0x40 + v % 0x40 == v
  {
  }

  /** Four base-64 digits, the leading one below 8, recompose a value below 0x200000. */
  lemma Digits64Four(v: int)
    requires v >= 0
    ensures (v / 0x40000) * 0x40000 + ((v / 0x1000) % 0x40) * 0x1000 + ((v / 0x40) % 0x40) * 0x40 + v % 0x40 == v
  {
    Digits64(v / 0x40, v / 0x40000, (v / 0x1000) % 0x40, (v / 0x40) % 0x40);
  }

  /** Base-64 digits: w split into its top part and its last two base-64 digits. */
  lemma Digits64(w: int, top: int, d1: int, d0: int)
    requires w >= 0 && top == w / 0x1000 && d1 == (w / 0x40) % 0x40 && d0 == w % 0x40
    ensures top * 0x1000 + d1 * 0x40 + d0 == w
  {
  }

  /** decodeURIComponent inverts encodeURIComponent. */
  lemma {:induction false} DecodeEncode(s: string)
    ensures DecodeURIComponent(EncodeURIComponent(s)) == Some(s)
  {
    if s != [] {
      DecodeEncodeChar(s[0], EncodeURIComponent(s[1..]));
      DecodeEncode(s[1..]);
      assert [s[0]] + s[1..] == s;
    }
  }

  /** The encoding holds only unreserved characters, `%` and upper-case hexadecimal digits. */
  predicate EncodedChar(c: char) {
    Unreserved(c) || c == '%'
  }

  lemma {:induction false} EncodedAlphabet(s: string)
    ensures forall i :: 0 <= i < |EncodeURIComponent(s)| ==> EncodedChar(EncodeURIComponent(s)[i])
  {
    if s != [] {
      EncodedAlphabet(s[1..]);
      if !Unreserved(s[0]) {
        PercentAlphabet(Utf8(s[0]));
      }
      var e := EncodeURIComponent(s);
      var head := EncodeChar(s[0]);
      forall i | 0 <= i < |e|
        ensures EncodedChar(e[i])
      {
        if i >= |head| {
          assert e[i] == EncodeURIComponent(s[1..])[i - |head|];
        }
      }
    }
  }

  lemma {:induction false} PercentAlphabet(bytes: seq<nat>)
    requires forall i :: 0 <= i < |bytes| ==> bytes[i] < 256
    ensures forall i :: 0 <= i < |PercentBytes(bytes)| ==> EncodedChar(PercentBytes(bytes)[i])
  {
    if bytes != [] {
      PercentAlphabet(bytes[1..]);
      var e := PercentBytes(bytes);
      forall i | 0 <= i < |e|
        ensures EncodedChar(e[i])
      {
        if i >= 3 {
          assert e[i] == PercentBytes(bytes[1..])[i - 3];
        }
      }
    }
  }

  /** In particular the encoding never holds a delimiter of a query string, a space or a plus sign. */
  lemma NoQueryDelimiters(s: string)
    ensures forall i :: 0 <= i < |EncodeURIComponent(s)| ==> EncodeURIComponent(s)[i] !in "&=#+ "
  {
    EncodedAlphabet(s);
    forall c | EncodedChar(c)
      ensures c !in "&=#+ "
    {
    }
  }

  /** `encodeURIComponent("A&B")` is `A%26B`. */
  lemma EncodeExample()
    ensures EncodeURIComponent("A&B") == "A%26B"
  {
    assert EncodeURIComponent("B") == "B";
    assert PercentByte(0x26) == "%26";
    assert EncodeChar('&') == "%26";
    assert EncodeURIComponent("&B") == "%26" + "B";
  }
}
