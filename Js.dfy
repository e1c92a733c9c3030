/**
 * The slice of JavaScript semantics the route handlers rely on: JSON request values,
 * truthiness, `Number(...)` coercion, `String.prototype.trim`, and the decimal
 * rendering of integers inside template literals.
 */
module Js {
  import opened Wrappers

  /** A value read from a parsed JSON request body; `Undefined` is a field the body lacks. */
  datatype JsValue =
    | Undefined
    | Null
    | Bool(b: bool)
    | Num(n: real)
    | Str(s: string)
    | Arr(elems: seq<JsValue>)
    | Obj

  /** ToBoolean of ECMA-262 section 7.1.2: the falsy values are undefined, null, false, 0 and "". */
  predicate Truthy(v: JsValue) {
    match v
    case Undefined => false
    case Null => false
    case Bool(b) => b
    case Num(n) => n != 0.0
    case Str(s) => s != ""
    case Arr(_) => true
    case Obj => true
  }

  /** A truthy string: present and non-empty. */
  predicate TruthyString(v: Option<string>) {
    v.Some? && v.value != ""
  }

  /** `process.env[name]`: undefined when the variable is not set. */
  function EnvGet(env: map<string, string>, name: string): (r: Option<string>)
    ensures r.Some? <==> name in env
    ensures r.Some? ==> r.value == env[name]
  {
    if name in env then Some(env[name]) else None
  }

  /**
   * The length of s in UTF-16 code units, which is what JavaScript's `length` counts:
   * characters beyond the Basic Multilingual Plane take two.
   */
  function Utf16Length(s: string): nat {
    if s == [] then 0 else (if s[0] as int >= 0x10000 then 2 else 1) + Utf16Length(s[1..])
  }

  /** A JavaScript number as `Number(...)` can produce it from a JSON value. */
  datatype JsNumber = NaN | Finite(value: real)

  /** `Number.isInteger(x)`. */
  predicate IsInteger(x: JsNumber) {
    x.Finite? && x.value.Floor as real == x.value
  }

  // ---------------------------------------------------------------------------
  // Whitespace and trim.

  /**
   * WhiteSpace and LineTerminator of ECMA-262 (sections 12.2 and 12.3): tab, vertical tab,
   * form feed, space, no-break space, the byte order mark, the Unicode space separators,
   * line feed, carriage return, and the line and paragraph separators.
   */
  predicate IsWhiteSpace(c: char) {
    || c == '\t' || c == '\n' || c == '\U{000B}' || c == '\U{000C}' || c == '\r' || c == ' '
    || c == '\U{00A0}' || c == '\U{1680}' || ('\U{2000}' <= c <= '\U{200A}')
    || c == '\U{2028}' || c == '\U{2029}' || c == '\U{202F}' || c == '\U{205F}'
    || c == '\U{3000}' || c == '\U{FEFF}'
  }

  predicate AllWhiteSpace(s: string) {
    forall i :: 0 <= i < |s| ==> IsWhiteSpace(s[i])
  }

  /** The number of white-space characters at the start of s. */
  function LeadingWhiteSpace(s: string): (n: nat)
    ensures n <= |s|
    ensures AllWhiteSpace(s[..n])
    ensures n < |s| ==> !IsWhiteSpace(s[n])
  {
    if |s| == 0 || !IsWhiteSpace(s[0]) then 0
    else
      var n := 1 + LeadingWhiteSpace(s[1..]);
      assert s[..n] == [s[0]] + s[1..][..n - 1];
      n
  }

  /** The number of white-space characters at the end of s. */
  function TrailingWhiteSpace(s: string): (n: nat)
    ensures n <= |s|
    ensures AllWhiteSpace(s[|s| - n..])
    ensures n < |s| ==> !IsWhiteSpace(s[|s| - n - 1])
  {
    if |s| == 0 || !IsWhiteSpace(s[|s| - 1]) then 0
    else
      var n := 1 + TrailingWhiteSpace(s[..|s| - 1]);
      assert s[|s| - n..] == s[..|s| - 1][|s| - n..] + [s[|s| - 1]];
      n
  }

  /** `s.trim()`: s without its leading and trailing white space. */
  function Trim(s: string): (r: string)
    ensures |r| <= |s|
    ensures r != [] ==> !IsWhiteSpace(r[0]) && !IsWhiteSpace(r[|r| - 1])
  {
    var t := s[LeadingWhiteSpace(s)..];
    t[..|t| - TrailingWhiteSpace(t)]
  }

  /**
   * Trim cuts s into white space, a middle that starts and ends with a non-white-space
   * character, and white space again.
   */
  lemma TrimSplits(s: string)
    ensures exists i, j :: 0 <= i <= j <= |s| && Trim(s) == s[i..j]
                           && AllWhiteSpace(s[..i]) && AllWhiteSpace(s[j..])
    ensures Trim(s) != [] ==> !IsWhiteSpace(Trim(s)[0]) && !IsWhiteSpace(Trim(s)[|Trim(s)| - 1])
  {
    var i := LeadingWhiteSpace(s);
    var t := s[i..];
    var m := TrailingWhiteSpace(t);
    var j := i + |t| - m;
    assert Trim(s) == s[i..j];
    assert s[j..] == t[|t| - m..];
  }

  /** Trim leaves nothing exactly when s is all white space. */
  lemma TrimEmptyIff(s: string)
    ensures Trim(s) == [] <==> AllWhiteSpace(s)
  {
    var i := LeadingWhiteSpace(s);
    var t := s[i..];
    var m := TrailingWhiteSpace(t);
    if Trim(s) == [] {
      assert i == |s|;
      assert s[..i] == s;
    } else {
      TrimSplits(s);
      var r := Trim(s);
      var i', j' :| 0 <= i' <= j' <= |s| && r == s[i'..j'];
      assert s[i'] == r[0];
    }
  }

  /** A string that starts and ends with non-white-space characters is its own trim. */
  lemma TrimOfTrimmed(s: string)
    requires s == [] || (!IsWhiteSpace(s[0]) && !IsWhiteSpace(s[|s| - 1]))
    ensures Trim(s) == s
  {
  }

  /** Trim is idempotent. */
  lemma TrimIdempotent(s: string)
    ensures Trim(Trim(s)) == Trim(s)
  {
    TrimSplits(s);
    TrimOfTrimmed(Trim(s));
  }

  // ---------------------------------------------------------------------------
  // Decimal digits.

  predicate IsDigit(c: char) {
    '0' <= c <= '9'
  }

  predicate AllDigits(s: string) {
    forall i :: 0 <= i < |s| ==> IsDigit(s[i])
  }

  function DigitValue(c: char): nat
    requires IsDigit(c)
  {
    (c as int - '0' as int) as nat
  }

  function DigitChar(d: nat): (c: char)
    requires d < 10
    ensures IsDigit(c) && DigitValue(c) == d
  {
    ('0' as int + d) as char
  }

  /** The value of a string of decimal digits, most significant first. */
  function DigitsValue(s: string): nat
    requires AllDigits(s)
  {
    if s == [] then 0 else 10 * DigitsValue(s[..|s| - 1]) + DigitValue(s[|s| - 1])
  }

  function Pow10(k: nat): (p: nat)
    ensures p >= 1
  {
    if k == 0 then 1 else 10 * Pow10(k - 1)
  }

  /** The shortest decimal rendering of n (`${n}` for a non-negative integer). */
  function NatToString(n: nat): (s: string)
    ensures |s| >= 1 && AllDigits(s)
    ensures |s| > 1 ==> s[0] != '0'
    ensures DigitsValue(s) == n
  {
    if n < 10 then [DigitChar(n)]
    else
      var s := NatToString(n / 10) + [DigitChar(n % 10)];
      assert s[..|s| - 1] == NatToString(n / 10);
      s
  }

  /** `${i}` for an integer i. */
  function IntToString(i: int): (s: string)
    ensures |s| >= 1
    ensures i >= 0 ==> AllDigits(s) && DigitsValue(s) == i
    ensures i < 0 ==> s[0] == '-' && AllDigits(s[1..]) && DigitsValue(s[1..]) == -i
  {
    if i < 0 then
      var s := "-" + NatToString(-i);
      assert s[1..] == NatToString(-i);
      s
    else NatToString(i)
  }

  // ---------------------------------------------------------------------------
  // Number(...).

  /**
   * StringToNumber of ECMA-262 section 7.1.4.1.1, for trimmed text of the form
   * [sign] digits [. digits] or [sign] . digits; any other text is NaN.
   */
  function DecimalLiteralValue(t: string): JsNumber {
    if |t| > 0 && (t[0] == '+' || t[0] == '-') then
      match UnsignedDecimalValue(t[1..])
      case NaN => NaN
      case Finite(x) => Finite(if t[0] == '-' then -x else x)
    else UnsignedDecimalValue(t)
  }

  function UnsignedDecimalValue(u: string): JsNumber {
    if '.' in u then
      var i := IndexOfDot(u);
      var whole, fraction := u[..i], u[i + 1..];
      if AllDigits(whole) && AllDigits(fraction) && |whole| + |fraction| >= 1 then
        Finite(DigitsValue(whole) as real + DigitsValue(fraction) as real / Pow10(|fraction|) as real)
      else NaN
    else if AllDigits(u) && |u| >= 1 then Finite(DigitsValue(u) as real)
    else NaN
  }

  function IndexOfDot(u: string): (i: nat)
    requires '.' in u
    ensures i < |u| && u[i] == '.' && '.' !in u[..i]
  {
    if u[0] == '.' then 0
    else
      var i := 1 + IndexOfDot(u[1..]);
      assert u[..i] == [u[0]] + u[1..][..i - 1];
      i
  }

  /** `Number(s)` for a string: white space around the literal is ignored and empty text is 0. */
  function StringToNumber(s: string): JsNumber {
    var t := Trim(s);
    if t == "" then Finite(0.0) else DecimalLiteralValue(t)
  }

  /**
   * `Number(v)` for a JSON value (ToNumber of ECMA-262 section 7.1.4). An array becomes
   * the string of its elements joined by commas: empty gives 0, a single element is
   * converted through its own string, and two or more elements give NaN.
   */
  function ToNumber(v: JsValue): (r: JsNumber)
    ensures v.Undefined? ==> r == NaN
    ensures v == Null || v == Bool(false) || v == Str("") || v == Arr([]) ==> r == Finite(0.0)
    ensures v == Bool(true) ==> r == Finite(1.0)
  {
    match v
    case Undefined => NaN
    case Null => Finite(0.0)
    case Bool(b) => Finite(if b then 1.0 else 0.0)
    case Num(n) => Finite(n)
    case Str(s) => StringToNumber(s)
    case Arr(elems) =>
      if |elems| == 0 then Finite(0.0)
      else if |elems| == 1 then
        match elems[0]
        case Undefined => Finite(0.0)
        case Null => Finite(0.0)
        case Bool(_) => NaN
        case _ => ToNumber(elems[0])
      else NaN
    case Obj => NaN
  }

  /** `Number` reads back the decimal rendering of every natural number, surrounding white space and all. */
  lemma NumberOfNatToString(n: nat, pre: string, post: string)
    requires AllWhiteSpace(pre) && AllWhiteSpace(post)
    ensures ToNumber(Str(pre + NatToString(n) + post)) == Finite(n as real)
  {
    var d := NatToString(n);
    TrimExact(pre, d, post);
    assert '.' !in d;
    assert UnsignedDecimalValue(d) == Finite(n as real);
    assert d[0] != '+' && d[0] != '-' by {
      assert IsDigit(d[0]);
    }
  }

  /** `Number(String(n))` is n for every natural number n. */
  lemma NumberOfNat(n: nat)
    ensures ToNumber(Str(NatToString(n))) == Finite(n as real)
  {
    NumberOfNatToString(n, [], []);
    assert [] + NatToString(n) + [] == NatToString(n);
  }

  /** White space before a non-white-space character is exactly the leading white space. */
  lemma {:induction false} LeadingOfPadded(pre: string, rest: string)
    requires AllWhiteSpace(pre) && rest != [] && !IsWhiteSpace(rest[0])
    ensures LeadingWhiteSpace(pre + rest) == |pre|
  {
    if pre != [] {
      assert (pre + rest)[1..] == pre[1..] + rest;
      LeadingOfPadded(pre[1..], rest);
    }
  }

  /** White space after a non-white-space character is exactly the trailing white space. */
  lemma {:induction false} TrailingOfPadded(rest: string, post: string)
    requires AllWhiteSpace(post) && rest != [] && !IsWhiteSpace(rest[|rest| - 1])
    ensures TrailingWhiteSpace(rest + post) == |post|
  {
    var s := rest + post;
    if post != [] {
      assert s[..|s| - 1] == rest + post[..|post| - 1];
      TrailingOfPadded(rest, post[..|post| - 1]);
    }
  }

  /** Trimming white space around a string that starts and ends with non-white-space gives it back. */
  lemma TrimExact(pre: string, mid: string, post: string)
    requires AllWhiteSpace(pre) && AllWhiteSpace(post)
    requires mid != [] && !IsWhiteSpace(mid[0]) && !IsWhiteSpace(mid[|mid| - 1])
    ensures Trim(pre + mid + post) == mid
  {
    assert pre + mid + post == pre + (mid + post);
    LeadingOfPadded(pre, mid + post);
    assert (pre + mid + post)[|pre|..] == mid + post;
    TrailingOfPadded(mid, post);
  }
}
