/**
 * The two pieces of JavaScript number/string conversion that the statistics
 * counter relies on: `parseInt(text)` with the radix argument omitted, as
 * section 19.2.5 of ECMA-262 defines it, and the decimal text of an integral
 * Number, as `Math.floor(current) + ''` produces it.
 *
 * Numbers are exact integers here: the rounding of long digit strings to a
 * double and the exponent notation of Numbers of 1e21 and above are not
 * modelled.
 */
module JsNumber {

  /** The result of `parseInt`: NaN, or an integral Number. */
  datatype Parsed = NaN | Int(value: int)

  /** StrWhiteSpaceChar: the WhiteSpace characters (every Zs character among
    * them) and the LineTerminator characters of ECMA-262. */
  predicate IsWhiteSpace(c: char) {
    if c <= ' ' then c == ' ' || '\t' <= c <= '\r'
    else if c < '\U{00A0}' then false
    else
      || c == '\U{00A0}' || c == '\U{1680}' || '\U{2000}' <= c <= '\U{200A}'
      || c == '\U{2028}' || c == '\U{2029}' || c == '\U{202F}' || c == '\U{205F}'
      || c == '\U{3000}' || c == '\U{FEFF}'
  }

  /** Signs and digits are not white space. */
  lemma SignOrDigitIsNotWhiteSpace(c: char)
    requires c == '+' || c == '-' || IsDigit(c, 16)
    ensures !IsWhiteSpace(c)
  {
  }

  /** The text with its leading white space removed (TrimString with `start`). */
  function TrimStart(s: string): (r: string)
    ensures |r| <= |s| && r == s[|s| - |r|..]
    ensures forall i :: 0 <= i < |s| - |r| ==> IsWhiteSpace(s[i])
    ensures r == [] || !IsWhiteSpace(r[0])
  {
    if s != [] && IsWhiteSpace(s[0]) then TrimStart(s[1..]) else s
  }

  /** A digit of radix 10, or of radix 16 (either letter case). */
  predicate IsDigit(c: char, radix: nat) {
    '0' <= c <= '9' || (radix == 16 && ('a' <= c <= 'f' || 'A' <= c <= 'F'))
  }

  predicate AllDigits(s: string, radix: nat) {
    forall i :: 0 <= i < |s| ==> IsDigit(s[i], radix)
  }

  function DigitValue(c: char): (d: nat)
    requires IsDigit(c, 16)
    ensures d < 16
    ensures IsDigit(c, 10) <==> d < 10
  {
    if '0' <= c <= '9' then c as int - '0' as int
    else if 'a' <= c <= 'f' then c as int - 'a' as int + 10
    else c as int - 'A' as int + 10
  }

  /** The longest prefix of `s` that consists of digits of the radix. */
  function DigitRun(s: string, radix: nat): (r: string)
    ensures r <= s
    ensures AllDigits(r, radix)
    ensures |r| == |s| || !IsDigit(s[|r|], radix)
  {
    if s != [] && IsDigit(s[0], radix) then [s[0]] + DigitRun(s[1..], radix) else []
  }

  /** The number a digit string denotes, most significant digit first. */
  function DigitsValue(ds: string, radix: nat): nat
    requires AllDigits(ds, radix)
  {
    if ds == [] then 0
    else DigitsValue(ds[..|ds| - 1], radix) * radix + DigitValue(ds[|ds| - 1])
  }

  predicate HasHexPrefix(s: string) {
    |s| >= 2 && s[0] == '0' && (s[1] == 'x' || s[1] == 'X')
  }

  /** `parseInt(text)` with the radix omitted: skip white space, take an
    * optional sign, select radix 16 after `0x`/`0X` and radix 10 otherwise,
    * read the longest run of digits; no digit at all gives NaN. A negative
    * zero is the integer 0 here. */
  function ParseInt(text: string): Parsed
  {
    ParseSigned(TrimStart(text))
  }

  /** `parseInt` once the white space is gone: the sign. */
  function ParseSigned(s: string): Parsed
  {
    if s != [] && s[0] == '-' then Negate(ParseUnsigned(s[1..]))
    else if s != [] && s[0] == '+' then ParseUnsigned(s[1..])
    else ParseUnsigned(s)
  }

  function Negate(p: Parsed): Parsed
  {
    if p.Int? then Int(-p.value) else NaN
  }

  /** `parseInt` after the sign: the radix prefix and the digits. */
  function ParseUnsigned(s: string): Parsed
  {
    if HasHexPrefix(s) then ParseDigits(s[2..], 16) else ParseDigits(s, 10)
  }

  function ParseDigits(s: string, radix: nat): Parsed
  {
    var z := DigitRun(s, radix);
    if z == [] then NaN else Int(DigitsValue(z, radix))
  }

  function DecimalDigit(d: nat): (c: char)
    requires d < 10
    ensures IsDigit(c, 10) && DigitValue(c) == d
  {
    ('0' as int + d) as char
  }

  /** The decimal text of a natural number: digits only, no leading zero,
    * and denoting that number. */
  function NatToDecimal(n: nat): (s: string)
    ensures s != [] && AllDigits(s, 10)
    ensures DigitsValue(s, 10) == n
    ensures s[0] == '0' ==> s == "0"
  {
    if n < 10 then [DecimalDigit(n)]
    else
      var front := NatToDecimal(n / 10);
      var s := front + [DecimalDigit(n % 10)];
      assert s[..|s| - 1] == front;
      s
  }

  /** Number::toString for an integral Number below 1e21 in magnitude. */
  function IntToDecimal(v: int): string
  {
    if v < 0 then "-" + NatToDecimal(-v) else NatToDecimal(v)
  }

  lemma {:induction false} TrimStartSkipsWhiteSpace(ws: string, s: string)
    requires forall i :: 0 <= i < |ws| ==> IsWhiteSpace(ws[i])
    ensures TrimStart(ws + s) == TrimStart(s)
  {
    if ws != [] {
      assert (ws + s)[0] == ws[0] && IsWhiteSpace(ws[0]);
      assert (ws + s)[1..] == ws[1..] + s;
      assert forall i :: 0 <= i < |ws[1..]| ==> ws[1..][i] == ws[i + 1];
      TrimStartSkipsWhiteSpace(ws[1..], s);
    } else {
      assert ws + s == s;
    }
  }

  /** Leading white space never changes what `parseInt` returns. */
  lemma ParseIntSkipsWhiteSpace(ws: string, s: string)
    requires forall i :: 0 <= i < |ws| ==> IsWhiteSpace(ws[i])
    ensures ParseInt(ws + s) == ParseInt(s)
  {
    TrimStartSkipsWhiteSpace(ws, s);
  }

  lemma {:induction false} DigitRunOfDigits(ds: string, rest: string, radix: nat)
    requires AllDigits(ds, radix)
    requires rest == [] || !IsDigit(rest[0], radix)
    ensures DigitRun(ds + rest, radix) == ds
  {
    if ds != [] {
      assert (ds + rest)[1..] == ds[1..] + rest;
      DigitRunOfDigits(ds[1..], rest, radix);
    }
  }

  lemma ParseUnsignedOfDigits(ds: string, rest: string)
    requires ds != [] && AllDigits(ds, 10)
    requires rest == [] || !IsDigit(rest[0], 10)
    requires ds == "0" && rest != [] ==> rest[0] != 'x' && rest[0] != 'X'
    ensures ParseUnsigned(ds + rest) == Int(DigitsValue(ds, 10))
  {
    var u := ds + rest;
    assert !HasHexPrefix(u) by {
      assert u[0] == ds[0];
      if |ds| >= 2 { assert u[1] == ds[1]; }
    }
    DigitRunOfDigits(ds, rest, 10);
  }

  /** A decimal digit string followed by anything that is not a digit (and
    * does not turn a lone `0` into a `0x` prefix) parses to the value of the
    * digits, with the sign in front of it if there is one. */
  lemma ParseIntOfDigits(sign: string, ds: string, rest: string)
    requires sign == "" || sign == "+" || sign == "-"
    requires ds != [] && AllDigits(ds, 10)
    requires rest == [] || !IsDigit(rest[0], 10)
    requires ds == "0" && rest != [] ==> rest[0] != 'x' && rest[0] != 'X'
    ensures ParseInt(sign + ds + rest) ==
            Int(if sign == "-" then 0 - DigitsValue(ds, 10) else DigitsValue(ds, 10))
  {
    ParseUnsignedOfDigits(ds, rest);
    ParseSignedOf(sign, ds, rest);
  }

  lemma ParseSignedOf(sign: string, ds: string, rest: string)
    requires sign == "" || sign == "+" || sign == "-"
    requires ds != [] && IsDigit(ds[0], 10)
    ensures ParseInt(sign + ds + rest) ==
            if sign == "-" then Negate(ParseUnsigned(ds + rest)) else ParseUnsigned(ds + rest)
  {
    var u := ds + rest;
    var t := sign + ds + rest;
    assert t == sign + u;
    assert u[0] == ds[0];
    assert t[0] == (if sign == "" then u[0] else sign[0]);
    SignOrDigitIsNotWhiteSpace(t[0]);
    assert TrimStart(t) == t;
    assert sign != "" ==> t[1..] == u;
  }

  /** A `0x` or `0X` prefix selects radix 16. */
  lemma ParseIntOfHex(x: char, hs: string, rest: string)
    requires x == 'x' || x == 'X'
    requires hs != [] && AllDigits(hs, 16)
    requires rest == [] || !IsDigit(rest[0], 16)
    ensures ParseInt(['0', x] + hs + rest) == Int(DigitsValue(hs, 16))
  {
    var t := ['0', x] + hs + rest;
    assert TrimStart(t) == t;
    assert HasHexPrefix(t);
    assert t[2..] == hs + rest;
    DigitRunOfDigits(hs, rest, 16);
  }

  /** Text whose first character after the white space is neither a sign nor
    * a decimal digit (or that is blank) parses to NaN. */
  lemma ParseIntNaN(text: string)
    requires var s := TrimStart(text);
             s == [] || (!IsDigit(s[0], 10) && s[0] != '+' && s[0] != '-')
    ensures ParseInt(text) == NaN
  {
    var s := TrimStart(text);
    assert ParseSigned(s) == ParseUnsigned(s);
    assert !HasHexPrefix(s);
    assert DigitRun(s, 10) == [];
  }

  /** `parseInt` reads back the decimal text of every integer, whatever
    * non-digit text follows it (only after a lone `0` would an `x` or `X`
    * start a hex prefix instead): rendering and parsing are inverse. */
  lemma ParseIntOfDecimal(v: int, suffix: string)
    requires suffix == [] || !IsDigit(suffix[0], 10)
    requires v == 0 && suffix != [] ==> suffix[0] != 'x' && suffix[0] != 'X'
    ensures ParseInt(IntToDecimal(v) + suffix) == Int(v)
  {
    var sign := if v < 0 then "-" else "";
    var n: nat := if v < 0 then -v else v;
    assert IntToDecimal(v) == sign + NatToDecimal(n);
    ParseIntOfNatDecimal(sign, n, suffix);
    assert Int(v) == Int(if sign == "-" then 0 - n else n);
  }

  lemma ParseIntOfNatDecimal(sign: string, n: nat, suffix: string)
    requires sign == "" || sign == "-"
    requires suffix == [] || !IsDigit(suffix[0], 10)
    requires n == 0 && suffix != [] ==> suffix[0] != 'x' && suffix[0] != 'X'
    ensures ParseInt(sign + NatToDecimal(n) + suffix) == Int(if sign == "-" then 0 - n else n)
  {
    var ds := NatToDecimal(n);
    if ds == "0" {
      assert DigitsValue(ds, 10) == 0;
    }
    ParseIntOfDigits(sign, ds, suffix);
  }
}
