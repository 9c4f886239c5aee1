/**
 * JavaScript's global `parseInt(string)` called without a radix, as section
 * 19.2.5 of ECMA-262 defines it: skip leading white space, read one optional
 * sign, read radix 16 after a "0x"/"0X" prefix and radix 10 otherwise, and take
 * the longest run of digits of that radix. No digits gives NaN (here `None`).
 * Numbers are unbounded integers rather than doubles, and -0 is 0.
 */
module JsParseInt {
  import opened Wrappers

  /** The radixes `parseInt` picks by itself when it is given none. */
  type Radix = r: nat | r == 10 || r == 16 witness 10

  /** StrWhiteSpaceChar: the white space and line terminators of ECMA-262. */
  predicate IsWhiteSpace(c: char) {
    || c == '\t' || c == '\n' || c == '\U{000B}' || c == '\U{000C}' || c == '\r'
    || c == ' ' || c == '\U{00A0}' || c == '\U{1680}'
    || ('\U{2000}' <= c <= '\U{200A}')
    || c == '\U{2028}' || c == '\U{2029}' || c == '\U{202F}' || c == '\U{205F}'
    || c == '\U{3000}' || c == '\U{FEFF}'
  }

  predicate IsDecimalDigit(c: char) {
    '0' <= c <= '9'
  }

  predicate IsHexDigit(c: char) {
    IsDecimalDigit(c) || 'a' <= c <= 'f' || 'A' <= c <= 'F'
  }

  predicate IsRadixDigit(c: char, radix: Radix) {
    if radix == 10 then IsDecimalDigit(c) else IsHexDigit(c)
  }

  predicate AllRadixDigits(z: string, radix: Radix) {
    forall i :: 0 <= i < |z| ==> IsRadixDigit(z[i], radix)
  }

  /** The value of one digit character (0 for any other character). */
  function DigitValue(c: char): (v: nat)
    ensures IsDecimalDigit(c) ==> v < 10
    ensures v < 16
  {
    if IsDecimalDigit(c) then c as int - '0' as int
    else if 'a' <= c <= 'f' then c as int - 'a' as int + 10
    else if 'A' <= c <= 'F' then c as int - 'A' as int + 10
    else 0
  }

  /** The value of a run of digits, most significant first. */
  function DigitsValue(z: string, radix: Radix): nat
    decreases |z|
  {
    if |z| == 0 then 0
    else
      var high := DigitsValue(z[..|z| - 1], radix);
      (if radix == 10 then high * 10 else high * 16) + DigitValue(z[|z| - 1])
  }

  /** TrimString(s, start): `s` without its leading white space. */
  function TrimStart(s: string): string
    decreases |s|
  {
    if |s| > 0 && IsWhiteSpace(s[0]) then TrimStart(s[1..]) else s
  }

  /**
   * TrimStart removes the longest run of white space at the front: what it
   * removes is all white space, and what it keeps does not begin with any.
   */
  lemma {:induction false} TrimStartRemovesWhiteSpace(s: string)
    ensures var t := TrimStart(s);
      && |t| <= |s| && t == s[|s| - |t|..]
      && (forall i :: 0 <= i < |s| - |t| ==> IsWhiteSpace(s[i]))
      && (t == [] || !IsWhiteSpace(t[0]))
    decreases |s|
  {
    if |s| > 0 && IsWhiteSpace(s[0]) {
      TrimStartRemovesWhiteSpace(s[1..]);
      var t := TrimStart(s);
      forall i | 0 <= i < |s| - |t| ensures IsWhiteSpace(s[i]) {
        if i > 0 {
          assert s[i] == s[1..][i - 1];
        }
      }
    }
  }

  /** The longest prefix of `s` made of digits of the radix. */
  function DigitPrefix(s: string, radix: Radix): string
    decreases |s|
  {
    if |s| > 0 && IsRadixDigit(s[0], radix) then [s[0]] + DigitPrefix(s[1..], radix) else []
  }

  /**
   * DigitPrefix is the longest run of digits at the front: a prefix of `s`
   * holding only digits, after which `s` ends or holds a non-digit.
   */
  lemma {:induction false} DigitPrefixIsLongest(s: string, radix: Radix)
    ensures var z := DigitPrefix(s, radix);
      && z <= s
      && AllRadixDigits(z, radix)
      && (|z| == |s| || !IsRadixDigit(s[|z|], radix))
    decreases |s|
  {
    if |s| > 0 && IsRadixDigit(s[0], radix) {
      DigitPrefixIsLongest(s[1..], radix);
      var z := DigitPrefix(s, radix);
      assert z[1..] == DigitPrefix(s[1..], radix);
      assert forall i :: 1 <= i < |z| ==> z[i] == z[1..][i - 1];
    }
  }

  /** The hex prefix that switches `parseInt` to radix 16. */
  predicate HasHexPrefix(s: string) {
    |s| >= 2 && s[0] == '0' && (s[1] == 'x' || s[1] == 'X')
  }

  /** The value of the digits at the start of `body`, if there are any. */
  function ParseDigits(body: string, radix: Radix): Option<nat> {
    var z := DigitPrefix(body, radix);
    if |z| == 0 then None else Some(DigitsValue(z, radix))
  }

  /** What follows the sign: an optional radix prefix, then the digits. */
  function ParseUnsigned(s: string): Option<nat> {
    if HasHexPrefix(s) then ParseDigits(s[2..], 16) else ParseDigits(s, 10)
  }

  /** Multiplication by the sign -1; NaN stays NaN. */
  function Negate(r: Option<int>): Option<int> {
    match r
    case None => None
    case Some(n) => Some(-n)
  }

  /** What follows the white space: one optional sign, then the unsigned part. */
  function ParseSigned(s: string): Option<int> {
    if |s| > 0 && s[0] == '-' then Negate(ParseUnsigned(s[1..]))
    else if |s| > 0 && s[0] == '+' then ParseUnsigned(s[1..])
    else ParseUnsigned(s)
  }

  /** What is left after the white space and the sign: where the digits must begin. */
  function UnsignedPart(input: string): string
  {
    var s := TrimStart(input);
    if |s| > 0 && (s[0] == '-' || s[0] == '+') then s[1..] else s
  }

  /**
   * `parseInt(input)`; `None` is NaN. That happens exactly when no digit
   * follows the white space and the sign, or when a "0x" prefix is followed by
   * no hex digit (`parseInt("0x")` and `parseInt("0xg")` are NaN although they
   * begin with the digit 0).
   */
  function ParseInt(input: string): (r: Option<int>)
    ensures r.None? <==>
      var u := UnsignedPart(input);
      || u == []
      || !IsDecimalDigit(u[0])
      || (HasHexPrefix(u) && (|u| == 2 || !IsHexDigit(u[2])))
  {
    ParseSigned(TrimStart(input))
  }

  /** Leading white space is skipped. */
  lemma {:induction false} TrimStartSkips(w: string, s: string)
    requires forall i :: 0 <= i < |w| ==> IsWhiteSpace(w[i])
    ensures TrimStart(w + s) == TrimStart(s)
    decreases |w|
  {
    if |w| > 0 {
      assert (w + s)[1..] == w[1..] + s;
      TrimStartSkips(w[1..], s);
    } else {
      assert w + s == s;
    }
  }

  lemma ParseIntIgnoresLeadingWhiteSpace(w: string, s: string)
    requires forall i :: 0 <= i < |w| ==> IsWhiteSpace(w[i])
    ensures ParseInt(w + s) == ParseInt(s)
  {
    TrimStartSkips(w, s);
  }

  /** Without white space or a sign in front, the unsigned part is all there is. */
  lemma ParseIntUnsigned(s: string)
    requires s == [] || (!IsWhiteSpace(s[0]) && s[0] != '-' && s[0] != '+')
    ensures ParseInt(s) == ParseUnsigned(s)
  {
    TrimStartStops(s);
  }

  /**
   * One sign may precede the digits: "-" negates and "+" changes nothing. The
   * sign must come right before them: `parseInt("- 5")` and `parseInt("--5")` are NaN.
   */
  lemma ParseIntSign(s: string)
    requires s == [] || (!IsWhiteSpace(s[0]) && s[0] != '-' && s[0] != '+')
    ensures ParseInt("-" + s) == Negate(ParseInt(s))
    ensures ParseInt("+" + s) == ParseInt(s)
  {
    ParseIntUnsigned(s);
    ParseIntSignChar('-', s);
    ParseIntSignChar('+', s);
  }

  lemma ParseIntSignChar(sign: char, s: string)
    requires sign == '-' || sign == '+'
    ensures ParseInt([sign] + s) == if sign == '-' then Negate(ParseUnsigned(s)) else ParseUnsigned(s)
  {
    var t := [sign] + s;
    assert t[0] == sign && t[1..] == s;
    TrimStartStops(t);
  }

  /** Nothing is trimmed from a string that does not begin with white space. */
  lemma TrimStartStops(s: string)
    requires s == [] || !IsWhiteSpace(s[0])
    ensures TrimStart(s) == s
  {
  }

  /** Digits of the radix followed by anything else: the digits are the prefix read. */
  lemma {:induction false} DigitPrefixOf(z: string, rest: string, radix: Radix)
    requires AllRadixDigits(z, radix)
    requires rest == [] || !IsRadixDigit(rest[0], radix)
    ensures DigitPrefix(z + rest, radix) == z
    decreases |z|
  {
    if |z| == 0 {
      assert z + rest == rest;
    } else {
      assert (z + rest)[0] == z[0] && (z + rest)[1..] == z[1..] + rest;
      DigitPrefixOf(z[1..], rest, radix);
      assert z == [z[0]] + z[1..];
    }
  }

  lemma ParseDigitsOf(z: string, rest: string, radix: Radix)
    requires |z| > 0 && AllRadixDigits(z, radix)
    requires rest == [] || !IsRadixDigit(rest[0], radix)
    ensures ParseDigits(z + rest, radix) == Some(DigitsValue(z, radix))
  {
    DigitPrefixOf(z, rest, radix);
  }

  /**
   * A run of decimal digits is read up to the first non-digit, so "10abc" is 10;
   * only "0" followed by "x" or "X" switches to hexadecimal instead.
   */
  lemma ParseIntDecimal(d: string, rest: string)
    requires |d| > 0 && AllRadixDigits(d, 10)
    requires rest == [] || !IsDecimalDigit(rest[0])
    requires !(d == "0" && |rest| > 0 && (rest[0] == 'x' || rest[0] == 'X'))
    ensures ParseInt(d + rest) == Some(DigitsValue(d, 10))
  {
    var s := d + rest;
    assert s[0] == d[0];
    assert !HasHexPrefix(s) by {
      if |d| >= 2 {
        assert s[1] == d[1];
      } else if |rest| > 0 {
        assert s[1] == rest[0];
        assert d == [d[0]];
      }
    }
    ParseIntUnsigned(s);
    ParseDigitsOf(d, rest, 10);
  }

  /** "0x" or "0X" and a run of hex digits is read in radix 16: "0x1A" is 26. */
  lemma ParseIntHex(x: char, h: string, rest: string)
    requires x == 'x' || x == 'X'
    requires |h| > 0 && AllRadixDigits(h, 16)
    requires rest == [] || !IsHexDigit(rest[0])
    ensures ParseInt(['0', x] + (h + rest)) == Some(DigitsValue(h, 16))
  {
    var s := ['0', x] + (h + rest);
    assert HasHexPrefix(s) && s[2..] == h + rest;
    ParseIntUnsigned(s);
    ParseDigitsOf(h, rest, 16);
  }

  /** The digit character of a value below ten. */
  function DigitChar(n: nat): (c: char)
    requires n < 10
    ensures IsDecimalDigit(c) && DigitValue(c) == n
  {
    ('0' as int + n) as char
  }

  /** The decimal digits of `n`, without leading zeros. */
  function NatDigits(n: nat): (d: string)
    ensures |d| > 0 && AllRadixDigits(d, 10)
    ensures |d| > 1 ==> d[0] != '0'
    decreases n
  {
    if n < 10 then [DigitChar(n)] else NatDigits(n / 10) + [DigitChar(n % 10)]
  }

  /**
   * The decimal encoder used by the round-trip lemmas: a minus sign before the
   * digits of a negative integer.
   */
  function DecimalString(n: int): string {
    if n < 0 then "-" + NatDigits(-n) else NatDigits(n)
  }

  lemma {:induction false} NatDigitsValue(n: nat)
    ensures DigitsValue(NatDigits(n), 10) == n
    decreases n
  {
    var d := NatDigits(n);
    if n >= 10 {
      NatDigitsValue(n / 10);
      assert d[..|d| - 1] == NatDigits(n / 10);
    } else {
      assert d[..0] == [];
    }
  }

  /**
   * Decimal text followed by what cannot continue it: that text can only end
   * in a non-digit, and after a lone "0" also not in the "x" of a hex prefix.
   */
  predicate EndsLiteral(n: int, rest: string) {
    rest == [] || (!IsDecimalDigit(rest[0]) && !(n == 0 && (rest[0] == 'x' || rest[0] == 'X')))
  }

  /**
   * `parseInt` reads back every integer written in decimal, followed by
   * anything that ends the literal (a "/", a query string, letters).
   */
  lemma ParseIntDecimalString(n: int, rest: string)
    requires EndsLiteral(n, rest)
    ensures ParseInt(DecimalString(n) + rest) == Some(n)
  {
    if n < 0 {
      ParseIntNegative(-n, rest);
      assert "-" + NatDigits(-n) + rest == "-" + (NatDigits(-n) + rest);
    } else {
      ParseIntNatDigits(n, rest);
    }
  }

  lemma ParseIntNegative(m: nat, rest: string)
    requires m > 0 && EndsLiteral(m, rest)
    ensures ParseInt("-" + (NatDigits(m) + rest)) == Some(-(m as int))
  {
    ParseIntNatDigits(m, rest);
    var unsigned := NatDigits(m) + rest;
    assert unsigned[0] == NatDigits(m)[0];
    ParseIntMinus(unsigned, m);
  }

  lemma ParseIntMinus(s: string, v: int)
    requires s != [] && IsDecimalDigit(s[0])
    requires ParseInt(s) == Some(v)
    ensures ParseInt("-" + s) == Some(-v)
  {
    ParseIntSign(s);
  }

  lemma ParseIntNatDigits(n: nat, rest: string)
    requires EndsLiteral(n, rest)
    ensures ParseInt(NatDigits(n) + rest) == Some(n)
  {
    var d := NatDigits(n);
    NatDigitsValue(n);
    if d == "0" {
      assert DigitsValue(d, 10) == 0;
    }
    ParseIntDecimal(d, rest);
  }

  /** `String(undefined)` is "undefined", which holds no digits: NaN. */
  lemma ParseIntUndefined()
    ensures ParseInt("undefined") == None
  {
    var s := "undefined";
    assert s[0] == 'u' && !HasHexPrefix(s);
    TrimStartStops(s);
    assert DigitPrefix(s, 10) == [];
  }


  /** Trailing letters are ignored: `parseInt("10abc")` is 10. */
  lemma TrailingLettersExample()
    ensures ParseInt("10abc") == Some(10)
  {
    assert "10abc" == "10" + "abc";
    ParseIntDecimal("10", "abc");
    assert DigitsValue("10", 10) == 10 by {
      assert "10"[..1] == "1";
      assert "1"[..0] == [];
    }
  }

  /** Without a radix a "0x" prefix reads hexadecimal: `parseInt("0x1A")` is 26. */
  lemma HexExample()
    ensures ParseInt("0x1A") == Some(26)
  {
    assert "0x1A" == ['0', 'x'] + ("1A" + "");
    ParseIntHex('x', "1A", "");
    assert DigitsValue("1A", 16) == 26 by {
      assert "1A"[..1] == "1";
      assert "1"[..0] == [];
    }
  }

  /** A bare prefix is NaN: `parseInt("0x")`. */
  lemma BarePrefixExample()
    ensures ParseInt("0x") == None
  {
    assert ParseUnsigned("0x") == None by {
      assert HasHexPrefix("0x") && "0x"[2..] == [];
    }
    ParseIntUnsigned("0x");
  }

  /** White space, then a sign: `parseInt(" -7")` is -7. */
  lemma SignedExample()
    ensures ParseInt(" -7") == Some(-7)
  {
    assert " -7" == " " + "-7";
    ParseIntIgnoresLeadingWhiteSpace(" ", "-7");
    assert DecimalString(-7) + "" == "-7";
    ParseIntDecimalString(-7, "");
  }

  /** The digits before a query string are read, and a bare number is read whole. */
  lemma QueryDigitsExample()
    ensures ParseInt("10?h=") == Some(10) && ParseInt("20") == Some(20)
  {
    DigitsExample("10", "?h=", 10);
    DigitsExample("20", "", 20);
    assert "20" + "" == "20";
    assert "10?h=" == "10" + "?h=";
  }

  lemma DigitsExample(d: string, rest: string, n: nat)
    requires |d| == 2 && AllRadixDigits(d, 10) && d[0] != '0'
    requires rest == [] || !IsDecimalDigit(rest[0])
    requires n == DigitValue(d[0]) * 10 + DigitValue(d[1])
    ensures ParseInt(d + rest) == Some(n)
  {
    ParseIntDecimal(d, rest);
    assert d[..1][..0] == [] && d[..1][0] == d[0];
    assert DigitsValue(d[..1], 10) == DigitValue(d[0]);
  }
}
