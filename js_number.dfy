/** The two number conversions the get-by-id handler performs: the global
    `parseInt(s)` with no radix argument, which reads the id path segment, and
    the conversion of an integer back to text inside a template string, which
    writes the id into the not-found message. Numbers are mathematical
    integers here: `None` stands for NaN. */
module JsNumber {
  import opened Wrappers

  /** The characters `parseInt` skips before the number: the ECMAScript
      WhiteSpace and LineTerminator code points (TAB, LF, VT, FF, CR, SPACE,
      NBSP, U+1680, U+2000..U+200A, LS, PS, U+202F, U+205F, U+3000, BOM). */
  predicate IsWhite(c: char) {
    c == '\t' || c == '\n' || c == '\U{0B}' || c == '\U{0C}' || c == '\r' || c == ' '
    || c == '\U{A0}' || c == '\U{1680}' || ('\U{2000}' <= c <= '\U{200A}')
    || c == '\U{2028}' || c == '\U{2029}' || c == '\U{202F}' || c == '\U{205F}'
    || c == '\U{3000}' || c == '\U{FEFF}'
  }

  /** The value of an ASCII letter or digit as a digit of radix up to 36
      (0-9, then a/A = 10 ... z/Z = 35); 36 for any other character. */
  function DigitValue(c: char): (d: nat)
    ensures d <= 36
  {
    if '0' <= c <= '9' then c as int - '0' as int
    else if 'a' <= c <= 'z' then c as int - 'a' as int + 10
    else if 'A' <= c <= 'Z' then c as int - 'A' as int + 10
    else 36
  }

  predicate IsDigit(c: char, radix: nat) {
    DigitValue(c) < radix
  }

  /** `s` with its leading white space removed. */
  function TrimStart(s: string): (r: string)
    ensures r == [] || !IsWhite(r[0])
  {
    if s != [] && IsWhite(s[0]) then TrimStart(s[1..]) else s
  }

  /** The length of the longest prefix of `s` made of digits of `radix`. */
  function DigitPrefixLength(s: string, radix: nat): (n: nat)
    ensures n <= |s|
    ensures forall i :: 0 <= i < n ==> IsDigit(s[i], radix)
    ensures n < |s| ==> !IsDigit(s[n], radix)
  {
    if s != [] && IsDigit(s[0], radix) then 1 + DigitPrefixLength(s[1..], radix) else 0
  }

  /** The value of a digit string, most significant digit first, in base 16
      when `hex` holds and in base 10 otherwise. */
  function ValueOf(ds: string, hex: bool): nat
  {
    if ds == [] then 0
    else
      var high := ValueOf(ds[..|ds| - 1], hex);
      var d := DigitValue(ds[|ds| - 1]);
      if hex then 16 * high + (if d < 16 then d else 0)
      else 10 * high + (if d < 10 then d else 0)
  }

  /** The longest run of digits at the start of `v`, in base 16 when `hex`
      holds and 10 otherwise, and its value; no digit at all is NaN. */
  function ParseDigits(v: string, hex: bool): Option<nat>
  {
    var n := DigitPrefixLength(v, if hex then 16 else 10);
    if n == 0 then None else Some(ValueOf(v[..n], hex))
  }

  predicate HasHexPrefix(u: string) {
    |u| >= 2 && u[0] == '0' && (u[1] == 'x' || u[1] == 'X')
  }

  /** The unsigned part of `parseInt`: after a `0x` or `0X` prefix the radix
      is 16, otherwise 10. */
  function ParseMagnitude(u: string): Option<nat>
  {
    if HasHexPrefix(u) then ParseDigits(u[2..], true) else ParseDigits(u, false)
  }

  function Negate(m: Option<nat>): Option<int>
  {
    if m.None? then None else Some(-(m.value as int))
  }

  function AsInt(m: Option<nat>): Option<int>
  {
    if m.None? then None else Some(m.value as int)
  }

  /** `parseInt(s)`: skip leading white space, then read a signed number. */
  function ParseInt(s: string): (r: Option<int>)
    ensures r.Some? ==>
      var t := TrimStart(s); t != [] && (t[0] == '-' || t[0] == '+' || IsDigit(t[0], 10))
  {
    ParseSigned(TrimStart(s))
  }

  /** An optional `-` or `+`, then the magnitude. */
  function ParseSigned(t: string): Option<int>
  {
    if t != [] && t[0] == '-' then Negate(ParseMagnitude(t[1..]))
    else if t != [] && t[0] == '+' then AsInt(ParseMagnitude(t[1..]))
    else AsInt(ParseMagnitude(t))
  }

  function DigitChar(d: nat): (c: char)
    requires d < 10
    ensures IsDigit(c, 10) && DigitValue(c) == d
  {
    ('0' as int + d) as char
  }

  /** The decimal text of a natural number, without leading zeros. */
  function NatToString(n: nat): (s: string)
    ensures s != []
    ensures forall i :: 0 <= i < |s| ==> IsDigit(s[i], 10)
    ensures s[0] == '0' ==> n == 0
    decreases n
  {
    if n < 10 then [DigitChar(n)] else NatToString(n / 10) + [DigitChar(n % 10)]
  }

  /** The text `${n}` produces for an integer (`-0` prints as `0`). */
  function IntToString(n: int): (s: string)
    ensures s != [] && (s[0] == '-' <==> n < 0)
    ensures forall i :: (if n < 0 then 1 else 0) <= i < |s| ==> IsDigit(s[i], 10)
  {
    if n < 0 then "-" + NatToString(-n) else NatToString(n)
  }

  /** Reading back the decimal text of `n` gives `n`. */
  lemma {:induction false} ValueOfNatToString(n: nat)
    ensures ValueOf(NatToString(n), false) == n
    decreases n
  {
    if n >= 10 {
      ValueOfNatToString(n / 10);
      var s := NatToString(n / 10) + [DigitChar(n % 10)];
      assert s[..|s| - 1] == NatToString(n / 10);
    }
  }

  /** The magnitude of a decimal text without leading zeros is read back. */
  lemma ParseMagnitudeOfNatToString(m: nat, rest: string)
    requires rest == [] || !IsDigit(rest[0], 10)
    requires m == 0 && rest != [] ==> rest[0] != 'x' && rest[0] != 'X'
    ensures ParseMagnitude(NatToString(m) + rest) == Some(m)
  {
    var d := NatToString(m);
    var u := d + rest;
    if |u| >= 2 && u[0] == '0' {
      assert m == 0 && |d| == 1;
      assert u[1] == rest[0];
    }
    DigitPrefixOfDigits(d, rest, 10);
    assert u[..|d|] == d;
    ValueOfNatToString(m);
  }

  /** Text that starts with a decimal digit is read as a magnitude. */
  lemma ParseIntUnsigned(s: string)
    requires s != [] && '0' <= s[0] <= '9'
    ensures ParseInt(s) == ParseMagnitude(s)
  {
    assert TrimStart(s) == s;
    assert !(s[0] == '-' || s[0] == '+');
  }

  /** Text that starts with `-` is read as a negated magnitude. */
  lemma ParseIntNegative(s: string, m: nat)
    requires s != [] && s[0] == '-'
    requires ParseMagnitude(s[1..]) == Some(m)
    ensures ParseInt(s) == Some(-(m as int))
  {
    assert TrimStart(s) == s;
    assert s[0] == '-';
  }

  /** `parseInt` reads back the text the not-found message prints for any
      integer, followed by anything that cannot continue the number: white
      space, punctuation, letters other than an `x` right after a lone `0`. */
  lemma ParseIntOfIntToString(n: int, rest: string)
    requires rest == [] || !IsDigit(rest[0], 10)
    requires n == 0 && rest != [] ==> rest[0] != 'x' && rest[0] != 'X'
    ensures ParseInt(IntToString(n) + rest) == Some(n)
  {
    if n < 0 {
      ParseIntOfNegative(n, rest);
    } else {
      ParseIntOfNatural(n, rest);
    }
  }

  lemma ParseIntOfNegative(n: int, rest: string)
    requires n < 0
    requires rest == [] || !IsDigit(rest[0], 10)
    ensures ParseInt(IntToString(n) + rest) == Some(n)
  {
    var m: nat := -n;
    var d := NatToString(m);
    var s := IntToString(n) + rest;
    assert IntToString(n) == "-" + d;
    assert s == "-" + (d + rest);
    assert s[1..] == d + rest;
    ParseMagnitudeOfNatToString(m, rest);
    ParseIntNegative(s, m);
  }

  lemma ParseIntOfNatural(n: int, rest: string)
    requires n >= 0
    requires rest == [] || !IsDigit(rest[0], 10)
    requires n == 0 && rest != [] ==> rest[0] != 'x' && rest[0] != 'X'
    ensures ParseInt(IntToString(n) + rest) == Some(n)
  {
    var s := IntToString(n) + rest;
    assert s == NatToString(n) + rest;
    ParseMagnitudeOfNatToString(n, rest);
    assert '0' <= s[0] <= '9';
    ParseIntUnsigned(s);
  }

  /** A run of digits of `radix` followed by a non-digit is a whole prefix. */
  lemma {:induction false} DigitPrefixOfDigits(d: string, rest: string, radix: nat)
    requires forall i :: 0 <= i < |d| ==> IsDigit(d[i], radix)
    requires rest == [] || !IsDigit(rest[0], radix)
    ensures DigitPrefixLength(d + rest, radix) == |d|
    decreases |d|
  {
    if d != [] {
      assert (d + rest)[1..] == d[1..] + rest;
      DigitPrefixOfDigits(d[1..], rest, radix);
    } else {
      assert d + rest == rest;
    }
  }

  /** `parseInt` of the empty text, and of text with no leading digit, is NaN. */
  lemma ParseIntNaN(s: string)
    requires TrimStart(s) == [] || (!IsDigit(TrimStart(s)[0], 10) && TrimStart(s)[0] != '-' && TrimStart(s)[0] != '+')
    ensures ParseInt(s) == None
  {
  }

  /** Leading white space does not change what `parseInt` reads. */
  lemma ParseIntSkipsWhite(c: char, s: string)
    requires IsWhite(c)
    ensures ParseInt([c] + s) == ParseInt(s)
  {
    assert ([c] + s)[1..] == s;
  }

  /** The literal path segment of the search route is not a number, so a
      search request that reached the get-by-id handler would get 400. */
  lemma ParseIntOfSearchSegment()
    ensures ParseInt("buscar") == None
  {
    ParseIntNaN("buscar");
  }

  /** The empty segment (`req.params['id'] ?? ''`) is NaN. */
  lemma ParseIntOfEmpty()
    ensures ParseInt("") == None
  {
  }

  /** Trailing text after the digits is ignored. */
  lemma ParseIntIgnoresTrailingText()
    ensures ParseInt("12abc") == Some(12)
  {
    assert NatToString(1) == "1";
    assert NatToString(12) == NatToString(1) + [DigitChar(2)];
    assert IntToString(12) + "abc" == "12abc";
    ParseIntOfIntToString(12, "abc");
  }

  /** Leading white space and a sign are accepted. */
  lemma ParseIntSignedWithSpace()
    ensures ParseInt(" -7") == Some(-7)
  {
    assert NatToString(7) == "7";
    assert IntToString(-7) + "" == "-7";
    ParseIntOfIntToString(-7, "");
    ParseIntSkipsWhite(' ', "-7");
    assert [' '] + "-7" == " -7";
  }

  /** After `0x` or `0X`, `parseInt` reads the run of hexadecimal digits
      that follows and ignores the rest; an empty run is NaN. */
  lemma ParseIntOfHexDigits(x: char, h: string, rest: string)
    requires x == 'x' || x == 'X'
    requires forall i :: 0 <= i < |h| ==> IsDigit(h[i], 16)
    requires rest == [] || !IsDigit(rest[0], 16)
    ensures ParseInt(['0', x] + (h + rest)) == if h == [] then None else Some(ValueOf(h, true))
  {
    var s := ['0', x] + (h + rest);
    assert HasHexPrefix(s);
    assert s[2..] == h + rest;
    DigitPrefixOfDigits(h, rest, 16);
    assert (h + rest)[..|h|] == h;
    ParseIntUnsigned(s);
  }

  /** Examples of the hexadecimal branch: `"0x1f"` is 31, `"0x"` is NaN. */
  lemma ParseIntHex()
    ensures ParseInt("0x1f") == Some(31)
    ensures ParseInt("0x") == None
  {
    assert "1f"[..1] == "1";
    assert ValueOf("1f", true) == 31;
    ParseIntOfHexDigits('x', "1f", "");
    assert ['0', 'x'] + ("1f" + "") == "0x1f";
    ParseIntOfHexDigits('x', "", "");
    assert ['0', 'x'] + ("" + "") == "0x";
  }
}
