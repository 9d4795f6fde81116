/** JavaScript's global `parseInt(string)` with no radix argument (section 19.2.5 of
    ECMAScript 2024): leading white space is skipped, one sign is read, a "0x" or "0X"
    marker switches to base 16, and the longest run of digits of the base that follows is
    read. No digit at all gives `NaN`, modelled as None. The result is the exact integer;
    the rounding of a JavaScript number beyond 2^53 is not modelled. */
module NumberParsing {
  import opened Base
  import opened Decimal

  /** `StrWhiteSpaceChar`: the white-space code points (tab, vertical tab, form feed,
      zero-width no-break space and the space separators) and the line terminators. */
  predicate IsStrWhiteSpace(c: char) {
    || c == '\t' || c == '\n' || c == '\U{000B}' || c == '\U{000C}' || c == '\r' || c == ' '
    || c == '\U{00A0}' || c == '\U{1680}' || ('\U{2000}' <= c <= '\U{200A}')
    || c == '\U{2028}' || c == '\U{2029}' || c == '\U{202F}' || c == '\U{205F}'
    || c == '\U{3000}' || c == '\U{FEFF}'
  }

  /** `s` without its leading white space. */
  function TrimStart(s: string): (t: string)
    ensures |t| <= |s| && t == s[|s| - |t|..]
    ensures t == [] || !IsStrWhiteSpace(t[0])
    decreases |s|
  {
    if s != [] && IsStrWhiteSpace(s[0]) then TrimStart(s[1..]) else s
  }

  predicate IsHexDigit(c: char) {
    IsDigit(c) || ('a' <= c <= 'f') || ('A' <= c <= 'F')
  }

  predicate AllHex(s: string) {
    forall i | 0 <= i < |s| :: IsHexDigit(s[i])
  }

  function HexDigitValue(c: char): (d: nat)
    requires IsHexDigit(c)
    ensures d < 16
    ensures IsDigit(c) <==> d < 10
  {
    if IsDigit(c) then DigitValue(c)
    else if 'a' <= c <= 'f' then c as int - 'a' as int + 10
    else c as int - 'A' as int + 10
  }

  /** The number a string of hexadecimal digits denotes, in either letter case. */
  function HexValue(s: string): nat
    requires AllHex(s)
    decreases |s|
  {
    if s == [] then 0 else HexValue(s[..|s| - 1]) * 16 + HexDigitValue(s[|s| - 1])
  }

  /** The longest prefix of `s` made of hexadecimal digits. */
  function HexPrefix(s: string): (p: string)
    ensures AllHex(p) && p <= s
    ensures |p| < |s| ==> !IsHexDigit(s[|p|])
    ensures AllHex(s) ==> p == s
  {
    if s == [] || !IsHexDigit(s[0]) then [] else [s[0]] + HexPrefix(s[1..])
  }

  predicate HasHexMarker(u: string) {
    |u| >= 2 && u[0] == '0' && (u[1] == 'x' || u[1] == 'X')
  }

  /** The unsigned part after white space and sign: its hexadecimal digits after a marker,
      otherwise its decimal digits; None when there are none. */
  function Magnitude(u: string): Option<nat> {
    if HasHexMarker(u) then
      var h := HexPrefix(u[2..]);
      if h == [] then None else Some(HexValue(h))
    else
      var d := DigitPrefix(u);
      if d == [] then None else Some(Value(d))
  }

  /** `parseInt(s)`; None stands for `NaN`. */
  function ParseInt(s: string): (r: Option<int>)
    ensures s == [] ==> r.None?
    ensures s != [] && !IsStrWhiteSpace(s[0]) && s[0] != '-' && s[0] != '+' && !IsDigit(s[0]) ==> r.None?
  {
    ParseSigned(TrimStart(s))
  }

  /** The rest of `parseInt` once white space is skipped: one optional sign, then the magnitude. */
  function ParseSigned(t: string): Option<int> {
    if t != [] && (t[0] == '-' || t[0] == '+') then WithSign(Magnitude(t[1..]), t[0] == '-')
    else WithSign(Magnitude(t), false)
  }

  function WithSign(m: Option<nat>, negative: bool): Option<int> {
    match m
    case None => None
    case Some(v) => Some(if negative then -(v as int) else v)
  }

  /** Leading white space does not change the result. */
  lemma ParseIntSkipsWhiteSpace(s: string)
    requires s != [] && IsStrWhiteSpace(s[0])
    ensures ParseInt(s) == ParseInt(s[1..])
  {
    assert TrimStart(s) == TrimStart(s[1..]);
  }

  /** A string of decimal digits, leading zeros included, is read in base 10. */
  lemma ParseIntOfDigits(s: string)
    requires s != [] && AllDigits(s)
    ensures ParseInt(s) == Some(Value(s))
  {
    assert IsDigit(s[0]);
    ParseIntUnsigned(s);
    if |s| >= 2 {
      assert IsDigit(s[1]);
    }
    assert !HasHexMarker(s);
    assert DigitPrefix(s) == s;
  }

  /** Without leading white space or sign, `parseInt` is the magnitude of the string. */
  lemma ParseIntUnsigned(u: string)
    requires u == [] || (!IsStrWhiteSpace(u[0]) && u[0] != '-' && u[0] != '+')
    ensures ParseInt(u) == WithSign(Magnitude(u), false)
  {
    assert TrimStart(u) == u;
  }

  /** A minus sign negates the magnitude that follows it. */
  lemma ParseIntNegated(u: string)
    ensures ParseInt("-" + u) == WithSign(Magnitude(u), true)
  {
    var s := "-" + u;
    assert s[0] == '-' && !IsStrWhiteSpace(s[0]);
    assert TrimStart(s) == s;
    assert s[1..] == u;
  }

  /** `parseInt` reads back every decimal rendering, so a user id rendered into the
      session is parsed to the same id. */
  lemma ParseIntOfRender(n: nat)
    ensures ParseInt(Render(n)) == Some(n)
  {
    ParseIntOfDigits(Render(n));
    ValueOfRender(n);
  }

  /** A minus sign in front of a rendering negates the value. */
  lemma ParseIntOfNegative(n: nat)
    ensures ParseInt("-" + Render(n)) == Some(-(n as int))
  {
    ParseIntNegated(Render(n));
    RenderHasNoHexMarker(n);
    ValueOfRender(n);
  }

  lemma RenderHasNoHexMarker(n: nat)
    ensures !HasHexMarker(Render(n))
  {
    var r := Render(n);
    if |r| >= 2 {
      assert IsDigit(r[1]);
    }
  }

  /** Reading stops at the first character that is not a digit; the one exception is an
      "x" or "X" right after a lone "0", which starts a hexadecimal number instead. */
  lemma ParseIntStopsAtNonDigit(n: nat, rest: string)
    requires rest == [] || !IsDigit(rest[0])
    requires n == 0 && rest != [] ==> rest[0] != 'x' && rest[0] != 'X'
    ensures ParseInt(Render(n) + rest) == Some(n)
  {
    var r := Render(n);
    var s := r + rest;
    assert s[0] == r[0];
    ParseIntUnsigned(s);
    NoHexMarkerAfterRender(n, rest);
    DigitPrefixOfConcat(r, rest);
    ValueOfRender(n);
  }

  lemma NoHexMarkerAfterRender(n: nat, rest: string)
    requires n == 0 && rest != [] ==> rest[0] != 'x' && rest[0] != 'X'
    ensures !HasHexMarker(Render(n) + rest)
  {
    var r := Render(n);
    var s := r + rest;
    if |r| >= 2 {
      assert s[1] == r[1] && IsDigit(r[1]);
    } else if |s| >= 2 && s[0] == '0' {
      assert s[1] == rest[0];
    }
  }

  lemma {:induction false} DigitPrefixOfConcat(a: string, b: string)
    requires AllDigits(a)
    requires b == [] || !IsDigit(b[0])
    ensures DigitPrefix(a + b) == a
    decreases |a|
  {
    if a == [] {
      assert a + b == b;
    } else {
      assert (a + b)[1..] == a[1..] + b;
      DigitPrefixOfConcat(a[1..], b);
      assert a == [a[0]] + a[1..];
    }
  }

  /** A "0x" or "0X" marker followed by hexadecimal digits denotes their base-16 value. */
  lemma ParseIntOfHex(h: string, x: char)
    requires |h| >= 1 && AllHex(h) && (x == 'x' || x == 'X')
    ensures ParseInt(['0', x] + h) == Some(HexValue(h))
  {
    var s := ['0', x] + h;
    ParseIntUnsigned(s);
    assert s[2..] == h;
  }

  /** A marker with no hexadecimal digit after it is `NaN`. */
  lemma BareHexMarker()
    ensures ParseInt("0x") == None
  {
    assert TrimStart("0x") == "0x";
    assert "0x"[2..] == [];
    assert HexPrefix([]) == [];
  }

  /** "0" alone is 0: only a marker with digits after it switches the base. */
  lemma ZeroExample()
    ensures ParseInt("0") == Some(0)
  {
    assert TrimStart("0") == "0";
    assert DigitPrefix("0") == "0";
    assert Value("0") == 0;
    assert Magnitude("0") == Some(0);
  }

  /** Hexadecimal letters count after the marker, in either case. */
  lemma HexExample()
    ensures ParseInt("0x1A") == Some(26) && ParseInt("0X1a") == Some(26)
  {
    HexDigitsExample();
    assert TrimStart("0x1A") == "0x1A" && "0x1A"[2..] == "1A";
    assert TrimStart("0X1a") == "0X1a" && "0X1a"[2..] == "1a";
  }

  lemma HexDigitsExample()
    ensures HexPrefix("1A") == "1A" && HexValue("1A") == 26
    ensures HexPrefix("1a") == "1a" && HexValue("1a") == 26
  {
    assert AllHex("1A") && AllHex("1a");
    assert "1A"[..1] == "1" && "1a"[..1] == "1";
  }

  /** "26" is read in base 10. */
  lemma DecimalExample()
    ensures ParseInt("26") == Some(26)
  {
    assert TrimStart("26") == "26";
    assert DigitPrefix("26") == "26";
    assert Value("26") == 26 by {
      assert "26"[..1] == "2";
    }
    assert Magnitude("26") == Some(26);
  }

  /** A decimal point ends the number. */
  lemma FractionExample()
    ensures ParseInt("12.5") == Some(12)
  {
    assert TrimStart("12.5") == "12.5";
    assert DigitPrefix("12.5") == "12" by {
      DigitPrefixOfConcat("12", ".5");
      assert "12" + ".5" == "12.5";
    }
    assert Value("12") == 12 by {
      assert "12"[..1] == "1";
    }
  }
}
