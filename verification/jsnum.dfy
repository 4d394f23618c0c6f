/** The slice of JavaScript number semantics the build scripts depend on:
    `parseInt` with its default radix, the `x || d` fallback, `+ 1`, and the
    way a template literal renders a number or an absent array element. */
module JsNumber {
  import opened Results
  import opened Text

  /** A JavaScript number as these scripts produce it: `parseInt` yields NaN
      or an integer, and the scripts only ever add 1 to it. */
  datatype Num = NaN | Int(i: int)

  predicate IsHexDigit(c: char) {
    IsDigit(c) || 'a' <= c <= 'f' || 'A' <= c <= 'F'
  }

  function HexDigitValue(c: char): (v: nat)
    requires IsHexDigit(c)
    ensures v < 16
  {
    if IsDigit(c) then DigitValue(c)
    else if 'a' <= c <= 'f' then c as int - 'a' as int + 10
    else c as int - 'A' as int + 10
  }

  predicate IsRadixDigit(c: char, hex: bool) {
    if hex then IsHexDigit(c) else IsDigit(c)
  }

  /** The number of leading characters of `s` that are digits of the radix. */
  function DigitRun(s: string, hex: bool): (n: nat)
    ensures n <= |s|
    ensures forall k :: 0 <= k < n ==> IsRadixDigit(s[k], hex)
    ensures n < |s| ==> !IsRadixDigit(s[n], hex)
  {
    if |s| == 0 || !IsRadixDigit(s[0], hex) then 0 else 1 + DigitRun(s[1..], hex)
  }

  function HexValue(s: string): nat
    requires forall k :: 0 <= k < |s| ==> IsHexDigit(s[k])
  {
    if |s| == 0 then 0 else HexValue(s[..|s| - 1]) * 16 + HexDigitValue(s[|s| - 1])
  }

  /** `s` starts with the `0x` / `0X` prefix that switches `parseInt` to
      radix 16. */
  predicate HasHexPrefix(s: string) {
    |s| >= 2 && s[0] == '0' && (s[1] == 'x' || s[1] == 'X')
  }

  /** The digits part of `parseInt`, after white space and sign: a `0x`
      prefix selects radix 16, and the longest run of digits that follows is
      read; no digit gives NaN. */
  function ParseUnsigned(u: string): (r: Num)
    ensures r.Int? ==> r.i >= 0
    ensures |u| == 0 || !IsDigit(u[0]) ==> r == NaN
  {
    var hex := HasHexPrefix(u);
    var body := if hex then u[2..] else u;
    var n := DigitRun(body, hex);
    if n == 0 then NaN
    else Int(if hex then HexValue(body[..n]) else DecimalValue(body[..n]))
  }

  function Negate(n: Num): (r: Num)
    ensures r.NaN? <==> n.NaN?
    ensures n.Int? ==> r.i == -n.i
  {
    match n
    case NaN => NaN
    case Int(i) => Int(-i)
  }

  /** JavaScript `parseInt(s)` without a radix argument: leading white space
      is skipped and one sign is accepted before the digits. */
  function ParseInt(s: string): (r: Num)
    ensures |s| == 0 ==> r == NaN
    ensures |s| > 0 && !IsSpace(s[0]) && s[0] != '-' && s[0] != '+' && !IsDigit(s[0]) ==> r == NaN
  {
    if |s| > 0 && !IsSpace(s[0]) then
      TrimStartUntouched(s);
      ParseSigned(s)
    else
      ParseSigned(TrimStart(s))
  }

  /** What `parseInt` reads once the leading white space is gone: one
      optional sign, then the digits. */
  function ParseSigned(t: string): (r: Num)
    ensures |t| > 0 && IsDigit(t[0]) ==> r == ParseUnsigned(t)
    ensures |t| == 0 || (t[0] != '-' && t[0] != '+' && !IsDigit(t[0])) ==> r == NaN
  {
    if |t| > 0 && t[0] == '-' then Negate(ParseUnsigned(t[1..]))
    else if |t| > 0 && t[0] == '+' then ParseUnsigned(t[1..])
    else ParseUnsigned(t)
  }

  /** How a template literal renders an element that may be `undefined`. */
  function ShowPart(o: Option<string>): (r: string)
    ensures o.Some? ==> r == o.value
    ensures o.None? ==> r == "undefined"
  {
    match o
    case Some(s) => s
    case None => "undefined"
  }

  /** `parseInt` applied to an element that may be `undefined`; JavaScript
      first converts `undefined` to the string "undefined". */
  function ParseIntOpt(o: Option<string>): Num {
    ParseInt(ShowPart(o))
  }

  /** `n || d`: NaN and zero are falsy and give the fallback. */
  function OrDefault(n: Num, d: int): (r: int)
    ensures n.Int? && n.i != 0 ==> r == n.i
    ensures n.NaN? || n.i == 0 ==> r == d
    ensures d != 0 ==> r != 0
  {
    if n.Int? && n.i != 0 then n.i else d
  }

  /** `n + 1`; NaN stays NaN. */
  function Succ(n: Num): (r: Num)
    ensures r.NaN? <==> n.NaN?
    ensures n.Int? ==> r.i == n.i + 1
  {
    match n
    case NaN => NaN
    case Int(i) => Int(i + 1)
  }

  /** How a template literal renders a number. */
  function Show(n: Num): (r: string)
    ensures n.NaN? ==> r == "NaN"
    ensures n.Int? && n.i >= 0 ==> Canonical(r) && DecimalValue(r) == n.i
  {
    match n
    case NaN => "NaN"
    case Int(i) => IntToString(i)
  }

  lemma {:induction false} DigitRunAll(s: string, hex: bool)
    requires forall k :: 0 <= k < |s| ==> IsRadixDigit(s[k], hex)
    ensures DigitRun(s, hex) == |s|
    decreases |s|
  {
    if |s| > 0 {
      DigitRunAll(s[1..], hex);
    }
  }

  lemma {:induction false} DigitRunPrefix(d: string, rest: string)
    requires AllDigits(d)
    requires rest == [] || !IsDigit(rest[0])
    ensures DigitRun(d + rest, false) == |d|
    decreases |d|
  {
    if |d| > 0 {
      assert (d + rest)[1..] == d[1..] + rest;
      DigitRunPrefix(d[1..], rest);
    } else {
      assert d + rest == rest;
    }
  }

  lemma TrimStartUntouched(s: string)
    requires |s| > 0 && !IsSpace(s[0])
    ensures TrimStart(s) == s
  {
  }

  /** Without white space or sign in front, `parseInt` reads the digits. */
  lemma ParseIntOfDigitStart(s: string)
    requires |s| > 0 && IsDigit(s[0])
    ensures ParseInt(s) == ParseUnsigned(s)
  {
    assert !IsSpace(s[0]);
    assert ParseInt(s) == ParseSigned(s);
  }

  /** A run of decimal digits followed by anything that is not a digit reads
      as the value of the run (`parseInt("12abc") == 12`). */
  lemma ParseUnsignedDigitsThenText(d: string, rest: string)
    requires AllDigits(d) && |d| >= 1
    requires rest == [] || !IsDigit(rest[0])
    requires |d| == 1 && d[0] == '0' ==> rest == [] || (rest[0] != 'x' && rest[0] != 'X')
    ensures ParseUnsigned(d + rest) == Int(DecimalValue(d))
  {
    var s := d + rest;
    DigitRunPrefix(d, rest);
    assert s[..|d|] == d;
  }

  lemma ParseIntDigitsThenText(d: string, rest: string)
    requires AllDigits(d) && |d| >= 1
    requires rest == [] || !IsDigit(rest[0])
    requires |d| == 1 && d[0] == '0' ==> rest == [] || (rest[0] != 'x' && rest[0] != 'X')
    ensures ParseInt(d + rest) == Int(DecimalValue(d))
  {
    assert (d + rest)[0] == d[0];
    ParseIntOfDigitStart(d + rest);
    ParseUnsignedDigitsThenText(d, rest);
  }

  /** Reading back the rendering of a natural number gives the number. */
  lemma ParseIntOfNatToString(n: nat)
    ensures ParseInt(NatToString(n)) == Int(n)
  {
    var s := NatToString(n);
    ParseIntDigitsThenText(s, []);
    assert s + [] == s;
  }

  /** A leading minus sign negates. */
  lemma ParseIntOfNegative(n: nat)
    ensures ParseInt("-" + NatToString(n)) == Int(0 - n)
  {
    var d := NatToString(n);
    var s := "-" + d;
    TrimStartUntouched(s);
    assert s[1..] == d;
    ParseUnsignedDigitsThenText(d, []);
    assert d + [] == d;
  }

  /** `parseInt(undefined)` is NaN. */
  lemma ParseIntOfUndefined()
    ensures ParseIntOpt(None) == NaN
  {
    var u := ShowPart(None);
    assert |u| > 0 && u[0] == 'u';
    assert !IsSpace(u[0]) && !IsDigit(u[0]);
  }
}
