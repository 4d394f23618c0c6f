/** The string-to-number and string-to-boolean conversions the two widgets
    read their settings with: Kotlin's `toIntOrNull`, `toLongOrNull` and
    `toBoolean`, and Swift's `Int(String)`, `Int64(String)` and
    `Bool(String)`. */
module NumParse {
  import opened Results
  import opened Text

  const Int32Min: int := -0x8000_0000
  const Int32Max: int := 0x7fff_ffff
  const Int64Min: int := -0x8000_0000_0000_0000
  const Int64Max: int := 0x7fff_ffff_ffff_ffff

  /** A value of Kotlin's or Swift's 64-bit integer type. */
  predicate IsInt64(v: int) {
    Int64Min <= v <= Int64Max
  }

  /** The text both platforms accept as a decimal integer: an optional `+`
      or `-` and then one or more digits, with nothing around them. The
      value is unbounded; the width check is separate. */
  function SignedDecimal(s: string): (r: Option<int>)
    ensures r.Some? <==>
      ((|s| > 0 && AllDigits(s)) || (|s| > 1 && (s[0] == '+' || s[0] == '-') && AllDigits(s[1..])))
    ensures r.Some? && s[0] == '-' ==> r.value <= 0
    ensures r.Some? && s[0] != '-' ==> r.value >= 0
  {
    if |s| == 0 then None
    else if s[0] == '+' || s[0] == '-' then
      if |s| > 1 && AllDigits(s[1..]) then
        var v: int := DecimalValue(s[1..]);
        Some(if s[0] == '-' then -v else v)
      else None
    else if AllDigits(s) then Some(DecimalValue(s))
    else None
  }

  /** Integer division as Kotlin, Java and Swift do it: the quotient is
      rounded toward zero, so `-7 / 2` is `-3` where Dafny's `/` gives
      `-4`. */
  function Quot(a: int, b: int): (q: int)
    requires b > 0
    ensures a >= 0 ==> 0 <= q && q * b <= a < (q + 1) * b
    ensures a < 0 ==> q <= 0 && (q - 1) * b < a <= q * b
  {
    if a >= 0 then
      DivBounds(a, b);
      a / b
    else
      var n := -a;
      DivBounds(n, b);
      var q := -(n / b);
      assert (q - 1) * b == -((n / b + 1) * b) && q * b == -((n / b) * b);
      q
  }

  lemma DivBounds(a: nat, b: int)
    requires b > 0
    ensures 0 <= a / b && (a / b) * b <= a < (a / b + 1) * b
  {
    var q, r := a / b, a % b;
    assert a == q * b + r && 0 <= r < b;
    assert (q + 1) * b == q * b + b;
  }

  /** A decimal that fits the range `lo..hi`, `None` for malformed text and
      for overflow. */
  function ParseFixed(s: string, lo: int, hi: int): (r: Option<int>)
    ensures r.Some? ==> lo <= r.value <= hi
    ensures r.Some? <==> SignedDecimal(s).Some? && lo <= SignedDecimal(s).value <= hi
    ensures r.Some? ==> r == SignedDecimal(s)
  {
    match SignedDecimal(s)
    case None => None
    case Some(v) => if lo <= v <= hi then Some(v) else None
  }

  /** Kotlin `String.toIntOrNull()`: a 32-bit `Int` or `null`. */
  function KotlinToInt(s: string): (r: Option<int>)
    ensures r.Some? <==> SignedDecimal(s).Some? && Int32Min <= SignedDecimal(s).value <= Int32Max
    ensures r.Some? ==> r == SignedDecimal(s)
  {
    ParseFixed(s, Int32Min, Int32Max)
  }

  /** Kotlin `String.toLongOrNull()`: a 64-bit `Long` or `null`. */
  function KotlinToLong(s: string): (r: Option<int>)
    ensures r.Some? <==> SignedDecimal(s).Some? && IsInt64(SignedDecimal(s).value)
    ensures r.Some? ==> r == SignedDecimal(s)
  {
    ParseFixed(s, Int64Min, Int64Max)
  }

  /** Swift `Int64(String)` and, on the 64-bit devices the widget runs on,
      `Int(String)`: the same grammar and range as `toLongOrNull`. */
  function SwiftInt64(s: string): (r: Option<int>)
    ensures r.Some? <==> SignedDecimal(s).Some? && IsInt64(SignedDecimal(s).value)
    ensures r.Some? ==> r == SignedDecimal(s)
  {
    ParseFixed(s, Int64Min, Int64Max)
  }

  /** Printing an integer and parsing it back gives the integer, on both
      platforms, whenever it fits the width. */
  lemma ParseOfPrinted(v: int, lo: int, hi: int)
    requires lo <= v <= hi
    ensures ParseFixed(IntToString(v), lo, hi) == Some(v)
  {
    var s := IntToString(v);
    if v < 0 {
      assert s[1..] == NatToString(-v);
    } else {
      assert s == NatToString(v);
    }
  }

  /** An explicit `+` is accepted. */
  lemma ParseOfPlusSigned(n: nat, lo: int, hi: int)
    requires lo <= n <= hi
    ensures ParseFixed("+" + NatToString(n), lo, hi) == Some(n)
  {
    assert ("+" + NatToString(n))[1..] == NatToString(n);
  }

  /** A count beyond 32 bits is `null` to `toIntOrNull` but a value to
      `toLongOrNull` and to Swift. */
  lemma WidthDecides(v: int)
    requires Int32Max < v <= Int64Max
    ensures KotlinToInt(IntToString(v)).None?
    ensures KotlinToLong(IntToString(v)) == Some(v) && SwiftInt64(IntToString(v)) == Some(v)
  {
    ParseOfPrinted(v, Int64Min, Int64Max);
  }

  /** Surrounding blanks make the text unreadable on both platforms. */
  lemma BlanksAreRejected(s: string, lo: int, hi: int)
    requires |s| > 0 && (s[0] == ' ' || s[|s| - 1] == ' ')
    ensures ParseFixed(s, lo, hi).None?
  {
    if |s| > 1 && s[|s| - 1] == ' ' {
      assert s[1..][|s| - 2] == ' ';
    }
  }

  // ---------------------------------------------------------------------
  // Booleans

  /** Kotlin `String.toBoolean()`: `true` in any mix of letter cases. */
  predicate KotlinToBoolean(s: string): (r: bool)
    ensures r ==> |s| == 4 && (s[0] == 't' || s[0] == 'T')
    ensures s == "true" ==> r
  {
    Lower(s) == "true"
  }

  /** Swift `Bool(String)`: exactly `true` or exactly `false`, else `nil`. */
  function SwiftBool(s: string): (r: Option<bool>)
    ensures r == Some(true) <==> s == "true"
    ensures r == Some(false) <==> s == "false"
  {
    if s == "true" then Some(true) else if s == "false" then Some(false) else None
  }

  /** `Bool(s) ?? false`, as the iOS widget reads the playing flag. */
  predicate SwiftFlag(s: string): (r: bool)
    ensures r <==> s == "true"
  {
    SwiftBool(s).Some? && SwiftBool(s).value
  }

  /** The two readings agree except on upper-case spellings of `true`,
      which only Kotlin takes as true. */
  lemma BooleanReadings(s: string)
    ensures SwiftFlag(s) ==> KotlinToBoolean(s)
    ensures KotlinToBoolean(s) && !SwiftFlag(s) <==> Lower(s) == "true" && s != "true"
  {
    if s == "true" {
      assert Lower(s) == s;
    }
  }

  lemma UpperCaseTrue()
    ensures KotlinToBoolean("TRUE") && !SwiftFlag("TRUE")
  {
    assert Lower("TRUE") == "true";
  }
}
