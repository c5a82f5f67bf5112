/**
 * `parseEngagement`: turns an abbreviated count such as `1.2K` into a number. Numbers are
 * exact here: `parseFloat` yields an exact decimal and `Math.round` rounds it exactly.
 * `None` stands for NaN.
 */
module Engagement {
  import opened Wrappers
  import opened Text

  predicate IsDigit(c: char) {
    '0' <= c <= '9'
  }

  /** A digit of base `radix` (10, or 16 after a `0x` prefix). */
  predicate IsRadixDigit(c: char, radix: nat) {
    IsDigit(c) || (radix == 16 && ('A' <= c <= 'F' || 'a' <= c <= 'f'))
  }

  function DigitValue(c: char, radix: nat): (d: nat)
    requires IsRadixDigit(c, radix)
    ensures d < (if radix == 16 then 16 else 10)
  {
    if IsDigit(c) then c as int - '0' as int
    else if 'A' <= c <= 'F' then c as int - 'A' as int + 10
    else c as int - 'a' as int + 10
  }

  /** The value of a run of digits, most significant first. */
  function DigitsValue(ds: string, radix: nat): nat
    requires forall k :: 0 <= k < |ds| ==> IsRadixDigit(ds[k], radix)
  {
    if ds == [] then 0
    else DigitsValue(ds[..|ds| - 1], radix) * radix + DigitValue(ds[|ds| - 1], radix)
  }

  /** The end of the longest run of digits of base `radix` starting at `i`. */
  function DigitsEnd(s: string, i: nat, radix: nat): (r: nat)
    requires i <= |s|
    ensures i <= r <= |s|
    ensures forall k :: i <= k < r ==> IsRadixDigit(s[k], radix)
    ensures r < |s| ==> !IsRadixDigit(s[r], radix)
    decreases |s| - i
  {
    if i < |s| && IsRadixDigit(s[i], radix) then DigitsEnd(s, i + 1, radix) else i
  }

  function Pow(b: nat, e: nat): (r: nat)
    ensures b > 0 ==> r > 0
  {
    if e == 0 then 1 else b * Pow(b, e - 1)
  }

  /** 10 to an integer power, exactly. */
  function Pow10(e: int): (r: real)
    ensures r > 0.0
  {
    if e >= 0 then Pow(10, e) as real else 1.0 / Pow(10, -e) as real
  }

  /** The exponent part `e±ddd` at index `k`, or 0 when there is none. */
  function Exponent(s: string, k: nat): int
    requires k <= |s|
  {
    if k < |s| && (s[k] == 'e' || s[k] == 'E') then
      var neg := k + 1 < |s| && s[k + 1] == '-';
      var m := if k + 1 < |s| && (s[k + 1] == '-' || s[k + 1] == '+') then k + 2 else k + 1;
      var d := DigitsEnd(s, m, 10);
      if d == m then 0
      else if neg then -(DigitsValue(s[m..d], 10) as int)
      else DigitsValue(s[m..d], 10)
    else 0
  }

  /** The index after an optional `+` or `-` at `i`. */
  function SignEnd(s: string, i: nat): (j: nat)
    requires i <= |s|
    ensures i <= j <= |s|
  {
    if i < |s| && (s[i] == '-' || s[i] == '+') then i + 1 else i
  }

  /** An exact decimal number: `mantissa × 10^exponent`, negated when `negative`. */
  datatype Decimal = Decimal(negative: bool, mantissa: nat, exponent: int)

  function Value(d: Decimal): real {
    var v := d.mantissa as real * Pow10(d.exponent);
    if d.negative then -v else v
  }

  /**
   * `parseFloat`: the longest decimal literal after leading white space. The spelled-out
   * `Infinity` is not recognised; the text given to it here is upper-cased, so it cannot
   * contain that word.
   */
  function ParseFloat(s: string): Option<Decimal> {
    var i := SkipSpaces(s, 0);
    match UnsignedDecimal(s, SignEnd(s, i))
    case Some(d) => Some(d.(negative := i < |s| && s[i] == '-'))
    case None => None
  }

  /** The decimal literal without sign at `j`: digits, an optional point and digits, an exponent. */
  function UnsignedDecimal(s: string, j: nat): Option<Decimal>
    requires j <= |s|
  {
    var intEnd := DigitsEnd(s, j, 10);
    var fracStart := if intEnd < |s| && s[intEnd] == '.' then intEnd + 1 else intEnd;
    var fracEnd := DigitsEnd(s, fracStart, 10);
    if intEnd == j && fracEnd == fracStart then None
    else
      var mantissa := DigitsValue(s[j..intEnd] + s[fracStart..fracEnd], 10);
      Some(Decimal(false, mantissa, Exponent(s, fracEnd) - (fracEnd - fracStart)))
  }

  /** `parseInt` without a radix: decimal, or hexadecimal after `0x`/`0X`. */
  function ParseInt(s: string): Option<int> {
    var i := SkipSpaces(s, 0);
    var neg := i < |s| && s[i] == '-';
    var j := if i < |s| && (s[i] == '-' || s[i] == '+') then i + 1 else i;
    var hex := j + 1 < |s| && s[j] == '0' && (s[j + 1] == 'x' || s[j + 1] == 'X');
    var start := if hex then j + 2 else j;
    var radix := if hex then 16 else 10;
    var end := DigitsEnd(s, start, radix);
    if end == start then None
    else
      var n: int := DigitsValue(s[start..end], radix);
      Some(if neg then -n else n)
  }

  /** `Math.round`: the nearest integer, halves going up. */
  function Round(x: real): (r: int)
    ensures x - 0.5 < r as real <= x + 0.5
  {
    (x + 0.5).Floor
  }

  function Scale(x: Option<Decimal>, factor: nat): Option<int> {
    match x
    case Some(d) => Some(Round(Value(d) * factor as real))
    case None => None
  }

  /** The text the branches look at: upper-cased, with every comma removed. */
  function Normalize(s: string): string {
    DeleteAll(Upper(s), ',')
  }

  /** `parseEngagement(value)`, with `None` for a missing value and for a NaN result. */
  function ParseEngagement(value: Option<string>): (r: Option<int>)
    ensures value.None? || value == Some("") ==> r == Some(0)
    ensures r.None? ==> value.Some? && ('K' in Normalize(value.value) || 'M' in Normalize(value.value))
  {
    match value
    case None => Some(0)
    case Some(v) =>
      if v == "" then Some(0)
      else
        var str := Normalize(v);
        if 'K' in str then Scale(ParseFloat(str), 1000)
        else if 'M' in str then Scale(ParseFloat(str), 1000000)
        else Some(ParseInt(str).GetOr(0))
  }

  // ---------------------------------------------------------------------------

  lemma UpperIdempotent(s: string)
    ensures Upper(Upper(s)) == Upper(s)
  {
  }

  lemma {:induction false} UpperDeleteCommute(s: string)
    ensures Upper(DeleteAll(s, ',')) == DeleteAll(Upper(s), ',')
  {
    if s != [] {
      var t := s[1..];
      UpperDeleteCommute(t);
      assert s == [s[0]] + t;
      UpperCons(s[0], t);
      assert Upper(s)[1..] == Upper(t);
      if s[0] != ',' {
        UpperCons(s[0], DeleteAll(t, ','));
      }
    }
  }

  lemma UpperCons(c: char, t: string)
    ensures Upper([c] + t) == [UpperChar(c)] + Upper(t)
  {
    var u := [c] + t;
    var v := [UpperChar(c)] + Upper(t);
    forall i | 0 <= i < |u|
      ensures Upper(u)[i] == v[i]
    {
      if i > 0 {
        assert u[i] == t[i - 1];
      }
    }
  }

  lemma {:induction false} DeleteIdempotent(s: string, c: char)
    ensures DeleteAll(DeleteAll(s, c), c) == DeleteAll(s, c)
  {
  }

  /** Upper- and lower-case letters count the same: `"1.2k"` reads as `"1.2K"`. */
  lemma CaseInsensitive(s: string)
    ensures ParseEngagement(Some(s)) == ParseEngagement(Some(Upper(s)))
  {
    UpperIdempotent(s);
    assert s == "" <==> Upper(s) == "";
  }

  /** Thousands separators are ignored: `"1,234"` reads as `"1234"`. */
  lemma CommasIgnored(s: string)
    ensures ParseEngagement(Some(s)) == ParseEngagement(Some(DeleteAll(s, ',')))
  {
    var d := DeleteAll(s, ',');
    assert Normalize(d) == Normalize(s) by {
      UpperDeleteCommute(s);
      DeleteIdempotent(Upper(s), ',');
    }
    if s == "" {
    } else if d == "" {
      EmptyNormalForm(s);
    } else {
      SameNormalForm(s, d);
    }
  }

  /** Non-empty text whose normal form is empty reads as 0. */
  lemma EmptyNormalForm(v: string)
    requires v != "" && Normalize(v) == ""
    ensures ParseEngagement(Some(v)) == Some(0)
  {
    assert ParseInt("") == None;
  }

  /** Only the normal form of non-empty text decides the count. */
  lemma SameNormalForm(a: string, b: string)
    requires a != "" && b != "" && Normalize(a) == Normalize(b)
    ensures ParseEngagement(Some(a)) == ParseEngagement(Some(b))
  {
  }

  /** Text made only of decimal digits is read as the decimal number it spells. */
  lemma PlainDigits(s: string)
    requires s != [] && forall k :: 0 <= k < |s| ==> IsDigit(s[k])
    ensures ParseEngagement(Some(s)) == Some(DigitsValue(s, 10))
  {
    NormalFormFixed(s);
    assert 'K' !in s && 'M' !in s;
    PlainRule(s);
    ParseIntDigits(s);
  }

  /** With neither `K` nor `M`, the count is `parseInt` of the normalised text, or 0. */
  lemma PlainRule(v: string)
    requires v != "" && 'K' !in Normalize(v) && 'M' !in Normalize(v)
    ensures ParseEngagement(Some(v)) == Some(ParseInt(Normalize(v)).GetOr(0))
  {
  }

  /** `parseInt` of decimal digits alone is the number they spell. */
  lemma ParseIntDigits(s: string)
    requires s != [] && forall k :: 0 <= k < |s| ==> IsDigit(s[k])
    ensures ParseInt(s) == Some(DigitsValue(s, 10))
  {
    assert SkipSpaces(s, 0) == 0;
    DigitsEndAt(s, 0, |s|);
    assert s[0..|s|] == s;
  }

  /** With no `K` and no `M` the result is a number, never NaN. */
  lemma PlainIsNumber(s: string)
    requires 'K' !in Normalize(s) && 'M' !in Normalize(s)
    ensures ParseEngagement(Some(s)).Some?
  {
  }

  // ---------------------------------------------------------------------------
  // Reading literals

  /** A run of decimal digits ends where the digits do. */
  lemma DigitsEndAt(s: string, i: nat, n: nat)
    requires i <= n <= |s|
    requires forall k :: i <= k < n ==> IsDigit(s[k])
    requires n < |s| ==> !IsDigit(s[n])
    ensures DigitsEnd(s, i, 10) == n
  {
  }

  /** `UnsignedDecimal` once the ends of its digit runs are known. */
  lemma UnsignedDecimalValue(s: string, j: nat, intEnd: nat, fracStart: nat, fracEnd: nat)
    requires j < intEnd <= fracStart <= fracEnd <= |s|
    requires DigitsEnd(s, j, 10) == intEnd
    requires fracStart == if intEnd < |s| && s[intEnd] == '.' then intEnd + 1 else intEnd
    requires DigitsEnd(s, fracStart, 10) == fracEnd
    ensures UnsignedDecimal(s, j)
         == Some(Decimal(false, DigitsValue(s[j..intEnd] + s[fracStart..fracEnd], 10), Exponent(s, fracEnd) - (fracEnd - fracStart)))
  {
  }

  /** `parseFloat` of digits, a point and digits reads the decimal fraction they spell. */
  lemma ParseFloatDecimal(s: string, n: nat, k: nat)
    requires 0 < n < k <= |s| && s[n] == '.'
    requires forall i :: 0 <= i < k && i != n ==> IsDigit(s[i])
    requires k < |s| ==> !IsDigit(s[k]) && s[k] != 'e' && s[k] != 'E'
    ensures ParseFloat(s) == Some(Decimal(false, DigitsValue(s[..n] + s[n + 1..k], 10), -(k - n - 1)))
  {
    assert SkipSpaces(s, 0) == 0;
    assert SignEnd(s, 0) == 0;
    DigitsEndAt(s, 0, n);
    DigitsEndAt(s, n + 1, k);
    UnsignedDecimalValue(s, 0, n, n + 1, k);
    assert Exponent(s, k) == 0;
  }

  /** `parseFloat` of digits followed by other text reads the whole number they spell. */
  lemma ParseFloatInteger(s: string, n: nat)
    requires 0 < n <= |s|
    requires forall i :: 0 <= i < n ==> IsDigit(s[i])
    requires n < |s| ==> !IsDigit(s[n]) && s[n] != '.' && s[n] != 'e' && s[n] != 'E'
    ensures ParseFloat(s) == Some(Decimal(false, DigitsValue(s[..n], 10), 0))
  {
    assert SkipSpaces(s, 0) == 0;
    assert SignEnd(s, 0) == 0;
    DigitsEndAt(s, 0, n);
    DigitsEndAt(s, n, n);
    UnsignedDecimalValue(s, 0, n, n, n);
    assert s[n..n] == [];
    assert s[0..n] + s[n..n] == s[..n];
    assert Exponent(s, n) == 0;
  }

  /** The value of two decimal digits. */
  lemma TwoDigits(x: string)
    requires |x| == 2 && IsDigit(x[0]) && IsDigit(x[1])
    ensures DigitsValue(x, 10) == DigitValue(x[0], 10) * 10 + DigitValue(x[1], 10)
  {
    var h := x[..1];
    assert h[0] == x[0] && h[..0] == [];
    assert DigitsValue(h, 10) == DigitValue(x[0], 10);
    assert x[..|x| - 1] == h;
  }

  /** An upper-case text without commas is its own normal form. */
  lemma NormalFormFixed(s: string)
    requires forall k :: 0 <= k < |s| ==> !('a' <= s[k] <= 'z') && s[k] != ','
    ensures Normalize(s) == s
  {
    assert Upper(s) == s;
  }

  /** The scaled values the examples below need. */
  lemma ScaledExamples()
    ensures Scale(Some(Decimal(false, 12, -1)), 1000) == Some(1200)
    ensures Scale(Some(Decimal(false, 12, 0)), 1000) == Some(12000)
    ensures Scale(Some(Decimal(false, 2, 0)), 1000) == Some(2000)
    ensures Scale(Some(Decimal(false, 3, 0)), 1000000) == Some(3000000)
  {
    assert Pow(10, 1) == 10;
    assert Pow10(-1) == 0.1;
    assert Pow10(0) == 1.0;
    assert Value(Decimal(false, 12, -1)) == 1.2;
    assert Round(1200.0) == 1200;
    assert Round(12000.0) == 12000;
    assert Round(2000.0) == 2000;
    assert Round(3000000.0) == 3000000;
  }

  /** A `K` anywhere in the normalised text scales `parseFloat` of it by a thousand. */
  lemma ThousandsRule(v: string)
    requires v != "" && 'K' in Normalize(v)
    ensures ParseEngagement(Some(v)) == Scale(ParseFloat(Normalize(v)), 1000)
  {
  }

  /** Otherwise an `M` anywhere scales it by a million. */
  lemma MillionsRule(v: string)
    requires v != "" && 'K' !in Normalize(v) && 'M' in Normalize(v)
    ensures ParseEngagement(Some(v)) == Scale(ParseFloat(Normalize(v)), 1000000)
  {
  }

  lemma ReadOnePointTwo()
    ensures ParseFloat("1.2K") == Some(Decimal(false, 12, -1))
  {
    var s := "1.2K";
    ParseFloatDecimal(s, 1, 3);
    OneTwo(s);
  }

  lemma OneTwo(s: string)
    requires |s| == 4 && s[0] == '1' && s[2] == '2'
    ensures DigitsValue(s[..1] + s[2..3], 10) == 12
  {
    var x := s[..1] + s[2..3];
    assert x[0] == '1' && x[1] == '2';
    TwoDigits(x);
  }

  /** `"1.2K"` counts 1200, and so does `"1.2k"`. */
  lemma ThousandsExample()
    ensures ParseEngagement(Some("1.2K")) == Some(1200)
    ensures ParseEngagement(Some("1.2k")) == ParseEngagement(Some("1.2K"))
  {
    var s := "1.2K";
    OnePointTwoNormal();
    assert 'K' in s by { assert s[3] == 'K'; }
    ThousandsRule(s);
    ReadOnePointTwo();
    ScaledExamples();
    CaseInsensitive("1.2k");
    UpperOnePointTwo();
  }

  lemma OnePointTwoNormal()
    ensures Normalize("1.2K") == "1.2K"
  {
    NormalFormFixed("1.2K");
  }

  lemma UpperOnePointTwo()
    ensures Upper("1.2k") == "1.2K"
  {
  }

  lemma ReadThree()
    ensures ParseFloat("3M") == Some(Decimal(false, 3, 0))
  {
    var s := "3M";
    ParseFloatInteger(s, 1);
    assert s[..1][..0] == [];
    assert DigitsValue(s[..1], 10) == 3;
  }

  /** `"3M"` counts three million. */
  lemma MillionsExample()
    ensures ParseEngagement(Some("3M")) == Some(3000000)
  {
    var s := "3M";
    NormalFormFixed(s);
    assert 'K' !in s && 'M' in s;
    MillionsRule(s);
    ReadThree();
    ScaledExamples();
  }

  lemma DeleteSeparator()
    ensures DeleteAll("1,234", ',') == "1234"
  {
    assert DeleteAll("234", ',') == "234";
    assert "1,234"[1..] == ",234" && ",234"[1..] == "234";
  }

  lemma FourDigits()
    ensures DigitsValue("1234", 10) == 1234
  {
    assert "1234"[..3] == "123" && "123"[..2] == "12" && "12"[..1] == "1";
  }

  /** `"1,234"` counts 1234. */
  lemma SeparatorExample()
    ensures ParseEngagement(Some("1,234")) == Some(1234)
  {
    CommasIgnored("1,234");
    DeleteSeparator();
    FourDigitsRead();
  }

  lemma FourDigitsRead()
    ensures ParseEngagement(Some("1234")) == Some(1234)
  {
    PlainDigits("1234");
    FourDigits();
  }

  /** A bare `"K"` has no number in front of it: the result is NaN. */
  lemma BareSuffixIsNaN()
    ensures ParseEngagement(Some("K")) == None
  {
    assert Normalize("K") == "K";
    assert SkipSpaces("K", 0) == 0;
    DigitsEndAt("K", 0, 0);
  }

  /**
   * The `K` test looks at the whole text, so a word such as "likes" after the number
   * multiplies it by a thousand, and it wins over a later `M`.
   */
  lemma SuffixAnywhereExample()
    ensures ParseEngagement(Some("12 likes")) == Some(12000)
    ensures ParseEngagement(Some("2 km")) == Some(2000)
  {
    LikesExample();
    KmExample();
  }

  lemma NormalizeLikes()
    ensures Normalize("12 likes") == "12 LIKES"
  {
    assert Upper("12 likes") == "12 LIKES";
    NormalFormFixed("12 LIKES");
  }

  lemma ReadTwelve()
    ensures ParseFloat("12 LIKES") == Some(Decimal(false, 12, 0))
  {
    var s := "12 LIKES";
    ParseFloatInteger(s, 2);
    TwoDigits(s[..2]);
  }

  lemma LikesExample()
    ensures ParseEngagement(Some("12 likes")) == Some(12000)
  {
    var s := "12 LIKES";
    NormalizeLikes();
    assert 'K' in s by { assert s[5] == 'K'; }
    ThousandsRule("12 likes");
    ReadTwelve();
    ScaledExamples();
  }

  lemma NormalizeKm()
    ensures Normalize("2 km") == "2 KM"
  {
    assert Upper("2 km") == "2 KM";
    NormalFormFixed("2 KM");
  }

  lemma ReadTwo()
    ensures ParseFloat("2 KM") == Some(Decimal(false, 2, 0))
  {
    var s := "2 KM";
    ParseFloatInteger(s, 1);
    assert s[..1][..0] == [];
    assert DigitsValue(s[..1], 10) == 2;
  }

  lemma KmExample()
    ensures ParseEngagement(Some("2 km")) == Some(2000)
  {
    var s := "2 KM";
    NormalizeKm();
    assert 'K' in s by { assert s[2] == 'K'; }
    ThousandsRule("2 km");
    ReadTwo();
    ScaledExamples();
  }

  /** A leading minus sign survives: the count read from `-5` is negative. */
  lemma NegativeExample()
    ensures ParseEngagement(Some("-5")) == Some(-5)
  {
    var s := "-5";
    NormalFormFixed(s);
    assert 'K' !in s && 'M' !in s;
    PlainRule(s);
    ReadMinusFive();
  }

  lemma ReadMinusFive()
    ensures ParseInt("-5") == Some(-5)
  {
    var s := "-5";
    assert SkipSpaces(s, 0) == 0;
    DigitsEndAt(s, 1, 2);
    assert s[1..2][..0] == [];
    assert DigitsValue(s[1..2], 10) == 5;
  }
}
