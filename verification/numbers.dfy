/** Conversions between strings and numbers: `parseInt(s, 10)`, which reads a
    year out of a publication date, `Number(s)`, which turns the value of the
    chosen drop-down option back into a year, and `String(n)`, which renders a
    year as the option's value. */
module Numbers {
  import opened Js
  import opened Text

  predicate IsDigit(c: char)
  {
    '0' <= c <= '9'
  }

  predicate AllDigits(s: string)
  {
    forall i :: 0 <= i < |s| ==> IsDigit(s[i])
  }

  function DigitValue(c: char): nat
    requires IsDigit(c)
  {
    c as int - '0' as int
  }

  function DigitChar(d: nat): (c: char)
    requires d < 10
    ensures IsDigit(c) && DigitValue(c) == d
  {
    ('0' as int + d) as char
  }

  /** The value of a run of decimal digits, most significant digit first. */
  function DigitsValue(ds: string): nat
    requires AllDigits(ds)
  {
    if |ds| == 0 then 0 else DigitsValue(ds[..|ds| - 1]) * 10 + DigitValue(ds[|ds| - 1])
  }

  /** The longest prefix of `s` made of decimal digits. */
  function LeadingDigits(s: string): (ds: string)
    ensures |ds| <= |s| && ds == s[..|ds|]
    ensures AllDigits(ds)
    ensures |ds| < |s| ==> !IsDigit(s[|ds|])
  {
    if |s| > 0 && IsDigit(s[0]) then [s[0]] + LeadingDigits(s[1..]) else ""
  }

  /** Whether a numeric literal starts with `-`, and the text after an optional `+` or `-`. */
  function IsNegative(t: string): bool
  {
    |t| > 0 && t[0] == '-'
  }

  function Unsigned(t: string): string
  {
    if |t| > 0 && (t[0] == '-' || t[0] == '+') then t[1..] else t
  }

  function Signed(negative: bool, n: nat): int
  {
    if negative then -(n as int) else n as int
  }

  /** `parseInt(s, 10)`: leading whitespace and one sign are skipped, then the
      longest run of decimal digits is read and the rest ignored; with no digit
      at all the result is NaN. */
  function ParseInt(s: string): (n: Number)
    ensures n == NaN <==> var u := Unsigned(TrimStart(s)); u == "" || !IsDigit(u[0])
    ensures n.Int? && !IsNegative(TrimStart(s)) ==> n.i >= 0
  {
    var t := TrimStart(s);
    var ds := LeadingDigits(Unsigned(t));
    if ds == "" then NaN else Int(Signed(IsNegative(t), DigitsValue(ds)))
  }

  /** `Number(s)`: surrounding whitespace is ignored, the empty string is 0, a
      signed run of decimal digits is its value, anything else is NaN. */
  function ToNumber(s: string): (n: Number)
    ensures AllSpace(s) ==> n == Int(0)
    ensures n.Int? && !IsNegative(Trim(s)) ==> n.i >= 0
  {
    TrimEmptyIffAllSpace(s);
    var t := Trim(s);
    var body := Unsigned(t);
    if t == "" then Int(0)
    else if body != "" && AllDigits(body) then Int(Signed(IsNegative(t), DigitsValue(body)))
    else NaN
  }

  /** Decimal digits of a natural number, without leading zeros. */
  function NatToDecimal(n: nat): (s: string)
    ensures s != "" && AllDigits(s)
    ensures s[0] == '0' ==> n == 0
  {
    if n < 10 then [DigitChar(n)] else NatToDecimal(n / 10) + [DigitChar(n % 10)]
  }

  /** `String(x)` for the numbers of this program. */
  function NumberToString(x: Number): (r: string)
    ensures r != "" && !IsSpace(r[0]) && !IsSpace(r[|r| - 1])
    ensures x.Int? ==> Unsigned(r) != "" && AllDigits(Unsigned(r)) && (IsNegative(r) <==> x.i < 0)
    ensures x.Int? && x.i >= 0 ==> AllDigits(r)
    ensures x.Int? && |Unsigned(r)| > 1 ==> Unsigned(r)[0] != '0'
    ensures x == NaN ==> !IsDigit(r[0]) && r[0] != '-' && r[0] != '+'
  {
    match x
    case Int(k) =>
      if k < 0 then
        var d := NatToDecimal(-k);
        UnsignedOfNegative(d);
        assert ("-" + d)[|d|] == d[|d| - 1];
        "-" + d
      else NatToDecimal(k)
    case NaN => "NaN"
  }

  /** Reading back the decimal digits of `n` gives `n`. */
  lemma {:induction false} DecimalRoundTrip(n: nat)
    ensures DigitsValue(NatToDecimal(n)) == n
  {
    if n >= 10 {
      var s := NatToDecimal(n);
      assert s[..|s| - 1] == NatToDecimal(n / 10);
      DecimalRoundTrip(n / 10);
    }
  }

  /** The digit run of `ds + rest` is `ds` when `rest` does not continue it. */
  lemma {:induction false} LeadingDigitsStops(ds: string, rest: string)
    requires AllDigits(ds)
    requires rest == "" || !IsDigit(rest[0])
    ensures LeadingDigits(ds + rest) == ds
  {
    if ds != "" {
      assert (ds + rest)[1..] == ds[1..] + rest;
      LeadingDigitsStops(ds[1..], rest);
    }
  }

  /** `parseInt` reads a leading run of digits and ignores whatever follows it. */
  lemma ParseIntDigitPrefix(ds: string, rest: string)
    requires ds != "" && AllDigits(ds)
    requires rest == "" || !IsDigit(rest[0])
    ensures ParseInt(ds + rest) == Int(DigitsValue(ds))
  {
    var s := ds + rest;
    assert !IsSpace(s[0]) && s[0] != '-' && s[0] != '+';
    LeadingDigitsStops(ds, rest);
    TrimStartOfNonSpace(s);
  }

  /** `parseInt` reads a run of digits as its value. */
  lemma ParseIntOfDigits(ds: string)
    requires ds != "" && AllDigits(ds)
    ensures ParseInt(ds) == Int(DigitsValue(ds))
  {
    ParseIntDigitPrefix(ds, "");
    assert ds + "" == ds;
  }

  /** `Number(String(x)) == x`: rendering a number as text and reading it back is lossless, NaN included. */
  lemma NumberRoundTrip(x: Number)
    ensures ToNumber(NumberToString(x)) == x
  {
    match x
    case NaN => NaNRoundTrip();
    case Int(k) => IntRoundTrip(k);
  }

  lemma NaNRoundTrip()
    ensures ToNumber("NaN") == NaN
  {
    var s := "NaN";
    assert s[0] == 'N' && s[|s| - 1] == 'N';
    ToNumberOfWord(s);
  }

  /** Text that starts with a character that is neither whitespace, a sign nor a digit is not a number. */
  lemma ToNumberOfWord(s: string)
    requires s != "" && IsTrimmed(s)
    requires !IsDigit(s[0]) && s[0] != '-' && s[0] != '+'
    ensures ToNumber(s) == NaN
  {
    TrimOfTrimmed(s);
    assert Unsigned(s) == s;
  }

  lemma IntRoundTrip(k: int)
    ensures ToNumber(NumberToString(Int(k))) == Int(k)
  {
    if k < 0 {
      var m: nat := -k;
      NegativeRoundTrip(m);
    } else {
      NaturalRoundTrip(k);
    }
  }

  lemma NaturalRoundTrip(k: int)
    requires k >= 0
    ensures ToNumber(NumberToString(Int(k))) == Int(k)
  {
    var d := NatToDecimal(k);
    assert NumberToString(Int(k)) == d;
    DecimalRoundTrip(k);
    ToNumberOfDigits(d);
  }

  lemma NegativeRoundTrip(m: nat)
    requires m > 0
    ensures ToNumber(NumberToString(Int(-(m as int)))) == Int(-(m as int))
  {
    RenderNegative(m);
    ReadNegative(m);
  }

  /** A negative integer is rendered as `-` and the digits of its magnitude. */
  lemma RenderNegative(m: nat)
    requires m > 0
    ensures NumberToString(Int(-(m as int))) == "-" + NatToDecimal(m)
  {
  }

  /** `Number` reads `-` and the digits of `m` back as `-m`. */
  lemma ReadNegative(m: nat)
    ensures ToNumber("-" + NatToDecimal(m)) == Int(-(m as int))
  {
    DecimalRoundTrip(m);
    ToNumberOfNegativeDigits(NatToDecimal(m));
  }

  /** `Number` reads a run of digits as its value. */
  lemma ToNumberOfDigits(ds: string)
    requires ds != "" && AllDigits(ds)
    ensures ToNumber(ds) == Int(DigitsValue(ds))
  {
    assert IsDigit(ds[0]) && IsDigit(ds[|ds| - 1]);
    TrimOfTrimmed(ds);
    assert Unsigned(ds) == ds;
  }

  /** `Number` reads `-` and a run of digits as the negated value. */
  lemma ToNumberOfNegativeDigits(ds: string)
    requires ds != "" && AllDigits(ds)
    ensures ToNumber("-" + ds) == Int(-(DigitsValue(ds) as int))
  {
    var s := "-" + ds;
    assert s[1..] == ds;
    assert Unsigned(s) == ds;
    assert !IsSpace(s[0]) && !IsSpace(s[|s| - 1]) by {
      assert s[|s| - 1] == ds[|ds| - 1];
    }
    TrimOfTrimmed(s);
  }

  /** `parseInt(String(n), 10) == n` for every integer `n`. */
  lemma ParseIntRoundTrip(k: int)
    ensures ParseInt(NumberToString(Int(k))) == Int(k)
  {
    var m: nat := if k < 0 then -k else k;
    var d := NatToDecimal(m);
    DecimalRoundTrip(m);
    if k < 0 {
      ParseIntOfNegativeDigits(d);
    } else {
      ParseIntOfDigits(d);
    }
  }

  /** `parseInt` reads `-` and a run of digits as the negated value. */
  lemma ParseIntOfNegativeDigits(ds: string)
    requires ds != "" && AllDigits(ds)
    ensures ParseInt("-" + ds) == Int(-(DigitsValue(ds) as int))
  {
    UnsignedOfNegative(ds);
    LeadingDigitsOfDigits(ds);
    TrimStartOfNonSpace("-" + ds);
  }

  /** `-` followed by digits is negative, and its digits are what follows the sign. */
  lemma UnsignedOfNegative(ds: string)
    ensures IsNegative("-" + ds) && Unsigned("-" + ds) == ds
  {
    assert ("-" + ds)[1..] == ds;
  }

  /** A run of digits is its own leading digit run. */
  lemma LeadingDigitsOfDigits(ds: string)
    requires AllDigits(ds)
    ensures LeadingDigits(ds) == ds
  {
    LeadingDigitsStops(ds, "");
    assert ds + "" == ds;
  }

}
