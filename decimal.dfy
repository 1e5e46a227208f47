/** Decimal text to a number, as Rust's `f32::from_str` / `f64::from_str` read it.
    Values are exact `real`s: the binary rounding of `f32`/`f64` is not modelled. */
module Decimal {
  import opened Wrappers
  import opened Strings

  function Pow10(n: nat): (r: nat)
    ensures r >= 1
  {
    if n == 0 then 1 else 10 * Pow10(n - 1)
  }

  /** `x * 10^e` for an exponent of either sign. */
  function Scale(x: real, e: int): real {
    if e >= 0 then x * Pow10(e) as real else x / Pow10(-e) as real
  }

  /** The value of the fixed-point text `<int>.<frac>`. */
  function DecimalValue(intDigits: string, fracDigits: string): (v: real)
    requires AllDigits(intDigits) && AllDigits(fracDigits)
    ensures v >= 0.0
  {
    DigitsValue(intDigits) as real + DigitsValue(fracDigits) as real / Pow10(|fracDigits|) as real
  }

  /** The optional exponent part `[eE][+-]?<digits>`; the empty text is exponent 0. */
  function ParseExponent(t: string): (r: Option<int>)
    ensures t == [] ==> r == Some(0)
    ensures r.Some? && t != [] ==> t[0] == 'e' || t[0] == 'E'
  {
    if t == [] then Some(0)
    else if t[0] != 'e' && t[0] != 'E' then None
    else
      var neg := |t| > 1 && t[1] == '-';
      var digits := if |t| > 1 && (t[1] == '+' || t[1] == '-') then t[2..] else t[1..];
      if digits == [] || !AllDigits(digits) then None
      else Some(if neg then -(DigitsValue(digits) as int) else DigitsValue(digits) as int)
  }

  /** Decimal float text: an optional sign, then a magnitude. */
  function ParseFloat(s: string): (r: Option<real>)
  {
    if |s| > 0 && s[0] == '-' then
      match ParseMagnitude(s[1..])
      case None => None
      case Some(v) => Some(-v)
    else if |s| > 0 && s[0] == '+' then ParseMagnitude(s[1..])
    else ParseMagnitude(s)
  }

  /** An unsigned decimal: digits with at most one `.` and at least one digit in
      all, then an optional exponent; nothing else may follow. */
  function ParseMagnitude(body: string): (r: Option<real>)
    ensures r.Some? ==> r.value >= 0.0
  {
    var a := DigitRunEnd(body, 0);
    var fracStart := if a < |body| && body[a] == '.' then a + 1 else a;
    var b := DigitRunEnd(body, fracStart);
    if a == 0 && b == fracStart then None
    else
      match ParseExponent(body[b..])
      case None => None
      case Some(e) => Some(Scale(DecimalValue(body[..a], body[fracStart..b]), e))
  }

  /** A string of digits is read as the integer it spells. */
  lemma ParseFloatDigits(s: string)
    requires s != [] && AllDigits(s)
    ensures ParseFloat(s) == Some(DigitsValue(s) as real)
  {
    UnsignedText(s);
    assert s + "" == s;
    MagnitudeFixedPoint(s, "", false);
    WholeDecimal(s);
  }

  /** Text that starts with a digit has no sign. */
  lemma UnsignedText(s: string)
    requires s != [] && IsDigit(s[0])
    ensures ParseFloat(s) == ParseMagnitude(s)
  {
  }

  /** Without fraction digits the value is the integer part. */
  lemma WholeDecimal(i: string)
    requires AllDigits(i)
    ensures DecimalValue(i, "") == DigitsValue(i) as real
  {
    assert DigitsValue("") == 0 && Pow10(0) == 1;
  }

  /** The fixed-point text `<int>.<frac>` with at least one digit is read as its
      decimal value; the lone `.` is an error. */
  lemma ParseFloatFixedPoint(i: string, f: string)
    requires AllDigits(i) && AllDigits(f)
    ensures ParseFloat(i + "." + f) == if i == [] && f == [] then None else Some(DecimalValue(i, f))
  {
    var s := i + "." + f;
    assert s[0] != '-' && s[0] != '+' by {
      if i != [] { assert s[0] == i[0]; } else { assert s[0] == '.'; }
    }
    assert s == i + (if true then "." + f else "");
    MagnitudeFixedPoint(i, f, true);
  }

  lemma MagnitudeFixedPoint(i: string, f: string, dot: bool)
    requires AllDigits(i) && AllDigits(f) && (!dot ==> f == [])
    ensures ParseMagnitude(i + (if dot then "." + f else "")) ==
            if i == [] && f == [] then None else Some(DecimalValue(i, f))
  {
    var s := i + (if dot then "." + f else "");
    var a := DigitRunEnd(s, 0);
    if dot {
      assert s[|i|] == '.';
      forall j | 0 <= j < |i| ensures IsDigit(s[j]) { assert s[j] == i[j]; }
      DigitRunStops(s, 0, |i|);
      assert s[|i| + 1..] == f;
      forall j | |i| + 1 <= j < |s| ensures IsDigit(s[j]) { assert s[j] == f[j - |i| - 1]; }
      DigitRunToEnd(s, |i| + 1);
    } else {
      assert s == i;
      DigitRunToEnd(s, 0);
    }
    assert a == |i|;
    assert s[..a] == i;
    var fracStart := if a < |s| && s[a] == '.' then a + 1 else a;
    assert fracStart == if dot then |i| + 1 else |i|;
    var b := DigitRunEnd(s, fracStart);
    assert b == |s|;
    assert s[fracStart..b] == f;
    assert s[b..] == [];
    assert ParseExponent(s[b..]) == Some(0);
    assert Scale(DecimalValue(i, f), 0) == DecimalValue(i, f);
  }

  /** A leading `-` negates what the rest of the text reads as, and a number
      without a leading `-` is never negative. */
  lemma ParseFloatSign(s: string)
    ensures |s| > 0 && s[0] == '-' ==> ParseFloat(s) == match ParseMagnitude(s[1..]) case None => None case Some(v) => Some(-v)
    ensures (|s| == 0 || s[0] != '-') && ParseFloat(s).Some? ==> ParseFloat(s).value >= 0.0
  {
  }
}
