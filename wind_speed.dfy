/** The wind-speed text parser (atletiek-nu-api/src/components/wind_speed.rs). The
    text loses its spaces, its commas become dots, and the first match of
    `([+-])([\d.]{0,})m/s` gives the sign and the magnitude. */
module WindSpeed {
  import opened Wrappers
  import opened Strings
  import opened Decimal

  /** The text the pattern is matched against: `replace(" ", "")` then
      `replace(",", ".")`. */
  function Normalize(text: string): (r: string)
    ensures ' ' !in r && ',' !in r
  {
    var noSpace := ReplaceAll(text, " ", "");
    ReplaceAllExcludes(text, " ", "", ' ');
    ReplaceAllExcludes(noSpace, ",", ".", ' ');
    ReplaceAllExcludes(noSpace, ",", ".", ',');
    ReplaceAll(noSpace, ",", ".")
  }

  predicate IsDigitOrDot(c: char) {
    IsDigit(c) || c == '.'
  }

  /** The end of the maximal `[\d.]` run that starts at `i`. */
  function DigitDotRunEnd(s: string, i: nat): (e: nat)
    requires i <= |s|
    ensures i <= e <= |s|
    ensures forall k :: i <= k < e ==> IsDigitOrDot(s[k])
    ensures e == |s| || !IsDigitOrDot(s[e])
    decreases |s| - i
  {
    if i < |s| && IsDigitOrDot(s[i]) then DigitDotRunEnd(s, i + 1) else i
  }

  /** The pattern matches at `i`. The `[\d.]` run cannot give back characters to
      let `m/s` match earlier, since `m` is neither a digit nor a dot, so the run
      is the maximal one and `m/s` must follow it. */
  predicate WindAt(s: string, i: nat) {
    i < |s| && (s[i] == '+' || s[i] == '-') && OccursAt(s, DigitDotRunEnd(s, i + 1), "m/s")
  }

  /** Capture group 2 of the match at `i`. */
  function Magnitude(s: string, i: nat): (m: string)
    requires WindAt(s, i)
    ensures forall k :: 0 <= k < |m| ==> IsDigitOrDot(m[k])
    ensures i + 1 + |m| <= |s| && s[i + 1..i + 1 + |m|] == m && OccursAt(s, i + 1 + |m|, "m/s")
  {
    s[i + 1..DigitDotRunEnd(s, i + 1)]
  }

  /** Group 2 read as a number. */
  function MagnitudeValue(s: string, i: nat): (v: real)
    requires WindAt(s, i) && ParseFloat(Magnitude(s, i)).Some?
    ensures v >= 0.0
  {
    ParseFloat(Magnitude(s, i)).value
  }

  /** `captures_iter(..).next()`: the leftmost match at or after `from`. */
  function FindWind(s: string, from: nat): (r: Option<nat>)
    ensures r.Some? ==> from <= r.value && WindAt(s, r.value)
    ensures r.Some? ==> forall k :: from <= k < r.value ==> !WindAt(s, k)
    ensures r.None? ==> forall k :: from <= k ==> !WindAt(s, k)
    decreases |s| - from
  {
    if from >= |s| then None
    else if WindAt(s, from) then Some(from)
    else FindWind(s, from + 1)
  }

  /** The magnitude is unwrapped after `parse::<f32>()`, so an empty magnitude or
      one with two dots is a panic; callers must not pass such text. */
  predicate Parsable(text: string) {
    var s := Normalize(text);
    match FindWind(s, 0)
    case None => true
    case Some(i) => ParseFloat(Magnitude(s, i)).Some?
  }

  /** `wind_speed::parse`. `round` stands for `round_float_to_digits(_, 2)`, which
      is not part of this model. The sign is that of the leftmost match, the
      magnitude its rounded group 2, and no match is `None`. The source's branch for
      a sign other than `+` or `-` cannot be taken, since `WindAt` admits only
      those two. */
  function Parse(text: string, round: real -> real): (r: Option<real>)
    requires Parsable(text)
    ensures r.None? <==> forall k: nat :: !WindAt(Normalize(text), k)
    ensures r.Some? ==> FindWind(Normalize(text), 0).Some?
    ensures r.Some? ==>
              var s := Normalize(text);
              var i := FindWind(s, 0).value;
              r.value == if s[i] == '+' then round(MagnitudeValue(s, i)) else -round(MagnitudeValue(s, i))

  {
    var s := Normalize(text);
    match FindWind(s, 0)
    case None => None
    case Some(i) =>
      // `round(value) * sign` with `sign` either 1.0 or -1.0
      Some(if s[i] == '+' then round(MagnitudeValue(s, i)) else -round(MagnitudeValue(s, i)))
  }

  /** Text without spaces or commas is matched as it is. */
  lemma NormalizeClean(text: string)
    requires ' ' !in text && ',' !in text
    ensures Normalize(text) == text
  {
    ContainsChar(text, ' ');
    ReplaceAllAbsent(text, " ", "");
    ContainsChar(text, ',');
    ReplaceAllAbsent(text, ",", ".");
  }

  /** A signed magnitude followed by `m/s`: `+` gives the rounded magnitude and `-`
      its negation. */
  lemma SignedWind(sign: char, m: string, round: real -> real)
    requires sign == '+' || sign == '-'
    requires forall k :: 0 <= k < |m| ==> IsDigitOrDot(m[k])
    requires ParseFloat(m).Some?
    ensures Parsable([sign] + m + "m/s")
    ensures Parse([sign] + m + "m/s", round)
            == Some(if sign == '+' then round(ParseFloat(m).value) else -round(ParseFloat(m).value))
  {
    var s := [sign] + m + "m/s";
    SignedWindText(sign, m);
    NormalizeClean(s);
    assert FindWind(s, 0) == Some(0);
    assert MagnitudeValue(s, 0) == ParseFloat(m).value;
    assert Parsable(s);
    assert s[0] == sign && WindAt(Normalize(s), 0);
    assert Parse(s, round).Some?;
  }

  lemma SignedWindText(sign: char, m: string)
    requires sign == '+' || sign == '-'
    requires forall k :: 0 <= k < |m| ==> IsDigitOrDot(m[k])
    ensures var s := [sign] + m + "m/s";
            ' ' !in s && ',' !in s && WindAt(s, 0) && Magnitude(s, 0) == m
  {
    var s := [sign] + m + "m/s";
    forall k | 0 <= k < |s| ensures s[k] != ' ' && s[k] != ',' {
      if 1 <= k <= |m| { assert s[k] == m[k - 1]; }
    }
    DigitDotRunSuffix(s, 1, |m| + 1);
    assert s[|m| + 1..] == "m/s";
    assert OccursAt(s, |m| + 1, "m/s");
  }

  lemma {:induction false} DigitDotRunSuffix(s: string, k: nat, e: nat)
    requires k <= e < |s| && !IsDigitOrDot(s[e])
    requires forall j :: k <= j < e ==> IsDigitOrDot(s[j])
    ensures DigitDotRunEnd(s, k) == e
    decreases e - k
  {
    if k < e {
      DigitDotRunSuffix(s, k + 1, e);
    }
  }

  /** The source's own examples, with a rounding that keeps two-decimal values. */
  lemma SourceExamplePositive(round: real -> real)
    requires round(2.1) == 2.1
    ensures Parsable("+2.1m/s") && Parse("+2.1m/s", round) == Some(2.1)
  {
    TwoPointOne();
    ExampleText('+', "2.1", "+2.1m/s");
    SignedWind('+', "2.1", round);
  }

  /** The text of an example is the sign, the magnitude and the unit. */
  lemma ExampleText(sign: char, m: string, text: string)
    requires |m| == 3 && IsDigit(m[0]) && m[1] == '.' && IsDigit(m[2])
    requires |text| == 7 && text[0] == sign && text[1..4] == m && text[4..] == "m/s"
    ensures forall k :: 0 <= k < |m| ==> IsDigitOrDot(m[k])
    ensures [sign] + m + "m/s" == text
  {
    assert text == [text[0]] + text[1..4] + text[4..];
  }

  lemma TwoPointOne()
    ensures ParseFloat("2.1") == Some(2.1)
  {
    ParseFloatFixedPoint("2", "1");
    assert "2" + "." + "1" == "2.1";
    assert DecimalValue("2", "1") == 2.1;
  }

  lemma SourceExampleNegative(round: real -> real)
    requires round(1.2) == 1.2
    ensures Parsable("-1.2 m/s") && Parse("-1.2 m/s", round) == Some(-1.2)
  {
    OnePointTwo();
    ExampleText('-', "1.2", "-1.2m/s");
    SignedWind('-', "1.2", round);
    NormalizeExample();
    NormalizeClean("-1.2m/s");
    SameNormalForm("-1.2 m/s", "-1.2m/s", round);
  }

  lemma OnePointTwo()
    ensures ParseFloat("1.2") == Some(1.2)
  {
    ParseFloatFixedPoint("1", "2");
    assert "1" + "." + "2" == "1.2";
    assert DecimalValue("1", "2") == 1.2;
  }

  /** Parsing looks only at the normalised text. */
  lemma SameNormalForm(t: string, u: string, round: real -> real)
    requires Normalize(t) == Normalize(u)
    ensures Parsable(t) == Parsable(u)
    ensures Parsable(t) ==> Parse(t, round) == Parse(u, round)
  {
  }

  /** One space between two clean pieces is dropped. */
  lemma NormalizeOneSpace(a: string, b: string)
    requires ' ' !in a && ',' !in a && ' ' !in b && ',' !in b
    ensures Normalize(a + " " + b) == a + b
  {
    DropOneSpace(a, b);
    var ab := a + b;
    assert ',' !in ab by {
      assert forall k :: 0 <= k < |ab| ==> ab[k] == if k < |a| then a[k] else b[k - |a|];
    }
    ContainsChar(ab, ',');
    ReplaceAllAbsent(ab, ",", ".");
  }

  lemma DropOneSpace(a: string, b: string)
    requires ' ' !in a && ' ' !in b
    ensures ReplaceAll(a + " " + b, " ", "") == a + b
  {
    ReplaceAllCleanPrefix(a, " " + b, ' ', "");
    assert a + " " + b == a + (" " + b);
    ReplaceAllHead(b, " ", "");
    ContainsChar(b, ' ');
    ReplaceAllAbsent(b, " ", "");
    assert "" + b == b;
  }

  lemma NormalizeExample()
    ensures Normalize("-1.2 m/s") == "-1.2m/s"
  {
    NormalizeOneSpace("-1.2", "m/s");
    assert "-1.2" + " " + "m/s" == "-1.2 m/s";
    assert "-1.2" + "m/s" == "-1.2m/s";
  }

  /** Text with no `m/s` after a sign gives no wind. */
  lemma NoUnitNoWind(text: string, round: real -> real)
    requires !Contains(Normalize(text), "m/s")
    ensures Parsable(text) && Parse(text, round) == None
  {

  }
}
