/** Character classes and string operations of the Rust standard library that the
    scrapers use: `char::is_whitespace`, `str::trim`, `str::replace`, `str::contains`,
    `u32::from_str` (and the other unsigned widths), `to_string` of an integer, and
    the scans that the hand-written regular-expression matchers are built from. */
module Strings {
  import opened Wrappers

  // ---------------------------------------------------------------------------
  // Character classes
  // ---------------------------------------------------------------------------

  /** `char::is_ascii_digit`, and the `[0-9]` class of a pattern. */
  predicate IsDigit(c: char) {
    '0' <= c <= '9'
  }

  function DigitValue(c: char): (d: nat)
    requires IsDigit(c)
    ensures d < 10
  {
    (c as int) - ('0' as int)
  }

  function DigitChar(d: nat): (c: char)
    requires d < 10
    ensures IsDigit(c) && DigitValue(c) == d
  {
    (('0' as int) + d) as char
  }

  /** `char::is_whitespace`: the Unicode White_Space property. */
  predicate IsWhitespace(c: char) {
    ('\t' <= c <= '\r') || c == ' ' || c == '\U{85}' || c == '\U{A0}' || c == '\U{1680}'
    || ('\U{2000}' <= c <= '\U{200A}') || c == '\U{2028}' || c == '\U{2029}'
    || c == '\U{202F}' || c == '\U{205F}' || c == '\U{3000}'
  }

  predicate AllDigits(s: string) {
    forall i :: 0 <= i < |s| ==> IsDigit(s[i])
  }

  predicate AllWhitespace(s: string) {
    forall i :: 0 <= i < |s| ==> IsWhitespace(s[i])
  }

  // ---------------------------------------------------------------------------
  // Substrings
  // ---------------------------------------------------------------------------

  /** `p` occurs in `s` starting at index `i`. */
  predicate OccursAt(s: string, i: nat, p: string) {
    i + |p| <= |s| && s[i..i + |p|] == p
  }

  /** A text occurs where it was put. */
  lemma OccursWherePut(a: string, p: string, b: string)
    ensures OccursAt(a + p + b, |a|, p)
  {
    assert (a + p + b)[|a|..|a| + |p|] == p;
  }

  /** `str::contains`. */
  predicate Contains(s: string, p: string) {
    exists i :: 0 <= i <= |s| && OccursAt(s, i, p)
  }

  /** A text that starts with a non-digit does not occur in a string of digits. */
  lemma DigitsLackMarker(d: string, p: string)
    requires AllDigits(d) && p != [] && !IsDigit(p[0])
    ensures !Contains(d, p)
  {
    forall i | 0 <= i <= |d| ensures !OccursAt(d, i, p) {
      if i + |p| <= |d| {
        assert d[i..i + |p|][0] == d[i];
      }
    }
  }

  /** The end of the run of ASCII digits that starts at `i`. */
  function DigitRunEnd(s: string, i: nat): (e: nat)
    requires i <= |s|
    ensures i <= e <= |s|
    ensures AllDigits(s[i..e])
    ensures e == |s| || !IsDigit(s[e])
    decreases |s| - i
  {
    if i < |s| && IsDigit(s[i]) then DigitRunEnd(s, i + 1) else i
  }

  /** A block of digits at `a` that is followed by a non-digit, or by the end of
      `s`, is the digit run from `a`. */
  lemma DigitBlockEnd(s: string, a: nat, d: string)
    requires AllDigits(d) && a + |d| <= |s| && s[a..a + |d|] == d
    requires a + |d| == |s| || !IsDigit(s[a + |d|])
    ensures DigitRunEnd(s, a) == a + |d|
  {
    forall j | a <= j < a + |d| ensures IsDigit(s[j]) { assert s[j] == d[j - a]; }
    if a + |d| == |s| {
      DigitRunToEnd(s, a);
    } else {
      DigitRunStops(s, a, a + |d|);
    }
  }

  /** Every character of a digit run is a digit. */
  lemma DigitRunHolds(s: string, i: nat, j: nat)
    requires i <= |s| && i <= j < DigitRunEnd(s, i)
    ensures IsDigit(s[j])
  {
  }

  /** The digit run from `k` ends at `e` when `s[k..e]` is digits and `s[e]` is not. */
  lemma {:induction false} DigitRunStops(s: string, k: nat, e: nat)
    requires k <= e < |s| && !IsDigit(s[e])
    requires forall j :: k <= j < e ==> IsDigit(s[j])
    ensures DigitRunEnd(s, k) == e
    decreases e - k
  {
    if k < e {
      DigitRunStops(s, k + 1, e);
    }
  }

  /** A run of digits up to the end of `s` ends there. */
  lemma {:induction false} DigitRunToEnd(s: string, k: nat)
    requires k <= |s| && forall j :: k <= j < |s| ==> IsDigit(s[j])
    ensures DigitRunEnd(s, k) == |s|
    decreases |s| - k
  {
    if k < |s| {
      DigitRunToEnd(s, k + 1);
    }
  }

  /** A digit run of `tail` is the same run in `pre + tail`. */
  lemma DigitRunShift(pre: string, tail: string, b: nat)
    requires b <= |tail|
    ensures DigitRunEnd(pre + tail, |pre| + b) == |pre| + DigitRunEnd(tail, b)
  {
    var s := pre + tail;
    var a := |pre|;
    var e := DigitRunEnd(tail, b);
    forall j | a + b <= j < a + e ensures IsDigit(s[j]) {
      assert s[j] == tail[j - a];
    }
    if e < |tail| {
      assert s[a + e] == tail[e];
      DigitRunStops(s, a + b, a + e);
    } else {
      DigitRunToEnd(s, a + b);
    }
  }

  /** The first index at or after `from` that holds `c`. */
  function IndexOf(s: string, c: char, from: nat): (r: Option<nat>)
    ensures r.Some? ==> from <= r.value < |s| && s[r.value] == c
    ensures r.Some? ==> forall k :: from <= k < r.value ==> s[k] != c
    ensures r.None? ==> forall k :: from <= k < |s| ==> s[k] != c
    decreases |s| - from
  {
    if from >= |s| then None
    else if s[from] == c then Some(from)
    else IndexOf(s, c, from + 1)
  }

  /** The first index at or after `from` where `p` occurs. */
  function Find(s: string, p: string, from: nat): (r: Option<nat>)
    ensures r.Some? ==> from <= r.value && OccursAt(s, r.value, p)
    ensures r.Some? ==> forall k :: from <= k < r.value ==> !OccursAt(s, k, p)
    ensures r.None? ==> forall k :: from <= k ==> !OccursAt(s, k, p)
    decreases |s| - from
  {
    if from + |p| > |s| then None
    else if OccursAt(s, from, p) then Some(from)
    else Find(s, p, from + 1)
  }

  /** An occurrence with none before it (from `from` on) is the one `Find` gives. */
  lemma FindFirstAt(s: string, p: string, from: nat, j: nat)
    requires from <= j && OccursAt(s, j, p)
    requires forall k :: from <= k < j ==> !OccursAt(s, k, p)
    ensures Find(s, p, from) == Some(j)
  {
  }

  // ---------------------------------------------------------------------------
  // trim
  // ---------------------------------------------------------------------------

  function TrimStart(s: string): (r: string)
    ensures |r| <= |s| && r == s[|s| - |r|..]
    ensures AllWhitespace(s[..|s| - |r|])
    ensures r == [] || !IsWhitespace(r[0])
  {
    if |s| > 0 && IsWhitespace(s[0]) then
      var r := TrimStart(s[1..]);
      var n := |s| - |r|;
      assert s[1..][n - 1..] == s[n..];
      assert AllWhitespace(s[..n]) by {
        forall i | 0 <= i < n
          ensures IsWhitespace(s[..n][i])
        {
          if i > 0 {
            assert s[..n][i] == s[1..][..n - 1][i - 1];
          }
        }
      }
      r
    else s
  }

  function TrimEnd(s: string): (r: string)
    ensures |r| <= |s| && r == s[..|r|]
    ensures AllWhitespace(s[|r|..])
    ensures r == [] || !IsWhitespace(r[|r| - 1])
  {
    if |s| > 0 && IsWhitespace(s[|s| - 1]) then
      var r := TrimEnd(s[..|s| - 1]);
      TakeTake(s, |s| - 1, |r|);
      DropLast(s, |r|);
      r
    else s
  }

  /** `str::trim`: the slice of `s` left after dropping white space at both ends. */
  function Trim(s: string): (r: string)
  {
    TrimEnd(TrimStart(s))
  }

  /** What `trim` keeps is a contiguous slice of `s`, everything it drops is white
      space, and what it keeps neither starts nor ends with white space. */
  lemma TrimSlice(s: string)
    ensures exists i, j :: 0 <= i <= j <= |s| && Trim(s) == s[i..j]
                           && AllWhitespace(s[..i]) && AllWhitespace(s[j..])
    ensures Trim(s) == [] || (!IsWhitespace(Trim(s)[0]) && !IsWhitespace(Trim(s)[|Trim(s)| - 1]))
  {
    var a := TrimStart(s);
    var i := |s| - |a|;
    var r := TrimEnd(a);
    var j := i + |r|;
    DropTake(s, i, |r|);
    DropDrop(s, i, |r|);
    assert Trim(s) == s[i..j] && AllWhitespace(s[..i]) && AllWhitespace(s[j..]);
    if r != [] {
      assert r[0] == a[0];
    }
  }

  /** What `trim` keeps neither starts nor ends with white space. */
  lemma TrimEnds(s: string)
    ensures Trim(s) == [] || (!IsWhitespace(Trim(s)[0]) && !IsWhitespace(Trim(s)[|Trim(s)| - 1]))
  {
    var a := TrimStart(s);
    var r := TrimEnd(a);
    if r != [] {
      assert r[0] == a[0];
    }
  }

  /** Every character `trim` keeps is one of the input's. */
  lemma TrimKeepsChars(s: string, bad: string)
    requires forall k :: 0 <= k < |s| ==> s[k] !in bad
    ensures forall k :: 0 <= k < |Trim(s)| ==> Trim(s)[k] !in bad
  {
    var a := TrimStart(s);
    var i := |s| - |a|;
    var r := TrimEnd(a);
    DropTake(s, i, |r|);
    SliceAvoids(s, i, i + |r|, bad);
  }

  /** A string trims to nothing exactly when it is all white space: the "blank"
      test `v.trim().is_empty()` of the scrapers. */
  lemma {:induction false} TrimEmptyIffBlank(s: string)
    ensures Trim(s) == [] <==> AllWhitespace(s)
  {
    var a := TrimStart(s);
    if !AllWhitespace(s) {
      assert a != [];
    }
  }

  /** A text with no white space at either end is its own trim. */
  lemma TrimFixed(s: string)
    requires s == [] || (!IsWhitespace(s[0]) && !IsWhitespace(s[|s| - 1]))
    ensures Trim(s) == s
  {
    assert TrimStart(s) == s;
    assert TrimEnd(s) == s;
  }

  /** Trimming twice is trimming once. */
  lemma TrimIdempotent(s: string)
    ensures Trim(Trim(s)) == Trim(s)
  {
    var r := Trim(s);
    TrimSlice(s);
    TrimFixed(r);
  }

  /** `text().map(trim).filter(non-empty)`: the trimmed texts that are not blank,
      in order. */
  function NonBlankTexts(texts: seq<string>): (r: seq<string>)
    ensures |r| <= |texts|
    ensures forall k :: 0 <= k < |r| ==> r[k] != [] && Trim(r[k]) == r[k]
  {
    if texts == [] then []
    else
      var t := Trim(texts[0]);
      var rest := NonBlankTexts(texts[1..]);
      if t == [] then rest
      else
        TrimIdempotent(texts[0]);
        TrimmedCons(t, rest);
        [t] + rest
  }

  /** Texts that are all trimmed and non-blank stay so with one more in front. */
  lemma TrimmedCons(t: string, rest: seq<string>)
    requires t != [] && Trim(t) == t
    requires forall k :: 0 <= k < |rest| ==> rest[k] != [] && Trim(rest[k]) == rest[k]
    ensures forall k :: 0 <= k < |[t] + rest| ==> ([t] + rest)[k] != [] && Trim(([t] + rest)[k]) == ([t] + rest)[k]
  {
    var r := [t] + rest;
    forall k | 0 <= k < |r| ensures r[k] != [] && Trim(r[k]) == r[k] {
      if k > 0 {
        assert r[k] == rest[k - 1];
      }
    }
  }

  /** The first non-blank text is the trimmed first text that is not all white
      space. */
  lemma {:induction false} FirstNonBlank(texts: seq<string>, k: nat)
    requires k < |texts| && !AllWhitespace(texts[k])
    requires forall j :: 0 <= j < k ==> AllWhitespace(texts[j])
    ensures NonBlankTexts(texts) != [] && NonBlankTexts(texts)[0] == Trim(texts[k])
  {
    if k == 0 {
      NonBlankKept(texts);
    } else {
      NonBlankSkipped(texts);
      forall j | 0 <= j < k - 1 ensures AllWhitespace(texts[1..][j]) {
        assert texts[1..][j] == texts[j + 1];
      }
      FirstNonBlank(texts[1..], k - 1);
    }
  }

  /** A first text that is not blank is kept, trimmed. */
  lemma NonBlankKept(texts: seq<string>)
    requires texts != [] && !AllWhitespace(texts[0])
    ensures NonBlankTexts(texts) == [Trim(texts[0])] + NonBlankTexts(texts[1..])
  {
    TrimEmptyIffBlank(texts[0]);
  }

  /** A blank first text is dropped. */
  lemma NonBlankSkipped(texts: seq<string>)
    requires texts != [] && AllWhitespace(texts[0])
    ensures NonBlankTexts(texts) == NonBlankTexts(texts[1..])
  {
    TrimEmptyIffBlank(texts[0]);
  }

  /** `str::replace(pat, rep)`: one left-to-right pass that replaces every
      non-overlapping occurrence of `pat`; the replacement text is never
      searched again. */
  function ReplaceAll(s: string, pat: string, rep: string): (r: string)
    requires |pat| > 0
    decreases |s|
  {
    if |s| < |pat| then s
    else if s[..|pat|] == pat then rep + ReplaceAll(s[|pat|..], pat, rep)
    else [s[0]] + ReplaceAll(s[1..], pat, rep)
  }

  /** A string without the pattern is left as it is. */
  lemma {:induction false} ReplaceAllAbsent(s: string, pat: string, rep: string)
    requires |pat| > 0
    requires !Contains(s, pat)
    ensures ReplaceAll(s, pat, rep) == s
    decreases |s|
  {
    if |s| >= |pat| {
      assert !OccursAt(s, 0, pat);
      if !Contains(s[1..], pat) {
        ReplaceAllAbsent(s[1..], pat, rep);
      } else {
        var i :| 0 <= i <= |s[1..]| && OccursAt(s[1..], i, pat);
        assert OccursAt(s, i + 1, pat) by {
          assert s[i + 1..i + 1 + |pat|] == s[1..][i..i + |pat|];
        }
      }
    }
  }

  /** A character that the replacement text does not hold is absent from the
      result when it is the (one-character) pattern itself or absent from the input. */
  lemma {:induction false} ReplaceAllExcludes(s: string, pat: string, rep: string, d: char)
    requires |pat| > 0 && d !in rep
    requires pat == [d] || d !in s
    ensures d !in ReplaceAll(s, pat, rep)
    decreases |s|
  {
    if |s| >= |pat| {
      if s[..|pat|] == pat {
        ReplaceAllExcludes(s[|pat|..], pat, rep, d);
      } else {
        if pat == [d] {
          assert s[..1] == [s[0]];
        }
        ReplaceAllExcludes(s[1..], pat, rep, d);
      }
    }
  }

  /** Replacing one character passes over a prefix that does not hold it. */
  lemma {:induction false} ReplaceAllCleanPrefix(a: string, t: string, c: char, rep: string)
    requires c !in a
    ensures ReplaceAll(a + t, [c], rep) == a + ReplaceAll(t, [c], rep)
    decreases |a|
  {
    if a != [] {
      var s := a + t;
      assert s[..|[c]|] == [a[0]] != [c];
      assert s[1..] == a[1..] + t;
      calc {
        ReplaceAll(s, [c], rep);
        [s[0]] + ReplaceAll(s[1..], [c], rep);
        { ReplaceAllCleanPrefix(a[1..], t, c, rep); }
        [a[0]] + (a[1..] + ReplaceAll(t, [c], rep));
        { assert a == [a[0]] + a[1..]; }
        a + ReplaceAll(t, [c], rep);
      }
    } else {
      assert a + t == t;
    }
  }

  /** Regrouping a four-part concatenation. */
  lemma Regroup(a: string, b: string, c: string, d: string)
    ensures a + b + c + d == a + (b + c + d)
  {
  }

  /** Text in front in which no occurrence of the pattern starts is passed over
      unchanged. */
  lemma {:induction false} ReplaceAllSkip(a: string, t: string, pat: string, rep: string)
    requires |pat| > 0
    requires forall k :: 0 <= k < |a| ==> !OccursAt(a + t, k, pat)
    ensures ReplaceAll(a + t, pat, rep) == a + ReplaceAll(t, pat, rep)
    decreases |a|
  {
    if a == [] {
      assert a + t == t;
    } else if |a + t| < |pat| {
      assert ReplaceAll(t, pat, rep) == t;
    } else {
      var s := a + t;
      assert !OccursAt(s, 0, pat);
      assert s[1..] == a[1..] + t;
      forall k | 0 <= k < |a[1..]| ensures !OccursAt(a[1..] + t, k, pat) {
        assert !OccursAt(s, k + 1, pat);
        if k + |pat| <= |a[1..] + t| {
          assert (a[1..] + t)[k..k + |pat|] == s[k + 1..k + 1 + |pat|];
        }
      }
      ReplaceAllSkip(a[1..], t, pat, rep);
      assert a == [a[0]] + a[1..];
    }
  }

  /** The pattern at the front is replaced and the scan goes on after it. */
  lemma ReplaceAllHead(t: string, pat: string, rep: string)
    requires |pat| > 0
    ensures ReplaceAll(pat + t, pat, rep) == rep + ReplaceAll(t, pat, rep)
  {
    assert (pat + t)[..|pat|] == pat && (pat + t)[|pat|..] == t;
  }

  /** A one-character pattern occurs in `s` exactly when `s` holds that character. */
  lemma ContainsChar(s: string, c: char)
    ensures Contains(s, [c]) <==> c in s
  {
    if c in s {
      var i :| 0 <= i < |s| && s[i] == c;
      assert OccursAt(s, i, [c]);
    }
    if Contains(s, [c]) {
      var i :| 0 <= i <= |s| && OccursAt(s, i, [c]);
      assert s[i] == s[i..i + 1][0];
    }
  }

  // ---------------------------------------------------------------------------
  // Decimal numbers
  // ---------------------------------------------------------------------------

  /** The value of a string of ASCII digits, most significant digit first. */
  function DigitsValue(s: string): (v: nat)
    requires AllDigits(s)
  {
    if s == [] then 0 else DigitsValue(s[..|s| - 1]) * 10 + DigitValue(s[|s| - 1])
  }

  /** `to_string` of an unsigned integer: decimal, no sign, no leading zero. */
  function NatToString(n: nat): (r: string)
    ensures |r| >= 1 && AllDigits(r)
    ensures |r| > 1 ==> r[0] != '0'
  {
    if n < 10 then [DigitChar(n)] else NatToString(n / 10) + [DigitChar(n % 10)]
  }

  /** Reading back the decimal text of a number gives the number. */
  lemma {:induction false} NatToStringValue(n: nat)
    ensures DigitsValue(NatToString(n)) == n
  {
    if n >= 10 {
      var p := NatToString(n / 10);
      var r := p + [DigitChar(n % 10)];
      assert r[..|r| - 1] == p;
      NatToStringValue(n / 10);
    }
  }

  /** Different numbers have different decimal texts. */
  lemma NatToStringInjective(m: nat, n: nat)
    requires NatToString(m) == NatToString(n)
    ensures m == n
  {
    NatToStringValue(m);
    NatToStringValue(n);
  }

  /** `<unsigned>::from_str` for an unsigned type whose values are below `bound`:
      an optional leading `+`, then one or more ASCII digits whose value fits.
      The empty string, a lone `+`, any other character and an overflow are errors. */
  function ParseUnsigned(s: string, bound: nat): (r: Option<nat>)
    ensures r.Some? ==> r.value < bound
    ensures r.Some? ==> |s| >= 1 && (AllDigits(s) || (s[0] == '+' && |s| >= 2 && AllDigits(s[1..])))
  {
    var digits := if |s| > 0 && s[0] == '+' then s[1..] else s;
    if digits == [] || !AllDigits(digits) then None
    else if DigitsValue(digits) < bound then Some(DigitsValue(digits))
    else None
  }

  const U8_BOUND: nat := 0x100
  const U16_BOUND: nat := 0x1_0000
  const U32_BOUND: nat := 0x1_0000_0000

  /** Parsing the decimal text of a number that fits gives the number back; one
      that does not fit is an error. */
  lemma ParseUnsignedRoundTrip(n: nat, bound: nat)
    ensures ParseUnsigned(NatToString(n), bound) == if n < bound then Some(n) else None
  {
    NatToStringValue(n);
  }

  /** A string of digits parses exactly when its value fits; the empty string
      never parses. */
  lemma ParseUnsignedDigits(s: string, bound: nat)
    requires AllDigits(s)
    ensures ParseUnsigned(s, bound) == if s != [] && DigitsValue(s) < bound then Some(DigitsValue(s)) else None
  {
  }

  /** `chars().filter(is_ascii_digit)`: the ASCII digits of `s`, in order. */
  function OnlyDigits(s: string): (r: string)
    ensures AllDigits(r) && |r| <= |s|
  {
    if s == [] then [] else (if IsDigit(s[0]) then [s[0]] else []) + OnlyDigits(s[1..])
  }

  lemma {:induction false} OnlyDigitsAppend(a: string, b: string)
    ensures OnlyDigits(a + b) == OnlyDigits(a) + OnlyDigits(b)
    decreases |a|
  {
    if a != [] {
      assert (a + b)[0] == a[0] && (a + b)[1..] == a[1..] + b;
      OnlyDigitsAppend(a[1..], b);
    } else {
      assert a + b == b;
    }
  }

  /** Digits are kept and everything else goes. */
  lemma {:induction false} OnlyDigitsKeepsDigits(s: string)
    ensures AllDigits(s) ==> OnlyDigits(s) == s
    ensures (forall k :: 0 <= k < |s| ==> !IsDigit(s[k])) ==> OnlyDigits(s) == []
  {
    if s != [] {
      OnlyDigitsKeepsDigits(s[1..]);
      assert s == [s[0]] + s[1..];
    }
  }

  // ---------------------------------------------------------------------------
  // Case mapping
  // ---------------------------------------------------------------------------

  /** `char::to_lowercase` on ASCII letters; every other character is kept. */
  function LowerChar(c: char): char {
    if 'A' <= c <= 'Z' then ((c as int) + 32) as char else c
  }

  function LowerAscii(s: string): (r: string)
    ensures |r| == |s|
    ensures forall i :: 0 <= i < |s| ==> r[i] == LowerChar(s[i])
  {
    seq(|s|, i requires 0 <= i < |s| => LowerChar(s[i]))
  }

  /** Lower-casing leaves no capital letter, maps each capital to its small
      letter, keeps every other character, and changes nothing the second time. */
  lemma LowerAsciiFolds(s: string)
    ensures var r := LowerAscii(s);
            && (forall i :: 0 <= i < |r| ==> !('A' <= r[i] <= 'Z'))
            && (forall i :: 0 <= i < |s| && 'A' <= s[i] <= 'Z' ==> 'a' <= r[i] <= 'z' && r[i] as int - s[i] as int == 32)
            && (forall i :: 0 <= i < |s| && !('A' <= s[i] <= 'Z') ==> r[i] == s[i])
            && LowerAscii(r) == r
  {
    var r := LowerAscii(s);
    assert forall i :: 0 <= i < |r| ==> LowerAscii(r)[i] == r[i];
  }
}
