/** Building blocks for the regular expressions of the scrapers, each of which is
    written out as a hand-made matcher for its one pattern. A pattern's literal
    text is matched character by character, except that an unescaped `.` matches
    any character but a line feed. */
module Patterns {
  import opened Wrappers
  import opened Strings

  predicate CharMatches(p: char, c: char) {
    if p == '.' then c != '\n' else c == p
  }

  /** The literal part `lit` of a pattern matches `s` at `i`. */
  predicate LiteralAt(s: string, i: nat, lit: string) {
    i + |lit| <= |s| && forall k :: 0 <= k < |lit| ==> CharMatches(lit[k], s[i + k])
  }

  /** A literal always matches its own text. */
  lemma LiteralSelf(s: string, i: nat, lit: string)
    requires i + |lit| <= |s| && s[i..i + |lit|] == lit
    ensures LiteralAt(s, i, lit)
  {
    forall k | 0 <= k < |lit| ensures CharMatches(lit[k], s[i + k]) {
      assert s[i + k] == s[i..i + |lit|][k];
    }
  }

  /** `<lit>([\d]{min,})<term>`: the literal, a run of at least `min` digits and the
      terminator. `term` never starts with a digit, so the run cannot give digits
      back and is the maximal one. */
  predicate DigitCaptureAt(s: string, i: nat, lit: string, min: nat, term: string) {
    LiteralAt(s, i, lit)
    && var e := DigitRunEnd(s, i + |lit|);
       e - (i + |lit|) >= min && OccursAt(s, e, term)
  }

  /** The digits captured by the match at `i`. */
  function DigitCapture(s: string, i: nat, lit: string, min: nat, term: string): (g: string)
    requires DigitCaptureAt(s, i, lit, min, term)
    ensures AllDigits(g) && |g| >= min
    ensures i + |lit| + |g| <= |s| && s[i + |lit|..i + |lit| + |g|] == g
  {
    s[i + |lit|..DigitRunEnd(s, i + |lit|)]
  }

  /** The leftmost match at or after `from`. */
  function FindDigitCapture(s: string, lit: string, min: nat, term: string, from: nat): (r: Option<nat>)
    ensures r.Some? ==> from <= r.value && DigitCaptureAt(s, r.value, lit, min, term)
    ensures r.Some? ==> forall k :: from <= k < r.value ==> !DigitCaptureAt(s, k, lit, min, term)
    ensures r.None? ==> forall k :: from <= k ==> !DigitCaptureAt(s, k, lit, min, term)
    decreases |s| + 1 - from
  {
    if from > |s| then
      assert forall k :: from <= k ==> !LiteralAt(s, k, lit);
      None
    else if DigitCaptureAt(s, from, lit, min, term) then Some(from)
    else FindDigitCapture(s, lit, min, term, from + 1)
  }

  /** A match with none before it (from `from` on) is the one found. */
  lemma FindDigitCaptureIs(s: string, lit: string, min: nat, term: string, from: nat, j: nat)
    requires from <= j && DigitCaptureAt(s, j, lit, min, term)
    requires forall k :: from <= k < j ==> !DigitCaptureAt(s, k, lit, min, term)
    ensures FindDigitCapture(s, lit, min, term, from) == Some(j)
  {
    var r := FindDigitCapture(s, lit, min, term, from);
    assert r.Some?;
    assert !(r.value < j);
    assert !(j < r.value);
  }

  /** Text that starts with the literal, the digits and the terminator is matched
      at once, and the capture is those digits. */
  lemma DigitCaptureOf(lit: string, d: string, term: string, rest: string, min: nat)
    requires AllDigits(d) && |d| >= min
    requires term != [] ==> !IsDigit(term[0])
    requires term == [] ==> rest == [] || !IsDigit(rest[0])
    ensures var s := lit + d + term + rest;
            FindDigitCapture(s, lit, min, term, 0) == Some(0) && DigitCapture(s, 0, lit, min, term) == d
  {
    var s := lit + d + term + rest;
    var a := |lit|;
    var e := a + |d|;
    assert s[..a] == lit;
    LiteralSelf(s, 0, lit);
    forall j | a <= j < e ensures IsDigit(s[j]) {
      assert s[j] == d[j - a];
    }
    if e < |s| {
      assert s[e] == (term + rest)[0] by {
        assert s == (lit + d) + (term + rest);
      }
      DigitRunStops(s, a, e);
    } else {
      DigitRunToEnd(s, a);
    }
    assert s[a..e] == d;
    assert OccursAt(s, e, term) by {
      assert s[e..e + |term|] == term;
    }
    assert DigitCaptureAt(s, 0, lit, min, term);
  }

  /** A match at the start of `tail` is a match at `|pre|` in `pre + tail`, with
      the same capture. */
  lemma DigitCaptureShift(pre: string, tail: string, lit: string, min: nat, term: string)
    requires DigitCaptureAt(tail, 0, lit, min, term)
    ensures DigitCaptureAt(pre + tail, |pre|, lit, min, term)
    ensures DigitCapture(pre + tail, |pre|, lit, min, term) == DigitCapture(tail, 0, lit, min, term)
  {
    var a := |pre|;
    var b := |lit|;
    LiteralShift(pre, tail, lit);
    var e := DigitRunEnd(tail, b);
    DigitRunShift(pre, tail, b);
    SliceShift(pre, tail, e, e + |term|);
    SliceShift(pre, tail, b, e);
  }

  /** A literal at the start of `tail` matches in `pre + tail` at `|pre|`. */
  lemma LiteralShift(pre: string, tail: string, lit: string)
    requires LiteralAt(tail, 0, lit)
    ensures LiteralAt(pre + tail, |pre|, lit)
  {
    forall k | 0 <= k < |lit| ensures CharMatches(lit[k], (pre + tail)[|pre| + k]) {
      assert (pre + tail)[|pre| + k] == tail[k];
    }
  }

  /** The class `[A-z]`: the letters and also `[ \ ] ^ _` and the backquote, the
      six characters between `Z` and `a`. */
  predicate IsAzChar(c: char) {
    'A' <= c <= 'z'
  }

  function AzRunEnd(s: string, i: nat): (e: nat)
    requires i <= |s|
    ensures i <= e <= |s|
    ensures forall k :: i <= k < e ==> IsAzChar(s[k])
    ensures e == |s| || !IsAzChar(s[e])
    decreases |s| - i
  {
    if i < |s| && IsAzChar(s[i]) then AzRunEnd(s, i + 1) else i
  }

  lemma {:induction false} AzRunStops(s: string, k: nat, e: nat)
    requires k <= e < |s| && !IsAzChar(s[e])
    requires forall j :: k <= j < e ==> IsAzChar(s[j])
    ensures AzRunEnd(s, k) == e
    decreases e - k
  {
    if k < e {
      AzRunStops(s, k + 1, e);
    }
  }

  /** The class `\w`: ASCII letters, digits and `_`, and the Latin letters from
      U+00C0 to U+024F other than the signs U+00D7 and U+00F7. Other non-ASCII
      word characters are not in this model of the class. */
  predicate IsWordChar(c: char) {
    ('0' <= c <= '9') || ('A' <= c <= 'Z') || ('a' <= c <= 'z') || c == '_'
    || ('\U{C0}' <= c <= '\U{24F}' && c != '\U{D7}' && c != '\U{F7}')
  }

  /** The end of the `\w` run that starts at `i`. */
  function WordRunEnd(s: string, i: nat): (e: nat)
    requires i <= |s|
    ensures i <= e <= |s|
    ensures forall k :: i <= k < e ==> IsWordChar(s[k])
    ensures e == |s| || !IsWordChar(s[e])
    decreases |s| - i
  {
    if i < |s| && IsWordChar(s[i]) then WordRunEnd(s, i + 1) else i
  }

  lemma {:induction false} WordRunStops(s: string, k: nat, e: nat)
    requires k <= e < |s| && !IsWordChar(s[e])
    requires forall j :: k <= j < e ==> IsWordChar(s[j])
    ensures WordRunEnd(s, k) == e
    decreases e - k
  {
    if k < e {
      WordRunStops(s, k + 1, e);
    }
  }

  /** The class `[\w\s]`. */
  predicate IsWordOrSpace(c: char) {
    IsWordChar(c) || IsWhitespace(c)
  }

  /** The end of the `[\w\s]` run that starts at `i`. */
  function WordSpaceRunEnd(s: string, i: nat): (e: nat)
    requires i <= |s|
    ensures i <= e <= |s|
    ensures forall k :: i <= k < e ==> IsWordOrSpace(s[k])
    ensures e == |s| || !IsWordOrSpace(s[e])
    decreases |s| - i
  {
    if i < |s| && IsWordOrSpace(s[i]) then WordSpaceRunEnd(s, i + 1) else i
  }

  lemma {:induction false} WordSpaceRunStops(s: string, k: nat, e: nat)
    requires k <= e < |s| && !IsWordOrSpace(s[e])
    requires forall j :: k <= j < e ==> IsWordOrSpace(s[j])
    ensures WordSpaceRunEnd(s, k) == e
    decreases e - k
  {
    if k < e {
      WordSpaceRunStops(s, k + 1, e);
    }
  }
  /** A key such as `id=`: plain text without '.', whose last character appears
      nowhere before it in the key. */
  predicate PlainKey(key: string) {
    key != [] && '.' !in key && key[|key| - 1] !in key[..|key| - 1]
  }

  /** A key without '.' matches only its own text. */
  lemma KeyMatch(s: string, k: nat, key: string)
    requires '.' !in key
    ensures LiteralAt(s, k, key) <==> OccursAt(s, k, key)
  {
    if LiteralAt(s, k, key) {
      assert s[k..k + |key|] == key by {
        forall j | 0 <= j < |key| ensures s[k..k + |key|][j] == key[j] {
          assert CharMatches(key[j], s[k + j]);
          assert key[j] != '.' by {
            assert key[j] in key;
          }
        }
      }
    }
    if OccursAt(s, k, key) {
      LiteralSelf(s, k, key);
    }
  }

  /** No match of a plain key starts in `pre` when `pre` does not hold the key,
      even one running into `tail`, which starts with the key: such a match would
      need the key's last character earlier in the key. */
  lemma NoKeyBefore(pre: string, tail: string, key: string)
    requires PlainKey(key) && !Contains(pre, key)
    requires |tail| >= |key| && tail[..|key|] == key
    ensures forall k :: 0 <= k < |pre| ==> !DigitCaptureAt(pre + tail, k, key, 1, "")
  {
    var s := pre + tail;
    var a := |pre|;
    var n := |key|;
    forall k | 0 <= k < a ensures !DigitCaptureAt(s, k, key, 1, "") {
      KeyMatch(s, k, key);
      if k + n <= a {
        assert !OccursAt(pre, k, key);
        assert pre[k..k + n] == s[k..k + n];
      } else if k + n <= |s| {
        var j := k + n - 1 - a;
        assert s[k + n - 1] == tail[j] == key[j];
        assert key[j] == key[..n - 1][j];
        assert s[k..k + n][n - 1] == s[k + n - 1];
      }
    }
  }

  /** Digits standing right after a plain key, with no key in the text before,
      are the ones captured by `<key>([\d]{1,})`. */
  lemma KeyedDigitsOf(pre: string, key: string, d: string, rest: string)
    requires PlainKey(key) && !Contains(pre, key)
    requires AllDigits(d) && d != []
    requires rest == [] || !IsDigit(rest[0])
    ensures var s := pre + key + d + rest;
            FindDigitCapture(s, key, 1, "", 0) == Some(|pre|)
            && DigitCapture(s, |pre|, key, 1, "") == d
  {
    var tail := key + d + rest;
    DigitCaptureOf(key, d, "", rest, 1);
    assert key + d + "" + rest == tail;
    assert tail[..|key|] == key;
    DigitCaptureShift(pre, tail, key, 1, "");
    NoKeyBefore(pre, tail, key);
    FindDigitCaptureIs(pre + tail, key, 1, "", 0, |pre|);
    Regroup(pre, key, d, rest);
  }
}
