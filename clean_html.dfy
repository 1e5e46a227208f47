/** `clean_html` and `clean_html_re` of atletiek-nu-api/src/util.rs.

    `clean_html` walks the characters once with three pieces of state: whether it is
    inside a tag, whether the current tag has shown a `/`, and a signed nesting depth.
    A character is kept only outside every tag at depth 0. The loop is the method
    `CleanHtml`; `TopLevelText` is the same automaton written as a function, and the
    lemmas state what the loop's output is. */
module HtmlText {
  import opened Wrappers
  import opened Strings

  /** The loop state of `clean_html`: `is_in_tag`, `closing_tag`, `tag_depth`. */
  datatype ScanState = ScanState(inTag: bool, closing: bool, depth: int)

  const Start := ScanState(false, false, 0)

  /** One step of the automaton. */
  function Step(st: ScanState, c: char): ScanState {
    if c == '<' then st.(inTag := true)
    else if c == '>' then ScanState(false, false, if st.closing then st.depth - 1 else st.depth + 1)
    else if st.inTag && c == '/' then st.(closing := true)
    else st
  }

  /** Whether the step on `c` from `st` pushes `c` onto the result. */
  predicate Emits(st: ScanState, c: char) {
    c != '<' && c != '>' && st.depth == 0 && !st.inTag
  }

  /** The state after reading all of `s` from `st`. */
  function EndState(st: ScanState, s: string): ScanState
    decreases |s|
  {
    if s == [] then st else EndState(Step(st, s[0]), s[1..])
  }

  /** What the automaton pushes while reading `s` from `st`. */
  function OutFrom(st: ScanState, s: string): string
    decreases |s|
  {
    if s == [] then []
    else (if Emits(st, s[0]) then [s[0]] else []) + OutFrom(Step(st, s[0]), s[1..])
  }

  /** The text `clean_html` returns for `html`. */
  function TopLevelText(html: string): string {
    OutFrom(Start, html)
  }

  /** `clean_html`: the character loop. */
  method CleanHtml(html: string) returns (res: string)
    ensures res == TopLevelText(html)
  {
    res := [];
    var isInTag := false;
    var closingTag := false;
    var tagDepth := 0;
    var i := 0;
    while i < |html|
      invariant 0 <= i <= |html|
      invariant res + OutFrom(ScanState(isInTag, closingTag, tagDepth), html[i..]) == TopLevelText(html)
    {
      var c := html[i];
      ghost var st := ScanState(isInTag, closingTag, tagDepth);
      ghost var res0 := res;
      OutFromUnfold(st, html, i);
      if c == '<' {
        isInTag := true;
      } else if c == '>' {
        if closingTag {
          tagDepth := tagDepth - 1;
        } else {
          tagDepth := tagDepth + 1;
        }
        closingTag := false;
        isInTag := false;
      } else {
        if isInTag && c == '/' {
          closingTag := true;
        }
        if tagDepth == 0 && !isInTag {
          res := res + [c];
        }
      }
      ghost var e := if Emits(st, c) then [c] else [];
      assert ScanState(isInTag, closingTag, tagDepth) == Step(st, c);
      assert res == res0 + e;
      AppendAssoc(res0, e, OutFrom(Step(st, c), html[i + 1..]));
      i := i + 1;
    }
  }

  /** One character of the loop: reading `s[i..]` is reading `s[i]` and then the rest. */
  lemma OutFromUnfold(st: ScanState, s: string, i: nat)
    requires i < |s|
    ensures OutFrom(st, s[i..]) == (if Emits(st, s[i]) then [s[i]] else []) + OutFrom(Step(st, s[i]), s[i + 1..])
  {
    assert s[i..][0] == s[i];
    assert s[i..][1..] == s[i + 1..];
  }

  // ---------------------------------------------------------------------------
  // What the output is
  // ---------------------------------------------------------------------------

  /** `a` can be obtained from `b` by deleting characters. */
  predicate IsSubsequence(a: string, b: string)
    decreases |b|
  {
    a == [] || (b != [] && ((a[0] == b[0] && IsSubsequence(a[1..], b[1..])) || IsSubsequence(a, b[1..])))
  }

  /** The output keeps input characters in their order and invents none. */
  lemma {:induction false} OutputIsSubsequence(st: ScanState, s: string)
    ensures IsSubsequence(OutFrom(st, s), s)
    decreases |s|
  {
    if s != [] {
      var rest := OutFrom(Step(st, s[0]), s[1..]);
      OutputIsSubsequence(Step(st, s[0]), s[1..]);
      var out := OutFrom(st, s);
      if Emits(st, s[0]) {
        assert out == [s[0]] + rest;
        assert out[0] == s[0] && out[1..] == rest;
      } else {
        assert out == rest;
      }
    }
  }

  /** The output never holds an angle bracket. */
  lemma {:induction false} OutputHasNoBrackets(st: ScanState, s: string)
    ensures forall k :: 0 <= k < |OutFrom(st, s)| ==> OutFrom(st, s)[k] != '<' && OutFrom(st, s)[k] != '>'
    decreases |s|
  {
    if s != [] {
      OutputHasNoBrackets(Step(st, s[0]), s[1..]);
    }
  }

  /** The top-level text of `html`: a subsequence of it without `<` or `>`. */
  lemma TopLevelTextShape(html: string)
    ensures IsSubsequence(TopLevelText(html), html)
    ensures forall k :: 0 <= k < |TopLevelText(html)| ==> TopLevelText(html)[k] !in "<>"
  {
    OutputIsSubsequence(Start, html);
    OutputHasNoBrackets(Start, html);
  }

  predicate NoBrackets(s: string) {
    forall k :: 0 <= k < |s| ==> s[k] != '<' && s[k] != '>'
  }

  /** Text without tags is read without changing the state, and all of it is kept
      when the state is at the top level. */
  lemma {:induction false} PlainTextUnchanged(st: ScanState, s: string)
    requires NoBrackets(s) && !st.inTag
    ensures EndState(st, s) == st
    ensures OutFrom(st, s) == if st.depth == 0 then s else []
    decreases |s|
  {
    if s != [] {
      assert NoBrackets(s[1..]) by { assert forall k :: 0 <= k < |s[1..]| ==> s[1..][k] == s[k + 1]; }
      PlainTextUnchanged(st, s[1..]);
    }
  }

  /** Input with neither `<` nor `>` comes back unchanged. */
  lemma PlainTextKept(html: string)
    requires NoBrackets(html)
    ensures TopLevelText(html) == html
  {
    PlainTextUnchanged(Start, html);
  }

  /** Reading `a + b` is reading `a` and then reading `b` from where `a` left off. */
  lemma {:induction false} OutFromAppend(st: ScanState, a: string, b: string)
    ensures OutFrom(st, a + b) == OutFrom(st, a) + OutFrom(EndState(st, a), b)
    ensures EndState(st, a + b) == EndState(EndState(st, a), b)
    decreases |a|
  {
    if a != [] {
      assert (a + b)[0] == a[0];
      assert (a + b)[1..] == a[1..] + b;
      OutFromAppend(Step(st, a[0]), a[1..], b);
    } else {
      assert a + b == b;
    }
  }

  /** Inside a tag nothing is emitted until its `>`, and the state stays inside
      the tag; the `closing` flag is set exactly when a `/` was read. */
  lemma {:induction false} InsideTag(st: ScanState, t: string)
    requires st.inTag && NoBrackets(t)
    ensures OutFrom(st, t) == []
    ensures EndState(st, t) == st.(closing := st.closing || '/' in t)
    decreases |t|
  {
    if t != [] {
      assert NoBrackets(t[1..]) by { assert forall k :: 0 <= k < |t[1..]| ==> t[1..][k] == t[k + 1]; }
      InsideTag(Step(st, t[0]), t[1..]);
      assert '/' in t <==> t[0] == '/' || '/' in t[1..];
    }
  }

  /** Between a `<` and the next `>` no character is emitted, whatever came before. */
  lemma NothingInsideTagEmitted(before: string, t: string, after: string)
    requires NoBrackets(t)
    ensures TopLevelText(before + "<" + t + after) ==
            TopLevelText(before) + OutFrom(EndState(Start, before + "<" + t), after)
  {
    var st := EndState(Start, before);
    assert before + "<" + t == before + ("<" + t);
    OutFromAppend(Start, before, "<" + t);
    OutFromAppend(Start, before + "<" + t, after);
    assert ("<" + t)[0] == '<' && ("<" + t)[1..] == t;
    InsideTag(Step(st, '<'), t);
  }

  /** A whole tag `<t>` read outside any tag changes the depth by one: down when the
      tag shows a `/` anywhere (`</b>`, `<br/>`, `<a href="/x">`), up otherwise. It
      emits nothing and leaves the automaton outside a tag. */
  lemma WholeTag(st: ScanState, t: string)
    requires !st.inTag && !st.closing && NoBrackets(t)
    ensures OutFrom(st, "<" + t + ">") == []
    ensures EndState(st, "<" + t + ">") == ScanState(false, false, if '/' in t then st.depth - 1 else st.depth + 1)
  {
    var tag := "<" + t + ">";
    assert tag == "<" + (t + ">");
    OutFromAppend(Step(st, '<'), t, ">");
    assert tag[1..] == t + ">";
    InsideTag(Step(st, '<'), t);
  }

  /** Outside a tag the `closing` flag is always clear, so the next tag starts afresh. */
  lemma {:induction false} ClosingOnlyInTag(st: ScanState, s: string)
    requires st.inTag || !st.closing
    ensures EndState(st, s).inTag || !EndState(st, s).closing
    decreases |s|
  {
    if s != [] {
      ClosingOnlyInTag(Step(st, s[0]), s[1..]);
    }
  }

  /** Text nested in a balanced pair `<x>inner</x>` is dropped, and the pair leaves
      the state as it found it, so only the top-level plain text survives. This needs
      the depth before the pair to be non-negative: after a stray closing tag the depth
      is -1, the opening tag brings it to 0, and the nested text is kept. */
  lemma BalancedPairDropped(before: string, name: string, inner: string, after: string)
    requires NoBrackets(name) && '/' !in name && NoBrackets(inner)
    requires !EndState(Start, before).inTag && EndState(Start, before).depth >= 0
    ensures TopLevelText(before + "<" + name + ">" + inner + "</" + name + ">" + after) ==
            TopLevelText(before + after)
  {
    var st := EndState(Start, before);
    ClosingOnlyInTag(Start, before);
    var pair := "<" + name + ">" + inner + "</" + name + ">";
    PairNeutral(st, name, inner);
    assert before + "<" + name + ">" + inner + "</" + name + ">" + after == before + (pair + after);
    OutFromAppend(Start, before, pair + after);
    OutFromAppend(st, pair, after);
    OutFromAppend(Start, before, after);
  }

  /** Read outside a tag at a non-negative depth, a pair `<x>inner</x>` emits nothing
      and leaves the state as it found it. */
  lemma PairNeutral(st: ScanState, name: string, inner: string)
    requires NoBrackets(name) && '/' !in name && NoBrackets(inner)
    requires !st.inTag && !st.closing && st.depth >= 0
    ensures var pair := "<" + name + ">" + inner + "</" + name + ">";
            OutFrom(st, pair) == [] && EndState(st, pair) == st
  {
    var open := "<" + name + ">";
    var close := "</" + name + ">";
    ClosingTagShape(name);
    WholeTag(st, name);
    var st1 := EndState(st, open);
    PlainTextUnchanged(st1, inner);
    WholeTag(st1, "/" + name);
    OutFromAppend(st, open, inner);
    OutFromAppend(st, open + inner, close);
    assert "<" + name + ">" + inner + "</" + name + ">" == open + inner + close;
  }

  /** The closing tag `</x>` is the whole tag `<t>` with `t` the name behind a `/`. */
  lemma ClosingTagShape(name: string)
    requires NoBrackets(name)
    ensures "</" + name + ">" == "<" + ("/" + name) + ">"
    ensures '/' in "/" + name && NoBrackets("/" + name)
  {
    assert ("/" + name)[0] == '/';
    assert forall k :: 0 < k < |"/" + name| ==> ("/" + name)[k] == name[k - 1];
  }

  /** A stray closing tag drives the depth below zero and the text after it is
      dropped. */
  lemma StrayClosingExample()
    ensures TopLevelText("</a>x") == ""
  {
  }

  /** `<br/>` counts as a closing tag, so it hides the text after it. */
  lemma SelfClosingExample()
    ensures TopLevelText("a<br/>b") == "a"
  {
  }

  /** Text nested in a pair is dropped, text around it is kept. */
  lemma NestedExample()
    ensures TopLevelText("x<b>y</b>z") == "xz"
  {
  }

  // ---------------------------------------------------------------------------
  // clean_html_re
  // ---------------------------------------------------------------------------

  /** `clean_html_re`: the pattern `<(.|\n)*?>` used with `replace`, not `replace_all`,
      so only the leftmost match is removed; the lazy repetition ends that match at the
      first `>` after its `<`. When the first `<` has no `>` after it, no `<` has, and
      nothing matches. */
  function RemoveFirstTag(s: string): (r: string)
    ensures FirstTagSpan(s).None? ==> r == s
    ensures FirstTagSpan(s).Some? ==>
              |r| <= |s| - 2 && r == s[..FirstTagSpan(s).value.0] + s[FirstTagSpan(s).value.1 + 1..]
  {
    match FirstTagSpan(s)
    case None => s
    case Some((i, j)) => s[..i] + s[j + 1..]
  }

  /** The leftmost shortest `<...>` span: its `<` is the first `<` of `s`, and its
      `>` is the first `>` after that. */
  function FirstTagSpan(s: string): (r: Option<(nat, nat)>)
    ensures r.Some? ==> r.value.0 < r.value.1 < |s| && s[r.value.0] == '<' && s[r.value.1] == '>'
    ensures r.Some? ==> (forall k :: 0 <= k < r.value.0 ==> s[k] != '<')
                        && (forall k :: r.value.0 < k < r.value.1 ==> s[k] != '>')
    ensures r.None? <==> !exists i, j :: 0 <= i < j < |s| && s[i] == '<' && s[j] == '>'
  {
    match IndexOf(s, '<', 0)
    case None => None
    case Some(i) =>
      match IndexOf(s, '>', i + 1)
      case None =>
        assert forall a, b :: 0 <= a < b < |s| && s[a] == '<' ==> i <= a && s[b] != '>';
        None
      case Some(j) => Some((i, j))
  }

  /** Only the first tag goes. */
  lemma RemoveFirstTagExample()
    ensures RemoveFirstTag("<a>x<b>") == "x<b>"
  {
    assert FirstTagSpan("<a>x<b>") == Some((0, 2));
  }
}
