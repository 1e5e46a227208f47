/** The registrations list of a competition: the page carries the list as
    escaped HTML inside a script element; it is unescaped, parsed again, and
    every `li > a` is one registration. */
module RegistrationsList {
  import opened Wrappers
  import opened Strings
  import opened Patterns

  const INT_ERROR: string := "invalid integer"
  const PARTICIPANT_PARAM: string := "deelnemer_id="
  const BAR: string := " | "
  const LT_ENTITY: string := "&lt;"
  const GT_ENTITY: string := "&gt;"

  /** What the selectors find in one `li > a`; `None` where a selector finds
      nothing. Texts are the text nodes of the element, in document order. */
  datatype Item = Item(infoTexts: Option<seq<string>>, eventTexts: Option<seq<string>>, href: Option<string>)

  datatype Element = Element(
    participantId: nat,
    name: string,
    category: string,
    clubName: string,
    teamName: Option<string>,
    events: seq<string>)

  // ---------------------------------------------------------------------------
  // the script text
  // ---------------------------------------------------------------------------

  /** `&lt;` becomes `<`, then `&gt;` becomes `>`, each in one pass. */
  function Unescape(script: string): string {
    ReplaceAll(ReplaceAll(script, LT_ENTITY, "<"), GT_ENTITY, ">")
  }

  /** The escaping that `Unescape` undoes: both angle brackets as entities. */
  function Escape(s: string): string {
    if s == [] then []
    else (if s[0] == '<' then LT_ENTITY else if s[0] == '>' then GT_ENTITY else [s[0]]) + Escape(s[1..])
  }

  /** Only `>` as an entity: what is left after the first pass. */
  function EscapeGt(s: string): string {
    if s == [] then []
    else (if s[0] == '>' then GT_ENTITY else [s[0]]) + EscapeGt(s[1..])
  }

  /** A text with none of the pattern's first character cannot hold the pattern
      anywhere in its first `|a|` positions of `a + t`. */
  lemma NoStartIn(a: string, t: string, pat: string)
    requires |pat| > 0 && pat[0] !in a
    ensures forall k :: 0 <= k < |a| ==> !OccursAt(a + t, k, pat)
  {
    forall k | 0 <= k < |a| ensures !OccursAt(a + t, k, pat) {
      assert (a + t)[k] == a[k] != pat[0];
      if k + |pat| <= |a + t| {
        assert (a + t)[k..k + |pat|][0] == (a + t)[k];
      }
    }
  }

  lemma {:induction false} UnescapeLt(s: string)
    requires '&' !in s
    ensures ReplaceAll(Escape(s), LT_ENTITY, "<") == EscapeGt(s)
  {
    if s != [] {
      UnescapeLt(s[1..]);
      var t := Escape(s[1..]);
      if s[0] == '<' {
        ReplaceAllHead(t, LT_ENTITY, "<");
      } else if s[0] == '>' {
        forall k | 0 <= k < 4 ensures !OccursAt(GT_ENTITY + t, k, LT_ENTITY) {
          if k == 0 {
            assert (GT_ENTITY + t)[1] == 'g';
          } else {
            assert (GT_ENTITY + t)[k] == GT_ENTITY[k] != '&';
            if k + 4 <= |GT_ENTITY + t| {
              assert (GT_ENTITY + t)[k..k + 4][0] == (GT_ENTITY + t)[k];
            }
          }
        }
        ReplaceAllSkip(GT_ENTITY, t, LT_ENTITY, "<");
      } else {
        NoStartIn([s[0]], t, LT_ENTITY);
        ReplaceAllSkip([s[0]], t, LT_ENTITY, "<");
      }
    }
  }

  lemma {:induction false} UnescapeGt(s: string)
    requires '&' !in s
    ensures ReplaceAll(EscapeGt(s), GT_ENTITY, ">") == s
  {
    if s != [] {
      UnescapeGt(s[1..]);
      var t := EscapeGt(s[1..]);
      if s[0] == '>' {
        ReplaceAllHead(t, GT_ENTITY, ">");
      } else {
        NoStartIn([s[0]], t, GT_ENTITY);
        ReplaceAllSkip([s[0]], t, GT_ENTITY, ">");
      }
      assert s == [s[0]] + s[1..];
    }
  }

  /** Unescaping gives back any text without ampersands whose brackets were
      written as entities. */
  lemma UnescapeEscape(s: string)
    requires '&' !in s
    ensures Unescape(Escape(s)) == s
  {
    UnescapeLt(s);
    UnescapeGt(s);
  }

  // ---------------------------------------------------------------------------
  // participant id: `deelnemer_id=([\d]{1,})`
  // ---------------------------------------------------------------------------

  /** The id of the leftmost `deelnemer_id=<digits>`: no match panics, a number
      too large for a u32 is an error. */
  function ParticipantId(href: string): (r: Option<Result<nat>>)
    ensures r.None? <==> FindDigitCapture(href, PARTICIPANT_PARAM, 1, "", 0).None?
    ensures r.Some? && r.value.Ok? ==> r.value.value < U32_BOUND
  {
    match FindDigitCapture(href, PARTICIPANT_PARAM, 1, "", 0)
    case None => None
    case Some(i) =>
      match ParseUnsigned(DigitCapture(href, i, PARTICIPANT_PARAM, 1, ""), U32_BOUND)
      case None => Some(Err(INT_ERROR))
      case Some(n) => Some(Ok(n))
  }

  /** The id is read from the parameter wherever it stands in the link, as long
      as the text before it does not hold the parameter itself. */
  lemma ParticipantIdOf(pre: string, d: string, rest: string)
    requires !Contains(pre, PARTICIPANT_PARAM)
    requires AllDigits(d) && d != []
    requires rest == [] || !IsDigit(rest[0])
    ensures ParticipantId(pre + PARTICIPANT_PARAM + d + rest)
         == Some(if DigitsValue(d) < U32_BOUND then Ok(DigitsValue(d)) else Err(INT_ERROR))
  {
    assert PlainKey(PARTICIPANT_PARAM);
    KeyedDigitsOf(pre, PARTICIPANT_PARAM, d, rest);
    ParseUnsignedDigits(d, U32_BOUND);
  }

  // ---------------------------------------------------------------------------
  // category, club and team: `([\s\S]{1,}) \| ([\s\S]{1,}) \| ([\s\S]{1,})`,
  // else `([\s\S]{1,}) \| ([\s\S]{1,})` (each group may hold any character)
  // ---------------------------------------------------------------------------

  /** The last " | " that starts in `lo..hi`. */
  function LastBar(s: string, lo: nat, hi: int): (r: Option<nat>)
    ensures r.Some? ==> lo <= r.value <= hi && OccursAt(s, r.value, BAR)
    ensures r.Some? ==> forall k :: r.value < k <= hi ==> !OccursAt(s, k, BAR)
    ensures r.None? ==> forall k :: lo <= k <= hi ==> !OccursAt(s, k, BAR)
    decreases hi - lo + 1
  {
    if hi < lo then None
    else if OccursAt(s, hi as nat, BAR) then Some(hi as nat)
    else LastBar(s, lo, hi - 1)
  }

  /** The last bar in a range is the one with none after it. */
  lemma LastBarIs(s: string, lo: nat, hi: int, b: nat)
    requires lo <= b <= hi && OccursAt(s, b, BAR)
    requires forall k :: b < k <= hi ==> !OccursAt(s, k, BAR)
    ensures LastBar(s, lo, hi) == Some(b)
  {
    var r := LastBar(s, lo, hi);
    assert r.Some?;
    assert !(b < r.value);
    assert !(r.value < b);
  }

  /** A match of the three-part pattern with its bars at `a` and `b`: each of
      the three groups is at least one character. */
  predicate ThreeAt(s: string, a: nat, b: nat) {
    1 <= a && a + 4 <= b && b + 4 <= |s| && OccursAt(s, a, BAR) && OccursAt(s, b, BAR)
  }

  /** The bars of the three-part match the regex engine reports: the first
      group as long as possible, then the second. */
  function ThreeParts(s: string): (r: Option<(nat, nat)>)
    ensures r.Some? ==> ThreeAt(s, r.value.0, r.value.1)
    ensures r.Some? ==> forall k :: r.value.1 < k <= |s| - 4 ==> !OccursAt(s, k, BAR)
    ensures r.Some? ==> forall k :: r.value.0 < k <= r.value.1 - 4 ==> !OccursAt(s, k, BAR)
    ensures r.None? ==> forall a, b :: !ThreeAt(s, a, b)
  {
    match LastBar(s, 0, |s| - 4)
    case None => None
    case Some(b) =>
      match LastBar(s, 1, b - 4)
      case None =>
        assert forall a', b' :: !ThreeAt(s, a', b') by {
          forall a': nat, b': nat ensures !ThreeAt(s, a', b') {
            if 1 <= a' && a' + 4 <= b' && b' + 4 <= |s| && OccursAt(s, b', BAR) {
              assert b' <= b;
            }
          }
        }
        None
      case Some(a) => Some((a, b))
  }

  /** The bar of the two-part match: the first group as long as possible. */
  function TwoParts(s: string): (r: Option<nat>)
    ensures r.Some? ==> 1 <= r.value && r.value + 4 <= |s| && OccursAt(s, r.value, BAR)
    ensures r.Some? ==> forall k :: r.value < k <= |s| - 4 ==> !OccursAt(s, k, BAR)
    ensures r.None? ==> forall k :: 1 <= k <= |s| - 4 ==> !OccursAt(s, k, BAR)
  {
    LastBar(s, 1, |s| - 4)
  }

  /** A captured group, trimmed and with one pass of "  " to " ". */
  function Clean(part: string): string {
    ReplaceAll(Trim(part), "  ", " ")
  }

  /** Category, club and, for the three-part form, team; neither form panics. */
  function CategoryClubTeam(s: string): (r: Option<(string, string, Option<string>)>)
    ensures r.None? <==> ThreeParts(s).None? && TwoParts(s).None?
    ensures r.Some? ==> (r.value.2.Some? <==> ThreeParts(s).Some?)
  {
    match ThreeParts(s)
    case Some((a, b)) => Some((Clean(s[..a]), Clean(s[a + 3..b]), Some(Clean(s[b + 3..]))))
    case None =>
      match TwoParts(s)
      case Some(p) => Some((Clean(s[..p]), Clean(s[p + 3..]), None))
      case None => None
  }

  /** Text that holds no bar, and does not begin with `|` (which would make a
      bar with the one before it). */
  predicate BarFree(x: string) {
    x != [] && x[0] != '|' && !Contains(x, BAR)
  }

  /** In `x + " | " + y` with a bar-free `y`, the bar after `x` is the last one:
      no bar starts in `y` or straddles its start. */
  lemma NoBarAfter(x: string, y: string)
    requires BarFree(y)
    ensures forall k :: |x| < k <= |x + BAR + y| - 3 ==> !OccursAt(x + BAR + y, k, BAR)
  {
    var s := x + BAR + y;
    var c := |x| + 3;
    assert s[c..] == y;
    forall k | |x| < k <= |s| - 3 ensures !OccursAt(s, k, BAR) {
      if k < c {
        if k == |x| + 1 {
          assert s[k] == '|';
        } else {
          assert s[k + 1] == y[0];
        }
        assert s[k..k + 3][0] == s[k] && s[k..k + 3][1] == s[k + 1];
      } else {
        assert !OccursAt(y, k - c, BAR);
        assert s[k..k + 3] == y[k - c..k - c + 3];
      }
    }
  }

  /** Category, club and team come back from `category | club | team`. */
  lemma ThreePartsOf(x: string, y: string, z: string)
    requires x != [] && BarFree(y) && BarFree(z)
    ensures ThreeParts(x + BAR + y + BAR + z) == Some((|x|, |x| + 3 + |y|))
  {
    var xy := x + BAR + y;
    var s := xy + BAR + z;
    var a := |x|;
    var b := |xy|;
    assert x + BAR + y + BAR + z == s;
    SecondBar(xy, z);
    LastBarIs(s, 0, |s| - 4, b);
    FirstBar(x, y, z);
    LastBarIs(s, 1, b - 4, a);
  }

  lemma SecondBar(xy: string, z: string)
    requires BarFree(z)
    ensures var s := xy + BAR + z;
            OccursAt(s, |xy|, BAR) && forall k :: |xy| < k <= |s| - 4 ==> !OccursAt(s, k, BAR)
  {
    var s := xy + BAR + z;
    assert s[|xy|..|xy| + 3] == BAR;
    NoBarAfter(xy, z);
  }

  lemma FirstBar(x: string, y: string, z: string)
    requires BarFree(y)
    ensures var xy := x + BAR + y;
            var s := xy + BAR + z;
            OccursAt(s, |x|, BAR) && forall k :: |x| < k <= |xy| - 4 ==> !OccursAt(s, k, BAR)
  {
    var xy := x + BAR + y;
    var s := xy + BAR + z;
    assert s[|x|..|x| + 3] == xy[|x|..|x| + 3] == BAR;
    NoBarAfter(x, y);
    forall k | |x| < k <= |xy| - 4 ensures !OccursAt(s, k, BAR) {
      assert !OccursAt(xy, k, BAR);
      assert s[k..k + 3] == xy[k..k + 3];
    }
  }

  /** Category and club come back from `category | club`, with no team. */
  lemma TwoPartsOf(x: string, y: string)
    requires x != [] && !Contains(x, BAR) && BarFree(y)
    ensures ThreeParts(x + BAR + y).None?
    ensures TwoParts(x + BAR + y) == Some(|x|)
  {
    var s := x + BAR + y;
    var p := |x|;
    SecondBar(x, y);
    LastBarIs(s, 1, |s| - 4, p);
    LastBarIs(s, 0, |s| - 4, p);
    forall k | 1 <= k <= p - 4 ensures !OccursAt(s, k, BAR) {
      assert !OccursAt(x, k, BAR);
      assert s[k..k + 3] == x[k..k + 3];
    }
  }

  /** One pass of "  " to " ": a run of four spaces becomes two, not one. */
  lemma CleanOnePass()
    ensures Clean("a    b") == "a  b"
  {
    TrimFixed("a    b");
    FourSpacesHalved();
    var s := "a    b";
    assert s[..2] != "  " && s[1..] == "    b";
  }

  /** Each pair of the four spaces becomes one space. */
  lemma FourSpacesHalved()
    ensures ReplaceAll("    b", "  ", " ") == "  b"
  {
    assert ReplaceAll("b", "  ", " ") == "b";
    ReplaceAllHead("b", "  ", " ");
    assert "  b" == "  " + "b";
    ReplaceAllHead("  b", "  ", " ");
    assert "    b" == "  " + "  b";
  }

  // ---------------------------------------------------------------------------
  // items
  // ---------------------------------------------------------------------------

  /** `texts[texts.len() - 1]`. */
  function Last(texts: seq<string>): string
    requires texts != []
  {
    texts[|texts| - 1]
  }

  /** One `li > a`, step by step in the source's order. */
  function ItemOutcome(item: Item): (r: Outcome<Element>)
  {
    if item.infoTexts.None? || item.eventTexts.None? || item.href.None? then None
    else
      match ParticipantId(item.href.value)
      case None => None
      case Some(Err(e)) => Some(Err(e))
      case Some(Ok(id)) =>
        var info := NonBlankTexts(item.infoTexts.value);
        if info == [] then None
        else
          match CategoryClubTeam(Last(info))
          case None => None
          case Some(parts) =>
            Some(Ok(Element(
              participantId := id,
              name := ReplaceAll(info[0], "  ", " "),
              category := parts.0,
              clubName := parts.1,
              teamName := parts.2,
              events := NonBlankTexts(item.eventTexts.value))))
  }

  /** What a decoded item holds: the id of the link, the name from the first
      info text, the parts from the last one, and the non-blank event texts. */
  lemma ItemOutcomeOk(item: Item)
    requires ItemOutcome(item).Some? && ItemOutcome(item).value.Ok?
    ensures var e := ItemOutcome(item).value.value;
            && item.infoTexts.Some? && item.eventTexts.Some? && item.href.Some?
            && ParticipantId(item.href.value) == Some(Ok(e.participantId))
            && e.participantId < U32_BOUND
            && NonBlankTexts(item.infoTexts.value) != []
            && e.name == ReplaceAll(NonBlankTexts(item.infoTexts.value)[0], "  ", " ")
            && CategoryClubTeam(Last(NonBlankTexts(item.infoTexts.value)))
               == Some((e.category, e.clubName, e.teamName))
            && e.events == NonBlankTexts(item.eventTexts.value)
            && (forall k :: 0 <= k < |e.events| ==> e.events[k] != [])
  {
  }

  function Outcomes(items: seq<Item>): (r: seq<Outcome<Element>>)
    ensures |r| == |items|
    ensures forall k :: 0 <= k < |items| ==> r[k] == ItemOutcome(items[k])
  {
    seq(|items|, k requires 0 <= k < |items| => ItemOutcome(items[k]))
  }

  /** `registrations_list::parse`. `select` stands for parsing the unescaped
      script as an HTML fragment and selecting its `li > a` elements. A page
      without the script element panics. */
  method Parse(script: Option<string>, select: string -> seq<Item>) returns (r: Result<seq<Element>>)
    requires script.Some?
    requires Collect(Outcomes(select(Unescape(script.value)))).Some?
    ensures r == Collect(Outcomes(select(Unescape(script.value)))).value
  {
    var text := ReplaceAll(script.value, LT_ENTITY, "<");
    text := ReplaceAll(text, GT_ENTITY, ">");
    var items := select(text);
    ghost var outs := Outcomes(items);
    var res: seq<Element> := [];
    PrependEmpty(Collect(outs).value);
    var i := 0;
    while i < |items|
      invariant 0 <= i <= |items|
      invariant Collect(outs[i..]).Some?
      invariant Prepend(res, Collect(outs[i..]).value) == Collect(outs).value
    {
      var out := ItemOutcome(items[i]);
      CollectHead(outs, i);
      assert out == outs[i];
      if out.value.Err? {
        return Err(out.value.error);
      }
      CollectStep(outs, i, res);
      res := res + [out.value.value];
      i := i + 1;
    }
    assert outs[i..] == [] && res + [] == res;
    return Ok(res);
  }
}
