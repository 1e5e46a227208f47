/** The athlete search list: one `div.item-title` per athlete, whose texts give
    the name and "<age> years | <club>", and whose grandparent's `onclick`
    carries the athlete's id after `koppel_id=`.

    An item's outcome is `Option<Result<..>>`: `None` is a panic (a missing
    text, an unmatched pattern, a missing `onclick`), `Some(Err(..))` a number
    that does not fit, passed up with `?`. */
module AthleteList {
  import opened Wrappers
  import opened Strings
  import opened Patterns

  const INT_ERROR: string := "invalid integer"
  const YEARS: string := " years | "
  const ATHLETE_KEY: string := "koppel_id="

  /** What the selector gives for one athlete: the texts of the title, and the
      `onclick` of its grandparent, `None` where the grandparent is missing, is
      not an element or has no `onclick`. */
  datatype Item = Item(texts: seq<string>, onclick: Option<string>)

  datatype Element = Element(id: nat, name: string, clubName: string, age: nat)

  // ---------------------------------------------------------------------------
  // age and club: `([\d]{1,3}) years \| ([\s\S]{1,})`
  // ---------------------------------------------------------------------------

  /** The pattern matches at `i`. " years" starts with a space, so the one to
      three digits are the whole digit run from `i`; the club takes the rest of
      the text, of which there must be at least one character. */
  predicate AgeClubAt(s: string, i: nat) {
    i <= |s|
    && var e := DigitRunEnd(s, i);
       1 <= e - i <= 3 && OccursAt(s, e, YEARS) && e + |YEARS| < |s|
  }

  /** The leftmost match at or after `from`. */
  function FindAgeClub(s: string, from: nat): (r: Option<nat>)
    ensures r.Some? ==> from <= r.value && AgeClubAt(s, r.value)
    ensures r.Some? ==> forall k :: from <= k < r.value ==> !AgeClubAt(s, k)
    ensures r.None? ==> forall k :: from <= k ==> !AgeClubAt(s, k)
    decreases |s| + 1 - from
  {
    if from > |s| then None
    else if AgeClubAt(s, from) then Some(from)
    else FindAgeClub(s, from + 1)
  }

  /** The two captures of the first match: the age digits and the club. */
  function AgeAndClub(s: string): (r: Option<(string, string)>)
    ensures r.Some? ==> AllDigits(r.value.0) && 1 <= |r.value.0| <= 3 && r.value.1 != []
  {
    match FindAgeClub(s, 0)
    case None => None
    case Some(i) =>
      var e := DigitRunEnd(s, i);
      Some((s[i..e], s[e + |YEARS|..]))
  }

  /** There are captures exactly when the pattern matches somewhere; the club is
      the end of the text, and in front of it stand the age and " years | ". */
  lemma AgeAndClubShape(s: string)
    ensures AgeAndClub(s).None? <==> forall k :: 0 <= k ==> !AgeClubAt(s, k)
    ensures AgeAndClub(s).Some? ==>
      var (age, club) := AgeAndClub(s).value;
      && |age| + |YEARS| + |club| <= |s|
      && s[|s| - |club|..] == club
      && s[|s| - |club| - |YEARS| - |age|..|s| - |club|] == age + YEARS
  {
    match FindAgeClub(s, 0)
    case None =>
    case Some(i) =>
      var e := DigitRunEnd(s, i);
      var age := s[i..e];
      var club := s[e + |YEARS|..];
      assert AgeAndClub(s) == Some((age, club));
      assert |s| - |club| == e + |YEARS|;
      assert |s| - |club| - |YEARS| - |age| == i;
      assert s[e..e + |YEARS|] == YEARS;
      SliceSplit(s, i, e, e + |YEARS|);
      assert s[i..e + |YEARS|] == age + YEARS;
  }

  /** A text "<age> years | <club>" gives back that age and that club. */
  lemma AgeAndClubOf(d: string, club: string)
    requires AllDigits(d) && 1 <= |d| <= 3 && club != []
    ensures AgeAndClub(d + YEARS + club) == Some((d, club))
  {
    var s := d + YEARS + club;
    var n := |d|;
    forall j | 0 <= j < n ensures IsDigit(s[j]) {
      assert s[j] == d[j];
    }
    assert s[n] == ' ';
    DigitRunStops(s, 0, n);
    assert s[n..n + |YEARS|] == YEARS;
    assert AgeClubAt(s, 0);
    assert s[..n] == d && s[n + |YEARS|..] == club;
  }

  /** A four-digit number before " years | " does not match from its first digit;
      the leftmost match starts at the second, and the age read is the last
      three digits. */
  lemma AgeOfFourDigits(club: string)
    requires club != []
    ensures AgeAndClub("1234" + YEARS + club) == Some(("234", club))
  {
    var s := "1" + "234" + YEARS + club;
    PiecesOf4("1", "234", YEARS, club);
    assert s[0] == s[0..1][0];
    assert forall j :: 1 <= j < 4 ==> s[j] == s[1..4][j - 1];
    FourDigitsSlices(s);
    assert "1" + "234" == "1234";
  }

  /** Four digits before " years | ": the leftmost match is at the second digit. */
  lemma FourDigitsSlices(s: string)
    requires 4 + |YEARS| < |s| && forall j :: 0 <= j < 4 ==> IsDigit(s[j])
    requires s[4..4 + |YEARS|] == YEARS
    ensures AgeAndClub(s) == Some((s[1..4], s[4 + |YEARS|..]))
  {
    assert s[4] == s[4..4 + |YEARS|][0];
    DigitRunStops(s, 0, 4);
    assert !AgeClubAt(s, 0);
    DigitRunStops(s, 1, 4);
    assert AgeClubAt(s, 1);
    assert FindAgeClub(s, 0) == Some(1);
  }

  // ---------------------------------------------------------------------------
  // athlete id: `koppel_id=([\d]{1,})`
  // ---------------------------------------------------------------------------

  /** The id after the first `koppel_id=` followed by a digit, read as a u32;
      `None` where there is no such id. */
  function AthleteId(onclick: string): (r: Outcome<nat>)
    ensures r.None? <==> FindDigitCapture(onclick, ATHLETE_KEY, 1, "", 0).None?
    ensures r.Some? && r.value.Ok? ==> r.value.value < U32_BOUND
  {
    match FindDigitCapture(onclick, ATHLETE_KEY, 1, "", 0)
    case None => None
    case Some(i) =>
      match ParseUnsigned(DigitCapture(onclick, i, ATHLETE_KEY, 1, ""), U32_BOUND)
      case None => Some(Err(INT_ERROR))
      case Some(n) => Some(Ok(n))
  }

  /** The id is read from the key wherever it stands in the handler, as long as
      the text before it does not hold the key itself; an id above the u32 range
      is an error. */
  lemma AthleteIdOf(pre: string, d: string, rest: string)
    requires !Contains(pre, ATHLETE_KEY)
    requires AllDigits(d) && d != []
    requires rest == [] || !IsDigit(rest[0])
    ensures AthleteId(pre + ATHLETE_KEY + d + rest)
         == Some(if DigitsValue(d) < U32_BOUND then Ok(DigitsValue(d)) else Err(INT_ERROR))
  {
    assert PlainKey(ATHLETE_KEY);
    KeyedDigitsOf(pre, ATHLETE_KEY, d, rest);
    ParseUnsignedDigits(d, U32_BOUND);
  }

  // ---------------------------------------------------------------------------
  // items
  // ---------------------------------------------------------------------------

  /** One item, in the source's order: the texts and the age pattern, the
      `onclick`, the id (parsed first) and then the age. */
  function ItemOutcome(item: Item): Outcome<Element> {
    var texts := NonBlankTexts(item.texts);
    if |texts| < 2 then None
    else
      match AgeAndClub(texts[1])
      case None => None
      case Some(captures) =>
        if item.onclick.None? then None
        else
          match AthleteId(item.onclick.value)
          case None => None
          case Some(Err(e)) => Some(Err(e))
          case Some(Ok(id)) =>
            match ParseUnsigned(captures.0, U8_BOUND)
            case None => Some(Err(INT_ERROR))
            case Some(age) =>
              Some(Ok(Element(
                id := id,
                name := ReplaceAll(texts[0], "  ", " "),
                clubName := captures.1,
                age := age)))
  }

  /** What a decoded item holds: the id of the handler, which fits a u32; the
      first text with double spaces collapsed; and the age and club of the
      second text, the age fitting a u8 and the club never empty. */
  lemma ItemOutcomeOk(item: Item)
    requires ItemOutcome(item).Some? && ItemOutcome(item).value.Ok?
    ensures var e := ItemOutcome(item).value.value;
            var texts := NonBlankTexts(item.texts);
            && |texts| >= 2 && item.onclick.Some?
            && AthleteId(item.onclick.value) == Some(Ok(e.id)) && e.id < U32_BOUND
            && e.name == ReplaceAll(texts[0], "  ", " ")
            && AgeAndClub(texts[1]).Some?
            && e.clubName == AgeAndClub(texts[1]).value.1 && e.clubName != []
            && e.age == DigitsValue(AgeAndClub(texts[1]).value.0) && e.age < U8_BOUND
  {
    var texts := NonBlankTexts(item.texts);
    var captures := AgeAndClub(texts[1]).value;
    ParseUnsignedDigits(captures.0, U8_BOUND);
  }

  /** An age from 256 to 999 matches the pattern but does not fit a u8: the
      whole item, and so the whole list, is an error. */
  lemma AgeTooLarge(item: Item)
    requires |NonBlankTexts(item.texts)| >= 2
    requires AgeAndClub(NonBlankTexts(item.texts)[1]).Some?
    requires item.onclick.Some? && AthleteId(item.onclick.value).Some?
    requires AthleteId(item.onclick.value).value.Ok?
    requires DigitsValue(AgeAndClub(NonBlankTexts(item.texts)[1]).value.0) >= U8_BOUND
    ensures ItemOutcome(item) == Some(Err(INT_ERROR))
  {
    var texts := NonBlankTexts(item.texts);
    var captures := AgeAndClub(texts[1]).value;
    ParseUnsignedDigits(captures.0, U8_BOUND);
    assert ParseUnsigned(captures.0, U8_BOUND).None?;
    var id := AthleteId(item.onclick.value);
    assert id.Some? && id.value.Ok?;
  }

  function Outcomes(items: seq<Item>): (r: seq<Outcome<Element>>)
    ensures |r| == |items|
    ensures forall k :: 0 <= k < |items| ==> r[k] == ItemOutcome(items[k])
  {
    seq(|items|, k requires 0 <= k < |items| => ItemOutcome(items[k]))
  }

  /** `athlete_list::parse`: one element per selected title, in document order;
      the first error ends the list. */
  method Parse(items: seq<Item>) returns (r: Result<seq<Element>>)
    requires Collect(Outcomes(items)).Some?
    ensures r == Collect(Outcomes(items)).value
  {
    ghost var outs := Outcomes(items);
    var res: seq<Element> := [];
    PrependEmpty(Collect(outs).value);
    var i := 0;
    while i < |items|
      invariant 0 <= i <= |items|
      invariant Collect(outs[i..]).Some?
      invariant Prepend(res, Collect(outs[i..]).value) == Collect(outs).value
    {
      var out := ItemOutcome(items[i]);
      CollectHead(outs, i);
      assert out == outs[i];
      if out.value.Err? {
        return Err(out.value.error);
      }
      CollectStep(outs, i, res);
      res := res + [out.value.value];
      i := i + 1;
    }
    assert outs[i..] == [] && res + [] == res;
    return Ok(res);
  }
}
