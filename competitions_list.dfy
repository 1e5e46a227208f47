/** The competitions list of the atletiek.nu app pages: blocks of `li` items, one
    competition per item, decoded into a `CompetitionsListElement`.

    As for the web list, an item's outcome is `Option<Result<..>>`: `None` is a
    panic, `Some(Err(..))` an error passed up with `?`. */
module CompetitionsList {
  import opened Wrappers
  import opened Strings
  import opened Patterns
  import opened HtmlText

  const INT_ERROR: string := "invalid integer"
  const EVENT_PATH: string := "/event&do=get&event_id="
  const REGISTRATIONS: string := " registrations"

  /** What the selectors find in one `li`; `None` where a selector finds nothing.
      `link` is the first `a`, holding its `href` attribute if it has one. */
  datatype Title = Title(texts: seq<string>, waLabel: bool)
  datatype LocationNode = LocationNode(innerHtml: string, clubOnly: bool)
  datatype Info = Info(title: Option<Title>, location: Option<LocationNode>, registrationsHtml: Option<string>)
  datatype Item = Item(link: Option<Option<string>>, info: Option<Info>)

  datatype Element = Element(
    id: nat,
    name: string,
    location: string,
    registrations: nat,
    clubOnly: bool,
    worldAthleticsRecognized: bool)

  /** The id text: the `href` without the event path, or nothing without an `href`. */
  function IdText(href: Option<string>): string {
    match href
    case Some(h) => ReplaceAll(h, EVENT_PATH, "")
    case None => ""
  }

  /** A link to an event's page gives back that event's number. */
  lemma IdTextOfLink(n: nat)
    ensures IdText(Some(EVENT_PATH + NatToString(n))) == NatToString(n)
    ensures ParseUnsigned(IdText(Some(EVENT_PATH + NatToString(n))), U32_BOUND)
         == if n < U32_BOUND then Some(n) else None
  {
    var d := NatToString(n);
    DigitsLackMarker(d, EVENT_PATH);
    ReplaceAllHead(d, EVENT_PATH, "");
    ReplaceAllAbsent(d, EVENT_PATH, "");
    assert "" + d == d;
    ParseUnsignedRoundTrip(n, U32_BOUND);
  }

  /** A link without `href` leaves the id empty, which does not parse. */
  lemma NoHrefNoId()
    ensures ParseUnsigned(IdText(None), U32_BOUND).None?
  {
  }

  /** `([0-9]{1,}) registrations`: the digits of the leftmost match. */
  function RegistrationsText(html: string): (r: Option<string>)
    ensures r.None? <==> FindDigitCapture(html, "", 1, REGISTRATIONS, 0).None?
    ensures r.Some? ==> AllDigits(r.value) && r.value != []
  {
    match FindDigitCapture(html, "", 1, REGISTRATIONS, 0)
    case None => None
    case Some(i) => Some(DigitCapture(html, i, "", 1, REGISTRATIONS))
  }

  /** A count in front of " registrations" is the one read. */
  lemma RegistrationsTextOf(d: string, rest: string)
    requires AllDigits(d) && d != []
    ensures RegistrationsText(d + REGISTRATIONS + rest) == Some(d)
  {
    DigitCaptureOf("", d, REGISTRATIONS, rest, 1);
    assert "" + d + REGISTRATIONS + rest == d + REGISTRATIONS + rest;
  }

  /** The title: its first text that is not blank, trimmed; none panics. */
  function TitleText(texts: seq<string>): (r: Option<string>)
    ensures r.Some? ==> r.value != []
  {
    var kept := NonBlankTexts(texts);
    if kept == [] then None else Some(kept[0])
  }

  /** The title is missing exactly when every text is blank; one that is found
      is already trimmed. */
  lemma TitleTextNone(texts: seq<string>)
    ensures TitleText(texts).None? <==> forall k :: 0 <= k < |texts| ==> AllWhitespace(texts[k])
    ensures TitleText(texts).Some? ==> Trim(TitleText(texts).value) == TitleText(texts).value
  {
    if NonBlankTexts(texts) == [] {
      forall k | 0 <= k < |texts| ensures AllWhitespace(texts[k]) {
        if !AllWhitespace(texts[k]) {
          FirstBlankPrefix(texts, k);
        }
      }
    } else if forall k :: 0 <= k < |texts| ==> AllWhitespace(texts[k]) {
      AllBlankNothingKept(texts);
    }
  }

  /** A text that is not blank has a first such text, which is kept. */
  lemma {:induction false} FirstBlankPrefix(texts: seq<string>, k: nat)
    requires k < |texts| && !AllWhitespace(texts[k])
    ensures NonBlankTexts(texts) != []
    decreases k
  {
    if forall j :: 0 <= j < k ==> AllWhitespace(texts[j]) {
      FirstNonBlank(texts, k);
    } else {
      var j :| 0 <= j < k && !AllWhitespace(texts[j]);
      FirstBlankPrefix(texts, j);
    }
  }

  /** Only blank texts: nothing is kept. */
  lemma {:induction false} AllBlankNothingKept(texts: seq<string>)
    requires forall k :: 0 <= k < |texts| ==> AllWhitespace(texts[k])
    ensures NonBlankTexts(texts) == []
  {
    if texts != [] {
      TrimEmptyIffBlank(texts[0]);
      AllBlankNothingKept(texts[1..]);
    }
  }

  /** The location: the top-level text of the subtitle, trimmed. */
  function LocationText(html: string): string {
    Trim(TopLevelText(html))
  }

  /** The location holds no markup and starts and ends with no white space. */
  lemma LocationTextShape(html: string)
    ensures var r := LocationText(html);
            && (forall k :: 0 <= k < |r| ==> r[k] !in "<>")
            && (r == [] || (!IsWhitespace(r[0]) && !IsWhitespace(r[|r| - 1])))
  {
    var text := TopLevelText(html);
    TopLevelTextShape(html);
    TrimKeepsChars(text, "<>");
    TrimEnds(text);
  }

  /** One item, in the source's order: the unwraps first, then the two parses
      (the id before the registration count) when the element is built. */
  function ItemOutcome(item: Item): (r: Option<Result<Element>>)
  {
    if item.link.None? || item.info.None? then None
    else
      var info := item.info.value;
      if info.title.None? || info.location.None? || info.registrationsHtml.None? then None
      else
        match TitleText(info.title.value.texts)
        case None => None
        case Some(name) =>
        match RegistrationsText(info.registrationsHtml.value)
        case None => None
        case Some(count) =>
          match ParseUnsigned(IdText(item.link.value), U32_BOUND)
          case None => Some(Err(INT_ERROR))
          case Some(id) =>
            match ParseUnsigned(count, U16_BOUND)
            case None => Some(Err(INT_ERROR))
            case Some(n) => Some(Ok(Build(info.title.value, info.location.value, name, id, n)))
  }

  /** The element of an item whose fields were all read. */
  function Build(title: Title, location: LocationNode, name: string, id: nat, n: nat): Element {
    Element(
      id := id,
      name := name,
      location := LocationText(location.innerHtml),
      registrations := n,
      clubOnly := location.clubOnly,
      worldAthleticsRecognized := title.waLabel)
  }

  /** What a decoded item holds: the id is the link's number read as a u32 and
      the count the registrations text read as a u16, the name is the first
      non-blank title text, the location is the item's top-level text without
      markup, and the flags are the marker elements. */
  lemma ItemOutcomeOk(item: Item)
    requires ItemOutcome(item).Some? && ItemOutcome(item).value.Ok?
    ensures var e := ItemOutcome(item).value.value;
            && item.link.Some? && item.info.Some?
            && item.info.value.title.Some? && item.info.value.location.Some?
            && item.info.value.registrationsHtml.Some?
            && ParseUnsigned(IdText(item.link.value), U32_BOUND) == Some(e.id)
            && RegistrationsText(item.info.value.registrationsHtml.value).Some?
            && ParseUnsigned(RegistrationsText(item.info.value.registrationsHtml.value).value, U16_BOUND)
               == Some(e.registrations)
            && e.id < U32_BOUND && e.registrations < U16_BOUND
            && Some(e.name) == TitleText(item.info.value.title.value.texts)
            && e.location == LocationText(item.info.value.location.value.innerHtml)
            && e.clubOnly == item.info.value.location.value.clubOnly
            && e.worldAthleticsRecognized == item.info.value.title.value.waLabel
  {
  }

  /** The outcome of every item of a block, in order. */
  function Outcomes(items: seq<Item>): (r: seq<Outcome<Element>>)
    ensures |r| == |items|
    ensures forall k :: 0 <= k < |items| ==> r[k] == ItemOutcome(items[k])
  {
    seq(|items|, k requires 0 <= k < |items| => ItemOutcome(items[k]))
  }

  /** The items of one block in order: the first panic or error ends it. */
  function ListOutcome(items: seq<Item>): Outcome<seq<Element>> {
    Collect(Outcomes(items))
  }

  /** The blocks in order, each decoded by `parse_element_list`. */
  function BlocksOutcome(blocks: seq<seq<Item>>): Outcome<seq<Element>> {
    if blocks == [] then Some(Ok([]))
    else Sequence(ListOutcome(blocks[0]), BlocksOutcome(blocks[1..]))
  }

  function Flatten(blocks: seq<seq<Item>>): seq<Item> {
    if blocks == [] then [] else blocks[0] + Flatten(blocks[1..])
  }

  /** How the items are grouped into blocks does not matter: the whole page is
      decoded as its items in order would be. */
  lemma {:induction false} BlocksOutcomeFlat(blocks: seq<seq<Item>>)
    ensures BlocksOutcome(blocks) == ListOutcome(Flatten(blocks))
  {
    if blocks == [] {
      assert Outcomes([]) == [];
    } else {
      BlocksOutcomeFlat(blocks[1..]);
      var a := blocks[0];
      var b := Flatten(blocks[1..]);
      assert Outcomes(a + b) == Outcomes(a) + Outcomes(b);
      CollectAppend(Outcomes(a), Outcomes(b));
    }
  }

  /** `competitions_list::parse_element_list`. */
  method ParseElementList(items: seq<Item>) returns (r: Result<seq<Element>>)
    requires ListOutcome(items).Some?
    ensures r == ListOutcome(items).value
  {
    ghost var outs := Outcomes(items);
    var res: seq<Element> := [];
    PrependEmpty(Collect(outs).value);
    var i := 0;
    while i < |items|
      invariant 0 <= i <= |items|
      invariant Collect(outs[i..]).Some?
      invariant Prepend(res, Collect(outs[i..]).value) == Collect(outs).value
    {
      var out := ItemOutcome(items[i]);
      CollectHead(outs, i);
      assert out == outs[i];
      if out.value.Err? {
        return Err(out.value.error);
      }
      CollectStep(outs, i, res);
      res := res + [out.value.value];
      i := i + 1;
    }
    assert outs[i..] == [] && res + [] == res;
    return Ok(res);
  }

  /** `competitions_list::parse`: every `div.competitions-list` block in turn,
      its inner HTML parsed again as a fragment and decoded. */
  method Parse(blocks: seq<seq<Item>>) returns (r: Result<seq<Element>>)
    requires BlocksOutcome(blocks).Some?
    ensures r == BlocksOutcome(blocks).value
  {
    var res: seq<Element> := [];
    PrependEmpty(BlocksOutcome(blocks).value);
    var i := 0;
    while i < |blocks|
      invariant 0 <= i <= |blocks|
      invariant BlocksOutcome(blocks[i..]).Some?
      invariant Prepend(res, BlocksOutcome(blocks[i..]).value) == BlocksOutcome(blocks).value
    {
      assert blocks[i..][0] == blocks[i] && blocks[i..][1..] == blocks[i + 1..];
      var part := ParseElementList(blocks[i]);
      if part.Err? {
        return Err(part.error);
      }
      PrependPrepend(res, part.value, BlocksOutcome(blocks[i + 1..]).value);
      res := res + part.value;
      i := i + 1;
    }
    assert blocks[i..] == [] && res + [] == res;
    return Ok(res);
  }
}
