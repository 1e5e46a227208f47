/** The events of a competition: every link in the schedule table that points to
    a start list `https://www.athletics.app/wedstrijd/startlijst/<id1>/<id2>/`
    names one event by its two numbers. The pairs are gathered in a set, so the
    list has no duplicates and its order is the set's. */
module CompetitionEventList {
  import opened Wrappers
  import opened Strings
  import opened Patterns

  const INT_ERROR: string := "invalid integer"

  /** The literal part of the pattern, `https://www.athletics.app/wedstrijd/startlijst/`,
      written cut at its two unescaped dots, which match any character but a
      line feed. */
  const EVENT_URL: string := "https://www" + "." + "athletics" + "." + "app/wedstrijd/startlijst/"

  datatype Event = Event(id1: nat, id2: nat)

  // ---------------------------------------------------------------------------
  // the pattern `https://www.athletics.app/wedstrijd/startlijst/([\d]+)/([\d]+)/`
  // ---------------------------------------------------------------------------

  /** The pattern matches at `i`. Each `[\d]+` is followed by '/', which is not
      a digit, so each takes the whole digit run. */
  predicate EventAt(s: string, i: nat) {
    LiteralAt(s, i, EVENT_URL) && IdsAt(s, i + |EVENT_URL|)
  }

  /** `([\d]+)/([\d]+)/` at `j`. */
  predicate IdsAt(s: string, j: nat)
    requires j <= |s|
  {
    var e1 := DigitRunEnd(s, j);
    e1 > j && e1 < |s| && s[e1] == '/'
    && var e2 := DigitRunEnd(s, e1 + 1);
       e2 > e1 + 1 && e2 < |s| && s[e2] == '/'
  }

  /** Where the match at `i` ends: just after its last '/'. */
  function EventEnd(s: string, i: nat): (e: nat)
    requires EventAt(s, i)
    ensures i + |EVENT_URL| < e <= |s|
  {
    DigitRunEnd(s, DigitRunEnd(s, i + |EVENT_URL|) + 1) + 1
  }

  /** The two captured digit runs of the match at `i`. */
  function Ids(s: string, i: nat): (r: (string, string))
    requires EventAt(s, i)
    ensures AllDigits(r.0) && r.0 != [] && AllDigits(r.1) && r.1 != []
  {
    var e1 := DigitRunEnd(s, i + |EVENT_URL|);
    (s[i + |EVENT_URL|..e1], s[e1 + 1..DigitRunEnd(s, e1 + 1)])
  }

  /** The event named by the match at `i`: both numbers read as u32, `None`
      where either does not fit. */
  function EventOf(s: string, i: nat): Option<Event>
    requires EventAt(s, i)
  {
    var (d1, d2) := Ids(s, i);
    match ParseUnsigned(d1, U32_BOUND)
    case None => None
    case Some(id1) =>
      match ParseUnsigned(d2, U32_BOUND)
      case None => None
      case Some(id2) => Some(Event(id1, id2))
  }

  /** A start-list link with two numbers matches, and the captures are those
      numbers. */
  lemma EventAtOf(d1: string, d2: string, rest: string)
    requires AllDigits(d1) && d1 != [] && AllDigits(d2) && d2 != []
    ensures var s := EVENT_URL + d1 + "/" + d2 + "/" + rest;
            EventAt(s, 0) && Ids(s, 0) == (d1, d2)
  {
    var s := EVENT_URL + d1 + "/" + d2 + "/" + rest;
    UrlPieces(d1, d2, rest);
    EventAtSlices(s, d1, d2);
  }

  /** Where the pieces of a start-list link sit. */
  lemma UrlPieces(d1: string, d2: string, rest: string)
    ensures var s := EVENT_URL + d1 + "/" + d2 + "/" + rest;
            var e1 := |EVENT_URL| + |d1|;
            var e2 := e1 + 1 + |d2|;
            && e2 < |s|
            && s[..|EVENT_URL|] == EVENT_URL
            && s[|EVENT_URL|..e1] == d1 && s[e1] == '/'
            && s[e1 + 1..e2] == d2 && s[e2] == '/'
  {
    var s := EVENT_URL + d1 + "/" + d2 + "/" + rest;
    var e1 := |EVENT_URL| + |d1|;
    var e2 := e1 + 1 + |d2|;
    assert s[..|EVENT_URL|] == EVENT_URL;
    assert s[|EVENT_URL|..e1] == d1;
    assert s[e1 + 1..e2] == d2;
  }

  /** The pattern matches at the start of a text that holds the literal, a
      number, '/', a number and '/', and captures the two numbers. */
  lemma EventAtSlices(s: string, d1: string, d2: string)
    requires AllDigits(d1) && d1 != [] && AllDigits(d2) && d2 != []
    requires |EVENT_URL| + |d1| + 1 + |d2| < |s|
    requires s[..|EVENT_URL|] == EVENT_URL
    requires s[|EVENT_URL|..|EVENT_URL| + |d1|] == d1 && s[|EVENT_URL| + |d1|] == '/'
    requires s[|EVENT_URL| + |d1| + 1..|EVENT_URL| + |d1| + 1 + |d2|] == d2
    requires s[|EVENT_URL| + |d1| + 1 + |d2|] == '/'
    ensures EventAt(s, 0) && Ids(s, 0) == (d1, d2)
  {
    var a := |EVENT_URL|;
    var e1 := a + |d1|;
    assert s[0..a] == EVENT_URL;
    LiteralSelf(s, 0, EVENT_URL);
    DigitBlockEnd(s, a, d1);
    DigitBlockEnd(s, e1 + 1, d2);
  }

  /** The literal cannot match again at any later offset of its own: wherever it
      could meet an 'h', the next character cannot be a 't'. */
  lemma UrlNoSelfOverlap()
    ensures |EVENT_URL| == 47 && EVENT_URL[0] == 'h' && EVENT_URL[1] == 't'
    ensures forall t :: 1 <= t < 47 ==>
              !CharMatches(EVENT_URL[t], 'h') || (t + 1 < 47 && !CharMatches(EVENT_URL[t + 1], 't'))
  {
    var a, b, c := "https://www", "athletics", "app/wedstrijd/startlijst/";
    assert EVENT_URL[0] == a[0] && EVENT_URL[1] == a[1];
    forall t | 1 <= t < 47
      ensures !CharMatches(EVENT_URL[t], 'h') || (t + 1 < 47 && !CharMatches(EVENT_URL[t + 1], 't'))
    {
      if t < 11 {
        assert EVENT_URL[t] == a[t];
      } else if t == 11 {
        assert EVENT_URL[12] == b[0];
      } else if t < 21 {
        assert EVENT_URL[t] == b[t - 12];
        assert EVENT_URL[t + 1] == (b + ".")[t - 11];
      } else if t == 21 {
        assert EVENT_URL[22] == c[0];
      } else {
        assert EVENT_URL[t] == c[t - 22];
      }
    }
  }

  /** Matches never overlap: no match starts inside another. */
  lemma NoOverlap(s: string, i: nat, j: nat)
    requires EventAt(s, i) && i < j < EventEnd(s, i)
    ensures !EventAt(s, j)
  {
    if j < i + |EVENT_URL| {
      NotLiteralInside(s, i, j);
    } else {
      NotLiteralInDigits(s, i, j);
    }
  }

  /** The literal cannot match again inside its own match. */
  lemma NotLiteralInside(s: string, i: nat, j: nat)
    requires LiteralAt(s, i, EVENT_URL) && i < j < i + |EVENT_URL|
    ensures !LiteralAt(s, j, EVENT_URL)
  {
    UrlNoSelfOverlap();
    var t := j - i;
    assert CharMatches(EVENT_URL[t], s[i + t]);
    if !CharMatches(EVENT_URL[t], 'h') {
      assert !CharMatches(EVENT_URL[0], s[j + 0]);
    } else {
      assert CharMatches(EVENT_URL[t + 1], s[i + t + 1]);
      assert !CharMatches(EVENT_URL[1], s[j + 1]);
    }
  }

  /** Past the literal, a match holds only digits and '/', so the literal (which
      starts with 'h') cannot start there. */
  lemma NotLiteralInDigits(s: string, i: nat, j: nat)
    requires EventAt(s, i) && i + |EVENT_URL| <= j < EventEnd(s, i)
    ensures !LiteralAt(s, j, EVENT_URL)
  {
    var a := i + |EVENT_URL|;
    var e1 := DigitRunEnd(s, a);
    var e2 := DigitRunEnd(s, e1 + 1);
    assert j <= e2;
    assert s[j] == '/' || IsDigit(s[j]) by {
      if j < e1 {
        DigitRunHolds(s, a, j);
      } else if e1 < j < e2 {
        DigitRunHolds(s, e1 + 1, j);
      }
    }
    UrlNoSelfOverlap();
    assert !CharMatches(EVENT_URL[0], s[j + 0]);
  }

  /** The leftmost match at or after `from`; the search stops where fewer
      characters than the literal remain, since no match can start there. */
  function FindEvent(s: string, from: nat): (r: Option<nat>)
    ensures r.Some? ==> from <= r.value && EventAt(s, r.value)
    ensures r.Some? ==> forall k :: from <= k < r.value ==> !EventAt(s, k)
    ensures r.None? ==> forall k :: from <= k ==> !EventAt(s, k)
    decreases |s| - from
  {
    if from + |EVENT_URL| > |s| then
      assert forall k :: from <= k ==> !LiteralAt(s, k, EVENT_URL);
      None
    else if EventAt(s, from) then Some(from)
    else FindEvent(s, from + 1)
  }

  // ---------------------------------------------------------------------------
  // the events of the links
  // ---------------------------------------------------------------------------

  /** The matches of one link from `from` on, as `captures_iter` visits them,
      each continuing where the one before ended: the events they name, or an
      error at the first number that does not fit. */
  function UrlEvents(s: string, from: nat): Result<set<Event>>
    decreases |s| + 1 - from
  {
    match FindEvent(s, from)
    case None => Ok({})
    case Some(i) =>
      match EventOf(s, i)
      case None => Err(INT_ERROR)
      case Some(ev) =>
        match UrlEvents(s, EventEnd(s, i))
        case Err(e) => Err(e)
        case Ok(rest) => Ok({ev} + rest)
  }

  /** Two partial results in turn: the first error wins, else the union. */
  function Join(r1: Result<set<Event>>, r2: Result<set<Event>>): Result<set<Event>> {
    match r1
    case Err(e) => Err(e)
    case Ok(a) =>
      match r2
      case Err(e) => Err(e)
      case Ok(b) => Ok(a + b)
  }

  /** The events of all links in turn; an `a` without `href` gives none. */
  function Events(hrefs: seq<Option<string>>): Result<set<Event>> {
    if hrefs == [] then Ok({})
    else
      match hrefs[0]
      case None => Events(hrefs[1..])
      case Some(url) => Join(UrlEvents(url, 0), Events(hrefs[1..]))
  }

  /** A match at `k` whose numbers do not both fit a u32. */
  predicate OverflowAt(s: string, k: nat) {
    EventAt(s, k) && EventOf(s, k).None?
  }

  /** A match at `k` that names `ev`. */
  predicate NamesAt(s: string, k: nat, ev: Event) {
    EventAt(s, k) && EventOf(s, k) == Some(ev)
  }

  /** From `from` on, the matches are the one found first and those from where
      it ends: no match starts inside it. */
  lemma MatchesAfter(s: string, from: nat, i: nat)
    requires FindEvent(s, from) == Some(i)
    ensures forall k :: from <= k < EventEnd(s, i) && k != i ==> !EventAt(s, k)
  {
    forall k | i < k < EventEnd(s, i) ensures !EventAt(s, k) {
      NoOverlap(s, i, k);
    }
  }

  /** The scan of one link fails exactly when some match from `from` on has a
      number that does not fit, and then with the integer error. Matches that
      overlap would be passed over, but there are none. */
  lemma {:induction false} UrlEventsErr(s: string, from: nat)
    ensures UrlEvents(s, from).Err? <==> exists k :: from <= k && OverflowAt(s, k)
    ensures UrlEvents(s, from).Err? ==> UrlEvents(s, from).error == INT_ERROR
    decreases |s| + 1 - from
  {
    match FindEvent(s, from)
    case None =>
    case Some(i) =>
      var end := EventEnd(s, i);
      MatchesAfter(s, from, i);
      if EventOf(s, i).None? {
        assert OverflowAt(s, i);
      } else {
        UrlEventsErr(s, end);
        assert UrlEvents(s, from).Err? <==> UrlEvents(s, end).Err?;
      }
  }

  /** A scan of one link that succeeds yields exactly the events that the
      matches from `from` on name. */
  lemma {:induction false} UrlEventsMembers(s: string, from: nat)
    requires UrlEvents(s, from).Ok?
    ensures forall ev :: ev in UrlEvents(s, from).value <==> exists k :: from <= k && NamesAt(s, k, ev)
    decreases |s| + 1 - from
  {
    match FindEvent(s, from)
    case None =>
    case Some(i) =>
      var end := EventEnd(s, i);
      MatchesAfter(s, from, i);
      var first := EventOf(s, i).value;
      UrlEventsMembers(s, end);
      var rest := UrlEvents(s, end).value;
      assert UrlEvents(s, from).value == {first} + rest;
      assert NamesAt(s, i, first);
      forall ev | exists k :: from <= k && NamesAt(s, k, ev)
        ensures ev in UrlEvents(s, from).value
      {
        var k :| from <= k && NamesAt(s, k, ev);
        if k != i {
          assert end <= k;
        }
      }
  }

  /** The whole page fails exactly when some link holds a match with a number
      that does not fit; otherwise its events are exactly those named by the
      matches in the links. */
  lemma {:induction false} EventsExact(hrefs: seq<Option<string>>)
    ensures Events(hrefs).Err? <==>
              exists j, k :: 0 <= j < |hrefs| && hrefs[j].Some? && OverflowAt(hrefs[j].value, k)
    ensures Events(hrefs).Err? ==> Events(hrefs).error == INT_ERROR
    ensures Events(hrefs).Ok? ==>
              forall ev :: ev in Events(hrefs).value <==>
                exists j, k :: 0 <= j < |hrefs| && hrefs[j].Some? && NamesAt(hrefs[j].value, k, ev)
  {
    if hrefs != [] {
      EventsExact(hrefs[1..]);
      if hrefs[0].Some? {
        UrlEventsErr(hrefs[0].value, 0);
        if UrlEvents(hrefs[0].value, 0).Ok? {
          UrlEventsMembers(hrefs[0].value, 0);
        }
      }
    }
  }

  /** A link without a start-list address adds nothing. */
  lemma NoMatchNoEvents(url: string, hrefs: seq<Option<string>>)
    requires forall k :: 0 <= k ==> !EventAt(url, k)
    ensures Events([Some(url)] + hrefs) == Events(hrefs)
  {
    assert ([Some(url)] + hrefs)[1..] == hrefs;
    match Events(hrefs)
    case Err(_) =>
    case Ok(b) => assert {} + b == b;
  }

  predicate NoDuplicates(events: seq<Event>) {
    forall a, b :: 0 <= a < b < |events| ==> events[a] != events[b]
  }

  /** Adding the events of one link to those found so far, match by match as
      `captures_iter` yields them; both numbers are read before the pair is
      added, and a number that does not fit ends the scan. */
  method ScanUrl(url: string, found: set<Event>) returns (r: Result<set<Event>>)
    ensures r == Join(Ok(found), UrlEvents(url, 0))
  {
    var acc := found;
    var pos := 0;
    var m := FindEvent(url, 0);
    while m.Some?
      invariant pos <= |url| + 1
      invariant m == FindEvent(url, pos)
      invariant Join(Ok(acc), UrlEvents(url, pos)) == Join(Ok(found), UrlEvents(url, 0))
      decreases |url| + 1 - pos
    {
      var (d1, d2) := Ids(url, m.value);
      var id1 := ParseUnsigned(d1, U32_BOUND);
      if id1.None? {
        return Err(INT_ERROR);
      }
      var id2 := ParseUnsigned(d2, U32_BOUND);
      if id2.None? {
        return Err(INT_ERROR);
      }
      var ev := Event(id1.value, id2.value);
      var next := EventEnd(url, m.value);
      assert EventOf(url, m.value) == Some(ev);
      if UrlEvents(url, next).Ok? {
        assert acc + ({ev} + UrlEvents(url, next).value) == (acc + {ev}) + UrlEvents(url, next).value;
      }
      acc := acc + {ev};
      pos := next;
      m := FindEvent(url, pos);
    }
    assert UrlEvents(url, pos) == Ok({}) && acc + {} == acc;
    return Ok(acc);
  }

  /** The set listed once, each element once, in an order the set chooses. */
  method ListSet(found: set<Event>) returns (events: seq<Event>)
    ensures NoDuplicates(events)
    ensures forall ev :: ev in events <==> ev in found
  {
    var rest := found;
    events := [];
    while rest != {}
      invariant forall ev :: ev in found <==> ev in events || ev in rest
      invariant forall ev :: ev in events ==> ev !in rest
      invariant NoDuplicates(events)
      decreases |rest|
    {
      var ev :| ev in rest;
      events := events + [ev];
      rest := rest - {ev};
    }
  }

  /** `competition_event_list::parse`: every `href` of the selected links, every
      match in it, both numbers read (the first error ends the parse) and the
      pair added to a set; the set is then listed in an order of its own. */
  method Parse(hrefs: seq<Option<string>>) returns (r: Result<seq<Event>>)
    ensures r.Err? <==> Events(hrefs).Err?
    ensures r.Err? ==> r.error == Events(hrefs).error
    ensures r.Ok? ==> NoDuplicates(r.value)
    ensures r.Ok? ==> forall ev :: ev in r.value <==> ev in Events(hrefs).value
  {
    var found: set<Event> := {};
    var i := 0;
    assert hrefs[0..] == hrefs;
    assert Join(Ok(found), Events(hrefs)) == Events(hrefs) by {
      if Events(hrefs).Ok? {
        assert found + Events(hrefs).value == Events(hrefs).value;
      }
    }
    while i < |hrefs|
      invariant 0 <= i <= |hrefs|
      invariant Join(Ok(found), Events(hrefs[i..])) == Events(hrefs)
    {
      assert hrefs[i..][0] == hrefs[i] && hrefs[i..][1..] == hrefs[i + 1..];
      if hrefs[i].Some? {
        var scanned := ScanUrl(hrefs[i].value, found);
        JoinAssoc(found, UrlEvents(hrefs[i].value, 0), Events(hrefs[i + 1..]));
        if scanned.Err? {
          return Err(scanned.error);
        }
        found := scanned.value;
      }
      i := i + 1;
    }
    assert hrefs[i..] == [];
    assert found + {} == found;
    var events := ListSet(found);
    return Ok(events);
  }

  /** Adding to what was found so far commutes with joining the rest. */
  lemma JoinAssoc(found: set<Event>, r1: Result<set<Event>>, r2: Result<set<Event>>)
    ensures Join(Ok(found), Join(r1, r2)) == Join(Join(Ok(found), r1), r2)
  {
    if r1.Ok? && r2.Ok? {
      assert found + (r1.value + r2.value) == (found + r1.value) + r2.value;
    }
  }
}
