/** The competitions list of the athletics.app web site: one `tr[onclick]` row per
    competition, decoded into a `CompetitionsListWebElement`.

    A row's outcome is `Option<Result<..>>`: `None` is a panic (an `unwrap` on
    something absent), `Some(Err(..))` an error passed up with `?` or `bail!`,
    `Some(Ok(..))` a decoded row. The steps of a row run in the source's order,
    so whichever failure comes first decides the outcome. */
module CompetitionsListWeb {
  import opened Wrappers
  import opened Strings
  import opened Dates
  import opened Patterns

  const INT_ERROR: string := "invalid integer"
  const NBSP: char := '\U{A0}'
  const MEMBERS_ONLY: string := "Club members only"
  const ATHLETES: string := " athletes"
  const SEPARATOR: string := ", "

  /** The month abbreviations of the date column, January first. */
  const MONTHS: seq<string> := ["JAN", "FEB", "MAR", "APR", "MAY", "JUN", "JUL", "AUG", "SEP", "OCT", "NOV", "DEC"]

  /** What the selectors find in one row; `None` where a selector finds nothing. */
  datatype NameNode = NameNode(innerHtml: string, texts: seq<string>)

  datatype Row = Row(
    onclick: Option<string>,
    dateText: Option<string>,
    nameNode: Option<NameNode>,
    locationHtml: Option<string>,
    registrationsHtml: Option<string>,
    statusHtml: Option<string>)

  datatype Element = Element(
    date: Date,
    name: string,
    location: string,
    club: string,
    registrations: nat,
    resultsAvailable: bool,
    clubMembersOnly: bool,
    competitionId: nat)

  // ---------------------------------------------------------------------------
  // competition id: the first run of digits in `onclick`, as a u32
  // ---------------------------------------------------------------------------

  /** `(\d{1,})` on `onclick`: no run of digits panics, one too large for a u32 is an error. */
  function IdOutcome(onclick: string): (r: Option<Result<nat>>)
    ensures r.None? <==> forall k :: 0 <= k < |onclick| ==> !IsDigit(onclick[k])
    ensures r.Some? && r.value.Ok? ==> r.value.value < U32_BOUND
  {
    match FindDigitCapture(onclick, "", 1, "", 0)
    case None =>
      assert forall k :: 0 <= k < |onclick| ==> !IsDigit(onclick[k]) by {
        forall k | 0 <= k < |onclick| ensures !IsDigit(onclick[k]) {
          assert !DigitCaptureAt(onclick, k, "", 1, "");
        }
      }
      None
    case Some(i) =>
      assert IsDigit(onclick[i]);
      match ParseUnsigned(DigitCapture(onclick, i, "", 1, ""), U32_BOUND)
      case None => Some(Err(INT_ERROR))
      case Some(n) => Some(Ok(n))
  }

  /** The id is the value of the first digit run, whatever text surrounds it. */
  lemma IdOfOnclick(pre: string, d: string, post: string)
    requires forall k :: 0 <= k < |pre| ==> !IsDigit(pre[k])
    requires AllDigits(d) && d != []
    requires post == [] || !IsDigit(post[0])
    ensures IdOutcome(pre + d + post)
         == Some(if DigitsValue(d) < U32_BOUND then Ok(DigitsValue(d)) else Err(INT_ERROR))
  {
    var s := pre + d + post;
    var a := |pre|;
    assert s[a..a + |d|] == d;
    assert forall k :: 0 <= k < a ==> s[k] == pre[k];
    if a + |d| < |s| {
      assert s[a + |d|] == post[0];
    }
    FirstDigitRun(s, a, d);
    ParseUnsignedDigits(d, U32_BOUND);
  }

  /** Where no character is a digit, no run of at least one digit starts. */
  lemma NoDigitRunBefore(s: string, a: nat)
    requires a <= |s| && forall k :: 0 <= k < a ==> !IsDigit(s[k])
    ensures forall k :: 0 <= k < a ==> !DigitCaptureAt(s, k, "", 1, "")
  {
    forall k | 0 <= k < a ensures !DigitCaptureAt(s, k, "", 1, "") {
      assert DigitRunEnd(s, k) == k;
    }
  }

  /** The capture is the first digit run, when nothing before it is a digit. */
  lemma FirstDigitRun(s: string, a: nat, d: string)
    requires AllDigits(d) && d != []
    requires a + |d| <= |s| && s[a..a + |d|] == d
    requires forall k :: 0 <= k < a ==> !IsDigit(s[k])
    requires a + |d| == |s| || !IsDigit(s[a + |d|])
    ensures FindDigitCapture(s, "", 1, "", 0) == Some(a)
    ensures DigitCapture(s, a, "", 1, "") == d
  {
    DigitBlockEnd(s, a, d);
    assert OccursAt(s, a + |d|, "");
    assert DigitCaptureAt(s, a, "", 1, "");
    NoDigitRunBefore(s, a);
    FindDigitCaptureIs(s, "", 1, "", 0, a);
    assert a + |""| == a;
    assert DigitCapture(s, a, "", 1, "") == s[a..a + |d|];
  }

  // ---------------------------------------------------------------------------
  // date: `\w{3} (\d{2}) (\w{3}) (\d{4})`
  // ---------------------------------------------------------------------------

  /** The month abbreviation's number; anything else is not a month. */
  function MonthNumber(token: string): (r: Option<nat>)
    ensures r.Some? ==> 1 <= r.value <= 12 && MONTHS[r.value - 1] == token
    ensures r.None? ==> token !in MONTHS
  {
    if token == "JAN" then Some(1)
    else if token == "FEB" then Some(2)
    else if token == "MAR" then Some(3)
    else if token == "APR" then Some(4)
    else if token == "MAY" then Some(5)
    else if token == "JUN" then Some(6)
    else if token == "JUL" then Some(7)
    else if token == "AUG" then Some(8)
    else if token == "SEP" then Some(9)
    else if token == "OCT" then Some(10)
    else if token == "NOV" then Some(11)
    else if token == "DEC" then Some(12)
    else None
  }

  /** Every abbreviation is read back as its own month. */
  lemma MonthNumberOfName(m: nat)
    requires 1 <= m <= 12
    ensures MonthNumber(MONTHS[m - 1]) == Some(m)
  {
  }

  predicate WordCharsAt(s: string, i: nat, n: nat) {
    i + n <= |s| && forall k :: i <= k < i + n ==> IsWordChar(s[k])
  }

  predicate DigitsAt(s: string, i: nat, n: nat) {
    i + n <= |s| && forall k :: i <= k < i + n ==> IsDigit(s[k])
  }

  /** The date pattern matches at `i`; it has a fixed width of 15 characters. */
  predicate DateAt(s: string, i: nat) {
    i + 15 <= |s|
    && WordCharsAt(s, i, 3) && s[i + 3] == ' '
    && DigitsAt(s, i + 4, 2) && s[i + 6] == ' '
    && WordCharsAt(s, i + 7, 3) && s[i + 10] == ' '
    && DigitsAt(s, i + 11, 4)
  }

  function FindDate(s: string, from: nat): (r: Option<nat>)
    ensures r.Some? ==> from <= r.value && DateAt(s, r.value)
    ensures r.Some? ==> forall k :: from <= k < r.value ==> !DateAt(s, k)
    ensures r.None? ==> forall k :: from <= k ==> !DateAt(s, k)
    decreases |s| + 1 - from
  {
    if from > |s| then None
    else if DateAt(s, from) then Some(from)
    else FindDate(s, from + 1)
  }

  /** The date cell: no match panics, an unknown month is an error, and so is
      (by panicking) a day that the month does not have. */
  function DateOutcome(text: string): (r: Option<Result<Date>>)
    ensures r.Some? && r.value.Ok? ==> ValidDate(r.value.value)
    ensures r.Some? && r.value.Err? ==>
              exists i :: 0 <= i && i + 15 <= |text| && DateAt(text, i)
                && r.value.error == "Invalid month: " + text[i + 7..i + 10]
                && text[i + 7..i + 10] !in MONTHS
  {
    match FindDate(text, 0)
    case None => None
    case Some(i) =>
      var day := DigitsValue(text[i + 4..i + 6]);
      var token := text[i + 7..i + 10];
      var year := DigitsValue(text[i + 11..i + 15]);
      match MonthNumber(token)
      case None => Some(Err("Invalid month: " + token))
      case Some(month) =>
        match FromYmd(year, month, day)
        case None => None
        case Some(d) => Some(Ok(d))
  }

  /** A well-formed date cell gives the day, month and year it spells. */
  lemma DateOfText(weekday: string, dd: string, m: nat, yyyy: string, rest: string)
    requires |weekday| == 3 && forall k :: 0 <= k < 3 ==> IsWordChar(weekday[k])
    requires |dd| == 2 && AllDigits(dd)
    requires 1 <= m <= 12
    requires |yyyy| == 4 && AllDigits(yyyy)
    requires ValidDate(Date(DigitsValue(yyyy), m, DigitsValue(dd)))
    ensures DateOutcome(weekday + " " + dd + " " + MONTHS[m - 1] + " " + yyyy + rest)
         == Some(Ok(Date(DigitsValue(yyyy), m, DigitsValue(dd))))
  {
    var mon := MONTHS[m - 1];
    var s := weekday + " " + dd + " " + mon + " " + yyyy + rest;
    MonthNumberOfName(m);
    DateTextAt(weekday, dd, mon, yyyy, rest);
    DateOutcomeAtStart(s, dd, mon, yyyy);
  }

  /** A month abbreviation that is not in the table is reported. */
  lemma DateOfTextBadMonth(weekday: string, dd: string, mon: string, yyyy: string, rest: string)
    requires |weekday| == 3 && forall k :: 0 <= k < 3 ==> IsWordChar(weekday[k])
    requires |dd| == 2 && AllDigits(dd)
    requires |mon| == 3 && forall k :: 0 <= k < 3 ==> IsWordChar(mon[k])
    requires mon !in MONTHS
    requires |yyyy| == 4 && AllDigits(yyyy)
    ensures DateOutcome(weekday + " " + dd + " " + mon + " " + yyyy + rest)
         == Some(Err("Invalid month: " + mon))
  {
    var s := weekday + " " + dd + " " + mon + " " + yyyy + rest;
    DateTextAt(weekday, dd, mon, yyyy, rest);
    DateOutcomeAtStart(s, dd, mon, yyyy);
  }

  /** A date at the start of the cell is the one read, from its three fields. */
  lemma DateOutcomeAtStart(s: string, dd: string, mon: string, yyyy: string)
    requires DateAt(s, 0) && s[4..6] == dd && s[7..10] == mon && s[11..15] == yyyy
    ensures DateOutcome(s) ==
              match MonthNumber(mon)
              case None => Some(Err("Invalid month: " + mon))
              case Some(month) =>
                match FromYmd(DigitsValue(yyyy), month, DigitsValue(dd))
                case None => None
                case Some(d) => Some(Ok(d))
  {
    assert FindDate(s, 0) == Some(0);
  }

  lemma DateTextAt(weekday: string, dd: string, mon: string, yyyy: string, rest: string)
    requires |weekday| == 3 && forall k :: 0 <= k < 3 ==> IsWordChar(weekday[k])
    requires |dd| == 2 && AllDigits(dd)
    requires |mon| == 3 && forall k :: 0 <= k < 3 ==> IsWordChar(mon[k])
    requires |yyyy| == 4 && AllDigits(yyyy)
    ensures var s := weekday + " " + dd + " " + mon + " " + yyyy + rest;
            DateAt(s, 0) && s[4..6] == dd && s[7..10] == mon && s[11..15] == yyyy
  {
    var s := weekday + " " + dd + " " + mon + " " + yyyy + rest;
    assert s[..3] == weekday;
    assert s[4..6] == dd;
    assert s[7..10] == mon;
    assert s[11..15] == yyyy;
    assert s[3] == ' ' && s[6] == ' ' && s[10] == ' ';
    assert WordCharsAt(s, 0, 3) by {
      forall k | 0 <= k < 3 ensures IsWordChar(s[k]) { assert s[k] == weekday[k]; }
    }
    assert DigitsAt(s, 4, 2) by {
      forall k | 4 <= k < 6 ensures IsDigit(s[k]) { assert s[k] == dd[k - 4]; }
    }
    assert WordCharsAt(s, 7, 3) by {
      forall k | 7 <= k < 10 ensures IsWordChar(s[k]) { assert s[k] == mon[k - 7]; }
    }
    assert DigitsAt(s, 11, 4) by {
      forall k | 11 <= k < 15 ensures IsDigit(s[k]) { assert s[k] == yyyy[k - 11]; }
    }
  }

  // ---------------------------------------------------------------------------
  // name, club and location, registrations
  // ---------------------------------------------------------------------------

  /** The first text of the name node without its no-break spaces, trimmed. */
  function NameOf(text: string): (r: string)
    ensures NBSP !in r
    ensures r == [] || (!IsWhitespace(r[0]) && !IsWhitespace(r[|r| - 1]))
  {
    var t := ReplaceAll(text, [NBSP], "");
    ReplaceAllExcludes(text, [NBSP], "", NBSP);
    TrimSlice(t);
    Trim(t)
  }

  /** An occurrence inside a slice is an occurrence in the whole text. */
  lemma OccursInSlice(s: string, a: nat, b: nat, k: nat, p: string)
    requires a <= b <= |s|
    ensures OccursAt(s[a..b], k, p) ==> OccursAt(s, a + k, p)
  {
    var t := s[a..b];
    if !OccursAt(t, k, p) {
      return;
    }
    assert k + |p| <= |t| == b - a;
    forall j | 0 <= j < |p| ensures s[a + k + j] == p[j] {
      assert t[k..k + |p|][j] == p[j];
    }
  }

  /** `split(", ")` and its first two pieces; there must be a second one. */
  function ClubAndLocation(html: string): (r: Option<(string, string)>)
    ensures r.None? <==> !Contains(html, SEPARATOR)
    ensures r.Some? ==> !Contains(r.value.0, SEPARATOR) && !Contains(r.value.1, SEPARATOR)
  {
    match Find(html, SEPARATOR, 0)
    case None => None
    case Some(p) =>
      var end := match Find(html, SEPARATOR, p + 2) case Some(q) => q case None => |html|;
      var club := html[..p];
      var location := html[p + 2..end];
      assert !Contains(club, SEPARATOR) by {
        forall k | 0 <= k <= |club| ensures !OccursAt(club, k, SEPARATOR) {
          OccursInSlice(html, 0, p, k, SEPARATOR);
        }
      }
      assert !Contains(location, SEPARATOR) by {
        forall k | 0 <= k <= |location| ensures !OccursAt(location, k, SEPARATOR) {
          OccursInSlice(html, p + 2, end, k, SEPARATOR);
        }
      }
      Some((club, location))
  }

  /** Club and location come back from the text they were written into. */
  lemma ClubAndLocationOf(club: string, location: string, rest: string)
    requires !Contains(club, SEPARATOR) && !Contains(location, SEPARATOR)
    requires rest == [] || OccursAt(rest, 0, SEPARATOR)
    ensures ClubAndLocation(club + SEPARATOR + location + rest).Some?
    ensures ClubAndLocation(club + SEPARATOR + location + rest).value.0 == club
    ensures ClubAndLocation(club + SEPARATOR + location + rest).value.1 == location
  {
    var s := club + SEPARATOR + location + rest;
    var e := |club| + 2 + |location|;
    PiecesOf4(club, SEPARATOR, location, rest);
    if rest != [] {
      assert s[e..e + 2] == rest[..2];
    }
    ClubAndLocationSlices(s, club, location);
  }

  /** The same, for a text known only by where its pieces sit. */
  lemma ClubAndLocationSlices(s: string, club: string, location: string)
    requires !Contains(club, SEPARATOR) && !Contains(location, SEPARATOR)
    requires |club| + 2 + |location| <= |s|
    requires s[0..|club|] == club && s[|club|..|club| + 2] == SEPARATOR
    requires s[|club| + 2..|club| + 2 + |location|] == location
    requires |club| + 2 + |location| == |s| || OccursAt(s, |club| + 2 + |location|, SEPARATOR)
    ensures ClubAndLocation(s) == Some((club, location))
  {
    var p := |club|;
    var e := p + 2 + |location|;
    NoSeparatorIn(s, 0, club);
    FindFirstAt(s, SEPARATOR, 0, p);
    NoSeparatorIn(s, p + 2, location);
    if e == |s| {
      assert Find(s, SEPARATOR, p + 2) == None;
    } else {
      FindFirstAt(s, SEPARATOR, p + 2, e);
    }
    assert s[..p] == club;
  }

  /** A piece without the separator that is followed by the end or by ", " holds
      no separator that starts inside it. */
  lemma NoSeparatorIn(s: string, a: nat, t: string)
    requires !Contains(t, SEPARATOR)
    requires a + |t| <= |s| && s[a..a + |t|] == t
    requires a + |t| == |s| || s[a + |t|] == ','
    ensures forall k :: a <= k < a + |t| ==> !OccursAt(s, k, SEPARATOR)
  {
    var e := a + |t|;
    forall k | a <= k < e ensures !OccursAt(s, k, SEPARATOR) {
      if k + 1 < e {
        assert !OccursAt(t, k - a, SEPARATOR);
        assert s[a..e][k - a..k - a + 2] == s[k..k + 2];
      } else if e < |s| {
        assert s[k + 1] == ',';
        assert s[k..k + 2][1] == s[k + 1];
      }
    }
  }

  /** `(\d{0,}) athletes`: no match panics; the count must parse as a u32, and an
      empty count (the pattern allows one) is an error. */
  function RegistrationsOutcome(text: string): (r: Option<Result<nat>>)
    ensures r.None? <==> FindDigitCapture(text, "", 0, ATHLETES, 0).None?
    ensures r.Some? && r.value.Ok? ==> r.value.value < U32_BOUND
  {
    match FindDigitCapture(text, "", 0, ATHLETES, 0)
    case None => None
    case Some(i) =>
      match ParseUnsigned(DigitCapture(text, i, "", 0, ATHLETES), U32_BOUND)
      case None => Some(Err(INT_ERROR))
      case Some(n) => Some(Ok(n))
  }

  /** A count in front of " athletes" is read; with no digits the text still
      matches and the empty count is an error. */
  lemma RegistrationsOf(d: string, rest: string)
    requires AllDigits(d)
    ensures RegistrationsOutcome(d + ATHLETES + rest)
         == Some(if d != [] && DigitsValue(d) < U32_BOUND then Ok(DigitsValue(d)) else Err(INT_ERROR))
  {
    DigitCaptureOf("", d, ATHLETES, rest, 0);
    assert "" + d + ATHLETES + rest == d + ATHLETES + rest;
    ParseUnsignedDigits(d, U32_BOUND);
  }

  // ---------------------------------------------------------------------------
  // rows
  // ---------------------------------------------------------------------------

  /** One row, step by step in the source's order. A row without a date cell is
      dated `today`, the local date at the time of the call. */
  function RowOutcome(row: Row, today: Date): (r: Option<Result<Element>>)
    ensures r.Some? ==> row.onclick.Some?
  {
    if row.onclick.None? then None
    else
      match IdOutcome(row.onclick.value)
      case None => None
      case Some(Err(e)) => Some(Err(e))
      case Some(Ok(id)) =>
        var dated: Option<Result<Date>> :=
          if row.dateText.None? then Some(Ok(today)) else DateOutcome(row.dateText.value);
        match dated
        case None => None
        case Some(Err(e)) => Some(Err(e))
        case Some(Ok(date)) =>
          if row.nameNode.None? || row.nameNode.value.texts == [] then None
          else if row.locationHtml.None? then None
          else
            match ClubAndLocation(row.locationHtml.value)
            case None => None
            case Some(pieces) =>
              if row.registrationsHtml.None? then None
              else
                match RegistrationsOutcome(row.registrationsHtml.value)
                case None => None
                case Some(Err(e)) => Some(Err(e))
                case Some(Ok(n)) =>
                  Some(Ok(Element(
                    date := date,
                    name := NameOf(row.nameNode.value.texts[0]),
                    location := pieces.1,
                    club := pieces.0,
                    registrations := n,
                    resultsAvailable := row.statusHtml == Some("Results"),
                    clubMembersOnly := Contains(row.nameNode.value.innerHtml, MEMBERS_ONLY),
                    competitionId := id)))
  }

  /** What a decoded row holds: the id read from `onclick`, the date of the date
      cell (today when there is none), the cleaned first name text, club and
      location from the location cell and the count of the registrations cell;
      ids and counts fit a u32, the flags follow the name node and the status
      cell, the name has no no-break space, and club and location hold no
      separator. */
  lemma RowOutcomeOk(row: Row, today: Date)
    requires RowOutcome(row, today).Some? && RowOutcome(row, today).value.Ok?
    ensures var e := RowOutcome(row, today).value.value;
            && row.onclick.Some? && IdOutcome(row.onclick.value) == Some(Ok(e.competitionId))
            && (row.dateText.Some? ==> DateOutcome(row.dateText.value) == Some(Ok(e.date)))
            && row.nameNode.Some? && row.nameNode.value.texts != []
            && e.name == NameOf(row.nameNode.value.texts[0])
            && row.locationHtml.Some? && ClubAndLocation(row.locationHtml.value) == Some((e.club, e.location))
            && row.registrationsHtml.Some?
            && RegistrationsOutcome(row.registrationsHtml.value) == Some(Ok(e.registrations))
            && e.competitionId < U32_BOUND && e.registrations < U32_BOUND
            && (row.dateText.None? ==> e.date == today)
            && (row.dateText.Some? ==> ValidDate(e.date))
            && (e.clubMembersOnly <==> Contains(row.nameNode.value.innerHtml, MEMBERS_ONLY))
            && (e.resultsAvailable <==> row.statusHtml == Some("Results"))
            && NBSP !in e.name
            && !Contains(e.club, SEPARATOR) && !Contains(e.location, SEPARATOR)
  {
  }

  /** The outcome of every row, in order. */
  function RowOutcomes(rows: seq<Row>, today: Date): (r: seq<Outcome<Element>>)
    ensures |r| == |rows|
    ensures forall k :: 0 <= k < |rows| ==> r[k] == RowOutcome(rows[k], today)
  {
    seq(|rows|, k requires 0 <= k < |rows| => RowOutcome(rows[k], today))
  }

  /** `competitions_list_web::parse`: the rows in order; the first panic or
      error ends the list. */
  method Parse(rows: seq<Row>, today: Date) returns (r: Result<seq<Element>>)
    requires Collect(RowOutcomes(rows, today)).Some?
    ensures r == Collect(RowOutcomes(rows, today)).value
  {
    ghost var outs := RowOutcomes(rows, today);
    var result: seq<Element> := [];
    PrependEmpty(Collect(outs).value);
    var i := 0;
    while i < |rows|
      invariant 0 <= i <= |rows|
      invariant Collect(outs[i..]).Some?
      invariant Prepend(result, Collect(outs[i..]).value) == Collect(outs).value
    {
      var out := RowOutcome(rows[i], today);
      CollectHead(outs, i);
      assert out == outs[i];
      if out.value.Err? {
        return Err(out.value.error);
      }
      CollectStep(outs, i, result);
      result := result + [out.value.value];
      i := i + 1;
    }
    assert outs[i..] == [] && result + [] == result;
    return Ok(result);
  }
}
