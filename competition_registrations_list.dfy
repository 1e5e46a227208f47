/** The competitions an athlete took part in, from the athlete's profile page
    (atletiek-nu-api/src/models/competition_registrations_list.rs). The page is
    given as the rows of the competitions table, or `None` when the page has no
    such table. */
module CompetitionRegistrationsList {
  import opened Wrappers
  import opened Strings
  import opened Dates
  import opened Patterns

  /** The first `td` of a row: its text nodes, and the `href` of its first `a`
      (`None` when it has no `a`, `Some(None)` when the `a` has no `href`). */
  datatype FirstCell = FirstCell(texts: seq<string>, link: Option<Option<string>>)

  /** The `src` and `title` attributes of the flag image. */
  datatype Img = Img(src: Option<string>, title: Option<string>)

  /** `td > span.subtext > span.hidden-xs`: its text nodes and its first `img`. */
  datatype LocationSpan = LocationSpan(texts: seq<string>, img: Option<Img>)

  /** One `tbody > tr`: the first `td`, the `data` attribute of the first
      `td > span.sortData`, and the location span. */
  datatype Row = Row(firstCell: Option<FirstCell>, sortData: Option<Option<string>>, location: Option<LocationSpan>)

  datatype CompetitionLocation = CompetitionLocation(country: string, continent: string, place: string, flagImgUrl: string)

  datatype CompetitionRegistration = CompetitionRegistration(participantId: nat, name: string, location: CompetitionLocation, date: Date)

  // ---------------------------------------------------------------------------
  // https://www.athletics.app/atleet/main/([\d]{0,})/
  // ---------------------------------------------------------------------------

  const PARTICIPANT_PREFIX: string := "https://www.athletics.app/atleet/main/"

  /** The participant pattern is found in the link and its digits fit a `u32`;
      otherwise `unwrap` panics. */
  predicate ParticipantLinkOk(href: string) {
    var m := FindDigitCapture(href, PARTICIPANT_PREFIX, 0, "/", 0);
    m.Some? && ParseUnsigned(DigitCapture(href, m.value, PARTICIPANT_PREFIX, 0, "/"), U32_BOUND).Some?
  }

  function ParticipantId(href: string): (id: nat)
    requires ParticipantLinkOk(href)
    ensures id < U32_BOUND
  {
    var m := FindDigitCapture(href, PARTICIPANT_PREFIX, 0, "/", 0);
    ParseUnsigned(DigitCapture(href, m.value, PARTICIPANT_PREFIX, 0, "/"), U32_BOUND).value
  }

  /** An athlete link is read back as the number it was built from. */
  lemma ParticipantIdOfLink(n: nat, rest: string)
    requires n < U32_BOUND
    ensures ParticipantLinkOk(PARTICIPANT_PREFIX + NatToString(n) + "/" + rest)
    ensures ParticipantId(PARTICIPANT_PREFIX + NatToString(n) + "/" + rest) == n
  {
    DigitCaptureOf(PARTICIPANT_PREFIX, NatToString(n), "/", rest, 0);
    ParseUnsignedRoundTrip(n, U32_BOUND);
  }

  // ---------------------------------------------------------------------------
  // ([A-z]{0,})<br><span class="subtext">([A-z]{0,})</span>
  // ---------------------------------------------------------------------------

  const LOCATION_MIDDLE: string := "<br><span class=\"subtext\">"
  const LOCATION_END: string := "</span>"

  /** The location pattern matches at `i`. `<` is not in `[A-z]`, so both runs are
      maximal. */
  predicate LocationAt(s: string, i: nat) {
    i <= |s|
    && var e := AzRunEnd(s, i);
       OccursAt(s, e, LOCATION_MIDDLE)
       && OccursAt(s, AzRunEnd(s, e + |LOCATION_MIDDLE|), LOCATION_END)
  }

  function FindLocation(s: string, from: nat): (r: Option<nat>)
    ensures r.Some? ==> from <= r.value && LocationAt(s, r.value)
    ensures r.Some? ==> forall k :: from <= k < r.value ==> !LocationAt(s, k)
    ensures r.None? ==> forall k :: from <= k ==> !LocationAt(s, k)
    decreases |s| + 1 - from
  {
    if from > |s| then None
    else if LocationAt(s, from) then Some(from)
    else FindLocation(s, from + 1)
  }

  /** The `[A-z]` run that starts at `i`: a capture group of the location pattern. */
  function AzGroup(s: string, i: nat): (g: string)
    requires i <= |s|
    ensures forall k :: 0 <= k < |g| ==> IsAzChar(g[k])
  {
    s[i..AzRunEnd(s, i)]
  }

  /** Groups 1 and 2 of the match at `i`. `[A-z]` holds no white space, so
      trimming them changes nothing. */
  function LocationGroups(s: string, i: nat): (r: (string, string))
    requires LocationAt(s, i)
    ensures forall k :: 0 <= k < |r.0| ==> IsAzChar(r.0[k])
    ensures forall k :: 0 <= k < |r.1| ==> IsAzChar(r.1[k])
    ensures Trim(r.0) == r.0 && Trim(r.1) == r.1
  {
    LocationBounds(s, i);
    var country := AzGroup(s, i);
    var continent := AzGroup(s, AzRunEnd(s, i) + |LOCATION_MIDDLE|);
    TrimAz(country);
    TrimAz(continent);
    (country, continent)
  }

  /** Groups 1 and 2 of the leftmost match, each trimmed: two `[A-z]` runs. */
  function CountryAndContinent(title: string): (r: (string, string))
    requires FindLocation(title, 0).Some?
    ensures forall k :: 0 <= k < |r.0| ==> IsAzChar(r.0[k])
    ensures forall k :: 0 <= k < |r.1| ==> IsAzChar(r.1[k])
  {
    var groups := LocationGroups(title, FindLocation(title, 0).value);
    (Trim(groups.0), Trim(groups.1))
  }

  /** The second group of a match starts inside the text. */
  lemma LocationBounds(s: string, i: nat)
    requires LocationAt(s, i)
    ensures i <= AzRunEnd(s, i) && AzRunEnd(s, i) + |LOCATION_MIDDLE| <= |s|
  {
  }

  /** `[A-z]` holds no white space, so the `trim` of a group changes nothing. */
  lemma TrimAz(g: string)
    requires forall k :: 0 <= k < |g| ==> IsAzChar(g[k])
    ensures Trim(g) == g
  {
    if g != [] {
      assert IsAzChar(g[0]) && IsAzChar(g[|g| - 1]);
    }
    TrimFixed(g);
  }

  /** The two `[A-z]` runs of a flag title built from its groups end where the
      groups end. */
  lemma {:induction false} TitleRuns(country: string, continent: string)
    requires forall k :: 0 <= k < |country| ==> IsAzChar(country[k])
    requires forall k :: 0 <= k < |continent| ==> IsAzChar(continent[k])
    ensures var s := country + LOCATION_MIDDLE + continent + LOCATION_END;
            && AzRunEnd(s, 0) == |country|
            && AzRunEnd(s, |country| + |LOCATION_MIDDLE|) == |country| + |LOCATION_MIDDLE| + |continent|
  {
    var s := country + LOCATION_MIDDLE + continent + LOCATION_END;
    var e := |country|;
    var f := e + |LOCATION_MIDDLE|;
    var g := f + |continent|;
    forall j | 0 <= j < e ensures IsAzChar(s[j]) { assert s[j] == country[j]; }
    assert s[e] == '<';
    AzRunStops(s, 0, e);
    forall j | f <= j < g ensures IsAzChar(s[j]) { assert s[j] == continent[j - f]; }
    assert s[g] == '<';
    AzRunStops(s, f, g);
  }

  /** The pattern matches a flag title built from its groups at its start. */
  lemma TitleMatches(country: string, continent: string)
    requires forall k :: 0 <= k < |country| ==> IsAzChar(country[k])
    requires forall k :: 0 <= k < |continent| ==> IsAzChar(continent[k])
    ensures LocationAt(country + LOCATION_MIDDLE + continent + LOCATION_END, 0)
  {
    var s := country + LOCATION_MIDDLE + continent + LOCATION_END;
    TitleRuns(country, continent);
    assert s == country + LOCATION_MIDDLE + (continent + LOCATION_END);
    OccursWherePut(country, LOCATION_MIDDLE, continent + LOCATION_END);
    assert s == (country + LOCATION_MIDDLE + continent) + LOCATION_END + "";
    OccursWherePut(country + LOCATION_MIDDLE + continent, LOCATION_END, "");
  }

  /** The groups of that match are the country and the continent. */
  lemma TitleGroups(country: string, continent: string)
    requires forall k :: 0 <= k < |country| ==> IsAzChar(country[k])
    requires forall k :: 0 <= k < |continent| ==> IsAzChar(continent[k])
    requires LocationAt(country + LOCATION_MIDDLE + continent + LOCATION_END, 0)
    ensures LocationGroups(country + LOCATION_MIDDLE + continent + LOCATION_END, 0) == (country, continent)
  {
    var s := country + LOCATION_MIDDLE + continent + LOCATION_END;
    TitleRuns(country, continent);
    PiecesOf4(country, LOCATION_MIDDLE, continent, LOCATION_END);
  }

  /** A flag title is read back as the country and continent it was built from. */
  lemma LocationOfTitle(country: string, continent: string)
    requires forall k :: 0 <= k < |country| ==> IsAzChar(country[k])
    requires forall k :: 0 <= k < |continent| ==> IsAzChar(continent[k])
    ensures FindLocation(country + LOCATION_MIDDLE + continent + LOCATION_END, 0).Some?
    ensures CountryAndContinent(country + LOCATION_MIDDLE + continent + LOCATION_END) == (country, continent)
  {
    var s := country + LOCATION_MIDDLE + continent + LOCATION_END;
    TitleMatches(country, continent);
    assert FindLocation(s, 0) == Some(0);
    TitleGroups(country, continent);
    TrimAz(country);
    TrimAz(continent);
  }

  // ---------------------------------------------------------------------------
  // Rows
  // ---------------------------------------------------------------------------

  /** What every `unwrap` of the row loop needs. */
  predicate RowSafe(row: Row) {
    && row.firstCell.Some?
    && row.sortData.Some? && row.sortData.value.Some?
    && ParseYmdDigits(OnlyDigits(row.sortData.value.value)).Some?
    && NonBlankTexts(row.firstCell.value.texts) != []
    && (row.firstCell.value.link.Some? ==>
          row.firstCell.value.link.value.Some? && ParticipantLinkOk(row.firstCell.value.link.value.value))
    && row.location.Some? && row.location.value.texts != []
    && row.location.value.img.Some?
    && row.location.value.img.value.src.Some? && row.location.value.img.value.title.Some?
    && FindLocation(row.location.value.img.value.title.value, 0).Some?
  }

  /** The record one row gives. */
  function RowRecord(row: Row): (r: CompetitionRegistration)
    requires RowSafe(row)
    ensures ValidDate(r.date)
    ensures r.participantId < U32_BOUND
    ensures row.firstCell.value.link.None? ==> r.participantId == 0
    ensures r.name != [] && Trim(r.name) == r.name
  {
    var cell := row.firstCell.value;
    var loc := row.location.value;
    var img := loc.img.value;
    var date := ParseYmdDigits(OnlyDigits(row.sortData.value.value)).value;
    var id := if cell.link.Some? then ParticipantId(cell.link.value.value) else 0;
    var (country, continent) := CountryAndContinent(img.title.value);
    CompetitionRegistration(
      id,
      NonBlankTexts(cell.texts)[0],
      CompetitionLocation(country, continent, Trim(loc.texts[0]), img.src.value),
      date)
  }

  predicate RowsSafe(rows: seq<Row>) {
    forall k :: 0 <= k < |rows| ==> RowSafe(rows[k])
  }

  /** The records of the rows, in order. */
  function Records(rows: seq<Row>): (r: seq<CompetitionRegistration>)
    requires RowsSafe(rows)
    ensures |r| == |rows|
  {
    Map(RowRecord, rows)
  }

  /** `competition_registrations_list::parse`: no table is an empty list. It never
      returns an error: every failure in it is a panic. */
  method Parse(table: Option<seq<Row>>) returns (r: Result<seq<CompetitionRegistration>>)
    requires table.Some? ==> RowsSafe(table.value)
    ensures r.Ok?
    ensures table.None? ==> r.value == []
    ensures table.Some? ==> r.value == Records(table.value)
  {
    var participatedIn: seq<CompetitionRegistration> := [];
    if table.Some? {
      var rows := table.value;
      var i := 0;
      while i < |rows|
        invariant 0 <= i <= |rows|
        invariant participatedIn == Map(RowRecord, rows[..i])
      {
        MapSnoc(RowRecord, rows, i);
        participatedIn := participatedIn + [RowRecord(rows[i])];
        i := i + 1;
      }
      TakeAll(rows);
    }
    return Ok(participatedIn);
  }

  /** One record per row, in order. */
  lemma RecordsAt(rows: seq<Row>, k: nat)
    requires RowsSafe(rows) && k < |rows|
    ensures Records(rows)[k] == RowRecord(rows[k])
  {
    MapAt(RowRecord, rows, k);
  }

  /** The date is read from the digits of the sort data alone: eight digits
      `YYYYMMDD` followed by any text without digits give that day. */
  lemma DateOfSortData(ymd: string, rest: string)
    requires AllDigits(ymd) && |ymd| == 8
    requires forall k :: 0 <= k < |rest| ==> !IsDigit(rest[k])
    ensures OnlyDigits(ymd + rest) == ymd
    ensures ParseYmdDigits(OnlyDigits(ymd + rest))
            == FromYmd(DigitsValue(ymd[..4]), DigitsValue(ymd[4..6]), DigitsValue(ymd[6..]))
  {
    OnlyDigitsAppend(ymd, rest);
    OnlyDigitsKeepsDigits(ymd);
    OnlyDigitsKeepsDigits(rest);
    assert ymd + [] == ymd;
    ParseYmdEightDigits(ymd);
  }
}
