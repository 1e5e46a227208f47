/** The results table of one athlete's events
    (atletiek-nu-api/src/models/athlete_event_result.rs). The page is given as the
    rows of `#uitslagentabel > tbody`, each row as its `td` cells, and each cell as
    the strings the selectors return from it. The first cell of a row names the
    event through its link; every later cell that has both a `span.sortData` and a
    `span.tipped` becomes one result. */
module AthleteEventResult {
  import opened Wrappers
  import opened Strings
  import opened Decimal
  import opened Patterns

  /** One `td`: the `href` of its first `a` (`None` when it has no `a`, `Some(None)`
      when the `a` has no `href`), the `data` attribute of its first
      `span.sortData` (same shape), and the HTML of its first `span.tipped`. */
  datatype Cell = Cell(link: Option<Option<string>>, sortData: Option<Option<string>>, tipped: Option<string>)

  datatype Row = Row(cells: seq<Cell>)

  /** A result: a number, or the not-a-number the source stores for a negative
      value. */
  datatype Mark = Mark(value: real) | Invalid

  datatype EventResult = EventResult(eventName: string, result: Mark, eventUrl: string, windSpeed: Option<real>)

  /** Rust's message for a failed float parse. */
  const FLOAT_ERROR: string := "invalid float literal"

  // ---------------------------------------------------------------------------
  // https://www.atletiek.nu/wedstrijd/uitslagenonderdeel/[\d]{0,}/([A-z\d]{0,})/
  // ---------------------------------------------------------------------------

  /** The literal start of the event pattern; its dots are unescaped. It is written
      in pieces cut at those dots. */
  const EVENT_PREFIX: string := "https://www" + "." + "atletiek" + "." + "nu/wedstrijd/uitslagenonderdeel/"

  /** `[A-z\d]`: the range `A`..`z` holds the letters and also `[ \ ] ^ _` and the
      backquote. */
  predicate IsNameChar(c: char) {
    ('A' <= c <= 'z') || IsDigit(c)
  }

  function NameRunEnd(s: string, i: nat): (e: nat)
    requires i <= |s|
    ensures i <= e <= |s|
    ensures forall k :: i <= k < e ==> IsNameChar(s[k])
    ensures e == |s| || !IsNameChar(s[e])
    decreases |s| - i
  {
    if i < |s| && IsNameChar(s[i]) then NameRunEnd(s, i + 1) else i
  }

  /** The event pattern matches at `i`. Neither repetition can give characters
      back, since `/` is in neither class, so both runs are maximal and each must
      be followed by `/`. */
  predicate EventAt(s: string, i: nat) {
    LiteralAt(s, i, EVENT_PREFIX)
    && var e1 := DigitRunEnd(s, i + |EVENT_PREFIX|);
       e1 < |s| && s[e1] == '/'
       && var e2 := NameRunEnd(s, e1 + 1);
          e2 < |s| && s[e2] == '/'
  }

  /** Capture group 1 of the match at `i`. */
  function EventGroup(s: string, i: nat): (g: string)
    requires EventAt(s, i)
    ensures forall k :: 0 <= k < |g| ==> IsNameChar(g[k])
  {
    var e1 := DigitRunEnd(s, i + |EVENT_PREFIX|);
    s[e1 + 1..NameRunEnd(s, e1 + 1)]
  }

  /** The leftmost match at or after `from`; the search stops where fewer
      characters than the literal remain, since no match can start there. */
  function FindEvent(s: string, from: nat): (r: Option<nat>)
    ensures r.Some? ==> from <= r.value && EventAt(s, r.value)
    ensures r.Some? ==> forall k :: from <= k < r.value ==> !EventAt(s, k)
    ensures r.None? ==> forall k :: from <= k ==> !EventAt(s, k)
    decreases |s| - from
  {
    if from + |EVENT_PREFIX| > |s| then
      assert forall k :: from <= k ==> !LiteralAt(s, k, EVENT_PREFIX);
      None
    else if EventAt(s, from) then Some(from)
    else FindEvent(s, from + 1)
  }

  /** `re_event.captures_iter(href).next().unwrap()[1]`: group 1 of the leftmost
      match. A link without a match is a panic. */
  function EventName(href: string): (name: string)
    requires FindEvent(href, 0).Some?
    ensures exists i: nat :: EventAt(href, i) && (forall k: nat :: k < i ==> !EventAt(href, k))
                       && name == EventGroup(href, i)
  {
    EventGroup(href, FindEvent(href, 0).value)
  }

  /** A results link is read back as the event name it was built from. */
  lemma EventNameOfLink(id: string, name: string, rest: string)
    requires AllDigits(id) && forall k :: 0 <= k < |name| ==> IsNameChar(name[k])
    ensures FindEvent(EVENT_PREFIX + id + "/" + name + "/" + rest, 0) == Some(0)
    ensures EventName(EVENT_PREFIX + id + "/" + name + "/" + rest) == name
  {
    var s := EVENT_PREFIX + id + "/" + name + "/" + rest;
    LinkPieces(id, name, rest);
    EventAtSlices(s, id, name);
    assert FindEvent(s, 0) == Some(0);
  }

  /** Where the pieces of a results link sit. */
  lemma LinkPieces(id: string, name: string, rest: string)
    ensures var s := EVENT_PREFIX + id + "/" + name + "/" + rest;
            var e1 := |EVENT_PREFIX| + |id|;
            var e2 := e1 + 1 + |name|;
            && e2 < |s|
            && s[..|EVENT_PREFIX|] == EVENT_PREFIX
            && s[|EVENT_PREFIX|..e1] == id && s[e1] == '/'
            && s[e1 + 1..e2] == name && s[e2] == '/'
  {
    var s := EVENT_PREFIX + id + "/" + name + "/" + rest;
    var e1 := |EVENT_PREFIX| + |id|;
    var e2 := e1 + 1 + |name|;
    assert s[..|EVENT_PREFIX|] == EVENT_PREFIX;
    assert s[|EVENT_PREFIX|..e1] == id;
    assert s[e1 + 1..e2] == name;
  }

  /** The pattern matches at the start of a text that holds the literal, a
      number, '/', a name and '/', and captures the name. */
  lemma EventAtSlices(s: string, id: string, name: string)
    requires AllDigits(id) && forall k :: 0 <= k < |name| ==> IsNameChar(name[k])
    requires |EVENT_PREFIX| + |id| + 1 + |name| < |s|
    requires s[..|EVENT_PREFIX|] == EVENT_PREFIX
    requires s[|EVENT_PREFIX|..|EVENT_PREFIX| + |id|] == id && s[|EVENT_PREFIX| + |id|] == '/'
    requires s[|EVENT_PREFIX| + |id| + 1..|EVENT_PREFIX| + |id| + 1 + |name|] == name
    requires s[|EVENT_PREFIX| + |id| + 1 + |name|] == '/'
    ensures EventAt(s, 0) && EventGroup(s, 0) == name
  {
    var p := |EVENT_PREFIX|;
    assert s[0..p] == EVENT_PREFIX;
    LiteralSelf(s, 0, EVENT_PREFIX);
    DigitBlockEnd(s, p, id);
    var q := p + |id| + 1;
    NameBlockEnd(s, q, name);
  }

  /** A block of name characters followed by '/' is a whole name run. */
  lemma NameBlockEnd(s: string, a: nat, name: string)
    requires forall k :: 0 <= k < |name| ==> IsNameChar(name[k])
    requires a + |name| < |s| && s[a..a + |name|] == name && s[a + |name|] == '/'
    ensures NameRunEnd(s, a) == a + |name|
  {
    forall k | a <= k < a + |name| ensures IsNameChar(s[k]) {
      assert s[k] == name[k - a];
    }
    NameRunFrom(s, a, a + |name|);
  }

  lemma {:induction false} NameRunFrom(s: string, k: nat, e: nat)
    requires k <= e < |s| && !IsNameChar(s[e])
    requires forall j :: k <= j < e ==> IsNameChar(s[j])
    ensures NameRunEnd(s, k) == e
    decreases e - k
  {
    if k < e {
      NameRunFrom(s, k + 1, e);
    }
  }

  // ---------------------------------------------------------------------------
  // ([+-])([\d]{1,}.[\d]{1,})m/s
  // ---------------------------------------------------------------------------

  /** What group 2 can be: digits, one character other than a line feed (the dot
      is unescaped), digits. */
  predicate WindGroupFits(g: string) {
    exists k :: 1 <= k < |g| - 1 && AllDigits(g[..k]) && g[k] != '\n' && AllDigits(g[k + 1..])
  }

  /** The wind pattern matches at `i`. `m` and `/` are not digits, so whatever
      way the engine splits the digits, `m/s` is the first one after the sign, and
      group 2 is everything between the sign and it. */
  predicate WindAt(s: string, i: nat) {
    i < |s| && (s[i] == '+' || s[i] == '-')
    && var j := Find(s, "m/s", i + 1);
       j.Some? && WindGroupFits(s[i + 1..j.value])
  }

  function WindGroup(s: string, i: nat): (g: string)
    requires WindAt(s, i)
    ensures WindGroupFits(g) && i + 1 + |g| <= |s| && s[i + 1..i + 1 + |g|] == g
  {
    s[i + 1..Find(s, "m/s", i + 1).value]
  }

  function FindWind(s: string, from: nat): (r: Option<nat>)
    ensures r.Some? ==> from <= r.value && WindAt(s, r.value)
    ensures r.Some? ==> forall k :: from <= k < r.value ==> !WindAt(s, k)
    ensures r.None? ==> forall k :: from <= k ==> !WindAt(s, k)
    decreases |s| - from
  {
    if from >= |s| then None
    else if WindAt(s, from) then Some(from)
    else FindWind(s, from + 1)
  }

  /** The wind of a visible span: the leftmost match, its group 2 parsed as a
      float (`?`, so a group such as `2,1` makes the whole page an error) and
      signed. No match is no wind. */
  function Wind(html: string): (r: Result<Option<real>>)
    ensures r.Ok? && r.value.None? <==> FindWind(html, 0).None?
    ensures r.Err? <==> FindWind(html, 0).Some? && ParseFloat(WindGroup(html, FindWind(html, 0).value)).None?
    ensures r.Ok? && r.value.Some? ==>
              var i := FindWind(html, 0).value;
              var v := ParseFloat(WindGroup(html, i)).value;
              r.value.value == if html[i] == '+' then v else -v
  {
    match FindWind(html, 0)
    case None => Ok(None)
    case Some(i) =>
      match ParseFloat(WindGroup(html, i))
      case None => Err(FLOAT_ERROR)
      case Some(v) => Ok(Some(if html[i] == '+' then v else -v))
  }

  /** A wind written `<sign><digits><c><digits>m/s` matches with that group. */
  lemma WindText(sign: char, d1: string, c: char, d2: string)
    requires sign == '+' || sign == '-'
    requires AllDigits(d1) && AllDigits(d2) && |d1| >= 1 && |d2| >= 1
    requires c != '\n' && c != 'm'
    ensures var s := [sign] + d1 + [c] + d2 + "m/s";
            FindWind(s, 0) == Some(0) && WindGroup(s, 0) == d1 + [c] + d2
  {
    var g := d1 + [c] + d2;
    var s := [sign] + g + "m/s";
    assert [sign] + d1 + [c] + d2 + "m/s" == s;
    var j := 1 + |g|;
    assert s[j..] == "m/s";
    assert OccursAt(s, j, "m/s");
    forall k | 1 <= k < j ensures !OccursAt(s, k, "m/s") {
      assert s[k] == g[k - 1];
      if k - 1 < |d1| { assert g[k - 1] == d1[k - 1]; }
      else if k - 1 > |d1| { assert g[k - 1] == d2[k - 1 - |d1| - 1]; }
    }
    FindFirstAt(s, "m/s", 1, j);
    assert s[1..j] == g;
    assert g[..|d1|] == d1 && g[|d1| + 1..] == d2;
    assert WindGroupFits(g);
    assert WindAt(s, 0);
  }

  /** `+2.1m/s` is a wind of 2.1 and `-1.2m/s` one of -1.2. */
  lemma WindDecimalPoint(sign: char, d1: string, d2: string)
    requires sign == '+' || sign == '-'
    requires AllDigits(d1) && AllDigits(d2) && |d1| >= 1 && |d2| >= 1
    ensures Wind([sign] + d1 + "." + d2 + "m/s")
            == Ok(Some(if sign == '+' then DecimalValue(d1, d2) else -DecimalValue(d1, d2)))
  {
    WindText(sign, d1, '.', d2);
    assert d1 + ['.'] + d2 == d1 + "." + d2;
    ParseFloatFixedPoint(d1, d2);
  }

  /** A decimal comma also matches the unescaped dot, and then fails to parse. */
  lemma WindDecimalCommaIsError(sign: char, d1: string, d2: string)
    requires sign == '+' || sign == '-'
    requires AllDigits(d1) && AllDigits(d2) && |d1| >= 1 && |d2| >= 1
    ensures Wind([sign] + d1 + "," + d2 + "m/s").Err?
  {
    WindText(sign, d1, ',', d2);
    var g := d1 + [','] + d2;
    CommaNotAFloat(d1, d2);
  }

  lemma CommaNotAFloat(d1: string, d2: string)
    requires AllDigits(d1) && AllDigits(d2) && |d1| >= 1
    ensures ParseFloat(d1 + [','] + d2).None?
  {
    var g := d1 + [','] + d2;
    var a := |d1|;
    assert g[a] == ',';
    forall j | 0 <= j < a ensures IsDigit(g[j]) { assert g[j] == d1[j]; }
    DigitRunStops(g, 0, a);
    assert DigitRunEnd(g, a) == a;
    assert g[a..][0] == ',';
    assert ParseExponent(g[a..]).None?;
    assert g[0] == d1[0];
    assert ParseFloat(g) == ParseMagnitude(g);
  }

  // ---------------------------------------------------------------------------
  // Rows and cells
  // ---------------------------------------------------------------------------

  /** The `unwrap` on the `data` attribute panics for a cell that is read without
      one. */
  predicate CellSafe(c: Cell) {
    c.sortData.Some? && c.tipped.Some? ==> c.sortData.value.Some?
  }

  /** A later cell: skipped unless it has both spans; otherwise its `data` parsed
      as a float (`?`), a negative value replaced by the invalid marker, and the
      wind of the visible span. */
  function CellResult(name: string, href: string, c: Cell): (r: Result<Option<EventResult>>)
    requires CellSafe(c)
    ensures r.Ok? && r.value.Some? <==>
              c.sortData.Some? && c.tipped.Some?
              && ParseFloat(c.sortData.value.value).Some? && Wind(c.tipped.value).Ok?
    ensures r.Ok? && r.value.Some? ==>
              var e := r.value.value;
              var d := ParseFloat(c.sortData.value.value).value;
              e.eventName == name && e.eventUrl == href && e.windSpeed == Wind(c.tipped.value).value
              && (e.result == Invalid <==> d < 0.0)
              && (e.result.Mark? ==> e.result.value == d)
    ensures r == Ok(None) <==> c.sortData.None? || c.tipped.None?
  {
    if c.sortData.None? || c.tipped.None? then Ok(None)
    else
      match ParseFloat(c.sortData.value.value)
      case None => Err(FLOAT_ERROR)
      case Some(d) =>
        var mark := if d < 0.0 then Invalid else Mark(d);
        match Wind(c.tipped.value)
        case Err(e) => Err(e)
        case Ok(w) => Ok(Some(EventResult(name, mark, href, w)))
  }

  function OptionList(o: Option<EventResult>): seq<EventResult> {
    if o.Some? then [o.value] else []
  }

  /** The cells that are read: every cell up to the first error must be safe. */
  predicate CellsSafe(cs: seq<Cell>) {
    cs == [] || (CellSafe(cs[0]) && (CellResult("", "", cs[0]).Ok? ==> CellsSafe(cs[1..])))
  }

  lemma CellResultOkIndependent(name: string, href: string, c: Cell)
    requires CellSafe(c)
    ensures CellResult(name, href, c).Ok? == CellResult("", "", c).Ok?
  {
  }

  function CellsResults(name: string, href: string, cs: seq<Cell>): (r: Result<seq<EventResult>>)
    requires CellsSafe(cs)
  {
    if cs == [] then Ok([])
    else
      CellResultOkIndependent(name, href, cs[0]);
      match CellResult(name, href, cs[0])
      case Err(e) => Err(e)
      case Ok(o) => Prepend(OptionList(o), CellsResults(name, href, cs[1..]))
  }

  /** The first cell of a row must have a link with an `href` that the event
      pattern matches; each missing piece is a panic. */
  predicate HeaderSafe(row: Row) {
    |row.cells| >= 1 && row.cells[0].link.Some? && row.cells[0].link.value.Some?
    && FindEvent(row.cells[0].link.value.value, 0).Some?
  }

  function Href(row: Row): string
    requires HeaderSafe(row)
  {
    row.cells[0].link.value.value
  }

  predicate RowSafe(row: Row) {
    HeaderSafe(row) && CellsSafe(row.cells[1..])
  }

  function RowResults(row: Row): Result<seq<EventResult>>
    requires RowSafe(row)
  {
    CellsResults(EventName(Href(row)), Href(row), row.cells[1..])
  }

  predicate RowsSafe(rows: seq<Row>) {
    rows == [] || (RowSafe(rows[0]) && (RowResults(rows[0]).Ok? ==> RowsSafe(rows[1..])))
  }

  /** The whole table: rows in order, cells in order, the first error wins. */
  function RowsResults(rows: seq<Row>): Result<seq<EventResult>>
    requires RowsSafe(rows)
  {
    if rows == [] then Ok([])
    else
      match RowResults(rows[0])
      case Err(e) => Err(e)
      case Ok(a) => Prepend(a, RowsResults(rows[1..]))
  }

  /** `athlete_event_result::parse`. `table` is `None` when the page has no
      `#uitslagentabel > tbody`, which panics with "No results found (yet?)". */
  method Parse(table: Option<seq<Row>>) returns (r: Result<seq<EventResult>>)
    requires table.Some? && RowsSafe(table.value)
    ensures r == RowsResults(table.value)
  {
    var rows := table.value;
    var results: seq<EventResult> := [];
    PrependEmpty(RowsResults(rows));
    var i := 0;
    while i < |rows|
      invariant 0 <= i <= |rows|
      invariant RowsSafe(rows[i..])
      invariant Prepend(results, RowsResults(rows[i..])) == RowsResults(rows)
    {
      var row := rows[i];
      assert rows[i..][0] == row && rows[i..][1..] == rows[i + 1..];
      var href := Href(row);
      var rowResults := ParseRow(EventName(href), href, row.cells[1..]);
      if rowResults.Err? {
        return Err(rowResults.error);
      }
      PrependPrepend(results, rowResults.value, RowsResults(rows[i + 1..]));
      results := results + rowResults.value;
      i := i + 1;
    }
    assert rows[i..] == [] && results + [] == results;
    return Ok(results);
  }

  /** The inner loop of `parse` over the cells after the first. */
  method ParseRow(eventName: string, href: string, fields: seq<Cell>) returns (r: Result<seq<EventResult>>)
    requires CellsSafe(fields)
    ensures r == CellsResults(eventName, href, fields)
  {
    var results: seq<EventResult> := [];
    PrependEmpty(CellsResults(eventName, href, fields));
    var j := 0;
    while j < |fields|
      invariant 0 <= j <= |fields|
      invariant CellsSafe(fields[j..])
      invariant Prepend(results, CellsResults(eventName, href, fields[j..])) == CellsResults(eventName, href, fields)
    {
      var cell := fields[j];
      assert fields[j..][0] == cell && fields[j..][1..] == fields[j + 1..];
      CellResultOkIndependent(eventName, href, cell);
      var out := CellResult(eventName, href, cell);
      if out.Err? {
        return Err(out.error);
      }
      PrependPrepend(results, OptionList(out.value), CellsResults(eventName, href, fields[j + 1..]));
      results := results + OptionList(out.value);
      j := j + 1;
    }
    assert fields[j..] == [] && results + [] == results;
    return Ok(results);
  }

  // ---------------------------------------------------------------------------
  // What the table gives
  // ---------------------------------------------------------------------------

  /** The cells that give a result: those with both spans. */
  function CountFull(cs: seq<Cell>): nat {
    if cs == [] then 0
    else (if cs[0].sortData.Some? && cs[0].tipped.Some? then 1 else 0) + CountFull(cs[1..])
  }

  /** A row gives one result per cell that has both spans, all carrying the
      row's event name and link. */
  lemma {:induction false} CellsResultsShape(name: string, href: string, cs: seq<Cell>)
    requires CellsSafe(cs) && CellsResults(name, href, cs).Ok?
    ensures |CellsResults(name, href, cs).value| == CountFull(cs)
    ensures forall e :: e in CellsResults(name, href, cs).value ==> e.eventName == name && e.eventUrl == href
  {
    if cs != [] {
      CellResultOkIndependent(name, href, cs[0]);
      CellsResultsShape(name, href, cs[1..]);
    }
  }

  /** The results of a table are the results of its first rows followed by those
      of the rest; an error in the first rows is the table's error. */
  lemma {:induction false} RowsResultsAppend(a: seq<Row>, b: seq<Row>)
    requires RowsSafe(a + b) && RowsSafe(a)
    ensures RowsResults(a).Err? ==> RowsResults(a + b) == RowsResults(a)
    ensures RowsResults(a).Ok? ==>
              RowsSafe(b) && RowsResults(a + b) == Prepend(RowsResults(a).value, RowsResults(b))
  {
    if a == [] {
      assert a + b == b;
      PrependEmpty(RowsResults(b));
    } else {
      var ab := a + b;
      HeadTailAppend(a, b);
      RowsResultsCons(ab);
      RowsResultsCons(a);
      var first := RowResults(a[0]);
      if first.Ok? {
        RowsResultsAppend(a[1..], b);
        if RowsResults(a[1..]).Ok? {
          PrependPrepend(first.value, RowsResults(a[1..]).value, RowsResults(b));
        }
      }
    }
  }

  /** A table is its first row's results followed by the rest's, unless the
      first row fails. */
  lemma RowsResultsCons(rows: seq<Row>)
    requires rows != [] && RowsSafe(rows)
    ensures RowResults(rows[0]).Err? ==> RowsResults(rows) == Err(RowResults(rows[0]).error)
    ensures RowResults(rows[0]).Ok? ==>
              RowsSafe(rows[1..]) && RowsResults(rows) == Prepend(RowResults(rows[0]).value, RowsResults(rows[1..]))
  {
  }

  /** A table with no rows gives no results. */
  lemma EmptyTable()
    ensures RowsSafe([]) && RowsResults([]) == Ok([])
  {
  }
}
