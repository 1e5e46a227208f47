/** An athlete's profile page (atletiek-nu-api/src/models/athlete_profile.rs): the
    personal-best table, decoded row by row into a map keyed by event name, and the
    competitions the athlete took part in. */
module AthleteProfile {
  import opened Wrappers
  import opened Strings
  import opened Decimal
  import opened Dates
  import opened Patterns
  import CompetitionRegistrationsList

  /** One `td` of a personal-best row: its text nodes, and the `data` attribute of
      its first `span.sortData` (`None` without such a span, `Some(None)` when the
      span has no `data`). */
  datatype PbCell = PbCell(texts: seq<string>, sortData: Option<Option<string>>)

  /** One `div#records > table#persoonlijkerecords > tbody > tr`. */
  datatype PbRow = PbRow(cells: seq<PbCell>)

  /** `PersonalBestItem`; `performance` is an `f32` in the source, an exact number here. */
  datatype PersonalBest = PersonalBest(
    performance: real,
    displayPerformance: string,
    handMeasured: bool,
    location: string,
    country: string,
    date: Date)

  datatype Profile = Profile(
    personalBests: map<string, PersonalBest>,
    competitions: seq<CompetitionRegistrationsList.CompetitionRegistration>)

  // ---------------------------------------------------------------------------
  // ([0-9]{0,}):([0-9]{0,}),([0-9]{0,})([h]{0,})
  // ---------------------------------------------------------------------------

  /** The end of the run of `h` that starts at `i`. */
  function HRunEnd(s: string, i: nat): (e: nat)
    requires i <= |s|
    ensures i <= e <= |s|
    ensures forall k :: i <= k < e ==> s[k] == 'h'
    ensures e == |s| || s[e] != 'h'
    decreases |s| - i
  {
    if i < |s| && s[i] == 'h' then HRunEnd(s, i + 1) else i
  }

  /** The performance pattern matches at `i`. Neither `:` nor `,` is a digit, so
      each digit group is the maximal run, and the trailing `h` group always
      matches. */
  predicate PerformanceAt(s: string, i: nat) {
    i <= |s|
    && var e1 := DigitRunEnd(s, i);
       e1 < |s| && s[e1] == ':'
       && var e2 := DigitRunEnd(s, e1 + 1);
          e2 < |s| && s[e2] == ','
  }

  function FindPerformance(s: string, from: nat): (r: Option<nat>)
    ensures r.Some? ==> from <= r.value && PerformanceAt(s, r.value)
    ensures r.Some? ==> forall k :: from <= k < r.value ==> !PerformanceAt(s, k)
    ensures r.None? ==> forall k :: from <= k ==> !PerformanceAt(s, k)
    decreases |s| + 1 - from
  {
    if from > |s| then None
    else if PerformanceAt(s, from) then Some(from)
    else FindPerformance(s, from + 1)
  }

  /** The four capture groups of the performance pattern. */
  datatype PerformanceGroups = PerformanceGroups(minutes: string, seconds: string, fraction: string, hand: string)

  function PerformanceCaptures(s: string, i: nat): (g: PerformanceGroups)
    requires PerformanceAt(s, i)
    ensures AllDigits(g.minutes) && AllDigits(g.seconds) && AllDigits(g.fraction)
    ensures forall k :: 0 <= k < |g.hand| ==> g.hand[k] == 'h'
  {
    var e1 := DigitRunEnd(s, i);
    var e2 := DigitRunEnd(s, e1 + 1);
    var e3 := DigitRunEnd(s, e2 + 1);
    PerformanceGroups(s[i..e1], s[e1 + 1..e2], s[e2 + 1..e3], s[e3..HRunEnd(s, e3)])
  }

  /** The text the pattern is run on: `"0:"` in front, so that a time without
      minutes still has a first group. */
  function Padded(text: string): string {
    "0:" + text
  }

  /** The pattern is found, and each of the three digit groups is a `u32`;
      otherwise an `unwrap` panics. */
  predicate PerformanceOk(text: string) {
    var s := Padded(text);
    var m := FindPerformance(s, 0);
    m.Some?
    && var g := PerformanceCaptures(s, m.value);
       ParseUnsigned(g.minutes, U32_BOUND).Some?
       && ParseUnsigned(g.seconds, U32_BOUND).Some?
       && ParseUnsigned(g.fraction, U32_BOUND).Some?
  }

  /** `n / 10^places`, the value of `places` fraction digits that read `n`. */
  function Fraction(n: nat, places: nat): (v: real)
    ensures v >= 0.0
  {
    n as real / Pow10(places) as real
  }

  /** The performance in seconds (or metres, or points), and whether it was timed
      by hand. */
  function ParsePerformance(text: string): (r: (real, bool))
    requires PerformanceOk(text)
    ensures r.0 >= 0.0
  {
    var s := Padded(text);
    var g := PerformanceCaptures(s, FindPerformance(s, 0).value);
    var minutes := ParseUnsigned(g.minutes, U32_BOUND).value;
    var seconds := ParseUnsigned(g.seconds, U32_BOUND).value;
    var fraction := ParseUnsigned(g.fraction, U32_BOUND).value;
    (minutes as real * 60.0 + seconds as real + Fraction(fraction, |g.fraction|), g.hand != [])
  }

  /** The pattern matches `pre + m + ":" + sec + "," + f + rest` right after `pre`,
      with `m`, `sec` and `f` as its digit groups and a non-empty `h` group exactly
      when `rest` starts with `h`. */
  lemma PerformanceAtParts(pre: string, m: string, sec: string, f: string, rest: string)
    requires AllDigits(m) && AllDigits(sec) && AllDigits(f)
    requires rest == [] || !IsDigit(rest[0])
    ensures var s := pre + m + ":" + sec + "," + f + rest;
            && PerformanceAt(s, |pre|)
            && PerformanceCaptures(s, |pre|).minutes == m
            && PerformanceCaptures(s, |pre|).seconds == sec
            && PerformanceCaptures(s, |pre|).fraction == f
            && (PerformanceCaptures(s, |pre|).hand != [] <==> rest != [] && rest[0] == 'h')
  {
    var s := pre + m + ":" + sec + "," + f + rest;
    TimePieces(pre, m, sec, f, rest);
    PerformanceAtSlices(s, |pre|, m, sec, f);
  }

  /** The pattern matches at `a` when `m`, `sec` and `f` are found there, joined by
      `:` and `,`, and no digit follows `f`. */
  lemma PerformanceAtSlices(s: string, a: nat, m: string, sec: string, f: string)
    requires AllDigits(m) && AllDigits(sec) && AllDigits(f)
    requires a + |m| + |sec| + |f| + 2 <= |s|
    requires s[a..a + |m|] == m && s[a + |m|] == ':'
    requires s[a + |m| + 1..a + |m| + 1 + |sec|] == sec && s[a + |m| + 1 + |sec|] == ','
    requires s[a + |m| + |sec| + 2..a + |m| + |sec| + |f| + 2] == f
    requires a + |m| + |sec| + |f| + 2 == |s| || !IsDigit(s[a + |m| + |sec| + |f| + 2])
    ensures PerformanceAt(s, a)
    ensures PerformanceCaptures(s, a).minutes == m
    ensures PerformanceCaptures(s, a).seconds == sec
    ensures PerformanceCaptures(s, a).fraction == f
    ensures PerformanceCaptures(s, a).hand != [] <==> a + |m| + |sec| + |f| + 2 < |s| && s[a + |m| + |sec| + |f| + 2] == 'h'
  {
    var e1 := a + |m|;
    var e2 := e1 + 1 + |sec|;
    var e3 := e2 + 1 + |f|;
    DigitBlockEnd(s, a, m);
    DigitBlockEnd(s, e1 + 1, sec);
    DigitBlockEnd(s, e2 + 1, f);
    PerformanceAtEnds(s, a, e1, e2, e3, m, sec, f);
  }

  /** Where the pieces of `pre + m + ":" + sec + "," + f + rest` sit. */
  lemma TimePieces(pre: string, m: string, sec: string, f: string, rest: string)
    ensures var s := pre + m + ":" + sec + "," + f + rest;
            var e1 := |pre| + |m|;
            var e2 := e1 + 1 + |sec|;
            var e3 := e2 + 1 + |f|;
            && |s| == e3 + |rest|
            && s[|pre|..e1] == m && s[e1] == ':'
            && s[e1 + 1..e2] == sec && s[e2] == ','
            && s[e2 + 1..e3] == f
            && (e3 < |s| ==> s[e3] == rest[0])
  {
    var s := pre + m + ":" + sec + "," + f + rest;
    var e1 := |pre| + |m|;
    var e2 := e1 + 1 + |sec|;
    var e3 := e2 + 1 + |f|;
    assert s[|pre|..e1] == m;
    assert s[e1 + 1..e2] == sec;
    assert s[e2 + 1..e3] == f;
  }

  /** The match at `a` in terms of where its digit runs end. */
  lemma PerformanceAtEnds(s: string, a: nat, e1: nat, e2: nat, e3: nat, m: string, sec: string, f: string)
    requires a <= e1 < e2 < e3 <= |s|
    requires DigitRunEnd(s, a) == e1 && s[e1] == ':'
    requires DigitRunEnd(s, e1 + 1) == e2 && s[e2] == ','
    requires DigitRunEnd(s, e2 + 1) == e3
    requires s[a..e1] == m && s[e1 + 1..e2] == sec && s[e2 + 1..e3] == f
    ensures PerformanceAt(s, a)
    ensures PerformanceCaptures(s, a).minutes == m
    ensures PerformanceCaptures(s, a).seconds == sec
    ensures PerformanceCaptures(s, a).fraction == f
    ensures PerformanceCaptures(s, a).hand != [] <==> e3 < |s| && s[e3] == 'h'
  {
    assert PerformanceAt(s, a);
    var h := HRunEnd(s, e3);
    assert PerformanceCaptures(s, a) == PerformanceGroups(m, sec, f, s[e3..h]);
    assert h > e3 <==> e3 < |s| && s[e3] == 'h';
  }

  /** What `ParsePerformance` gives once the match and its groups are known. */
  lemma ParsePerformanceOf(text: string, i: nat, m: string, sec: string, f: string, hand: bool)
    requires FindPerformance(Padded(text), 0) == Some(i)
    requires PerformanceCaptures(Padded(text), i).minutes == m
    requires PerformanceCaptures(Padded(text), i).seconds == sec
    requires PerformanceCaptures(Padded(text), i).fraction == f
    requires (PerformanceCaptures(Padded(text), i).hand != []) == hand
    requires m != [] && sec != [] && f != []
    requires DigitsValue(m) < U32_BOUND && DigitsValue(sec) < U32_BOUND && DigitsValue(f) < U32_BOUND
    ensures PerformanceOk(text)
    ensures ParsePerformance(text).0 == DigitsValue(m) as real * 60.0 + DigitsValue(sec) as real + Fraction(DigitsValue(f), |f|)
    ensures ParsePerformance(text).1 == hand
  {
    var t := Padded(text);
    var g := PerformanceCaptures(t, i);
    assert ParseUnsigned(g.minutes, U32_BOUND) == Some(DigitsValue(m)) by { ParseUnsignedDigits(m, U32_BOUND); }
    assert ParseUnsigned(g.seconds, U32_BOUND) == Some(DigitsValue(sec)) by { ParseUnsignedDigits(sec, U32_BOUND); }
    assert ParseUnsigned(g.fraction, U32_BOUND) == Some(DigitsValue(f)) by { ParseUnsignedDigits(f, U32_BOUND); }
  }

  lemma PaddedTime(m: string, sec: string, f: string, rest: string)
    ensures Padded(m + ":" + sec + "," + f + rest) == "0:" + m + ":" + sec + "," + f + rest
    ensures Padded(m + ":" + sec + "," + f + rest) == "0:" + m + ":" + (sec + "," + f + rest)
  {
  }

  lemma PaddedSeconds(sec: string, f: string, rest: string)
    ensures Padded(sec + "," + f + rest) == "" + "0" + ":" + sec + "," + f + rest
  {
  }

  /** A time `M:S,F` is worth `60·M + S + F/10^|F|` seconds; it was timed by hand
      exactly when an `h` follows the fraction. */
  lemma PerformanceOfTime(m: string, sec: string, f: string, rest: string)
    requires AllDigits(m) && AllDigits(sec) && AllDigits(f)
    requires m != [] && sec != [] && f != []
    requires DigitsValue(m) < U32_BOUND && DigitsValue(sec) < U32_BOUND && DigitsValue(f) < U32_BOUND
    requires rest == [] || !IsDigit(rest[0])
    ensures PerformanceOk(m + ":" + sec + "," + f + rest)
    ensures ParsePerformance(m + ":" + sec + "," + f + rest).0
            == DigitsValue(m) as real * 60.0 + DigitsValue(sec) as real + Fraction(DigitsValue(f), |f|)
    ensures ParsePerformance(m + ":" + sec + "," + f + rest).1 == (rest != [] && rest[0] == 'h')
  {
    var text := m + ":" + sec + "," + f + rest;
    var s := Padded(text);
    PaddedTime(m, sec, f, rest);
    PerformanceAtParts("0:", m, sec, f, rest);
    NoPerformanceBeforeMinutes(m, sec + "," + f + rest);
    assert PerformanceAt(s, 2) && !PerformanceAt(s, 1) && !PerformanceAt(s, 0);
    assert FindPerformance(s, 2) == Some(2);
    assert FindPerformance(s, 1) == Some(2);
    assert FindPerformance(s, 0) == Some(2);
    ParsePerformanceOf(text, 2, m, sec, f, rest != [] && rest[0] == 'h');
  }

  /** In `"0:" + m + ":" + …` the match cannot start at 0 or 1: there the second
      digit group would be `m`, which is followed by `:`, not `,`. */
  lemma NoPerformanceBeforeMinutes(m: string, t: string)
    requires AllDigits(m)
    ensures !PerformanceAt("0:" + m + ":" + t, 0) && !PerformanceAt("0:" + m + ":" + t, 1)
  {
    var s := "0:" + m + ":" + t;
    assert s[2..2 + |m|] == m && s[2 + |m|] == ':';
    DigitBlockEnd(s, 2, m);
    assert s[0] == '0' && s[1] == ':';
    DigitRunStops(s, 1, 1);
    DigitRunStops(s, 0, 1);
  }

  /** A mark `S,F` without minutes (a distance, or a time under a minute) is worth
      `S + F/10^|F|`: the `"0:"` in front supplies the minutes. */
  lemma PerformanceOfSeconds(sec: string, f: string, rest: string)
    requires AllDigits(sec) && AllDigits(f)
    requires sec != [] && f != []
    requires DigitsValue(sec) < U32_BOUND && DigitsValue(f) < U32_BOUND
    requires rest == [] || !IsDigit(rest[0])
    ensures PerformanceOk(sec + "," + f + rest)
    ensures ParsePerformance(sec + "," + f + rest).0 == DigitsValue(sec) as real + Fraction(DigitsValue(f), |f|)
    ensures ParsePerformance(sec + "," + f + rest).1 == (rest != [] && rest[0] == 'h')
  {
    var text := sec + "," + f + rest;
    SecondsMatch(sec, f, rest);
    assert DigitsValue("0") == 0 by { assert "0"[..0] == []; }
    ParsePerformanceOf(text, 0, "0", sec, f, rest != [] && rest[0] == 'h');
  }

  /** In a mark without minutes the pattern matches at the `"0:"` put in front. */
  lemma SecondsMatch(sec: string, f: string, rest: string)
    requires AllDigits(sec) && AllDigits(f)
    requires rest == [] || !IsDigit(rest[0])
    ensures var t := Padded(sec + "," + f + rest);
            && FindPerformance(t, 0) == Some(0)
            && PerformanceCaptures(t, 0).minutes == "0"
            && PerformanceCaptures(t, 0).seconds == sec
            && PerformanceCaptures(t, 0).fraction == f
            && (PerformanceCaptures(t, 0).hand != [] <==> rest != [] && rest[0] == 'h')
  {
    PaddedSeconds(sec, f, rest);
    PerformanceAtParts("", "0", sec, f, rest);
  }

  // ---------------------------------------------------------------------------
  // ([0-9]{4})([0-9]{2})([0-9]{2})([\w\s]{0,}) \(([\w]{0,})\)
  // ---------------------------------------------------------------------------

  /** The sort-data pattern matches at `i`. `(` is not in `[\w\s]`, so the fourth
      group must run to the end `e` of the maximal `[\w\s]` run less the space
      before the `(`; `)` is not in `\w`, so the fifth group is the maximal `\w` run. */
  predicate SortDataAt(s: string, i: nat) {
    i + 8 <= |s| && AllDigits(s[i..i + 8])
    && var e := WordSpaceRunEnd(s, i + 8);
       i + 9 <= e < |s| && s[e - 1] == ' ' && s[e] == '('
       && var f := WordRunEnd(s, e + 1);
          f < |s| && s[f] == ')'
  }

  function FindSortData(s: string, from: nat): (r: Option<nat>)
    ensures r.Some? ==> from <= r.value && SortDataAt(s, r.value)
    ensures r.Some? ==> forall k :: from <= k < r.value ==> !SortDataAt(s, k)
    ensures r.None? ==> forall k :: from <= k ==> !SortDataAt(s, k)
    decreases |s| + 1 - from
  {
    if from > |s| then None
    else if SortDataAt(s, from) then Some(from)
    else FindSortData(s, from + 1)
  }

  /** The date, the location and the country of the match at `i`, or `None` when
      the date is not on the calendar (and `unwrap` panics). */
  function SortDataFields(s: string, i: nat): (r: Option<(Date, string, string)>)
    requires SortDataAt(s, i)
    ensures r.Some? ==> ValidDate(r.value.0)
    ensures r.Some? ==> forall k :: 0 <= k < |r.value.1| ==> IsWordOrSpace(r.value.1[k])
    ensures r.Some? ==> forall k :: 0 <= k < |r.value.2| ==> IsWordChar(r.value.2[k])
  {
    var e := WordSpaceRunEnd(s, i + 8);
    var f := WordRunEnd(s, e + 1);
    var ymd := s[i..i + 8];
    var date := FromYmd(DigitsValue(ymd[..4]), DigitsValue(ymd[4..6]), DigitsValue(ymd[6..]));
    if date.None? then None
    else Some((date.value, s[i + 8..e - 1], s[e + 1..f]))
  }

  predicate SortDataOk(s: string) {
    FindSortData(s, 0).Some? && SortDataFields(s, FindSortData(s, 0).value).Some?
  }

  /** Sort data `YYYYMMDD<place> (<country>)` is read back as the date, the place
      and the country it was built from, whatever follows it. */
  lemma SortDataOf(ymd: string, place: string, country: string, rest: string)
    requires AllDigits(ymd) && |ymd| == 8
    requires ValidDate(Date(DigitsValue(ymd[..4]), DigitsValue(ymd[4..6]), DigitsValue(ymd[6..])))
    requires forall k :: 0 <= k < |place| ==> IsWordOrSpace(place[k])
    requires forall k :: 0 <= k < |country| ==> IsWordChar(country[k])
    ensures FindSortData(ymd + place + " (" + country + ")" + rest, 0) == Some(0)
    ensures SortDataOk(ymd + place + " (" + country + ")" + rest)
    ensures SortDataFields(ymd + place + " (" + country + ")" + rest, 0)
            == Some((Date(DigitsValue(ymd[..4]), DigitsValue(ymd[4..6]), DigitsValue(ymd[6..])), place, country))
  {
    var s := ymd + place + " (" + country + ")" + rest;
    var e := 8 + |place| + 1;
    var f := e + 1 + |country|;
    assert s[..8] == ymd;
    forall j | 8 <= j < e ensures IsWordOrSpace(s[j]) {
      if j < e - 1 { assert s[j] == place[j - 8]; } else { assert s[j] == ' '; }
    }
    assert s[e] == '(';
    WordSpaceRunStops(s, 8, e);
    forall j | e + 1 <= j < f ensures IsWordChar(s[j]) { assert s[j] == country[j - e - 1]; }
    assert s[f] == ')';
    WordRunStops(s, e + 1, f);
    assert SortDataAt(s, 0);
    assert s[8..e - 1] == place;
    assert s[e + 1..f] == country;
  }

  // ---------------------------------------------------------------------------
  // Rows
  // ---------------------------------------------------------------------------

  /** One row decoded into its event name and personal best, or `None` where an
      `unwrap` panics: fewer than three cells, no first text in the first two, a
      performance that does not match or fit, or sort data that is missing, does
      not match, or names a day that is not on the calendar. */
  function DecodeRow(row: PbRow): (r: Option<(string, PersonalBest)>)
    ensures r.Some? ==> |row.cells| >= 3 && row.cells[0].texts != [] && row.cells[1].texts != []
    ensures r.Some? ==> r.value.0 == Trim(row.cells[0].texts[0])
    ensures r.Some? ==> r.value.1.displayPerformance == Trim(row.cells[1].texts[0])
    ensures r.Some? ==> r.value.1.performance >= 0.0 && ValidDate(r.value.1.date)
  {
    if |row.cells| < 3 || row.cells[0].texts == [] || row.cells[1].texts == [] then None
    else
      var text := Trim(row.cells[1].texts[0]);
      var sortData := row.cells[2].sortData;
      if !PerformanceOk(text) || sortData.None? || sortData.value.None? || !SortDataOk(sortData.value.value) then None
      else
        var (performance, hand) := ParsePerformance(text);
        var data := sortData.value.value;
        var fields := SortDataFields(data, FindSortData(data, 0).value).value;
        Some((Trim(row.cells[0].texts[0]), PersonalBest(performance, text, hand, fields.1, fields.2, fields.0)))
  }

  /** The pairs of all rows, in order, or `None` when some row panics. */
  function Decoded(rows: seq<PbRow>): (r: Option<seq<(string, PersonalBest)>>)
    ensures r.Some? ==> |r.value| == |rows|
  {
    if rows == [] then Some([])
    else
      match Decoded(rows[..|rows| - 1])
      case None => None
      case Some(init) =>
        match DecodeRow(rows[|rows| - 1])
        case None => None
        case Some(last) => Some(init + [last])
  }

  /** The pairs of rows that decode end with the pair of the last row, row `n`. */
  lemma DecodedLast(rows: seq<PbRow>, n: nat)
    requires Decoded(rows).Some? && n + 1 == |rows|
    ensures Decoded(rows[..n]).Some? && DecodeRow(rows[n]).Some?
    ensures Decoded(rows).value == Decoded(rows[..n]).value + [DecodeRow(rows[n]).value]
  {
    assert rows != [] && n == |rows| - 1;
    assert rows[..|rows| - 1] == rows[..n] && rows[|rows| - 1] == rows[n];
  }

  /** The rows decode exactly when each of them does, and the pair of a row is the
      pair `DecodeRow` gives it. */
  lemma {:induction false} DecodedAt(rows: seq<PbRow>, k: nat)
    requires Decoded(rows).Some? && k < |rows|
    ensures DecodeRow(rows[k]).Some?
    ensures Decoded(rows).value[k] == DecodeRow(rows[k]).value
  {
    var n := |rows| - 1;
    DecodedLast(rows, n);
    var before := Decoded(rows[..n]).value;
    var last := DecodeRow(rows[n]).value;
    assert |before| == n;
    SnocAt(before, last, k);
    if k < n {
      assert rows[..n][k] == rows[k];
      DecodedAt(rows[..n], k);
    } else {
      assert k == n;
    }
  }

  /** Every prefix of rows that decode decodes. */
  lemma {:induction false} DecodedTake(rows: seq<PbRow>, i: nat)
    requires Decoded(rows).Some? && i <= |rows|
    ensures Decoded(rows[..i]).Some?
    decreases |rows|
  {
    if i < |rows| {
      var n := |rows| - 1;
      DecodedLast(rows, n);
      TakeTake(rows, n, i);
      DecodedTake(rows[..n], i);
    } else {
      assert i == |rows|;
      TakeAll(rows);
    }
  }

  /** Every prefix of rows that decode decodes, one row at a time. */
  lemma DecodedPrefix(rows: seq<PbRow>, i: nat)
    requires Decoded(rows).Some? && i < |rows|
    ensures Decoded(rows[..i]).Some? && DecodeRow(rows[i]).Some?
    ensures Decoded(rows[..i + 1]) == Some(Decoded(rows[..i]).value + [DecodeRow(rows[i]).value])
  {
    DecodedTake(rows, i + 1);
    var p := rows[..i + 1];
    DecodedLast(p, i);
    TakeTake(rows, i + 1, i);
    assert p[i] == rows[i];
  }

  /** `HashMap::insert` of each pair in order. */
  function InsertAll<K, V>(entries: seq<(K, V)>): (m: map<K, V>)
  {
    if entries == [] then map[]
    else InsertAll(entries[..|entries| - 1])[entries[|entries| - 1].0 := entries[|entries| - 1].1]
  }

  /** Inserting one more pair. */
  lemma InsertAllSnoc<K, V>(entries: seq<(K, V)>, e: (K, V))
    ensures InsertAll(entries + [e]) == InsertAll(entries)[e.0 := e.1]
  {
    assert (entries + [e])[..|entries|] == entries;
  }

  /** The keys of the map are exactly the keys of the pairs. */
  lemma {:induction false} InsertAllKeys<K, V>(entries: seq<(K, V)>)
    ensures forall key :: key in InsertAll(entries) <==> exists j :: 0 <= j < |entries| && entries[j].0 == key
  {
    if entries != [] {
      var init := entries[..|entries| - 1];
      InsertAllKeys(init);
      forall key ensures key in InsertAll(entries) <==> exists j :: 0 <= j < |entries| && entries[j].0 == key {
        if key in InsertAll(init) {
          var j :| 0 <= j < |init| && init[j].0 == key;
          assert entries[j] == init[j];
        }
        if exists j :: 0 <= j < |entries| && entries[j].0 == key {
          var j :| 0 <= j < |entries| && entries[j].0 == key;
          if j < |init| {
            assert init[j] == entries[j];
          }
        }
      }
    }
  }

  /** A later pair with the same key replaces an earlier one: the value of a key is
      the value of the last pair that carries it. */
  lemma {:induction false} InsertAllLastWins<K, V>(entries: seq<(K, V)>, j: nat)
    requires j < |entries|
    requires forall k :: j < k < |entries| ==> entries[k].0 != entries[j].0
    ensures entries[j].0 in InsertAll(entries)
    ensures InsertAll(entries)[entries[j].0] == entries[j].1
  {
    if j < |entries| - 1 {
      var init := entries[..|entries| - 1];
      assert init[j] == entries[j];
      forall k | j < k < |init| ensures init[k].0 != init[j].0 {
        assert init[k] == entries[k];
      }
      InsertAllLastWins(init, j);
    }
  }

  /** The personal bests of a page: the rows' pairs inserted in order. */
  function PersonalBests(rows: seq<PbRow>): map<string, PersonalBest>
    requires Decoded(rows).Some?
  {
    InsertAll(Decoded(rows).value)
  }

  /** The entry of an event is the personal best of the last row that names it. */
  lemma LastRowWins(rows: seq<PbRow>, j: nat)
    requires Decoded(rows).Some? && j < |rows|
    requires forall k :: j < k < |rows| ==> Decoded(rows).value[k].0 != Decoded(rows).value[j].0
    ensures DecodeRow(rows[j]).Some?
    ensures DecodeRow(rows[j]).value.0 in PersonalBests(rows)
    ensures PersonalBests(rows)[DecodeRow(rows[j]).value.0] == DecodeRow(rows[j]).value.1
  {
    DecodedAt(rows, j);
    InsertAllLastWins(Decoded(rows).value, j);
  }

  /** Every event in the map is named by some row, and every row's event is in it. */
  lemma PersonalBestsKeys(rows: seq<PbRow>, name: string)
    requires Decoded(rows).Some?
    ensures name in PersonalBests(rows) <==> exists j :: 0 <= j < |rows| && Decoded(rows).value[j].0 == name
  {
    var e := Decoded(rows).value;
    assert |e| == |rows|;
    InsertAllKeys(e);
    assert name in InsertAll(e) <==> exists j :: 0 <= j < |e| && e[j].0 == name;
  }

  /** `athlete_profile::parse`. The competitions come first; since their parse never
      fails, neither does this one. */
  method Parse(registrations: Option<seq<CompetitionRegistrationsList.Row>>, pbRows: seq<PbRow>)
    returns (r: Result<Profile>)
    requires registrations.Some? ==> CompetitionRegistrationsList.RowsSafe(registrations.value)
    requires Decoded(pbRows).Some?
    ensures r.Ok?
    ensures r.value.personalBests == PersonalBests(pbRows)
    ensures registrations.None? ==> r.value.competitions == []
    ensures registrations.Some? ==> r.value.competitions == CompetitionRegistrationsList.Records(registrations.value)
  {
    var competitions := CompetitionRegistrationsList.Parse(registrations);
    var personalBests: map<string, PersonalBest> := map[];
    var i := 0;
    while i < |pbRows|
      invariant 0 <= i <= |pbRows|
      invariant Decoded(pbRows[..i]).Some?
      invariant personalBests == InsertAll(Decoded(pbRows[..i]).value)
    {
      DecodedPrefix(pbRows, i);
      var entry := DecodeRow(pbRows[i]).value;
      InsertAllSnoc(Decoded(pbRows[..i]).value, entry);
      personalBests := personalBests[entry.0 := entry.1];
      i := i + 1;
    }
    TakeAll(pbRows);
    return Ok(Profile(personalBests, competitions.value));
  }

  /** A page without personal-best rows gives an empty map. */
  lemma NoRowsNoBests()
    ensures PersonalBests([]) == map[]
  {
  }
}
