# atletiek-nu-api, modelled in Dafny

A model of the core of the atletiek-nu-api workspace:

- the scrapers of `atletiek-nu-api`, which turn pages of atletiek.nu and athletics.app into lists of competitions, registrations, athletes, events, results and personal bests;
- the two text components, `Country` and the wind-speed parser;
- the HTML text cleaner;
- the API server's response value and its request cache, including the snapshot written to disk and read back;
- the desktop client's bookkeeping: its window list and event queue, its request table, and the `AsyncResource` state machine.

Each scraper is modelled on what its selectors hand it, as a list of rows or items. A row is a record of the attribute values and text nodes the source reads, with `None` where a selector finds nothing. The model follows the source step by step:

- Every `unwrap`, `expect` and index that can panic becomes a precondition. These are recursive "safe" predicates that follow the row loop: a row after the first error need not be safe.
- Every `?` and `bail!` becomes an `Err`.
- Where a loop pushes into a vector and can stop at the first failing row, the loop is a method. Its result is tied to `Collect`, the fold "first panic or error ends the list" of `wrappers.dfy`.

Each regular expression is a hand-written "matches at i" predicate plus a leftmost scan (`Find…`). Most groups can only match their maximal run. Where a greedy group must give characters back, the "matches at i" predicate states the split the engine chooses: the place group of the personal-best sort data gives back the space before ` (`, the wind's first digit run gives back digits so that the unescaped `.` and the second run can match, and the bar-separated registrations text ends its groups at the last bars. Unescaped dots in the patterns are wildcards, as in the source.

Time is counted in integer nanoseconds:

- monotonic instants are `int`;
- the wall clock is nanoseconds since the Unix epoch;
- `Duration::as_secs` is floor division.

Clock readings, the fetch result of a cache miss, the GUI's promise readiness and `Local::now` are parameters.

## Model

| member | source | states |
|---|---|---|
| Strings.TrimSlice | atletiek-nu-api/src/models/registrations_list.rs:48-52 | `trim` keeps a contiguous slice whose two ends are not white space, and drops only white space |
| Strings.TrimEmptyIffBlank | atletiek-nu-api/src/models/athlete_list.rs:29-33 | a text trims to nothing exactly when it is all white space (what the `is_empty` filter drops) |
| Strings.TrimIdempotent | atletiek-nu-api/src/models/registrations_list.rs:54 | trimming a trimmed text changes nothing |
| Strings.TrimFixed | atletiek-nu-api/src/models/athlete_list.rs:29-33 | a text whose two ends are not white space is its own trim |
| Strings.NonBlankTexts | atletiek-nu-api/src/models/athlete_list.rs:29-33 | the kept texts are at most as many as the text nodes, each non-empty and already trimmed |
| Strings.FirstNonBlank | atletiek-nu-api/src/models/athlete_list.rs:29-35 | the first kept text is the trimmed first text node that is not blank |
| Strings.ReplaceAllAbsent | atletiek-nu-api/src/models/athlete_list.rs:35 | `replace` leaves a text without the pattern unchanged |
| Strings.ReplaceAllExcludes | atletiek-nu-api/src/models/competitions_list_web.rs:84 | replacing a one-character pattern by text without it removes every occurrence; a character in neither the input nor the replacement stays absent |
| Strings.ReplaceAllSkip | atletiek-nu-api/src/models/athlete_list.rs:35 | a prefix where no occurrence starts is copied unchanged and the scan goes on after it |
| Strings.ReplaceAllHead | atletiek-nu-api/src/models/athlete_list.rs:35 | an occurrence at the front is replaced and the scan resumes after it (one pass, no rescan) |
| Strings.NatToStringValue | api/src/util.rs:97-100 | the decimal text of a number reads back as that number |
| Strings.NatToStringInjective | gui/src/app.rs:130-135 | different numbers have different decimal texts |
| Strings.ParseUnsignedRoundTrip | atletiek-nu-api/src/models/athlete_list.rs:51 | `parse::<uN>` of `to_string(n)` gives `n` back when it fits the type and fails otherwise |
| Strings.ParseUnsignedDigits | atletiek-nu-api/src/models/athlete_list.rs:57 | a string of digits parses exactly when it is non-empty and its value fits |
| Strings.OnlyDigitsAppend | atletiek-nu-api/src/models/competition_registrations_list.rs:45-49 | filtering the digits of a concatenation is concatenating the filtered parts |
| Strings.OnlyDigitsKeepsDigits | atletiek-nu-api/src/models/competition_registrations_list.rs:45-49 | digits are kept and every other character is dropped |
| Strings.LowerAsciiFolds | api/src/cache/mod.rs:62 | the lower-cased query holds no ASCII capital, each becomes its small letter, every other character stays, and lower-casing again changes nothing |
| Wrappers.CollectAt | atletiek-nu-api/src/models/athlete_list.rs:28-61 | in a list that decoded, position k holds the value of row k |
| Wrappers.CollectAllOk | atletiek-nu-api/src/models/athlete_list.rs:28-61 | when every row decodes, the list decodes |
| Wrappers.CollectErr | atletiek-nu-api/src/models/athlete_list.rs:51 | an error returned by the loop is the error of some row |
| Wrappers.CollectAppend | atletiek-nu-api/src/models/competitions_list.rs:21-32 | decoding two runs of rows one after the other is decoding them together |
| Patterns.DigitCaptureOf | atletiek-nu-api/src/models/athlete_list.rs:8 | a literal, then digits, then the terminator, at the start of a text is a match that captures those digits |
| Patterns.KeyedDigitsOf | atletiek-nu-api/src/models/registrations_list.rs:5 | digits right after a key, with no earlier occurrence of the key, are the leftmost capture |
| Patterns.NoKeyBefore | atletiek-nu-api/src/models/athlete_list.rs:8 | no match starts in a prefix that holds no occurrence of the key |
| Dates.FromYmd | atletiek-nu-api/src/models/competitions_list_web.rs:69 | `from_ymd_opt` gives a date exactly when it is on the proleptic Gregorian calendar |
| Dates.ParseYmdDigits | atletiek-nu-api/src/models/athlete_profile.rs:86-90 | `%Y%m%d` on digits gives only valid dates; as the fields are taken greedily (4, 2, 2), only seven or eight digits can be read |
| Dates.ParseYmdEightDigits | atletiek-nu-api/src/models/athlete_profile.rs:86-90 | eight digits are read as year, month and day, field by field |
| Decimal.ParseFloatDigits | atletiek-nu-api/src/models/athlete_event_result.rs:66-70 | a string of digits is read as the integer it spells |
| Decimal.ParseFloatFixedPoint | atletiek-nu-api/src/components/wind_speed.rs:21 | `int.frac` is read as its exact value; a bare dot is rejected |
| Decimal.ParseFloatSign | atletiek-nu-api/src/models/athlete_event_result.rs:66-70 | a leading minus negates the magnitude; a number without one is not negative |
| HtmlText.CleanHtml | atletiek-nu-api/src/util.rs:13-48 | the character loop returns exactly the top-level text of the input |
| HtmlText.OutputIsSubsequence | atletiek-nu-api/src/util.rs:13-48 | the output keeps input characters in order and adds none |
| HtmlText.OutputHasNoBrackets | atletiek-nu-api/src/util.rs:22-34 | the output never holds `<` or `>` |
| HtmlText.TopLevelTextShape | atletiek-nu-api/src/util.rs:13-48 | the cleaned text is a subsequence of the input without angle brackets |
| HtmlText.PlainTextUnchanged | atletiek-nu-api/src/util.rs:35-43 | text without brackets is kept at depth 0, dropped inside an element, and leaves the state unchanged |
| HtmlText.PlainTextKept | atletiek-nu-api/src/util.rs:13-48 | input without tags comes back unchanged |
| HtmlText.OutFromAppend | atletiek-nu-api/src/util.rs:21-44 | reading `a + b` is reading `a`, then `b` from the state `a` left |
| HtmlText.InsideTag | atletiek-nu-api/src/util.rs:35-43 | inside a tag nothing is emitted, and a `/` marks the tag as closing |
| HtmlText.NothingInsideTagEmitted | atletiek-nu-api/src/util.rs:22-43 | between a `<` and the next `>` no character reaches the output |
| HtmlText.WholeTag | atletiek-nu-api/src/util.rs:22-34 | a whole tag outside any tag lowers the depth if it holds `/` and raises it otherwise |
| HtmlText.ClosingOnlyInTag | atletiek-nu-api/src/util.rs:25-34 | outside a tag the closing flag is always clear |
| HtmlText.BalancedPairDropped | atletiek-nu-api/src/util.rs:13-48 | the text inside a balanced pair `<x>…</x>` is dropped, and the depth is as it was before the pair |
| HtmlText.PairNeutral | atletiek-nu-api/src/util.rs:20-44 | outside any tag, a balanced pair `<x>…</x>` emits nothing and leaves the scan state as it found it |
| HtmlText.StrayClosingExample | atletiek-nu-api/src/util.rs:25-43 | a stray closing tag drives the depth negative, so the text after it is lost |
| HtmlText.SelfClosingExample | atletiek-nu-api/src/util.rs:25-43 | a self-closing tag counts as closing, so the text after it is lost |
| HtmlText.NestedExample | atletiek-nu-api/src/util.rs:13-48 | text inside a pair is dropped and the text around it kept |
| HtmlText.RemoveFirstTag | atletiek-nu-api/src/util.rs:7-10 | `clean_html_re` removes only the leftmost shortest `<…>` span, and returns other text unchanged |
| HtmlText.FirstTagSpan | atletiek-nu-api/src/util.rs:3 | the span starts at the first `<` and ends at the first `>` after it; there is none exactly when no `<` precedes a `>` |
| HtmlText.RemoveFirstTagExample | atletiek-nu-api/src/util.rs:7-10 | only the first tag goes |
| Country.UpperFolds | atletiek-nu-api/src/components/country.rs:9 | the upper-cased text holds no small ASCII letter, each becomes its capital, upper-casing again changes nothing, and every code is its own upper-casing |
| Country.ToStr | atletiek-nu-api/src/components/country.rs:26-41 | every code is two capital letters |
| Country.Parse | atletiek-nu-api/src/components/country.rs:8-25 | the upper-cased text is accepted exactly when it is a code (or empty, giving NL); otherwise it is an error |
| Country.ParseToStr | atletiek-nu-api/src/components/country.rs:8-41 | parsing a printed code gives the country back |
| Country.ToStrInjective | atletiek-nu-api/src/components/country.rs:26-41 | different countries print differently |
| Country.ParseCaseInsensitive | atletiek-nu-api/src/components/country.rs:9 | texts that agree after upper-casing parse alike |
| Country.ParseLowerCase | atletiek-nu-api/src/components/country.rs:9-21 | lower-case and mixed-case codes are accepted |
| Country.ParseOfUpper | atletiek-nu-api/src/components/country.rs:8-25 | a text whose upper-casing is a code parses as that country |
| WindSpeed.Normalize | atletiek-nu-api/src/components/wind_speed.rs:11 | the matched text holds no space and no comma |
| WindSpeed.Magnitude | atletiek-nu-api/src/components/wind_speed.rs:12 | group 2 is a run of digits and dots that is followed by `m/s` |
| WindSpeed.FindWind | atletiek-nu-api/src/components/wind_speed.rs:12 | the scan finds the leftmost match, or reports that none exists |
| WindSpeed.Parse | atletiek-nu-api/src/components/wind_speed.rs:8-27 | no match gives `None`; otherwise the rounded magnitude of the leftmost match, negated for `-` |
| WindSpeed.SignedWind | atletiek-nu-api/src/components/wind_speed.rs:13-22 | a signed magnitude followed by `m/s` gives that magnitude, rounded, with its sign |
| WindSpeed.SourceExamplePositive | atletiek-nu-api/src/components/wind_speed.rs:31-35 | `+2.1m/s` reads as 2.1 |
| WindSpeed.SourceExampleNegative | atletiek-nu-api/src/components/wind_speed.rs:31-35 | `-1.2 m/s` reads as -1.2 |
| WindSpeed.SameNormalForm | atletiek-nu-api/src/components/wind_speed.rs:11-12 | the result depends only on the normalised text |
| WindSpeed.NormalizeOneSpace | atletiek-nu-api/src/components/wind_speed.rs:11 | a space between clean pieces is dropped |
| WindSpeed.NoUnitNoWind | atletiek-nu-api/src/components/wind_speed.rs:23-26 | a text without `m/s` gives no wind and does not panic |
| AthleteEventResult.EventName | atletiek-nu-api/src/models/athlete_event_result.rs:45-48 | the name is group 1 of the leftmost match of the event pattern |
| AthleteEventResult.EventNameOfLink | atletiek-nu-api/src/models/athlete_event_result.rs:5-6 | a results link built from an id and a name reads back as that name |
| AthleteEventResult.Wind | atletiek-nu-api/src/models/athlete_event_result.rs:73-83 | no match gives no wind; a group that is not a float is an error; otherwise the signed value |
| AthleteEventResult.WindDecimalPoint | atletiek-nu-api/src/models/athlete_event_result.rs:8 | `±d.dm/s` reads as its signed decimal value |
| AthleteEventResult.WindDecimalCommaIsError | atletiek-nu-api/src/models/athlete_event_result.rs:8 | a decimal comma matches the unescaped dot and then fails the float parse |
| AthleteEventResult.CellResult | atletiek-nu-api/src/models/athlete_event_result.rs:51-92 | a cell without both spans gives nothing; otherwise its `data` parsed, with the row's event name and link |
| AthleteEventResult.CellResultOkIndependent | atletiek-nu-api/src/models/athlete_event_result.rs:51-92 | whether a cell fails does not depend on the event name or link |
| AthleteEventResult.Parse | atletiek-nu-api/src/models/athlete_event_result.rs:24-97 | the loop's result is the rows' results in order, with the first error winning |
| AthleteEventResult.ParseRow | atletiek-nu-api/src/models/athlete_event_result.rs:51-93 | the cell loop gives the results of the cells in order, with the first error winning |
| AthleteEventResult.CellsResultsShape | atletiek-nu-api/src/models/athlete_event_result.rs:51-92 | a row gives one result per cell that has both spans, each carrying the row's event name and link |
| AthleteEventResult.RowsResultsAppend | atletiek-nu-api/src/models/athlete_event_result.rs:41-94 | the results of a table are those of its first rows followed by those of the rest |
| AthleteEventResult.RowsResultsCons | atletiek-nu-api/src/models/athlete_event_result.rs:41-94 | a failing first row is the table's error; otherwise its results come first, before those of the rest |
| AthleteEventResult.EmptyTable | atletiek-nu-api/src/models/athlete_event_result.rs:41 | a table without rows gives no results |
| AthleteList.AgeAndClub | atletiek-nu-api/src/models/athlete_list.rs:6 | the captures are 1 to 3 digits and a non-empty club |
| AthleteList.AgeAndClubShape | atletiek-nu-api/src/models/athlete_list.rs:38 | there are captures exactly when the pattern matches; the club runs to the end of the text |
| AthleteList.AgeAndClubOf | atletiek-nu-api/src/models/athlete_list.rs:36-38 | the text `<age> years, a bar, <club>` gives back that age and that club |
| AthleteList.AgeOfFourDigits | atletiek-nu-api/src/models/athlete_list.rs:6 | a four-digit age matches from its second digit, so `1234` reads as 234 |
| AthleteList.AthleteId | atletiek-nu-api/src/models/athlete_list.rs:40-51 | no `koppel_id=` digits panics; a value read always fits a u32 |
| AthleteList.AthleteIdOf | atletiek-nu-api/src/models/athlete_list.rs:8 | the id is read from the key wherever it stands in the handler |
| AthleteList.ItemOutcomeOk | atletiek-nu-api/src/models/athlete_list.rs:35-58 | a decoded item holds the handler's id, the name with double spaces collapsed, the club and an age below 256 |
| AthleteList.AgeTooLarge | atletiek-nu-api/src/models/athlete_list.rs:57 | an age of 256 to 999 matches the pattern but is an error |
| AthleteList.Outcomes | atletiek-nu-api/src/models/athlete_list.rs:28 | there is one outcome per item |
| AthleteList.Parse | atletiek-nu-api/src/models/athlete_list.rs:20-62 | the loop gives the items' elements in document order, with the first error winning |
| AthleteProfile.PerformanceCaptures | atletiek-nu-api/src/models/athlete_profile.rs:10 | the groups are three digit runs and a run of `h` |
| AthleteProfile.PerformanceAtEnds | atletiek-nu-api/src/models/athlete_profile.rs:10 | three digit runs ended by `:`, `,` and a non-digit match at their start, with the runs as the captures and an `h` group exactly when an `h` follows |
| AthleteProfile.ParsePerformance | atletiek-nu-api/src/models/athlete_profile.rs:54-76 | the performance is not negative |
| AthleteProfile.ParsePerformanceOf | atletiek-nu-api/src/models/athlete_profile.rs:64-74 | the value is minutes times 60, plus the seconds, plus the fraction; hand timing is a non-empty `h` group |
| AthleteProfile.PerformanceOfTime | atletiek-nu-api/src/models/athlete_profile.rs:54-76 | `M:S,F` is worth 60·M + S + F/10^len(F), and is hand-timed exactly when an `h` follows |
| AthleteProfile.PerformanceOfSeconds | atletiek-nu-api/src/models/athlete_profile.rs:61-76 | `S,F` without minutes is worth S + F/10^len(F), because of the `0:` padding |
| AthleteProfile.NoPerformanceBeforeMinutes | atletiek-nu-api/src/models/athlete_profile.rs:61-62 | the padding is never part of the match when the text has minutes |
| AthleteProfile.SortDataFields | atletiek-nu-api/src/models/athlete_profile.rs:78-93 | a valid date, a place of word and space characters, and a country of word characters |
| AthleteProfile.SortDataOf | atletiek-nu-api/src/models/athlete_profile.rs:78-93 | `YYYYMMDD<place> (<country>)` reads back as that date, place and country |
| AthleteProfile.DecodeRow | atletiek-nu-api/src/models/athlete_profile.rs:40-93 | a decoded row has the trimmed event name and display text, a non-negative performance and a valid date |
| AthleteProfile.DecodedAt | atletiek-nu-api/src/models/athlete_profile.rs:38-96 | the pair at position k is the decoding of row k |
| AthleteProfile.DecodedPrefix | atletiek-nu-api/src/models/athlete_profile.rs:38-96 | the rows decode one at a time, in order |
| AthleteProfile.InsertAllKeys | atletiek-nu-api/src/models/athlete_profile.rs:95 | the map's keys are exactly the inserted keys |
| AthleteProfile.InsertAllLastWins | atletiek-nu-api/src/models/athlete_profile.rs:95 | a later insert under the same key replaces the earlier one |
| AthleteProfile.LastRowWins | atletiek-nu-api/src/models/athlete_profile.rs:95 | an event's personal best is that of the last row naming it |
| AthleteProfile.PersonalBestsKeys | atletiek-nu-api/src/models/athlete_profile.rs:95 | an event is in the map exactly when some row names it |
| AthleteProfile.Parse | atletiek-nu-api/src/models/athlete_profile.rs:28-101 | never an error; the competitions of the embedded list, and the rows' personal bests inserted in order |
| AthleteProfile.NoRowsNoBests | atletiek-nu-api/src/models/athlete_profile.rs:38 | a page without rows gives no personal bests |
| CompetitionsListWeb.IdOutcome | atletiek-nu-api/src/models/competitions_list_web.rs:42-45 | no digits in `onclick` panics; an id read fits a u32 |
| CompetitionsListWeb.IdOfOnclick | atletiek-nu-api/src/models/competitions_list_web.rs:42-45 | the id is the value of the first digit run |
| CompetitionsListWeb.MonthNumber | atletiek-nu-api/src/models/competitions_list_web.rs:53-67 | an abbreviation gives its 1-based month; anything else is not a month |
| CompetitionsListWeb.MonthNumberOfName | atletiek-nu-api/src/models/competitions_list_web.rs:53-67 | every abbreviation reads back as its own month |
| CompetitionsListWeb.DateOutcome | atletiek-nu-api/src/models/competitions_list_web.rs:47-76 | a date read is valid; an unknown month is an error; a day off the calendar panics |
| CompetitionsListWeb.DateOfText | atletiek-nu-api/src/models/competitions_list_web.rs:47-70 | a well-formed date cell gives the day, month and year it spells |
| CompetitionsListWeb.DateOfTextBadMonth | atletiek-nu-api/src/models/competitions_list_web.rs:53-67 | an unknown month abbreviation is reported as an error |
| CompetitionsListWeb.NameOf | atletiek-nu-api/src/models/competitions_list_web.rs:78-86 | the name holds no no-break space and starts and ends with no white space |
| CompetitionsListWeb.ClubAndLocation | atletiek-nu-api/src/models/competitions_list_web.rs:88-91 | a text without `, ` panics; the two pieces hold no separator |
| CompetitionsListWeb.ClubAndLocationOf | atletiek-nu-api/src/models/competitions_list_web.rs:88-91 | club and location come back from the text they were written into |
| CompetitionsListWeb.ClubAndLocationSlices | atletiek-nu-api/src/models/competitions_list_web.rs:88-91 | the first two `, `-separated pieces of a text are the club and the location |
| CompetitionsListWeb.RegistrationsOutcome | atletiek-nu-api/src/models/competitions_list_web.rs:93-100 | no ` athletes` panics; a count read fits a u32 |
| CompetitionsListWeb.RegistrationsOf | atletiek-nu-api/src/models/competitions_list_web.rs:93-100 | the count before ` athletes` is read; without digits it is an error |
| CompetitionsListWeb.RowOutcome | atletiek-nu-api/src/models/competitions_list_web.rs:40-123 | a row that does not panic has an `onclick` |
| CompetitionsListWeb.RowOutcomeOk | atletiek-nu-api/src/models/competitions_list_web.rs:40-123 | a decoded row holds the id read from `onclick`, the date of its date cell (today without one), the cleaned name, club and location of the location cell and the count of the registrations cell; ids and counts fit a u32 |
| CompetitionsListWeb.RowOutcomes | atletiek-nu-api/src/models/competitions_list_web.rs:41 | there is one outcome per row |
| CompetitionsListWeb.Parse | atletiek-nu-api/src/models/competitions_list_web.rs:26-127 | the loop gives the rows' elements in order, with the first error winning |
| CompetitionsList.IdTextOfLink | atletiek-nu-api/src/models/competitions_list.rs:47-54 | a link to an event page gives back that event's number |
| CompetitionsList.NoHrefNoId | atletiek-nu-api/src/models/competitions_list.rs:47-54 | a link without `href` leaves an empty id, which does not parse |
| CompetitionsList.RegistrationsText | atletiek-nu-api/src/models/competitions_list.rs:71-82 | the count is a non-empty digit run, or absent exactly when the pattern does not match |
| CompetitionsList.RegistrationsTextOf | atletiek-nu-api/src/models/competitions_list.rs:6 | a count in front of ` registrations` is the one read |
| CompetitionsList.TitleText | atletiek-nu-api/src/models/competitions_list.rs:57-58 | a title found is not empty |
| CompetitionsList.TitleTextNone | atletiek-nu-api/src/models/competitions_list.rs:57-58 | the title is missing exactly when every text is blank; one that is found is trimmed |
| CompetitionsList.AllBlankNothingKept | atletiek-nu-api/src/models/competitions_list.rs:57-58 | only blank texts leave nothing |
| CompetitionsList.LocationTextShape | atletiek-nu-api/src/models/competitions_list.rs:64-69 | the location holds no markup and is trimmed |
| CompetitionsList.ItemOutcomeOk | atletiek-nu-api/src/models/competitions_list.rs:84-91 | a decoded item has the link's number read as a u32 and the registrations text read as a u16 as id and count, and the title, WA flag and location read |
| CompetitionsList.Outcomes | atletiek-nu-api/src/models/competitions_list.rs:46 | there is one outcome per item |
| CompetitionsList.BlocksOutcomeFlat | atletiek-nu-api/src/models/competitions_list.rs:21-32 | how items are grouped into blocks does not change the result |
| CompetitionsList.ParseElementList | atletiek-nu-api/src/models/competitions_list.rs:34-95 | the loop gives the items' elements in order, with the first error winning |
| CompetitionsList.Parse | atletiek-nu-api/src/models/competitions_list.rs:21-32 | the blocks' elements are concatenated in order, with the first error winning |
| RegistrationsList.UnescapeEscape | atletiek-nu-api/src/models/registrations_list.rs:31-37 | unescaping restores any text without ampersands whose brackets were escaped |
| RegistrationsList.ParticipantId | atletiek-nu-api/src/models/registrations_list.rs:44-46 | no `deelnemer_id=` digits panics; an id read fits a u32 |
| RegistrationsList.ParticipantIdOf | atletiek-nu-api/src/models/registrations_list.rs:5 | the id is read from the parameter wherever it stands in the link |
| RegistrationsList.LastBar | atletiek-nu-api/src/models/registrations_list.rs:6-8 | the last bar separator that starts in a range, or none exactly when there is none |
| RegistrationsList.ThreeParts | atletiek-nu-api/src/models/registrations_list.rs:7-8 | the bars the engine reports: the last bar ends group 2, and the last bar before it ends group 1 |
| RegistrationsList.TwoParts | atletiek-nu-api/src/models/registrations_list.rs:6 | the bar of the two-part match is the last one |
| RegistrationsList.CategoryClubTeam | atletiek-nu-api/src/models/registrations_list.rs:57-72 | there is a team exactly when the three-part pattern matches; neither form matching gives nothing |
| RegistrationsList.ThreePartsOf | atletiek-nu-api/src/models/registrations_list.rs:57-64 | `category, club, team` separated by bars come back apart |
| RegistrationsList.TwoPartsOf | atletiek-nu-api/src/models/registrations_list.rs:65-72 | `category, club` separated by a bar come back apart, with no team |
| RegistrationsList.CleanOnePass | atletiek-nu-api/src/models/registrations_list.rs:54 | one pass of double-space replacement turns four spaces into two |
| RegistrationsList.ItemOutcomeOk | atletiek-nu-api/src/models/registrations_list.rs:44-88 | a decoded item holds the link's id, the name from the first text, the category, club and team that the last text splits into, and the non-blank event texts |
| RegistrationsList.Outcomes | atletiek-nu-api/src/models/registrations_list.rs:39 | there is one outcome per item |
| RegistrationsList.Parse | atletiek-nu-api/src/models/registrations_list.rs:22-92 | the unescaped script's items become elements in order, with the first error winning |
| CompetitionRegistrationsList.ParticipantId | atletiek-nu-api/src/models/competition_registrations_list.rs:56-60 | the id read fits a u32 |
| CompetitionRegistrationsList.ParticipantIdOfLink | atletiek-nu-api/src/models/competition_registrations_list.rs:7 | an athlete link reads back as the number it was built from |
| CompetitionRegistrationsList.CountryAndContinent | atletiek-nu-api/src/models/competition_registrations_list.rs:62-67 | both groups are `[A-z]` runs |
| CompetitionRegistrationsList.TrimAz | atletiek-nu-api/src/models/competition_registrations_list.rs:62-65 | trimming an `[A-z]` group changes nothing |
| CompetitionRegistrationsList.LocationOfTitle | atletiek-nu-api/src/models/competition_registrations_list.rs:8 | a flag title reads back as the country and continent it was built from |
| CompetitionRegistrationsList.RowRecord | atletiek-nu-api/src/models/competition_registrations_list.rs:45-79 | a record has a valid date, an id that fits a u32 (0 without a link) and a trimmed non-empty name |
| CompetitionRegistrationsList.Records | atletiek-nu-api/src/models/competition_registrations_list.rs:42 | there is one record per row |
| CompetitionRegistrationsList.RecordsAt | atletiek-nu-api/src/models/competition_registrations_list.rs:42-80 | record k is that of row k |
| CompetitionRegistrationsList.Parse | atletiek-nu-api/src/models/competition_registrations_list.rs:28-84 | never an error; no table gives the empty list, otherwise the rows' records |
| CompetitionRegistrationsList.DateOfSortData | atletiek-nu-api/src/models/competition_registrations_list.rs:45-51 | the date is read from the eight digits of the sort data alone |
| CompetitionEventList.Ids | atletiek-nu-api/src/models/competition_event_list.rs:7-8 | both captures are non-empty digit runs |
| CompetitionEventList.EventAtOf | atletiek-nu-api/src/models/competition_event_list.rs:7-8 | a start-list link with two numbers matches, and captures those numbers |
| CompetitionEventList.NoOverlap | atletiek-nu-api/src/models/competition_event_list.rs:21-25 | no match starts inside another |
| CompetitionEventList.MatchesAfter | atletiek-nu-api/src/models/competition_event_list.rs:21-25 | from the scan point on, the only match before the end of the leftmost one is that match |
| CompetitionEventList.UrlEventsErr | atletiek-nu-api/src/models/competition_event_list.rs:23 | scanning a link fails exactly when one of its matches has a number too large for a u32 |
| CompetitionEventList.UrlEventsMembers | atletiek-nu-api/src/models/competition_event_list.rs:21-25 | a scan that succeeds yields exactly the events the matches name |
| CompetitionEventList.EventsExact | atletiek-nu-api/src/models/competition_event_list.rs:19-26 | the page fails exactly when some link has an overflowing match; otherwise its events are those some link names |
| CompetitionEventList.NoMatchNoEvents | atletiek-nu-api/src/models/competition_event_list.rs:21-25 | a link without a start-list address adds nothing |
| CompetitionEventList.ScanUrl | atletiek-nu-api/src/models/competition_event_list.rs:22-25 | the inner loop adds one link's events to the set, or stops at its first overflow |
| CompetitionEventList.ListSet | atletiek-nu-api/src/models/competition_event_list.rs:26 | the listed set holds each of its elements once and nothing else |
| CompetitionEventList.Parse | atletiek-nu-api/src/models/competition_event_list.rs:16-28 | the result is the page's error, or each of its events once |
| CompetitionEventList.JoinAssoc | atletiek-nu-api/src/models/competition_event_list.rs:19-25 | adding to the set so far commutes with joining the rest |
| InstantSerde.Serialize | api/src/cache/serialize_instant.rs:5-13 | the stored second is the current Unix second less the instant's whole-second age |
| InstantSerde.Deserialize | api/src/cache/serialize_instant.rs:15-24 | the instant restored lies in the past, by the stored age in whole seconds |
| InstantSerde.AgeAfterRoundTrip | api/src/cache/serialize_instant.rs:5-24 | after writing and reading, the age is the old whole-second age plus the wall-clock seconds that passed |
| InstantSerde.RoundTripWithinSeconds | api/src/cache/serialize_instant.rs:5-24 | when both clocks move on together, the restored instant lies less than one second before the true one and less than two seconds after it, since each of the two truncations to whole seconds loses less than a second |
| InstantSerde.WholeSecondAgeRoundTrip | api/src/cache/test.rs:5-20 | an instant read back in the same second has age 0 |
| ApiUtil.NewOkFromString | api/src/util.rs:51-56 | a success with the body and no headers |
| ApiUtil.AddHeader | api/src/util.rs:67-77 | a success gains the pair as its last header; an error is passed on unchanged |
| ApiUtil.Nocache | api/src/util.rs:93-95 | a success gains `X-Cached: false` |
| ApiUtil.Cached | api/src/util.rs:97-100 | a success gains `X-Cached: true` and the entry's age in whole seconds |
| ApiUtil.CachedAgeReadsBack | api/src/util.rs:97-100 | the age header parses back as the entry's age |
| ApiUtil.RespondTo | api/src/util.rs:104-125 | the status of the variant, its body, its headers in order, then the JSON content type; errors get no headers |
| ApiUtil.AddHeaderKeepsStatus | api/src/util.rs:67-77 | adding a header keeps the status and the body |
| ApiUtil.StatusDistinguishes | api/src/util.rs:105-109 | 200, 500 and 404 tell the three variants apart |
| ApiCache.NewSearchCompetitions | api/src/cache/mod.rs:52-69 | the key keeps the dates; no query is the empty query; a query is lower-cased |
| ApiCache.SearchNoneIsEmpty | api/src/cache/mod.rs:56-66 | no query and the empty query share a key |
| ApiCache.SearchIgnoresCase | api/src/cache/mod.rs:62 | two queries share a key exactly when they agree up to case |
| ApiCache.NewGetRegistrations | api/src/cache/mod.rs:71-73 | a registrations key for the id |
| ApiCache.NewGetResults | api/src/cache/mod.rs:75-77 | a results key for the id |
| ApiCache.NewSearchAthletes | api/src/cache/mod.rs:78-81 | an athlete-search key with the query as given |
| ApiCache.NewGetAthleteProfile | api/src/cache/mod.rs:82-85 | a profile key for the id |
| ApiCache.SearchAthletesKeepsCase | api/src/cache/mod.rs:78-81 | athlete searches that differ in case are different keys |
| ApiCache.CacheDuration | api/src/cache/mod.rs:87-95 | 24 hours for competition results and 12 hours for the rest |
| ApiCache.SweptTwice | api/src/cache/mod.rs:174-194 | a sweep followed by a later sweep is the later sweep alone |
| ApiCache.StoredSurvivesSweep | api/src/cache/mod.rs:203-209 | an entry stored now survives a sweep now |
| ApiCache.LoadedKeys | api/src/cache/mod.rs:235-252 | the keys loaded are exactly the keys listed |
| ApiCache.LoadedLastWins | api/src/cache/mod.rs:243-248 | a key holds the last entry listed for it |
| ApiCache.SaveLoadRoundTrip | api/src/cache/mod.rs:219-252 | saving and loading gives the same keys and values, each older by the wall-clock seconds that passed |
| ApiCache.RateLimiter.AcquireOne | api/src/cache/mod.rs:103 | one more permit is taken |
| ApiCache.Cache.constructor | api/src/cache/mod.rs:168-172 | a new cache is empty |
| ApiCache.Cache.Clean | api/src/cache/mod.rs:174-194 | the map afterwards keeps exactly the fresh entries, each unchanged |
| ApiCache.Cache.Lookup | api/src/cache/mod.rs:196-201 | the stored entry, or nothing exactly when the key is absent |
| ApiCache.Cache.Insert | api/src/cache/mod.rs:203-209 | the key now maps to the value stamped now; every other entry is unchanged |
| ApiCache.Cache.SaveToDisk | api/src/cache/mod.rs:219-233 | every entry is listed once, with its stamp written as a Unix second |
| ApiCache.Cache.LoadFromDisk | api/src/cache/mod.rs:235-252 | a new cache holds the entries listed, inserted in order |
| ApiCache.Run | api/src/cache/mod.rs:97-140 | a hit answers from the cache without a permit; a miss takes a permit, and stores a success or reports the error |
| ApiCache.RunStatuses | api/src/cache/mod.rs:97-140 | cached and fresh answers answer 200 with the stored body |
| AsyncResources.PollMoves | gui/src/async_resource.rs:21-38 | only a pending resource whose promise has settled moves; a value is handed out exactly on success |
| AsyncResources.HandedAtMostOnce | gui/src/async_resource.rs:21-38 | however often it is polled, a resource hands out its value at most once, and is finished afterwards |
| AsyncResources.SettledStays | gui/src/async_resource.rs:21-38 | a resource that is not pending never changes |
| AsyncResources.AsyncResource.Default | gui/src/async_resource.rs:10-14 | the default is idle |
| AsyncResources.AsyncResource.New | gui/src/async_resource.rs:17-19 | a new resource is pending |
| AsyncResources.AsyncResource.Poll | gui/src/async_resource.rs:21-38 | the new state and the value handed out follow the poll step |
| AsyncResources.AsyncResource.IsPending | gui/src/async_resource.rs:40-45 | pending exactly when a settled promise would still move it |
| GuiApp.WindowNameInjective | gui/src/app.rs:130-135 | different counter values give different window ids |
| GuiApp.AddWindowKeepsOk | gui/src/app.rs:130-135 | opening a window keeps the ids distinct |
| GuiApp.FindWindow | gui/src/app.rs:83-87 | the first window with the id, or none exactly when no window has it |
| GuiApp.SwapRemove | gui/src/app.rs:82-89 | one shorter; the last element takes the removed one's place and the others stay |
| GuiApp.SwapRemoveMultiset | gui/src/app.rs:82-89 | exactly the one element is removed |
| GuiApp.PopRemovesWindow | gui/src/app.rs:81-90 | popping an id that is not open panics; otherwise exactly that window goes |
| GuiApp.StepKeepsOk | gui/src/app.rs:78-92 | every event keeps the window ids distinct |
| GuiApp.ApplyKeepsOk | gui/src/app.rs:70-93 | however long the queue, the ids stay distinct |
| GuiApp.ApplyEventsAppend | gui/src/app.rs:70-93 | handling the queue in two parts is handling it at once |
| GuiApp.InsertedEntries | gui/src/app.rs:96-105 | the table holds old and new ids; old entries not re-received stay; a received id is pending with the last received request |
| GuiApp.StatusTransitions | gui/src/app.rs:107-123 | a status for an unknown id panics; pending becomes finished with the elapsed time, and finished stays |
| GuiApp.UpdatedFinishes | gui/src/app.rs:107-123 | statuses keep the keys, every id named ends finished, and finished entries are unchanged |
| GuiApp.App.constructor | gui/src/app.rs:54-68 | no windows, events or requests, and the counter at 0 |
| GuiApp.App.AddBoxedWindow | gui/src/app.rs:130-135 | the window is added with a fresh id and its spawn hook run; ids stay distinct |
| GuiApp.App.ProcessEvents | gui/src/app.rs:70-93 | the queue is taken whole and handled in order, leaving it empty; ids stay distinct |
| GuiApp.App.UpdateRequests | gui/src/app.rs:95-124 | the received requests are inserted, then the statuses applied in order |

## Left out

- HTML parsing and CSS selectors: each scraper takes what its selectors find, as rows of attribute values and text nodes. `RegistrationsList.Parse` takes the selection as a function parameter.
- Regular expressions are hand-written matchers for the exact patterns used. `\w` covers ASCII letters, digits and `_`, and the letters from U+00C0 to U+024F other than × and ÷ (the Latin-1 Supplement letters from À on, Latin Extended-A and Latin Extended-B); other Unicode word characters, such as ª, µ and º, are not in the class. `\d` is taken to be ASCII digits.
- `f32`/`f64` are exact reals. `round_float_to_digits` is a parameter of `WindSpeed.Parse`. `inf` and `nan` float syntax are not read; decimal exponents (`e`/`E`, optionally signed) are.
- Strings.LowerAscii: `str::to_lowercase` is modelled on ASCII letters only, so search keys that differ only in the case of a non-ASCII letter are kept apart.
- Country.Upper: `str::to_uppercase` is modelled on ASCII letters plus `ı` and `ſ`, and characters whose capital is more than one character are kept as they are. None of those capitals is one of the twelve codes, so `Parse` accepts and rejects the same texts; its error message quotes the text as given (atletiek-nu-api/src/components/country.rs:23), not the upper-cased one.
- The message texts of Rust's integer and float parse errors are constants.
- `Local::now`, the clocks, the network fetch of a cache miss and the readiness of a GUI promise are parameters.
- JSON serialisation and file I/O of the cache snapshot are left out. A snapshot that does not parse aborts the whole load (api/src/cache/mod.rs:243), and the model does the same.
- ApiCache.NotFoundBody: does not JSON-escape the message, because JSON encoding is not modelled.
- ApiUtil.new_ok (serialising a value to JSON) and the date request guard `RequestNaiveDate` are not modelled.
- ApiUtil.AddHeader: modelled on values; the source pushes onto the vector of a value it owns.
- Rocket's header plumbing is left out, and so is the content type of the plain `String` responder.
- ApiUtil.RespondTo: the headers are listed in the order they are written, and a repeated name is appended; Rocket's `raw_header` replaces an earlier header of the same name, so with duplicate names only the last value is sent.
- The `DashMap` is a map field of one object, so concurrent access is not modelled. The rate limiter is a counter of permits taken, so waiting is not modelled.
- InstantSerde.Deserialize: an `Instant` is an unbounded integer, so the underflow panic of `Instant::now() - age` is not modelled.
- GuiApp: the egui `Id` is modelled as the string it is made from. A window is seen through its title and how often `on_spawn` ran. A request is seen through its URL. The `usize` counter never overflows. Drawing is not modelled.
- AsyncResources.AsyncResource.New: the spawned thread and its task are not modelled; the promise's result is given to each poll.
- Logging is dropped.
- AthleteProfile: the personal bests are a map, as the `HashMap` is; its iteration order is not modelled.
