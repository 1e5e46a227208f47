/** Calendar dates as `chrono::NaiveDate` builds and parses them: the proleptic
    Gregorian calendar, `NaiveDate::from_ymd_opt`, and `NaiveDate::parse_from_str`
    with the format `%Y%m%d` applied to a string of ASCII digits. */
module Dates {
  import opened Wrappers
  import opened Strings

  datatype Date = Date(year: int, month: nat, day: nat)

  predicate IsLeapYear(y: int) {
    y % 4 == 0 && (y % 100 != 0 || y % 400 == 0)
  }

  function DaysInMonth(y: int, m: nat): nat
    requires 1 <= m <= 12
  {
    if m == 2 then (if IsLeapYear(y) then 29 else 28)
    else if m == 4 || m == 6 || m == 9 || m == 11 then 30
    else 31
  }

  predicate ValidDate(d: Date) {
    1 <= d.month <= 12 && 1 <= d.day <= DaysInMonth(d.year, d.month)
  }

  /** `NaiveDate::from_ymd_opt`: `None` for a day that is not on the calendar.
      Years here come from at most four digits, far inside chrono's year range. */
  function FromYmd(y: int, m: nat, d: nat): (r: Option<Date>)
    ensures r.Some? <==> ValidDate(Date(y, m, d))
    ensures r.Some? ==> r.value == Date(y, m, d)
  {
    if ValidDate(Date(y, m, d)) then Some(Date(y, m, d)) else None
  }

  /** The first `n` characters, or all of them when there are fewer. */
  function Take(s: string, n: nat): (r: string)
    ensures |r| == if |s| < n then |s| else n
    ensures r == s[..|r|]
  {
    if |s| < n then s else s[..n]
  }

  /** `parse_from_str(s, "%Y%m%d")` on a string of digits: the year takes up to
      four digits, the month and the day up to two each, every field needs at least
      one digit, nothing may be left over, and the date must exist. Since the
      fields are taken greedily, only seven or eight digits can be read. */
  function ParseYmdDigits(s: string): (r: Option<Date>)
    requires AllDigits(s)
    ensures r.Some? ==> ValidDate(r.value)
    ensures r.Some? ==> 7 <= |s| <= 8
  {
    var y := Take(s, 4);
    var rest := s[|y|..];
    var m := Take(rest, 2);
    var rest2 := rest[|m|..];
    var d := Take(rest2, 2);
    if |y| == 0 || |m| == 0 || |d| == 0 || |rest2| > |d| then None
    else FromYmd(DigitsValue(y), DigitsValue(m), DigitsValue(d))
  }

  /** An eight-digit `YYYYMMDD` is read field by field. */
  lemma ParseYmdEightDigits(s: string)
    requires AllDigits(s) && |s| == 8
    ensures ParseYmdDigits(s) == FromYmd(DigitsValue(s[..4]), DigitsValue(s[4..6]), DigitsValue(s[6..]))
  {
    assert s[4..][..2] == s[4..6];
    assert s[4..][2..] == s[6..];
    assert s[6..][..2] == s[6..];
  }
}
