/** `getYearAndSeasonLabel` (js/app.js): a game date becomes a calendar year
    and a label such as `"2023 Autumn"`, using the Southern Hemisphere
    seasons. Only the two date shapes the function recognises by regular
    expression are modelled, with in-range month and day. */
module Seasons {
  import opened Wrappers
  import opened Strings

  datatype Season = Summer | Autumn | Winter | Spring

  function SeasonName(s: Season): string {
    match s
    case Summer => "Summer"
    case Autumn => "Autumn"
    case Winter => "Winter"
    case Spring => "Spring"
  }

  /** The inverse of `SeasonName`. */
  function SeasonNamed(name: string): (r: Option<Season>)
    ensures r.Some? ==> SeasonName(r.value) == name
    ensures forall s :: name == SeasonName(s) ==> r == Some(s)
  {
    if name == "Summer" then Some(Summer)
    else if name == "Autumn" then Some(Autumn)
    else if name == "Winter" then Some(Winter)
    else if name == "Spring" then Some(Spring)
    else None
  }

  /** The months each season covers. */
  function Months(s: Season): set<int> {
    match s
    case Summer => {12, 1, 2}
    case Autumn => {3, 4, 5}
    case Winter => {6, 7, 8}
    case Spring => {9, 10, 11}
  }

  /** The month ladder of `getYearAndSeasonLabel`: a calendar month falls in
      the months of its season and of no other season. */
  function SeasonOfMonth(month: int): (r: Season)
    ensures 1 <= month <= 12 ==> month in Months(r)
    ensures forall s :: month in Months(s) ==> s == r
  {
    if 3 <= month <= 5 then Autumn
    else if 6 <= month <= 8 then Winter
    else if 9 <= month <= 11 then Spring
    else Summer
  }

  /** The Gregorian calendar JavaScript's `Date` follows. */
  predicate IsLeap(year: int) {
    year % 4 == 0 && (year % 100 != 0 || year % 400 == 0)
  }

  function DaysInMonth(year: int, month: int): int {
    if month == 2 then (if IsLeap(year) then 29 else 28)
    else if month == 4 || month == 6 || month == 9 || month == 11 then 30
    else 31
  }

  datatype Date = Date(year: nat, month: nat, day: nat)

  predicate ValidDate(d: Date) {
    1 <= d.month <= 12 && 1 <= d.day <= DaysInMonth(d.year, d.month)
  }

  /** `/^\d{4}-\d{2}-\d{2}$/`. */
  predicate IsIsoShape(s: string) {
    |s| == 10 && s[4] == '-' && s[7] == '-'
    && AllDigits(s[..4]) && AllDigits(s[5..7]) && AllDigits(s[8..])
  }

  /** `/^\d{1,2}\/\d{1,2}\/\d{4}$/`, stated on the pieces of `split("/")`. */
  predicate IsDmyShape(s: string) {
    var p := Split(s, '/');
    |p| == 3 && 1 <= |p[0]| <= 2 && 1 <= |p[1]| <= 2 && |p[2]| == 4
    && AllDigits(p[0]) && AllDigits(p[1]) && AllDigits(p[2])
  }

  /** `new Date(s + "T00:00:00")`: year, month and day as written. */
  function IsoDate(s: string): (d: Date)
    requires IsIsoShape(s)
  {
    Date(DigitsValue(s[..4]), DigitsValue(s[5..7]), DigitsValue(s[8..]))
  }

  /** `new Date(yyyy, mm - 1, dd)` on the day-first pieces; like every
      `Date` constructor call with separate fields, it reads a year from 0
      to 99 as 1900 plus that year. */
  function DmyDate(s: string): (d: Date)
    requires IsDmyShape(s)
  {
    var p := Split(s, '/');
    var y := DigitsValue(p[2]);
    Date(if y <= 99 then 1900 + y else y, DigitsValue(p[1]), DigitsValue(p[0]))
  }

  /** The date a non-empty recognised date string denotes. */
  function DateOf(s: string): Date
    requires IsIsoShape(s) || IsDmyShape(s)
  {
    if IsIsoShape(s) then IsoDate(s) else DmyDate(s)
  }

  /** The inputs the model covers: no date, or one of the two shapes with an
      existing calendar day. */
  predicate InScope(dateStr: Option<string>) {
    match dateStr
    case None => true
    case Some(s) =>
      s == "" || ((IsIsoShape(s) || IsDmyShape(s)) && ValidDate(DateOf(s)))
  }

  /** `{ year, seasonLabel }`; both are `null` together. */
  datatype YearSeason = YearSeason(year: Option<nat>, seasonLabel: Option<string>)

  /** `` `${year} ${season}` ``. */
  function Label(year: nat, s: Season): string {
    NatToString(year) + " " + SeasonName(s)
  }

  /** Reads a label back into its year and season. */
  function ParseLabel(text: string): Option<(nat, Season)> {
    var parts := Split(text, ' ');
    if |parts| == 2 && AllDigits(parts[0]) && SeasonNamed(parts[1]).Some? then
      Some((DigitsValue(parts[0]), SeasonNamed(parts[1]).value))
    else None
  }

  lemma ParseLabelOfLabel(year: nat, s: Season)
    ensures ParseLabel(Label(year, s)) == Some((year, s))
  {
    var digits := NatToString(year);
    assert ' ' !in digits by {
      assert forall i :: 0 <= i < |digits| ==> IsDigit(digits[i]);
    }
    var parts := [digits, SeasonName(s)];
    assert Join(parts, ' ') == Label(year, s) by {
      assert parts[1..] == [SeasonName(s)];
    }
    SplitJoinRoundTrip(parts, ' ');
  }

  /** Different years or seasons never share a label. */
  lemma LabelInjective(y1: nat, s1: Season, y2: nat, s2: Season)
    requires Label(y1, s1) == Label(y2, s2)
    ensures y1 == y2 && s1 == s2
  {
    ParseLabelOfLabel(y1, s1);
    ParseLabelOfLabel(y2, s2);
  }

  /** `getYearAndSeasonLabel(dateStr)`. A missing or empty date gives no year
      and no label; otherwise the label reads back as the calendar year of
      the date and the season whose months contain the date's month. */
  function YearAndSeasonLabel(dateStr: Option<string>): (r: YearSeason)
    requires InScope(dateStr)
    ensures r.year.None? <==> dateStr.None? || dateStr.value == ""
    ensures r.year.None? <==> r.seasonLabel.None?
    ensures r.year.Some? ==> r.year.value == DateOf(dateStr.value).year
    ensures r.seasonLabel.Some? ==>
      && ParseLabel(r.seasonLabel.value).Some?
      && ParseLabel(r.seasonLabel.value).value.0 == r.year.value
      && DateOf(dateStr.value).month in Months(ParseLabel(r.seasonLabel.value).value.1)
    ensures r.seasonLabel.Some? ==>
      r.seasonLabel.value == Label(r.year.value, SeasonOfMonth(DateOf(dateStr.value).month))
  {
    match dateStr
    case None => YearSeason(None, None)
    case Some(s) =>
      if s == "" then YearSeason(None, None)
      else
        var d := DateOf(s);
        ParseLabelOfLabel(d.year, SeasonOfMonth(d.month));
        YearSeason(Some(d.year), Some(Label(d.year, SeasonOfMonth(d.month))))
  }

  /** A December date and a January date of the following year are both in
      Summer, yet their labels differ, because the label carries the calendar
      year rather than a season year. */
  lemma DecemberAndJanuaryLabelsDiffer(dec: string, jan: string)
    requires InScope(Some(dec)) && InScope(Some(jan)) && dec != "" && jan != ""
    requires DateOf(dec).month == 12 && DateOf(jan).month == 1
    requires DateOf(jan).year == DateOf(dec).year + 1
    ensures YearAndSeasonLabel(Some(dec)).seasonLabel.Some?
    ensures YearAndSeasonLabel(Some(jan)).seasonLabel.Some?
    ensures ParseLabel(YearAndSeasonLabel(Some(dec)).seasonLabel.value).value.1 == Summer
    ensures ParseLabel(YearAndSeasonLabel(Some(jan)).seasonLabel.value).value.1 == Summer
    ensures YearAndSeasonLabel(Some(dec)).seasonLabel != YearAndSeasonLabel(Some(jan)).seasonLabel
  {
    ParseLabelOfLabel(DateOf(dec).year, Summer);
    ParseLabelOfLabel(DateOf(jan).year, Summer);
  }

  /** A `D/M/YYYY` date is read day first: the first field is the day and
      the second the month, so `3/12/2023` is in December. */
  lemma DayFirst(dd: string, mm: string, yyyy: string)
    requires 1 <= |dd| <= 2 && 1 <= |mm| <= 2 && |yyyy| == 4
    requires AllDigits(dd) && AllDigits(mm) && AllDigits(yyyy)
    ensures IsDmyShape(dd + "/" + mm + "/" + yyyy)
    ensures DmyDate(dd + "/" + mm + "/" + yyyy).day == DigitsValue(dd)
    ensures DmyDate(dd + "/" + mm + "/" + yyyy).month == DigitsValue(mm)
  {
    var parts := [dd, mm, yyyy];
    forall i | 0 <= i < 3 ensures '/' !in parts[i] {
      assert forall k :: 0 <= k < |parts[i]| ==> IsDigit(parts[i][k]);
    }
    assert Join(parts, '/') == dd + "/" + mm + "/" + yyyy by {
      assert parts[1..] == [mm, yyyy];
      assert [mm, yyyy][1..] == [yyyy];
      assert Join([mm, yyyy], '/') == mm + "/" + yyyy;
      assert Join(parts, '/') == dd + "/" + (mm + "/" + yyyy);
    }
    SplitJoinRoundTrip(parts, '/');
  }
}
