/**
 * The date-range parser of the article search (`parse_advanced_date_from_query`):
 * a query and a reference day give the publication-date window to search.
 *
 * The query is lower-cased; then three year patterns are tried in a fixed order
 * (`in dddd`, `year dddd`, `dddd year`), each searched for its leftmost occurrence,
 * and the first that occurs gives 1 January to 31 December of its year.  Otherwise
 * the first relative phrase present ("last week", "yesterday", "this month",
 * "last month") chooses the start, with today minus 30 days as the default, and
 * the window always ends today.  Python's exceptions (year 0000, dates before
 * 0001-01-01) become `Failure` values.
 */
module DateQuery {
  import opened Wrappers
  import opened CivilDate

  // ---------------------------------------------------------------------------
  // Text
  // ---------------------------------------------------------------------------

  /** Lower-casing of one character (ASCII letters). */
  function LowerChar(c: char): char {
    if 'A' <= c <= 'Z' then (c as int - 'A' as int + 'a' as int) as char else c
  }

  /** `str.lower()`. */
  function Lower(s: string): string {
    seq(|s|, i requires 0 <= i < |s| => LowerChar(s[i]))
  }

  /** Lower-casing leaves no capital letter and changes nothing a second time. */
  lemma LowerIdempotent(s: string)
    ensures |Lower(s)| == |s|
    ensures forall i :: 0 <= i < |s| ==> !('A' <= Lower(s)[i] <= 'Z')
    ensures Lower(Lower(s)) == Lower(s)
  {
    var l := Lower(s);
    assert forall i :: 0 <= i < |s| ==> Lower(l)[i] == l[i];
  }

  predicate IsDigit(c: char) {
    '0' <= c <= '9'
  }

  function DigitValue(c: char): int
    requires IsDigit(c)
  {
    c as int - '0' as int
  }

  /** `w` occurs in `s` at index `i`. */
  predicate OccursAt(w: string, s: string, i: nat) {
    i + |w| <= |s| && s[i..i + |w|] == w
  }

  /** Python's substring test `w in s`. */
  predicate Contains(s: string, w: string) {
    exists i: nat :: i <= |s| && OccursAt(w, s, i)
  }

  // ---------------------------------------------------------------------------
  // Year patterns
  // ---------------------------------------------------------------------------

  /** The patterns `in (\d{4})`, `year (\d{4})` and `(\d{4}) year`. */
  datatype YearPattern = InYear | YearThenDigits | DigitsThenYear

  /** The order in which the source tries the patterns. */
  const YearPatterns: seq<YearPattern> := [InYear, YearThenDigits, DigitsThenYear]

  /** Where the four digits begin, counted from the start of a match. */
  function DigitsOffset(p: YearPattern): nat {
    match p
    case InYear => 3
    case YearThenDigits => 5
    case DigitsThenYear => 0
  }

  predicate FourDigitsAt(s: string, i: nat) {
    i + 4 <= |s| && IsDigit(s[i]) && IsDigit(s[i + 1]) && IsDigit(s[i + 2]) && IsDigit(s[i + 3])
  }

  /** Pattern `p` matches `s` starting at index `i`, character by character. */
  predicate MatchesAt(p: YearPattern, s: string, i: nat) {
    match p
    case InYear =>      // "in dddd"
      i + 7 <= |s| && s[i] == 'i' && s[i + 1] == 'n' && s[i + 2] == ' ' && FourDigitsAt(s, i + 3)
    case YearThenDigits =>  // "year dddd"
      i + 9 <= |s| && s[i] == 'y' && s[i + 1] == 'e' && s[i + 2] == 'a' && s[i + 3] == 'r' && s[i + 4] == ' '
      && FourDigitsAt(s, i + 5)
    case DigitsThenYear =>  // "dddd year"
      i + 9 <= |s| && FourDigitsAt(s, i) && s[i + 4] == ' ' && s[i + 5] == 'y' && s[i + 6] == 'e'
      && s[i + 7] == 'a' && s[i + 8] == 'r'
  }

  /** The match at `i` is the leftmost one, the one `re.search` reports. */
  ghost predicate LeftmostMatch(p: YearPattern, s: string, i: nat) {
    MatchesAt(p, s, i) && forall k: nat :: k < i ==> !MatchesAt(p, s, k)
  }

  ghost predicate Occurs(p: YearPattern, s: string) {
    exists i: nat :: MatchesAt(p, s, i)
  }

  /** `int(match.group(1))` for the match at `i`. */
  function CapturedYear(p: YearPattern, s: string, i: nat): (y: int)
    requires MatchesAt(p, s, i)
    ensures 0 <= y <= 9999
  {
    var j := i + DigitsOffset(p);
    1000 * DigitValue(s[j]) + 100 * DigitValue(s[j + 1]) + 10 * DigitValue(s[j + 2]) + DigitValue(s[j + 3])
  }

  /** The leftmost match of `p` at or after index `i`. */
  function SearchFrom(p: YearPattern, s: string, i: nat): (r: Option<nat>)
    requires i <= |s|
    ensures r.Some? ==> i <= r.value && MatchesAt(p, s, r.value)
    ensures r.Some? ==> forall k: nat :: i <= k < r.value ==> !MatchesAt(p, s, k)
    ensures r.None? ==> forall k: nat :: i <= k ==> !MatchesAt(p, s, k)
    decreases |s| - i
  {
    if MatchesAt(p, s, i) then Some(i)
    else if i == |s| then None
    else SearchFrom(p, s, i + 1)
  }

  /** `re.search(p, s)` followed by `int(match.group(1))`. */
  function MatchYear(p: YearPattern, s: string): Option<int> {
    match SearchFrom(p, s, 0)
    case Some(i) => Some(CapturedYear(p, s, i))
    case None => None
  }

  /** A pattern yields a year exactly when it occurs, and the year is the leftmost match's digits. */
  lemma MatchYearLeftmost(p: YearPattern, s: string)
    ensures MatchYear(p, s).Some? <==> Occurs(p, s)
    ensures MatchYear(p, s).Some? ==> 0 <= MatchYear(p, s).value <= 9999
    ensures MatchYear(p, s).Some? ==>
      exists i: nat :: LeftmostMatch(p, s, i) && MatchYear(p, s).value == CapturedYear(p, s, i)
  {
    var r := SearchFrom(p, s, 0);
    if r.Some? {
      assert LeftmostMatch(p, s, r.value);
    }
  }

  /** The loop over the year patterns from position `j` on: the first one that matches supplies the year. */
  function FirstYear(pats: seq<YearPattern>, s: string, j: nat): Option<int>
    requires j <= |pats|
    decreases |pats| - j
  {
    if j == |pats| then None
    else match MatchYear(pats[j], s)
      case Some(y) => Some(y)
      case None => FirstYear(pats, s, j + 1)
  }

  /** The loop yields nothing exactly when no pattern matches, and otherwise the first match's year. */
  lemma {:induction false} FirstYearSpec(pats: seq<YearPattern>, s: string, j: nat)
    requires j <= |pats|
    ensures FirstYear(pats, s, j).None? <==> forall k :: j <= k < |pats| ==> MatchYear(pats[k], s).None?
    ensures FirstYear(pats, s, j).Some? ==>
      exists k :: j <= k < |pats| && FirstYear(pats, s, j) == MatchYear(pats[k], s)
        && forall k' :: j <= k' < k ==> MatchYear(pats[k'], s).None?
    decreases |pats| - j
  {
    if j < |pats| {
      var m := MatchYear(pats[j], s);
      if m.Some? {
        assert FirstYear(pats, s, j) == m;
      } else {
        assert FirstYear(pats, s, j) == FirstYear(pats, s, j + 1);
        FirstYearSpec(pats, s, j + 1);
        if FirstYear(pats, s, j).Some? {
          var k :| j + 1 <= k < |pats| && FirstYear(pats, s, j) == MatchYear(pats[k], s)
            && forall k' :: j + 1 <= k' < k ==> MatchYear(pats[k'], s).None?;
          assert forall k' :: j <= k' < k ==> MatchYear(pats[k'], s).None?;
        }
      }
    }
  }

  function FindYear(s: string): Option<int> {
    FirstYear(YearPatterns, s, 0)
  }

  /** The year rule tries `in dddd`, then `year dddd`, then `dddd year`. */
  lemma YearPatternPrecedence(s: string)
    ensures Occurs(InYear, s) ==> FindYear(s) == MatchYear(InYear, s)
    ensures !Occurs(InYear, s) && Occurs(YearThenDigits, s) ==> FindYear(s) == MatchYear(YearThenDigits, s)
    ensures !Occurs(InYear, s) && !Occurs(YearThenDigits, s) ==> FindYear(s) == MatchYear(DigitsThenYear, s)
  {
    MatchYearLeftmost(InYear, s);
    MatchYearLeftmost(YearThenDigits, s);
    MatchYearLeftmost(DigitsThenYear, s);
    var r := FindYear(s);
    FirstYearSpec(YearPatterns, s, 0);
    assert YearPatterns[0] == InYear && YearPatterns[1] == YearThenDigits && YearPatterns[2] == DigitsThenYear;
    if r.Some? {
      var j :| 0 <= j < 3 && r == MatchYear(YearPatterns[j], s)
        && (forall j' :: 0 <= j' < j ==> MatchYear(YearPatterns[j'], s).None?);
    } else {
      assert MatchYear(YearPatterns[0], s).None? && MatchYear(YearPatterns[1], s).None?;
    }
  }

  ghost predicate HasYearPhrase(s: string) {
    Occurs(InYear, s) || Occurs(YearThenDigits, s) || Occurs(DigitsThenYear, s)
  }

  // ---------------------------------------------------------------------------
  // Relative phrases
  // ---------------------------------------------------------------------------

  datatype Keyword = LastWeek | Yesterday | ThisMonth | LastMonth | NoKeyword

  function Phrase(k: Keyword): string {
    match k
    case LastWeek => "last week"
    case Yesterday => "yesterday"
    case ThisMonth => "this month"
    case LastMonth => "last month"
    case NoKeyword => ""
  }

  /** Position of a phrase in the source's `if/elif` chain. */
  function Rank(k: Keyword): nat {
    match k
    case LastWeek => 0
    case Yesterday => 1
    case ThisMonth => 2
    case LastMonth => 3
    case NoKeyword => 4
  }

  /** The `if/elif` chain: the first phrase in the chain that the query contains. */
  function KeywordOf(q: string): (k: Keyword)
    ensures k != NoKeyword ==> Contains(q, Phrase(k))
    ensures forall k' :: Rank(k') < Rank(k) ==> !Contains(q, Phrase(k'))
  {
    if Contains(q, "last week") then LastWeek
    else if Contains(q, "yesterday") then Yesterday
    else if Contains(q, "this month") then ThisMonth
    else if Contains(q, "last month") then LastMonth
    else NoKeyword
  }

  /** The start the chosen phrase gives; None where the date arithmetic overflows. */
  function RelativeStart(k: Keyword, today: Date): (r: Option<Date>)
    requires Valid(today)
    ensures r.Some? ==> Valid(r.value) && NotAfter(r.value, today)
  {
    match k
    case LastWeek => SubDays(today, 7)
    case Yesterday => SubDays(today, 1)
    case ThisMonth => Some(FirstOfMonth(today))
    case LastMonth =>
      (match SubDays(FirstOfMonth(today), 1)
       case Some(lastDayOfPrevMonth) => Some(FirstOfMonth(lastDayOfPrevMonth))
       case None => None)
    case NoKeyword => SubDays(today, 30)
  }

  // ---------------------------------------------------------------------------
  // The parser
  // ---------------------------------------------------------------------------

  /** An inclusive publication-date window. */
  datatype DateRange = DateRange(start: Date, end: Date)

  /** `datetime(0, 1, 1)` raises ValueError; `today - timedelta(...)` raises OverflowError. */
  datatype ParseError = YearOutOfRange(year: int) | DateOverflow

  /** `parse_advanced_date_from_query(query)` with `datetime.today()` passed in as `today`. */
  function ParseDateRange(query: string, today: Date): (r: Result<DateRange, ParseError>)
    requires Valid(today)
    ensures r.Success? ==> Valid(r.value.start) && Valid(r.value.end) && NotAfter(r.value.start, r.value.end)
  {
    var q := Lower(query);
    match FindYear(q)
    case Some(y) =>
      (match YearBounds(y)
       case Some(bounds) => Success(DateRange(bounds.0, bounds.1))
       case None => Failure(YearOutOfRange(y)))
    case None =>
      (match RelativeStart(KeywordOf(q), today)
       case Some(start) => Success(DateRange(start, today))
       case None => Failure(DateOverflow))
  }

  // ---------------------------------------------------------------------------
  // Properties
  // ---------------------------------------------------------------------------

  /** Matching is case-insensitive: the query and its lower-cased form parse alike. */
  lemma ParseIgnoresCase(query: string, today: Date)
    requires Valid(today)
    ensures ParseDateRange(Lower(query), today) == ParseDateRange(query, today)
  {
    LowerIdempotent(query);
  }

  /**
   * A year phrase anywhere decides the window, whatever relative phrase the query
   * also holds and whatever today is: 1 January to 31 December of the year, or a
   * failure for the year 0000 and only for it.
   */
  lemma YearRuleWins(query: string, today: Date)
    requires Valid(today) && HasYearPhrase(Lower(query))
    ensures FindYear(Lower(query)).Some?
    ensures 0 <= FindYear(Lower(query)).value <= 9999
    ensures var y := FindYear(Lower(query)).value;
      ParseDateRange(query, today) ==
        if y == 0 then Failure(YearOutOfRange(0)) else Success(DateRange(Date(y, 1, 1), Date(y, 12, 31)))
  {
    var q := Lower(query);
    YearPatternPrecedence(q);
    MatchYearLeftmost(InYear, q);
    MatchYearLeftmost(YearThenDigits, q);
    MatchYearLeftmost(DigitsThenYear, q);
    var y := FindYear(q).value;
    assert 0 <= y <= 9999;
    assert YearBounds(y).Some? <==> y != 0;
  }

  /** The reference day does not influence a year query. */
  lemma YearQueryIgnoresToday(query: string, today: Date, other: Date)
    requires Valid(today) && Valid(other) && HasYearPhrase(Lower(query))
    ensures ParseDateRange(query, today) == ParseDateRange(query, other)
  {
    YearRuleWins(query, today);
    YearRuleWins(query, other);
  }

  /** Without a year phrase the year rule finds nothing. */
  lemma NoYearFound(s: string)
    requires !HasYearPhrase(s)
    ensures FindYear(s).None?
  {
    YearPatternPrecedence(s);
    MatchYearLeftmost(DigitsThenYear, s);
  }

  /** "last week" comes first: today minus 7 days to today. */
  lemma LastWeekRange(query: string, today: Date)
    requires Valid(today) && !HasYearPhrase(Lower(query)) && Contains(Lower(query), "last week")
    ensures var r := ParseDateRange(query, today);
      (r.Success? <==> Ordinal(today) > 7)
      && (r.Success? ==> r.value.end == today && Ordinal(r.value.start) == Ordinal(today) - 7)
  {
    NoYearFound(Lower(query));
    assert KeywordOf(Lower(query)) == LastWeek;
  }

  /** "yesterday" without "last week": today minus 1 day to today (not to yesterday). */
  lemma YesterdayRange(query: string, today: Date)
    requires Valid(today) && !HasYearPhrase(Lower(query))
    requires !Contains(Lower(query), "last week") && Contains(Lower(query), "yesterday")
    ensures var r := ParseDateRange(query, today);
      (r.Success? <==> today != Date(1, 1, 1))
      && (r.Success? ==> r.value.end == today && Ordinal(r.value.start) == Ordinal(today) - 1)
  {
    NoYearFound(Lower(query));
    assert KeywordOf(Lower(query)) == Yesterday;
  }

  /** "this month" after the two above: the first of the current month to today. */
  lemma ThisMonthRange(query: string, today: Date)
    requires Valid(today) && !HasYearPhrase(Lower(query))
    requires !Contains(Lower(query), "last week") && !Contains(Lower(query), "yesterday")
    requires Contains(Lower(query), "this month")
    ensures ParseDateRange(query, today) == Success(DateRange(Date(today.year, today.month, 1), today))
  {
    NoYearFound(Lower(query));
    assert KeywordOf(Lower(query)) == ThisMonth;
  }

  /**
   * "last month" after the three above: the first of the previous month (December of
   * the previous year in January) to today; it fails only in January of year 1.
   */
  lemma LastMonthRange(query: string, today: Date)
    requires Valid(today) && !HasYearPhrase(Lower(query))
    requires !Contains(Lower(query), "last week") && !Contains(Lower(query), "yesterday")
    requires !Contains(Lower(query), "this month") && Contains(Lower(query), "last month")
    ensures ParseDateRange(query, today) ==
      if today.month > 1 then Success(DateRange(Date(today.year, today.month - 1, 1), today))
      else if today.year > 1 then Success(DateRange(Date(today.year - 1, 12, 1), today))
      else Failure(DateOverflow)
  {
    NoYearFound(Lower(query));
    assert KeywordOf(Lower(query)) == LastMonth;
    LastMonthStart(today);
  }

  /** The start "last month" gives: the first of the previous month, or None in January of year 1. */
  lemma LastMonthStart(today: Date)
    requires Valid(today)
    ensures RelativeStart(LastMonth, today) ==
      if today.month > 1 then Some(Date(today.year, today.month - 1, 1))
      else if today.year > 1 then Some(Date(today.year - 1, 12, 1))
      else None
  {
    var first := FirstOfMonth(today);
    assert first == Date(today.year, today.month, 1);
    SubOneDay(first);
  }

  /** No phrase at all: today minus 30 days to today. */
  lemma DefaultRange(query: string, today: Date)
    requires Valid(today) && !HasYearPhrase(Lower(query))
    requires forall k :: k != NoKeyword ==> !Contains(Lower(query), Phrase(k))
    ensures var r := ParseDateRange(query, today);
      (r.Success? <==> Ordinal(today) > 30)
      && (r.Success? ==> r.value.end == today && Ordinal(r.value.start) == Ordinal(today) - 30)
  {
    NoYearFound(Lower(query));
    assert KeywordOf(Lower(query)) == NoKeyword by {
      assert !Contains(Lower(query), Phrase(LastWeek)) && !Contains(Lower(query), Phrase(Yesterday));
      assert !Contains(Lower(query), Phrase(ThisMonth)) && !Contains(Lower(query), Phrase(LastMonth));
    }
  }

  /** Without a year phrase the window always ends today. */
  lemma RelativeRangeEndsToday(query: string, today: Date)
    requires Valid(today) && !HasYearPhrase(Lower(query))
    ensures ParseDateRange(query, today).Success? ==> ParseDateRange(query, today).value.end == today
  {
    NoYearFound(Lower(query));
  }

  /** The year rule reads 2023 out of "articles in 2023". */
  lemma InYearExampleYear()
    ensures FindYear("articles in 2023") == Some(2023)
  {
    var q := "articles in 2023";
    assert MatchesAt(InYear, q, 9);
    assert forall i: nat :: MatchesAt(InYear, q, i) ==> i == 9 by {
      assert forall j :: 0 <= j < 12 ==> !IsDigit(q[j]);
    }
    assert CapturedYear(InYear, q, 9) == 2023;
    MatchYearLeftmost(InYear, q);
    YearPatternPrecedence(q);
  }

  /** "Articles In 2023" asks for the whole of 2023, on any day. */
  lemma InYearExample(today: Date)
    requires Valid(today)
    ensures ParseDateRange("Articles In 2023", today) == Success(DateRange(Date(2023, 1, 1), Date(2023, 12, 31)))
  {
    var q := Lower("Articles In 2023");
    assert q == "articles in 2023" by {
      assert forall i :: 0 <= i < 16 ==> q[i] == "articles in 2023"[i];
    }
    InYearExampleYear();
  }
}
