/** Calendar dates of the ISO-8601 proleptic Gregorian calendar, as `java.time.LocalDate`
    represents them, with the two operations the registry uses: `withYear` and `compareTo`. */
module Dates {

  /** The range of years a `LocalDate` can hold. */
  const MinYear: int := -999_999_999
  const MaxYear: int := 999_999_999

  type Year = y: int | MinYear <= y <= MaxYear witness 1970

  datatype Date = Date(year: int, month: int, day: int)

  /** Gregorian leap years: divisible by 4, except centuries not divisible by 400.
      Only whether a remainder is zero matters, so Java's truncating `%` and Dafny's
      Euclidean `%` agree here, negative years included. */
  predicate IsLeapYear(y: int)
  {
    y % 4 == 0 && (y % 100 != 0 || y % 400 == 0)
  }

  /** The length of month `m` of year `y`. */
  function DaysInMonth(y: int, m: int): (n: int)
    requires 1 <= m <= 12
    ensures 28 <= n <= 31
    ensures n == 29 <==> m == 2 && IsLeapYear(y)
    ensures n == 28 <==> m == 2 && !IsLeapYear(y)
  {
    if m == 2 then (if IsLeapYear(y) then 29 else 28)
    else if m == 4 || m == 6 || m == 9 || m == 11 then 30
    else 31
  }

  /** A date that exists in the calendar. */
  predicate Valid(d: Date)
  {
    && MinYear <= d.year <= MaxYear
    && 1 <= d.month <= 12
    && 1 <= d.day <= DaysInMonth(d.year, d.month)
  }

  /** What a `LocalDate` can hold: only dates that exist. */
  type LocalDate = d: Date | Valid(d) witness Date(1970, 1, 1)

  function Min(a: int, b: int): int
  {
    if a <= b then a else b
  }

  /** `LocalDate.withYear`: the same month and day in year `y`, where a day that does not exist
      in `y` (29 February of a common year) falls back to the last day of the month. */
  function WithYear(d: LocalDate, y: Year): (r: LocalDate)
    ensures r.year == y && r.month == d.month
    ensures r.day == d.day <==> Valid(Date(y, d.month, d.day))
    ensures r.day != d.day ==> d.month == 2 && d.day == 29 && !IsLeapYear(y) && r.day == 28
  {
    Date(y, d.month, Min(d.day, DaysInMonth(y, d.month)))
  }

  /** Moving a date to a year in which its day exists and back gives the date again. */
  lemma WithYearRoundTrip(d: LocalDate, y: Year)
    requires Valid(Date(y, d.month, d.day))
    ensures WithYear(WithYear(d, y), d.year) == d
  {
  }

  /** `withYear` depends on the stored date only through its month and day. */
  lemma WithYearIgnoresStoredYear(d: LocalDate, e: LocalDate, y: Year)
    requires d.month == e.month && d.day == e.day
    ensures WithYear(d, y) == WithYear(e, y)
  {
  }

  /** `LocalDate.compareTo`: the difference of the years, else of the months, else of the days. */
  function CompareTo(a: Date, b: Date): (c: int)
    ensures c == 0 <==> a == b
    ensures c < 0 <==> || a.year < b.year
                       || (a.year == b.year && a.month < b.month)
                       || (a.year == b.year && a.month == b.month && a.day < b.day)
  {
    if a.year != b.year then a.year - b.year
    else if a.month != b.month then a.month - b.month
    else a.day - b.day
  }

  /** `a` is on or before `b` in the calendar. */
  predicate NotAfter(a: Date, b: Date)
  {
    CompareTo(a, b) <= 0
  }

  /** `NotAfter` is a total order, so a comparator built on it sorts consistently. */
  lemma NotAfterIsTotalOrder(a: Date, b: Date, c: Date)
    ensures NotAfter(a, a)
    ensures NotAfter(a, b) || NotAfter(b, a)
    ensures NotAfter(a, b) && NotAfter(b, a) ==> a == b
    ensures NotAfter(a, b) && NotAfter(b, c) ==> NotAfter(a, c)
  {
  }

  /** Within one year, calendar order is the order of (month, day). */
  lemma SameYearOrder(a: Date, b: Date)
    requires a.year == b.year
    ensures NotAfter(a, b) <==> a.month < b.month || (a.month == b.month && a.day <= b.day)
  {
  }
}
