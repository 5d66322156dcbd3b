/**
 Length of service between a join date and an exit date, measured the way
 the gratuity rule measures it: by subtracting the calendar fields, borrowing
 a month when the exit day-of-month is earlier than the join day-of-month,
 borrowing a year when the month count goes negative, and finally rounding a
 remainder of six months or more up to a whole year.
 */
module Tenure {
  import opened Dates

  /** A whole number of years plus a month remainder. */
  datatype Span = Span(years: int, months: int)

  function TotalMonths(s: Span): int {
    12 * s.years + s.months
  }

  /**
   Whole months of service: the month-index distance between the dates, less
   one when the exit day-of-month has not yet reached the join day-of-month.
   */
  function ElapsedMonths(join: Date, exit: Date): int {
    (exit.year - join.year) * 12 + (exit.month - join.month) - (if exit.day < join.day then 1 else 0)
  }

  /**
   Field-by-field subtraction followed by the month borrow and the year
   borrow. Borrowing never changes the number of whole months, and for
   calendar months it leaves a remainder of 0..11.
   */
  function Normalize(join: Date, exit: Date): (s: Span)
    ensures TotalMonths(s) == ElapsedMonths(join, exit)
    ensures HasCalendarMonth(join) && HasCalendarMonth(exit) ==> 0 <= s.months <= 11
  {
    var years := exit.year - join.year;
    var months := exit.month - join.month;
    var days := exit.day - join.day;
    var months := if days < 0 then months - 1 else months;
    if months < 0 then Span(years - 1, months + 12) else Span(years, months)
  }

  /**
   The normalised span is the quotient and remainder of the whole-month
   count by twelve.
   */
  lemma NormalizeIsDivMod(join: Date, exit: Date)
    requires HasCalendarMonth(join) && HasCalendarMonth(exit)
    ensures Normalize(join, exit).years == ElapsedMonths(join, exit) / 12
    ensures Normalize(join, exit).months == ElapsedMonths(join, exit) % 12
  {
    var s := Normalize(join, exit);
    var n := ElapsedMonths(join, exit);
    assert 12 * s.years + s.months == n && 0 <= s.months < 12;
    DivModUnique(n, s.years, s.months);
  }

  lemma DivModUnique(n: int, q: int, r: int)
    requires 12 * q + r == n && 0 <= r < 12
    ensures q == n / 12 && r == n % 12
  {
  }

  /**
   A month-anniversary of the join date (same day-of-month) falls on or
   before the exit date exactly when it is at most `ElapsedMonths` months
   after the join date. So the whole-month count is the number of monthly
   anniversaries passed, judged by day-of-month only.
   */
  lemma ElapsedMonthsCountsAnniversaries(join: Date, exit: Date, m: int)
    requires HasCalendarMonth(join) && HasCalendarMonth(exit)
    ensures OnOrBefore(Anniversary(join, m), exit) <==> m <= ElapsedMonths(join, exit)
  {
    OrderByMonthIndex(Anniversary(join, m), exit);
  }

  /** Later exit dates never mean fewer whole months. */
  lemma ElapsedMonthsMonotone(join: Date, exit1: Date, exit2: Date)
    requires HasCalendarMonth(join) && HasCalendarMonth(exit1) && HasCalendarMonth(exit2)
    requires OnOrBefore(exit1, exit2)
    ensures ElapsedMonths(join, exit1) <= ElapsedMonths(join, exit2)
  {
    OrderByMonthIndex(exit1, exit2);
  }

  /** An exit date before the join date leaves a negative whole-month count. */
  lemma ElapsedMonthsNegativeBeforeJoin(join: Date, exit: Date)
    requires HasCalendarMonth(join) && HasCalendarMonth(exit)
    requires Before(exit, join)
    ensures ElapsedMonths(join, exit) < 0
  {
    OrderByMonthIndex(exit, join);
  }

  /**
   Half-year rounding: a remainder of six months or more adds a year. For a
   remainder in 0..11 the result is the whole number of years nearest to the
   span, with an exact half rounding up.
   */
  function RoundedYears(s: Span): (y: int)
    ensures y == s.years || y == s.years + 1
    ensures 0 <= s.months <= 11 ==> 12 * y - 6 <= TotalMonths(s) < 12 * y + 6
  {
    if s.months >= 6 then s.years + 1 else s.years
  }

  /** The rounding adds a year exactly when the remainder is at least six months. */
  lemma RoundsUpIffHalfYear(s: Span)
    ensures RoundedYears(s) == s.years + 1 <==> s.months >= 6
    ensures RoundedYears(s) == s.years <==> s.months < 6
  {
  }

  /** Years of service that the gratuity rule counts. */
  function ServiceYears(join: Date, exit: Date): (y: int)
    ensures HasCalendarMonth(join) && HasCalendarMonth(exit) ==>
              y == (ElapsedMonths(join, exit) + 6) / 12
  {
    var y := RoundedYears(Normalize(join, exit));
    assert HasCalendarMonth(join) && HasCalendarMonth(exit) ==> y == (ElapsedMonths(join, exit) + 6) / 12 by {
      if HasCalendarMonth(join) && HasCalendarMonth(exit) {
        NearestYear(ElapsedMonths(join, exit), y);
      }
    }
    y
  }

  lemma NearestYear(n: int, y: int)
    requires 12 * y - 6 <= n < 12 * y + 6
    ensures y == (n + 6) / 12
  {
    DivModUnique(n + 6, y, n + 6 - 12 * y);
  }

  /** Moving the exit date `k` years later adds exactly `k` service years. */
  lemma ServiceYearsShift(join: Date, exit: Date, k: int)
    ensures ServiceYears(join, ShiftYears(exit, k)) == ServiceYears(join, exit) + k
  {
    var s := Normalize(join, exit);
    var t := Normalize(join, ShiftYears(exit, k));
    assert t == Span(s.years + k, s.months);
  }

  /** Service years never decrease as the exit date moves later. */
  lemma ServiceYearsMonotone(join: Date, exit1: Date, exit2: Date)
    requires HasCalendarMonth(join) && HasCalendarMonth(exit1) && HasCalendarMonth(exit2)
    requires OnOrBefore(exit1, exit2)
    ensures ServiceYears(join, exit1) <= ServiceYears(join, exit2)
  {
    ElapsedMonthsMonotone(join, exit1, exit2);
    DivMonotone(ElapsedMonths(join, exit1) + 6, ElapsedMonths(join, exit2) + 6);
  }

  lemma DivMonotone(a: int, b: int)
    requires a <= b
    ensures a / 12 <= b / 12
  {
  }

  /** An exit date before the join date counts no service years at all. */
  lemma ServiceYearsBeforeJoin(join: Date, exit: Date)
    requires HasCalendarMonth(join) && HasCalendarMonth(exit)
    requires Before(exit, join)
    ensures ServiceYears(join, exit) <= 0
  {
    ElapsedMonthsNegativeBeforeJoin(join, exit);
  }
}
