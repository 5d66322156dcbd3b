/**
 Calendar dates as the gratuity rule sees them: three integer fields and
 nothing else. The rule never consults month lengths, leap years or the
 time of day, so neither does this module.
 */
module Dates {

  datatype Date = Date(year: int, month: int, day: int)

  /** Months are numbered 1..12, as every date the calling code builds guarantees. */
  predicate HasCalendarMonth(d: Date) {
    1 <= d.month <= 12
  }

  /** Index of the date's month counted from month 1 of year 0. */
  function MonthIndex(d: Date): int {
    12 * d.year + (d.month - 1)
  }

  /** Chronological order on (year, month, day), compared field by field. */
  predicate OnOrBefore(a: Date, b: Date) {
    || a.year < b.year
    || (a.year == b.year && a.month < b.month)
    || (a.year == b.year && a.month == b.month && a.day <= b.day)
  }

  predicate Before(a: Date, b: Date) {
    OnOrBefore(a, b) && a != b
  }

  /** The same calendar day `k` years later. */
  function ShiftYears(d: Date, k: int): (r: Date)
    ensures HasCalendarMonth(d) ==> r == Anniversary(d, 12 * k)
  {
    d.(year := d.year + k)
  }

  /**
   The `m`-th monthly anniversary of `d` on the same day of the month,
   whether or not that month has such a day.
   */
  function Anniversary(d: Date, m: int): (r: Date)
    requires HasCalendarMonth(d)
    ensures HasCalendarMonth(r) && r.day == d.day
    ensures MonthIndex(r) == MonthIndex(d) + m
  {
    var idx := MonthIndex(d) + m;
    Date(idx / 12, idx % 12 + 1, d.day)
  }

  /** For dates with months 1..12, field order is order of month index, then of day. */
  lemma OrderByMonthIndex(a: Date, b: Date)
    requires HasCalendarMonth(a) && HasCalendarMonth(b)
    ensures OnOrBefore(a, b) <==>
              MonthIndex(a) < MonthIndex(b) || (MonthIndex(a) == MonthIndex(b) && a.day <= b.day)
  {
  }
}
