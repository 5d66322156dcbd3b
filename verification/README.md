# Gratuity computation

A Dafny model of the gratuity rule of a small employee-records web
application. Given an employee's join date, an exit date, the monthly basic
salary and the dearness allowance (DA), the rule

1. measures tenure by subtracting the year, month and day fields of the two
   dates, borrowing a month when the exit day-of-month is earlier than the
   join day-of-month and a year when the month count then goes negative;
2. rounds a remainder of six months or more up to one more year;
3. pays nothing below five counted years (this includes an exit date before
   the join date: no error is raised);
4. otherwise pays `years * (basic + DA) * 15/26`, fifteen days of wages per
   counted year under a 26-working-day month.

Modules:

- `Dates` (`dates.dfy`): dates as integer triples, their field-by-field
  order, the shift by whole years and the monthly anniversary of a date.
- `Tenure` (`tenure.dfy`): the normalisation with its two borrows
  (`Normalize`), the half-year rounding (`RoundedYears`) and the counted years
  (`ServiceYears`). Each is tied to an independent reading of the rule: the
  whole-month count `ElapsedMonths`, its quotient and remainder by twelve, the
  number of monthly anniversaries passed, and rounding to the nearest year with
  a half rounding up.
- `Gratuity` (`gratuity.dfy`): the eligibility gate and payout
  (`ComputeGratuity`) with its properties: zero below the gate, eligibility
  from 54 whole months on, dependence on the wage sum only, non-negativity,
  monotonicity in the wage and in the exit date.
- `GratuityExamples` (`gratuity_examples.dfy`): the boundary cases, stated
  for symbolic salaries where the result depends on them.

Dates are plain `(year, month, day)` integers. The only calendar fact any
property needs is that months lie in 1..12 (`HasCalendarMonth`), which every
date the application builds satisfies; `ComputeGratuity` itself is total over
all integer triples, as the source's arithmetic is. Amounts are exact `real`s.

Two consequences of the rule worth stating directly:

- One day short of five calendar years (join 2015-01-10, exit 2020-01-09)
  normalises to 4 years 11 months; the half-year rounding makes that five
  counted years, so the employee is eligible and is paid
  `5 * (basic + DA) * 15/26` (`ElevenMonthRemainderRoundsUp`).
- The rule returns only an amount; eligibility is the predicate
  `Gratuity.Eligible`, and `ComputeGratuity` is zero whenever it is false.

## Model

| member | source | states |
|---|---|---|
| Tenure.Normalize | app.py:36-43 | Borrowing never changes the number of whole months: `12*years + months` equals `(ey-jy)*12 + (em-jm)` less one when the exit day-of-month is below the join day-of-month; for months in 1..12 the remainder lies in 0..11 |
| Tenure.NormalizeIsDivMod | app.py:36-43 | For months in 1..12 the normalised years and months are exactly the quotient and remainder of the whole-month count by twelve |
| Tenure.ElapsedMonthsCountsAnniversaries | app.py:36-43 | The `m`-th monthly anniversary of the join date (same day-of-month) is on or before the exit date exactly when `m` is at most the whole-month count, so the count is the number of anniversaries passed, judged by day-of-month only |
| Tenure.ElapsedMonthsMonotone | app.py:36-43 | A later exit date never gives fewer whole months |
| Tenure.RoundedYears | app.py:45-47 | Rounding adds at most one year, and for a remainder in 0..11 it yields the whole number of years nearest the span, a half rounding up |
| Tenure.RoundsUpIffHalfYear | app.py:45-47 | The rounded years are the normalised years plus one exactly when the remainder is at least six months (5y6m gives 6, 5y5m stays 5), and unchanged exactly when it is below six |
| Tenure.ServiceYears | app.py:36-47 | For months in 1..12 the counted years equal the whole-month count plus six, divided by twelve |
| Tenure.ServiceYearsShift | app.py:36-47 | Moving the exit date `k` whole years later adds exactly `k` counted years |
| Tenure.ServiceYearsMonotone | app.py:36-47 | A later exit date never gives fewer counted years |
| Tenure.ServiceYearsBeforeJoin | app.py:36-47 | An exit date before the join date gives at most zero counted years |
| Gratuity.Eligible | app.py:36-50 | For months in 1..12 the five-year gate is passed exactly when the normalised span is at least five years, or four years with a remainder of six months or more |
| Gratuity.Payout | app.py:49-55 | The gate and formula pay zero below five counted years, pay something only from five years on with a non-zero wage, and never pay a negative amount for a non-negative wage |
| Gratuity.ComputeGratuity | app.py:31-55 | Zero whenever the counted years are below five, for any dates; for months in 1..12 the result is zero below 54 whole months and otherwise `((n+6)/12) * (basic+da) * 15/26`, with `n` the whole-month count |
| Gratuity.EligibleIffFourAndAHalfYears | app.py:36-51 | The five-year gate is passed exactly when the whole-month count is at least 54 |
| Gratuity.PayoutWhenEligible | app.py:53-55 | An eligible employee is paid `years * (basic + da) * 15/26` |
| Gratuity.DependsOnlyOnWage | app.py:53-54 | Two salary splits with the same sum of basic and DA give the same gratuity |
| Gratuity.GratuityNonNegative | app.py:50-54 | A non-negative `basic + da` never gives a negative gratuity |
| Gratuity.GratuityMonotoneInWage | app.py:50-54 | For fixed dates, a larger `basic + da` never gives a smaller gratuity |
| Gratuity.PayoutMonotoneInWage | app.py:49-55 | For a fixed number of counted years, a larger wage never gives a smaller payout |
| Gratuity.ExitBeforeJoinPaysNothing | app.py:36-51 | An exit date before the join date is not eligible and pays exactly zero, with no error |
| Gratuity.PayoutMonotoneInYears | app.py:49-55 | For a non-negative wage, the gate and formula never pay less for more counted years, including across the five-year gate |
| Gratuity.LaterExitByYears | app.py:36-55 | Leaving whole years later never makes an eligible employee ineligible and, for a non-negative wage, never pays less |
| Gratuity.GratuityMonotoneInExit | app.py:36-55 | For months in 1..12, any later exit date keeps eligibility and, for a non-negative wage, never pays less |
| GratuityExamples.ElevenMonthRemainderRoundsUp | app.py:36-55 | Join 2015-01-10, exit 2020-01-09 normalises to 4 years 11 months, counts 5 years and pays `5 * (basic+da) * 15/26` |
| GratuityExamples.HalfYearRoundsUp | app.py:36-55 | Join 2015-01-01, exit 2020-07-01 is 5 years 6 months and pays for 6 years |
| GratuityExamples.FiveMonthsStaysAtFive | app.py:36-55 | Join 2015-06-15, exit 2020-12-14 borrows down to 5 years 5 months and pays for exactly 5 years |
| GratuityExamples.FourYearsFiveMonthsPaysNothing | app.py:36-51 | Join 2016-02-10, exit 2020-07-10 is 4 years 5 months, stays at 4 counted years and pays zero |
| GratuityExamples.TenYearsOnFullWage | app.py:49-55 | Ten years on basic 26000 and DA 0 pays 150000 |
| GratuityExamples.DayOfMonthIgnoresMonthLength | app.py:38-40 | From 31 January to 29 February counts no whole month, because only day-of-month numbers are compared |

## Left out

- The web routes `index`, `add_employee` and `view_employee` (app.py:57-99): HTTP request handling and template rendering.
- Database access in `get_db`, `init_db` and the INSERT and SELECT statements (app.py:9-29, 59-63, 75-82, 88-92): storage I/O.
- Parsing the stored join date with `strptime` and taking the exit date from the wall clock with `today()` (app.py:96-97): both dates are parameters of `ComputeGratuity` instead, and the time of day of the exit date is ignored because the rule reads only its date fields.
- `total_days` (app.py:34): computed and never used, so it has no effect on the result.
- Floating-point rounding of `15.0 / 26.0` and of the product (app.py:54): amounts are exact reals, so the non-finite values (`nan`, `inf`, or an overflowing literal such as `1e400`) that `float()` accepts at app.py:73-74, and the `nan` or `inf` results they produce, are not represented.
- Validity of the day field and the year range that Python dates enforce: the rule never reads month lengths, so no property depends on them.
- Server start-up with `init_db` and `app.run` (app.py:101-103).
