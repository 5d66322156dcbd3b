/**
 Worked cases of the gratuity rule at its boundaries: the month borrow, the
 six-month rounding, the five-year gate and the 15/26 payout.
 */
module GratuityExamples {
  import opened Dates
  import opened Tenure
  import opened Gratuity

  /**
   One day short of five calendar years is four years and eleven months,
   which rounds up to five counted years, so the employee is eligible.
   */
  lemma ElevenMonthRemainderRoundsUp(basic: real, da: real)
    ensures Normalize(Date(2015, 1, 10), Date(2020, 1, 9)) == Span(4, 11)
    ensures ServiceYears(Date(2015, 1, 10), Date(2020, 1, 9)) == 5
    ensures ComputeGratuity(Date(2015, 1, 10), Date(2020, 1, 9), basic, da) == 5.0 * (basic + da) * 15.0 / 26.0
  {
  }

  /** Exactly five and a half years rounds up to six. */
  lemma HalfYearRoundsUp(basic: real, da: real)
    ensures Normalize(Date(2015, 1, 1), Date(2020, 7, 1)) == Span(5, 6)
    ensures ComputeGratuity(Date(2015, 1, 1), Date(2020, 7, 1), basic, da) == 6.0 * (basic + da) * 15.0 / 26.0
  {
  }

  /**
   The day borrow takes five years six months down to five years five
   months, which stays at five counted years: still eligible.
   */
  lemma FiveMonthsStaysAtFive(basic: real, da: real)
    ensures Normalize(Date(2015, 6, 15), Date(2020, 12, 14)) == Span(5, 5)
    ensures ComputeGratuity(Date(2015, 6, 15), Date(2020, 12, 14), basic, da) == 5.0 * (basic + da) * 15.0 / 26.0
  {
  }

  /** Four years five months rounds down to four: nothing is paid. */
  lemma FourYearsFiveMonthsPaysNothing(basic: real, da: real)
    ensures Normalize(Date(2016, 2, 10), Date(2020, 7, 10)) == Span(4, 5)
    ensures ComputeGratuity(Date(2016, 2, 10), Date(2020, 7, 10), basic, da) == 0.0
  {
  }

  /** Ten years on a monthly wage of 26000 pays 150000. */
  lemma TenYearsOnFullWage()
    ensures ComputeGratuity(Date(2010, 3, 1), Date(2020, 3, 1), 26000.0, 0.0) == 150000.0
  {
  }

  /**
   Only the day-of-month is compared: from the last day of January to the
   last day of February is not a whole month.
   */
  lemma DayOfMonthIgnoresMonthLength()
    ensures Normalize(Date(2020, 1, 31), Date(2020, 2, 29)) == Span(0, 0)
  {
  }
}
