/**
 The statutory gratuity: fifteen days of wages for each counted year of
 service, under a 26-working-day month, paid only from five counted years
 on. Wages are basic salary plus dearness allowance. Amounts are exact
 reals.
 */
module Gratuity {
  import opened Dates
  import opened Tenure

  /** Fewest counted years of service that earn any gratuity. */
  const MinServiceYears: int := 5

  /** Days of wages paid per counted year of service. */
  const WageDaysPerYear: real := 15.0

  /** Working days in a month, by the convention that turns a monthly wage into a daily one. */
  const WorkingDaysPerMonth: real := 26.0

  /**
   The five-year gate. For calendar months it is passed exactly when the
   normalised span is at least five years, or four years with a remainder
   of six months or more.
   */
  predicate Eligible(join: Date, exit: Date): (e: bool)
    ensures HasCalendarMonth(join) && HasCalendarMonth(exit) ==>
              var s := Normalize(join, exit);
              (e <==> s.years >= MinServiceYears || (s.years == MinServiceYears - 1 && s.months >= 6))
  {
    ServiceYears(join, exit) >= MinServiceYears
  }

  /**
   The five-year gate and the payout formula for a given number of counted
   years and a monthly wage (basic salary plus dearness allowance).
   */
  function Payout(years: int, wage: real): (g: real)
    ensures years < MinServiceYears ==> g == 0.0
    ensures g != 0.0 ==> years >= MinServiceYears && wage != 0.0
    ensures wage >= 0.0 ==> g >= 0.0
  {
    if years < MinServiceYears then 0.0 else years as real * wage * (WageDaysPerYear / WorkingDaysPerMonth)
  }

  /**
   The gratuity payable to an employee who joined on `join` and leaves on
   `exit` with monthly `basic` salary and dearness allowance `da`. Below
   five counted years it is zero, whatever the dates, including an exit
   before the join. Otherwise it is the counted years times the monthly wage
   times 15/26. For calendar months, five counted years means 54 whole months
   (four and a half years), and the counted years are the whole months
   divided by twelve with a half rounding up.
   */
  function ComputeGratuity(join: Date, exit: Date, basic: real, da: real): (g: real)
    ensures ServiceYears(join, exit) < MinServiceYears ==> g == 0.0
    ensures HasCalendarMonth(join) && HasCalendarMonth(exit) ==>
              var n := ElapsedMonths(join, exit);
              g == if n < 12 * MinServiceYears - 6 then 0.0
                   else ((n + 6) / 12) as real * (basic + da) * WageDaysPerYear / WorkingDaysPerMonth
  {
    Payout(ServiceYears(join, exit), basic + da)
  }

  /** Eligibility, for calendar months, is exactly 54 or more whole months of service. */
  lemma EligibleIffFourAndAHalfYears(join: Date, exit: Date)
    requires HasCalendarMonth(join) && HasCalendarMonth(exit)
    ensures Eligible(join, exit) <==> ElapsedMonths(join, exit) >= 12 * MinServiceYears - 6
  {
  }

  /** An eligible employee is paid the counted years times the wage times 15/26. */
  lemma PayoutWhenEligible(join: Date, exit: Date, basic: real, da: real)
    requires Eligible(join, exit)
    ensures ComputeGratuity(join, exit, basic, da)
            == ServiceYears(join, exit) as real * (basic + da) * 15.0 / 26.0
  {
  }

  /** The two salary components matter only through their sum. */
  lemma DependsOnlyOnWage(join: Date, exit: Date, basic1: real, da1: real, basic2: real, da2: real)
    requires basic1 + da1 == basic2 + da2
    ensures ComputeGratuity(join, exit, basic1, da1) == ComputeGratuity(join, exit, basic2, da2)
  {
  }

  /** A non-negative wage never yields a negative gratuity. */
  lemma GratuityNonNegative(join: Date, exit: Date, basic: real, da: real)
    requires basic + da >= 0.0
    ensures ComputeGratuity(join, exit, basic, da) >= 0.0
  {
    var years := ServiceYears(join, exit);
    if years >= MinServiceYears {
      MulNonNegative(years as real, basic + da);
    }
  }

  /** For fixed dates a larger wage never lowers the gratuity. */
  lemma GratuityMonotoneInWage(join: Date, exit: Date, basic1: real, da1: real, basic2: real, da2: real)
    requires basic1 + da1 <= basic2 + da2
    ensures ComputeGratuity(join, exit, basic1, da1) <= ComputeGratuity(join, exit, basic2, da2)
  {
    PayoutMonotoneInWage(ServiceYears(join, exit), basic1 + da1, basic2 + da2);
  }

  lemma PayoutMonotoneInWage(years: int, wage1: real, wage2: real)
    requires wage1 <= wage2
    ensures Payout(years, wage1) <= Payout(years, wage2)
  {
    var rate := WageDaysPerYear / WorkingDaysPerMonth;
    if years >= MinServiceYears {
      var factor := years as real * rate;
      MulNonNegative(years as real, rate);
      MulMonotone(factor, wage1, wage2);
      assert Payout(years, wage1) == factor * wage1;
      assert Payout(years, wage2) == factor * wage2;
    }
  }

  lemma MulNonNegative(a: real, b: real)
    requires a >= 0.0 && b >= 0.0
    ensures a * b >= 0.0
  {
  }

  lemma MulMonotone(a: real, b1: real, b2: real)
    requires a >= 0.0 && b1 <= b2
    ensures a * b1 <= a * b2
  {
    MulNonNegative(a, b2 - b1);
  }

  /** An exit date before the join date yields zero rather than an error. */
  lemma ExitBeforeJoinPaysNothing(join: Date, exit: Date, basic: real, da: real)
    requires HasCalendarMonth(join) && HasCalendarMonth(exit)
    requires Before(exit, join)
    ensures !Eligible(join, exit)
    ensures ComputeGratuity(join, exit, basic, da) == 0.0
  {
    ServiceYearsBeforeJoin(join, exit);
  }

  /**
   Leaving `k` whole years later never turns an eligible employee
   ineligible and, for a non-negative wage, never pays less.
   */
  lemma LaterExitByYears(join: Date, exit: Date, k: nat, basic: real, da: real)
    ensures Eligible(join, exit) ==> Eligible(join, ShiftYears(exit, k))
    ensures basic + da >= 0.0 ==>
              ComputeGratuity(join, exit, basic, da) <= ComputeGratuity(join, ShiftYears(exit, k), basic, da)
  {
    ServiceYearsShift(join, exit, k);
    if basic + da >= 0.0 {
      PayoutMonotoneInYears(ServiceYears(join, exit), ServiceYears(join, ShiftYears(exit, k)), basic + da);
    }
  }

  /**
   For a non-negative wage, a later exit date (any amount later) never pays
   less and never loses eligibility.
   */
  lemma GratuityMonotoneInExit(join: Date, exit1: Date, exit2: Date, basic: real, da: real)
    requires HasCalendarMonth(join) && HasCalendarMonth(exit1) && HasCalendarMonth(exit2)
    requires OnOrBefore(exit1, exit2)
    ensures Eligible(join, exit1) ==> Eligible(join, exit2)
    ensures basic + da >= 0.0 ==>
              ComputeGratuity(join, exit1, basic, da) <= ComputeGratuity(join, exit2, basic, da)
  {
    ServiceYearsMonotone(join, exit1, exit2);
    if basic + da >= 0.0 {
      PayoutMonotoneInYears(ServiceYears(join, exit1), ServiceYears(join, exit2), basic + da);
    }
  }

  /** More counted years never pay less, for the same non-negative wage. */
  lemma PayoutMonotoneInYears(years1: int, years2: int, wage: real)
    requires wage >= 0.0
    requires years1 <= years2
    ensures Payout(years1, wage) <= Payout(years2, wage)
  {
    var rate := WageDaysPerYear / WorkingDaysPerMonth;
    if years1 >= MinServiceYears {
      MulMonotone(wage * rate, years1 as real, years2 as real);
      assert Payout(years1, wage) == wage * rate * years1 as real;
      assert Payout(years2, wage) == wage * rate * years2 as real;
    } else if years2 >= MinServiceYears {
      MulNonNegative(years2 as real, wage);
      MulNonNegative(years2 as real * wage, rate);
    }
  }
}
