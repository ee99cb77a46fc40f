/** The time-difference chain of `org.my.libraries.MoreDateFunctions`.
    Each step divides the previous one as a `double`; here the quotients are
    exact reals, so every difference is a fixed multiple of the millisecond
    difference. */
module MoreDateFunctions {
  import opened JavaSemantics

  /** `timeDiffInSeconds(a, b)`: the millisecond difference `a - b` over 1000. */
  function TimeDiffInSeconds(subtrFromDate: Time, subtrWithDate: Time): (r: real)
    ensures r * 1000.0 == (subtrFromDate - subtrWithDate) as real
    ensures r > 0.0 <==> subtrFromDate > subtrWithDate
    ensures r == 0.0 <==> subtrFromDate == subtrWithDate
  {
    (subtrFromDate - subtrWithDate) as real / 1000.0
  }

  /** `timeDiffInMinutes`: the seconds difference over 60. */
  function TimeDiffInMinutes(subtrFromDate: Time, subtrWithDate: Time): (r: real)
    ensures r * 60.0 == TimeDiffInSeconds(subtrFromDate, subtrWithDate)
    ensures r * 60_000.0 == (subtrFromDate - subtrWithDate) as real
  {
    TimeDiffInSeconds(subtrFromDate, subtrWithDate) / 60.0
  }

  /** `timeDiffInHours`: the minutes difference over 60, which is the
      millisecond difference over 3,600,000. */
  function TimeDiffInHours(subtrFromDate: Time, subtrWithDate: Time): (r: real)
    ensures r * 60.0 == TimeDiffInMinutes(subtrFromDate, subtrWithDate)
    ensures r * 3_600_000.0 == (subtrFromDate - subtrWithDate) as real
    ensures r > 0.0 <==> subtrFromDate > subtrWithDate
  {
    TimeDiffInMinutes(subtrFromDate, subtrWithDate) / 60.0
  }

  /** `timeDiffInDays`: the hours difference over 24. */
  function TimeDiffInDays(subtrFromDate: Time, subtrWithDate: Time): (r: real)
    ensures r * 24.0 == TimeDiffInHours(subtrFromDate, subtrWithDate)
    ensures r * 86_400_000.0 == (subtrFromDate - subtrWithDate) as real
  {
    TimeDiffInHours(subtrFromDate, subtrWithDate) / 24.0
  }

  /** Every difference vanishes on equal dates and changes sign when the
      arguments are swapped. */
  lemma TimeDiffAntisymmetric(a: Time, b: Time)
    ensures TimeDiffInSeconds(a, a) == 0.0 && TimeDiffInHours(a, a) == 0.0
    ensures TimeDiffInSeconds(a, b) == -TimeDiffInSeconds(b, a)
    ensures TimeDiffInMinutes(a, b) == -TimeDiffInMinutes(b, a)
    ensures TimeDiffInHours(a, b) == -TimeDiffInHours(b, a)
    ensures TimeDiffInDays(a, b) == -TimeDiffInDays(b, a)
  {
  }
}
