/**
 * Which days of the month can be played: every day from the first of the current
 * month through today. Dates are day ordinals (consecutive integers for
 * consecutive days); `dayOfMonth` is today's day within its month, from 1.
 */
module Eligibility {

  /** The ordinal of the first day of today's month. */
  function StartOfMonth(today: int, dayOfMonth: int): int {
    today - (dayOfMonth - 1)
  }

  /** The days from the start of the month through today, one per day of the month so far. */
  function EligibleDates(today: int, dayOfMonth: int): (r: seq<int>)
    requires dayOfMonth >= 1
    ensures |r| == dayOfMonth
    ensures r[0] == StartOfMonth(today, dayOfMonth) && r[|r| - 1] == today
    ensures forall i, j :: 0 <= i < j < |r| ==> r[i] < r[j]
  {
    seq(dayOfMonth, i requires 0 <= i < dayOfMonth => StartOfMonth(today, dayOfMonth) + i)
  }

  predicate IsEligible(date: int, today: int, dayOfMonth: int) {
    StartOfMonth(today, dayOfMonth) <= date <= today
  }

  /** The list holds exactly the eligible days. */
  lemma EligibleDatesExactly(today: int, dayOfMonth: int, date: int)
    requires dayOfMonth >= 1
    ensures date in EligibleDates(today, dayOfMonth) <==> IsEligible(date, today, dayOfMonth)
  {
    var r := EligibleDates(today, dayOfMonth);
    if IsEligible(date, today, dayOfMonth) {
      assert r[date - StartOfMonth(today, dayOfMonth)] == date;
    }
  }

  /** The calendar example: on the 10th, the ten days 1..10 are listed, the 1st is eligible and the 11th is not. */
  lemma TenthOfMonth(today: int)
    ensures |EligibleDates(today, 10)| == 10
    ensures EligibleDates(today, 10)[0] == today - 9 && EligibleDates(today, 10)[9] == today
    ensures IsEligible(today - 9, today, 10) && !IsEligible(today + 1, today, 10)
  {
  }
}
