/**
 * GetFirstDayOfWeek: midnight of the first day of the week holding a date, where the culture
 * says on which day a week begins.
 */
module DateTimeExtensions {
  import opened Wrappers
  import opened DateTime

  /** How many days back from t the week starting on firstDay began: 0 to 6. */
  function DaysBack(t: Ticks, firstDay: Weekday): int {
    (DayOfWeek(t) - firstDay) % 7
  }

  /**
   * GetFirstDayOfWeek, with the culture's DateTimeFormat.FirstDayOfWeek given as firstDay: from
   * the input's date, step back a day at a time until the day of the week is firstDay.
   * AddDays(-1) before 0001-01-01 throws.
   */
  method GetFirstDayOfWeek(dayInWeek: Ticks, firstDay: Weekday) returns (r: Result<Ticks>)
    ensures r.Ok? <==> DaysBack(dayInWeek, firstDay) * TicksPerDay <= Date(dayInWeek)
    ensures r.Err? ==> r.error == ArgumentOutOfRange
    ensures r.Ok? ==>
      && DayOfWeek(r.value) == firstDay
      && r.value % TicksPerDay == 0
      && r.value <= dayInWeek < r.value + 7 * TicksPerDay
    ensures DayOfWeek(dayInWeek) == firstDay ==> r == Ok(Date(dayInWeek))
  {
    var firstDayInWeek: Ticks := Date(dayInWeek);
    SameDay(dayInWeek);
    ghost var n := 0;
    while DayOfWeek(firstDayInWeek) != firstDay
      invariant 0 <= n <= DaysBack(dayInWeek, firstDay)
      invariant firstDayInWeek == Date(dayInWeek) - n * TicksPerDay
      invariant firstDayInWeek % TicksPerDay == 0
      invariant DayOfWeek(firstDayInWeek) == (DayOfWeek(dayInWeek) - n) % 7
      decreases DaysBack(dayInWeek, firstDay) - n
    {
      BackTo(DayOfWeek(dayInWeek), firstDay, n);
      if firstDayInWeek - TicksPerDay < 0 {
        return Err(ArgumentOutOfRange);
      }
      DayBefore(firstDayInWeek);
      StepBack(DayOfWeek(dayInWeek) - n);
      firstDayInWeek := firstDayInWeek - TicksPerDay;
      n := n + 1;
    }
    BackTo(DayOfWeek(dayInWeek), firstDay, n);
    return Ok(firstDayInWeek);
  }

  /** Stepping back from day dow, the first day of the week is reached exactly after DaysBack steps. */
  lemma BackTo(dow: Weekday, firstDay: Weekday, n: int)
    requires 0 <= n <= (dow - firstDay) % 7
    ensures (dow - n) % 7 == firstDay <==> n == (dow - firstDay) % 7
  {
  }

  /** The date of t falls on the same day of the week as t. */
  lemma SameDay(t: Ticks)
    ensures DayOfWeek(Date(t)) == DayOfWeek(t)
  {
    assert Date(t) / TicksPerDay == t / TicksPerDay;
  }

  /** The midnight a day earlier is a midnight and falls on the previous day of the week. */
  lemma DayBefore(t: Ticks)
    requires t % TicksPerDay == 0 && t >= TicksPerDay
    ensures (t - TicksPerDay) % TicksPerDay == 0
    ensures DayOfWeek(t - TicksPerDay) == (DayOfWeek(t) - 1) % 7
  {
    assert (t - TicksPerDay) / TicksPerDay == t / TicksPerDay - 1;
  }

  lemma StepBack(a: int)
    ensures (a % 7 - 1) % 7 == (a - 1) % 7
  {
  }
}
