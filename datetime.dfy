/**
 * System.DateTime as a tick count: 100-nanosecond intervals since midnight, 0001-01-01, which
 * was a Monday.
 */
module DateTime {
  /** DateTime.MaxValue.Ticks; DateTime.MinValue.Ticks is 0. */
  const MaxTicks: int := 3155378975999999999

  /** TimeSpan.TicksPerDay. */
  const TicksPerDay: int := 864000000000

  /** The ticks a DateTime can hold. */
  type Ticks = t: int | 0 <= t <= MaxTicks

  /** System.DayOfWeek: 0 is Sunday, 6 is Saturday. */
  type Weekday = d: int | 0 <= d < 7

  /** DateTime.Date: midnight of the same day. */
  function Date(t: Ticks): (r: Ticks)
    ensures r <= t < r + TicksPerDay && r % TicksPerDay == 0
  {
    t - t % TicksPerDay
  }

  /** DateTime.DayOfWeek: day 0 is a Monday. */
  function DayOfWeek(t: Ticks): Weekday {
    (t / TicksPerDay + 1) % 7
  }
}
