/**
 * `System.DateTime` as a tick count (one tick is 100 ns) from 0001-01-01,
 * with the operations the ledger-entry filter uses.
 */
module DateTimes {
  import opened Wrappers

  const TicksPerHour: int := 36_000_000_000
  const TicksPerDay: int := 864_000_000_000
  /** `DateTime.MaxValue.Ticks`, the last tick of 9999-12-31. */
  const MaxTicks: int := 3_155_378_975_999_999_999

  /** The ticks of a representable `DateTime`. */
  type Ticks = t: int | 0 <= t <= MaxTicks

  /** The number of whole days since 0001-01-01. */
  function DayNumber(t: Ticks): nat {
    t / TicksPerDay
  }

  /** `DateTime.Date`: midnight at the start of the day of `t`. */
  function Date(t: Ticks): (d: Ticks)
    ensures d <= t < d + TicksPerDay
    ensures d % TicksPerDay == 0
    ensures DayNumber(d) == DayNumber(t)
  {
    t - t % TicksPerDay
  }

  /** `DateTime.AddTicks`: `None` where .NET throws ArgumentOutOfRangeException
      because the result is not representable. */
  function AddTicks(t: Ticks, delta: int): (r: Option<Ticks>)
    ensures r.Some? <==> 0 <= t + delta <= MaxTicks
    ensures r.Some? ==> r.value == t + delta
  {
    if 0 <= t + delta <= MaxTicks then Some(t + delta) else None
  }

  /** `DateTime.AddDays` for a whole number of days (no rounding applies). */
  function AddDays(t: Ticks, days: int): (r: Option<Ticks>)
    ensures r.Some? <==> 0 <= t + days * TicksPerDay <= MaxTicks
    ensures r.Some? ==> r.value == t + days * TicksPerDay
  {
    AddTicks(t, days * TicksPerDay)
  }

  /** The last day that `DateTime` can represent is day number 3652058
      (9999-12-31), and it ends exactly at `MaxTicks`. */
  lemma LastDay()
    ensures DayNumber(MaxTicks) == 3_652_058
    ensures Date(MaxTicks) + TicksPerDay - 1 == MaxTicks
  {
  }
}
