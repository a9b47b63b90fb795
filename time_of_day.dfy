/** The wall-clock time of day the clock works with. */
module TimeOfDay {
  import opened Wrappers

  /** A time of day as the `time` crate's `Time` holds it (nanoseconds are not modelled). */
  datatype Time = Time(hour: int, minute: int, second: int)
  {
    /** The ranges `Time` guarantees for every value it hands out. */
    predicate Valid() {
      0 <= hour < 24 && 0 <= minute < 60 && 0 <= second < 60
    }
  }

  /** `Time::from_hms`: builds a time, or fails when a component is out of range. */
  function FromHms(hour: int, minute: int, second: int): (r: Option<Time>)
    ensures r.Some? <==> 0 <= hour < 24 && 0 <= minute < 60 && 0 <= second < 60
    ensures r.Some? ==> r.value.Valid()
    ensures r.Some? ==> r.value.hour == hour && r.value.minute == minute && r.value.second == second
  {
    if 0 <= hour < 24 && 0 <= minute < 60 && 0 <= second < 60 then
      Some(Time(hour, minute, second))
    else
      None
  }

  /** Minutes since midnight shown by an hour and a minute. */
  function ClockMinutes(hour: int, minute: int): int {
    hour * 60 + minute
  }

  /** How many minutes the clock moves forward, on a 24-hour day, to go from `from` to `to`. */
  function Forward(from: int, to: int): (f: int)
    ensures 0 <= f < 1440
    ensures (from + f - to) % 1440 == 0
  {
    (to - from) % 1440
  }
}
