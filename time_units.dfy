/** The duration helpers of src/time/index.ts: a count of seconds,
    minutes, hours or days as milliseconds. Numbers are mathematical
    reals here. */
module TimeUnits {

  /** `seconds(x)`: a thousand milliseconds per second. */
  function Seconds(durationInSeconds: real): (ms: real)
    ensures ms == 1000.0 * durationInSeconds
  {
    durationInSeconds * 1000.0
  }

  /** `minutes(x)`: `x` times the milliseconds of sixty seconds. */
  function Minutes(durationInMinutes: real): (ms: real)
    ensures ms == 60000.0 * durationInMinutes
  {
    durationInMinutes * Seconds(60.0)
  }

  /** `hours(x)`: `x` times the milliseconds of sixty minutes. */
  function Hours(durationInHours: real): (ms: real)
    ensures ms == 3600000.0 * durationInHours
  {
    durationInHours * Minutes(60.0)
  }

  /** `days(x)`: `x` times the milliseconds of twenty-four hours. */
  function Days(durationInDays: real): (ms: real)
    ensures ms == 86400000.0 * durationInDays
  {
    durationInDays * Hours(24.0)
  }

  /** Each unit is a whole number of the next smaller one, for any
      count. */
  lemma UnitsNest(x: real)
    ensures Minutes(x) == Seconds(60.0 * x)
    ensures Hours(x) == Minutes(60.0 * x)
    ensures Days(x) == Hours(24.0 * x)
  {
  }

  /** Durations add: the conversion of a sum is the sum of the
      conversions. */
  lemma DaysAdd(x: real, y: real)
    ensures Days(x + y) == Days(x) + Days(y)
  {
  }
}
