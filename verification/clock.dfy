/**
 Local wall-clock time as integer seconds.

 An instant is a count of seconds on the local clock; every day is exactly
 `Day` seconds long (no time zones, no daylight-saving jumps, no leap
 seconds). Instants before the epoch are negative; the time of day is taken
 with floor semantics, which Dafny's Euclidean `%` gives for a positive
 divisor.
 */
module Clock {

  const Day: int := 86400
  const HourSeconds: int := 3600
  const MinuteSeconds: int := 60

  /** Seconds since local midnight of the instant `t`. */
  function SecondOfDay(t: int): (r: int)
    ensures 0 <= r < Day
  {
    t % Day
  }

  /** The hour component of the instant `t` (Go: `t.Hour()`). */
  function Hour(t: int): (h: int)
    ensures 0 <= h < 24
  {
    SecondOfDay(t) / HourSeconds
  }

  /** The minute component of the instant `t` (Go: `t.Minute()`). */
  function Minute(t: int): (m: int)
    ensures 0 <= m < 60
  {
    SecondOfDay(t) % HourSeconds / MinuteSeconds
  }

  /** The second component of the instant `t` (Go: `t.Second()`). */
  function Second(t: int): (s: int)
    ensures 0 <= s < 60
  {
    SecondOfDay(t) % MinuteSeconds
  }

  /** Local midnight at the start of the day that contains `t`. */
  function Midnight(t: int): (r: int)
    ensures r <= t < r + Day
    ensures SecondOfDay(r) == 0
  {
    t - t % Day
  }

  /** The instant on the day starting at `midnight` with the given clock
      reading (Go: `time.Date` with the day fields of another instant). */
  function At(midnight: int, hour: int, minute: int, second: int): int
  {
    midnight + hour * HourSeconds + minute * MinuteSeconds + second
  }

  /** The three clock components of an instant put back together give its
      time of day. */
  lemma ComponentsRecompose(t: int)
    ensures Hour(t) * HourSeconds + Minute(t) * MinuteSeconds + Second(t) == SecondOfDay(t)
  {
    var d := SecondOfDay(t);
    assert d == (d / 3600) * 3600 + d % 3600;
    var r := d % 3600;
    assert r == (r / 60) * 60 + r % 60;
    assert r % 60 == d % 60 by {
      assert d == (d / 3600) * 60 * 60 + r;
    }
  }

  /** Today's instant at the clock reading of `x`, built from its three
      components, is midnight plus the time of day of `x`; it and the same
      instant a day later both have that time of day. */
  lemma ClockOnDay(now: int, x: int)
    ensures At(Midnight(now), Hour(x), Minute(x), Second(x)) == Midnight(now) + SecondOfDay(x)
    ensures SecondOfDay(Midnight(now) + SecondOfDay(x)) == SecondOfDay(x)
    ensures SecondOfDay(Midnight(now) + SecondOfDay(x) + Day) == SecondOfDay(x)
  {
    ComponentsRecompose(x);
    var m := Midnight(now);
    var q := now / Day;
    assert m == q * Day;
    SecondOfDayShift(SecondOfDay(x), q);
    SecondOfDayShift(SecondOfDay(x), q + 1);
  }

  /** Shifting an instant by whole days keeps its time of day. */
  lemma SecondOfDayShift(t: int, days: int)
    ensures SecondOfDay(t + days * Day) == SecondOfDay(t)
  {
    var q := t / Day;
    assert t == q * Day + t % Day;
    assert t + days * Day == (q + days) * Day + t % Day;
  }
}
