/** Instants as DateTime ticks, and the fixed-length DateTime arithmetic the
    resolver calls (AddMilliseconds, AddSeconds, AddMinutes, AddHours, AddDays).
    A tick is 100 ns; the representable range is DateTime.MinValue (tick 0,
    0001-01-01 00:00) to DateTime.MaxValue. Leaving that range is an error. */
module Instants {
  import opened Results

  const TicksPerMillisecond: int := 10_000
  const MillisPerSecond: int := 1000
  const MillisPerMinute: int := 60_000
  const MillisPerHour: int := 3_600_000
  const MillisPerDay: int := 86_400_000
  const TicksPerDay: int := 864_000_000_000
  /** The ticks of DateTime.MaxValue, 9999-12-31 23:59:59.9999999. */
  const MaxTicks: int := 3_155_378_975_999_999_999

  type Instant = t: int | 0 <= t <= MaxTicks

  /** DateTime.TimeOfDay in ticks: the part of `t` after the last midnight. */
  function TimeOfDay(t: Instant): (r: int)
    ensures 0 <= r < TicksPerDay
    ensures (t - r) % TicksPerDay == 0
  {
    t % TicksPerDay
  }

  /** The C# cast `(int)x` of a double: truncation toward zero. */
  function Trunc(x: real): (r: int)
    ensures 0.0 <= x ==> 0 <= r && r as real <= x < r as real + 1.0
    ensures x < 0.0 ==> r <= 0 && r as real - 1.0 < x <= r as real
  {
    if x >= 0.0 then x.Floor else -((-x).Floor)
  }

  /** Truncation toward zero commutes with negation. */
  lemma TruncNegate(x: real)
    ensures Trunc(-x) == -Trunc(x)
  {
  }

  /** `amount.Equals((int)amount)`: the amount has no fractional part. */
  predicate IsIntegral(x: real) {
    x == Trunc(x) as real
  }

  /** A whole number is integral, and the cast gives it back. */
  lemma WholeIsIntegral(n: int)
    ensures IsIntegral(n as real) && Trunc(n as real) == n
  {
  }

  /** Whole numbers, and only they, are integral; negation keeps integrality. */
  lemma IntegralExactly(x: real)
    ensures IsIntegral(x) <==> x == x.Floor as real
    ensures IsIntegral(-x) <==> IsIntegral(x)
  {
    TruncNegate(x);
  }

  /** The whole number of milliseconds DateTime.Add(double, scale) moves by:
      `(long)(value * scale + (value >= 0 ? 0.5 : -0.5))`, the nearest whole number,
      halves rounded away from zero. */
  function RoundMillis(x: real): (r: int)
    ensures 0.0 <= x ==> r as real - 0.5 <= x < r as real + 0.5
    ensures x < 0.0 ==> r as real - 0.5 < x <= r as real + 0.5
  {
    if x >= 0.0 then (x + 0.5).Floor else -((0.5 - x).Floor)
  }

  /** Rounding commutes with negation, so opposite amounts move by opposite spans. */
  lemma RoundMillisNegate(x: real)
    ensures RoundMillis(-x) == -RoundMillis(x)
  {
  }

  /** A whole number of milliseconds is not moved by rounding. */
  lemma RoundMillisWhole(n: int)
    ensures RoundMillis(n as real) == n
  {
  }

  /** DateTime.AddTicks: the moved instant, or an error when it leaves the range. */
  function AddTicks(t: Instant, delta: int): (r: Result<Instant>)
    ensures r.Ok? <==> 0 <= t + delta <= MaxTicks
    ensures r.Ok? ==> r.value - t == delta
  {
    if 0 <= t + delta <= MaxTicks then Ok(t + delta) else Err(OutOfRange)
  }

  /** DateTime.Add(double value, int scale): `value` units of `scale` milliseconds,
      rounded to a whole millisecond. */
  function AddScaled(t: Instant, value: real, scale: nat): Result<Instant> {
    AddTicks(t, RoundMillis(value * scale as real) * TicksPerMillisecond)
  }

  function AddMilliseconds(t: Instant, value: real): Result<Instant> {
    AddScaled(t, value, 1)
  }

  function AddSeconds(t: Instant, value: real): Result<Instant> {
    AddScaled(t, value, MillisPerSecond)
  }

  function AddMinutes(t: Instant, value: real): Result<Instant> {
    AddScaled(t, value, MillisPerMinute)
  }

  function AddHours(t: Instant, value: real): Result<Instant> {
    AddScaled(t, value, MillisPerHour)
  }

  function AddDays(t: Instant, value: real): Result<Instant> {
    AddScaled(t, value, MillisPerDay)
  }

  /** Adding a span and then its negation returns to the starting instant. */
  lemma AddScaledInverse(t: Instant, value: real, scale: nat)
    ensures AddScaled(t, value, scale).Ok? ==> AddScaled(AddScaled(t, value, scale).value, -value, scale) == Ok(t)
  {
    RoundMillisNegate(value * scale as real);
    assert -value * scale as real == -(value * scale as real);
  }

  /** A whole number of days moves by exactly that many days' ticks. */
  lemma AddWholeDays(t: Instant, n: int)
    ensures AddDays(t, n as real) == AddTicks(t, n * TicksPerDay)
  {
    RoundMillisWhole(n * MillisPerDay);
    assert (n as real) * (MillisPerDay as real) == (n * MillisPerDay) as real;
  }
}
