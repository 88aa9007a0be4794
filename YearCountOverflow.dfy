/** The whole-amount branch of AddDecades and AddCenturies computes its year count
    as a C# `int` product, `(int)amount * 10` and `(int)amount * 100`, which wraps
    around in unchecked 32-bit arithmetic. The members here model that code as
    written; DateTimeHelpers.AddDecades and AddCenturies use the unbounded product. */
module YearCountOverflow {
  import opened Results
  import opened Instants
  import opened DateTimeHelpers

  const TwoTo31: int := 0x8000_0000
  const TwoTo32: int := 0x1_0000_0000

  /** A C# `int`. */
  type Int32 = x: int | -TwoTo31 <= x < TwoTo31

  /** Unchecked 32-bit arithmetic: the `int` congruent to `x` modulo 2^32. */
  function Wrap32(x: int): (r: Int32)
    ensures (r - x) % TwoTo32 == 0
    ensures -TwoTo31 <= x < TwoTo31 ==> r == x
  {
    (x + TwoTo31) % TwoTo32 - TwoTo31
  }

  /** AddDecades as written, for amounts the `(int)` cast can represent. */
  function AddDecadesAsWritten(t: Instant, amount: real, rt: Runtime): Result<Instant>
    requires -TwoTo31 as real <= amount < TwoTo31 as real
  {
    if IsIntegral(amount) then CalendarYears(t, Wrap32(Trunc(amount) * 10), rt)
    else AddDays(t, Trunc(amount * 3652.5) as real)
  }

  /** AddCenturies as written, for amounts the `(int)` cast can represent. */
  function AddCenturiesAsWritten(t: Instant, amount: real, rt: Runtime): Result<Instant>
    requires -TwoTo31 as real <= amount < TwoTo31 as real
  {
    if IsIntegral(amount) then CalendarYears(t, Wrap32(Trunc(amount) * 100), rt)
    else AddDays(t, Trunc(amount * 36525.0) as real)
  }

  /** 429496730 decades wrap around to a shift of 4 years, where the unbounded year
      count (4294967300) is rejected as out of range. */
  lemma DecadesWrapAround(t: Instant, rt: Runtime)
    ensures AddDecadesAsWritten(t, 429496730.0, rt) == CalendarMonths(t, 48, rt)
    ensures AddDecades(t, 429496730.0, rt) == Err(OutOfRange)
  {
    WholeIsIntegral(429496730);
  }

  /** 42949673 centuries wrap around to a shift of 4 years, where the unbounded year
      count (4294967300) is rejected as out of range. */
  lemma CenturiesWrapAround(t: Instant, rt: Runtime)
    ensures AddCenturiesAsWritten(t, 42949673.0, rt) == CalendarMonths(t, 48, rt)
    ensures AddCenturies(t, 42949673.0, rt) == Err(OutOfRange)
  {
    WholeIsIntegral(42949673);
  }

  /** With the unbounded product, a whole number of decades is a shift by ten times
      as many years, so any count beyond 1000 either way is out of range. */
  lemma {:induction false} DecadesRejectLargeCounts(t: Instant, n: int, rt: Runtime)
    ensures AddDecades(t, n as real, rt) == CalendarMonths(t, 120 * n, rt)
    ensures (n < -1000 || 1000 < n) ==> AddDecades(t, n as real, rt) == Err(OutOfRange)
  {
    WholeIsIntegral(n);
    DecadesRule(t, n as real, rt);
  }

  /** With the unbounded product, a whole number of centuries is a shift by a hundred
      times as many years, so any count beyond 100 either way is out of range. */
  lemma {:induction false} CenturiesRejectLargeCounts(t: Instant, n: int, rt: Runtime)
    ensures AddCenturies(t, n as real, rt) == CalendarMonths(t, 1200 * n, rt)
    ensures (n < -100 || 100 < n) ==> AddCenturies(t, n as real, rt) == Err(OutOfRange)
  {
    WholeIsIntegral(n);
    CenturiesRule(t, n as real, rt);
  }

  /** Over the whole range the `(int)` cast can represent, the code as written and
      the unbounded product agree on every fractional amount (the same branch) and on
      every amount below 214748365 decades either way, where `(int)amount * 10` fits
      in an `int`; they can differ only on whole counts whose product wraps. */
  lemma DecadesAgreeUnlessWrapped(t: Instant, amount: real, rt: Runtime)
    requires -TwoTo31 as real <= amount < TwoTo31 as real
    ensures !IsIntegral(amount) || -214748364.0 <= amount <= 214748364.0 ==>
              AddDecadesAsWritten(t, amount, rt) == AddDecades(t, amount, rt)
  {
    if IsIntegral(amount) && -214748364.0 <= amount <= 214748364.0 {
      assert -2147483640 <= Trunc(amount) * 10 <= 2147483640;
    }
  }

  /** Over the whole range the `(int)` cast can represent, the code as written and
      the unbounded product agree on every fractional amount (the same branch) and on
      every amount below 21474837 centuries either way, where `(int)amount * 100`
      fits in an `int`; they can differ only on whole counts whose product wraps. */
  lemma CenturiesAgreeUnlessWrapped(t: Instant, amount: real, rt: Runtime)
    requires -TwoTo31 as real <= amount < TwoTo31 as real
    ensures !IsIntegral(amount) || -21474836.0 <= amount <= 21474836.0 ==>
              AddCenturiesAsWritten(t, amount, rt) == AddCenturies(t, amount, rt)
  {
    if IsIntegral(amount) && -21474836.0 <= amount <= 21474836.0 {
      assert -2147483600 <= Trunc(amount) * 100 <= 2147483600;
    }
  }
}
