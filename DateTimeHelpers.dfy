/** The time-expression resolver: `Parse` turns an expression and the current
    instant into an instant and a display mode, and the extension helpers
    AddWeeks, AddMonths, AddYears, AddDecades and AddCenturies carry out
    fractional week and calendar-unit offsets. */
module DateTimeHelpers {
  import opened Results
  import opened Text
  import opened Instants

  /** How a resolved instant is displayed. `Auto` is a caller's request to use the
      mode the resolver chose; the resolver itself never answers `Auto`. */
  datatype DateTimeMode = Date | Time | Auto

  datatype Resolved = Resolved(instant: Instant, mode: DateTimeMode)

  /** The runtime services the resolver calls, whose rules are not part of this model:
      the current culture's date/time and number parsers (DateTime.TryParse,
      double.TryParse; None when they fail), and the calendar month shift behind
      DateTime.AddMonths(int) (None when the shifted date leaves the range). */
  datatype Runtime = Runtime(
    tryParseDateTime: string -> Option<Instant>,
    tryParseDouble: string -> Option<real>,
    addCalendarMonths: (Instant, int) -> Option<Instant>)

  /** The calendar shift by zero months leaves every instant as it is, as
      DateTime.AddMonths(0) does. */
  predicate ZeroMonthsKeepInstant(rt: Runtime) {
    forall t: Instant :: rt.addCalendarMonths(t, 0) == Some(t)
  }

  /** DateTime.AddMonths(int) rejects more than this many months either way. */
  const MaxMonthsArgument: int := 120_000
  /** DateTime.AddYears(int) rejects more than this many years either way. */
  const MaxYearsArgument: int := 10_000

  /** DateTime.AddMonths(int). */
  function CalendarMonths(t: Instant, months: int, rt: Runtime): (r: Result<Instant>)
    ensures (months < -MaxMonthsArgument || MaxMonthsArgument < months) ==> r == Err(OutOfRange)
  {
    if months < -MaxMonthsArgument || MaxMonthsArgument < months then Err(OutOfRange)
    else
      match rt.addCalendarMonths(t, months)
      case Some(u) => Ok(u)
      case None => Err(OutOfRange)
  }

  /** DateTime.AddYears(int): twelve months per year, after its own range check. */
  function CalendarYears(t: Instant, years: int, rt: Runtime): Result<Instant> {
    if years < -MaxYearsArgument || MaxYearsArgument < years then Err(OutOfRange)
    else CalendarMonths(t, years * 12, rt)
  }

  /** A year shift is the shift by twelve times as many months, whatever the count. */
  lemma CalendarYearsAreMonths(t: Instant, years: int, rt: Runtime)
    ensures CalendarYears(t, years, rt) == CalendarMonths(t, 12 * years, rt)
  {
  }

  // ---------------------------------------------------------------------------
  // The extension helpers

  function AddWeeks(t: Instant, amount: real): Result<Instant> {
    AddDays(t, amount * 7.0)
  }

  function AddMonths(t: Instant, amount: real, rt: Runtime): Result<Instant> {
    if IsIntegral(amount) then CalendarMonths(t, Trunc(amount), rt)
    else AddDays(t, Trunc(amount * 365.25 / 12.0) as real)
  }

  function AddYears(t: Instant, amount: real, rt: Runtime): Result<Instant> {
    if IsIntegral(amount) then CalendarYears(t, Trunc(amount), rt)
    else AddDays(t, Trunc(amount * 365.25) as real)
  }

  function AddDecades(t: Instant, amount: real, rt: Runtime): Result<Instant> {
    if IsIntegral(amount) then CalendarYears(t, Trunc(amount) * 10, rt)
    else AddDays(t, Trunc(amount * 3652.5) as real)
  }

  function AddCenturies(t: Instant, amount: real, rt: Runtime): Result<Instant> {
    if IsIntegral(amount) then CalendarYears(t, Trunc(amount) * 100, rt)
    else AddDays(t, Trunc(amount * 36525.0) as real)
  }

  /** A week is exactly seven days: any amount of weeks moves by seven times as many
      days (to the millisecond), and a whole number of weeks by exactly 7 days each. */
  lemma {:induction false} WeeksAreSevenDays(t: Instant, amount: real, n: int)
    ensures AddWeeks(t, amount) == AddTicks(t, RoundMillis(amount * (7 * MillisPerDay) as real) * TicksPerMillisecond)
    ensures AddWeeks(t, n as real) == AddTicks(t, 7 * n * TicksPerDay)
  {
    assert amount * 7.0 * MillisPerDay as real == amount * (7 * MillisPerDay) as real;
    AddWholeDays(t, 7 * n);
  }

  /** Months: a whole amount is a calendar shift by that many months; a fractional one
      moves by the truncated number of days of an average month (365.25 / 12 days). */
  lemma {:induction false} MonthsRule(t: Instant, amount: real, rt: Runtime)
    ensures IsIntegral(amount) ==> AddMonths(t, amount, rt) == CalendarMonths(t, amount.Floor, rt)
    ensures !IsIntegral(amount) ==> AddMonths(t, amount, rt) == AddTicks(t, Trunc(amount * (365.25 / 12.0)) * TicksPerDay)
  {
    IntegralExactly(amount);
    AddWholeDays(t, Trunc(amount * 365.25 / 12.0));
  }

  /** Years: a whole amount is a calendar shift by that many years (twelve months
      each); a fractional one moves by the truncated number of days of 365.25-day years. */
  lemma {:induction false} YearsRule(t: Instant, amount: real, rt: Runtime)
    ensures IsIntegral(amount) ==> AddYears(t, amount, rt) == CalendarMonths(t, 12 * amount.Floor, rt)
    ensures !IsIntegral(amount) ==> AddYears(t, amount, rt) == AddTicks(t, Trunc(amount * 365.25) * TicksPerDay)
  {
    IntegralExactly(amount);
    AddWholeDays(t, Trunc(amount * 365.25));
  }

  /** Decades: a whole amount n is a calendar shift by 10 n years; a fractional one
      moves by the truncated number of days of 3652.5-day decades. */
  lemma {:induction false} DecadesRule(t: Instant, amount: real, rt: Runtime)
    ensures IsIntegral(amount) ==> AddDecades(t, amount, rt) == CalendarYears(t, 10 * amount.Floor, rt)
    ensures !IsIntegral(amount) ==> AddDecades(t, amount, rt) == AddTicks(t, Trunc(amount * 3652.5) * TicksPerDay)
  {
    IntegralExactly(amount);
    AddWholeDays(t, Trunc(amount * 3652.5));
  }

  /** Centuries: a whole amount n is a calendar shift by 100 n years; a fractional one
      moves by the truncated number of days of 36525-day centuries. */
  lemma {:induction false} CenturiesRule(t: Instant, amount: real, rt: Runtime)
    ensures IsIntegral(amount) ==> AddCenturies(t, amount, rt) == CalendarYears(t, 100 * amount.Floor, rt)
    ensures !IsIntegral(amount) ==> AddCenturies(t, amount, rt) == AddTicks(t, Trunc(amount * 36525.0) * TicksPerDay)
  {
    IntegralExactly(amount);
    AddWholeDays(t, Trunc(amount * 36525.0));
  }

  /** One and a half years is 547 days either way (547.875 truncated toward zero),
      while two years is a true calendar shift by 24 months. */
  lemma {:induction false} YearExamples(t: Instant, rt: Runtime)
    ensures AddYears(t, 1.5, rt) == AddTicks(t, 547 * TicksPerDay)
    ensures AddYears(t, -1.5, rt) == AddTicks(t, -547 * TicksPerDay)
    ensures AddYears(t, 2.0, rt) == CalendarMonths(t, 24, rt)
  {
    YearsRule(t, 1.5, rt);
    YearsRule(t, -1.5, rt);
    YearsRule(t, 2.0, rt);
  }

  // ---------------------------------------------------------------------------
  // Units

  /** The ten units an offset can be given in. */
  datatype Unit = Millisecond | Second | Minute | Hour | Day | Week | Month | Year | Decade | Century

  /** The unit a word names, matched case-insensitively against the single table. */
  function UnitOf(word: string): Option<Unit> {
    match Lower(word)
    case "millisecond" | "milliseconds" | "ms" => Some(Millisecond)
    case "second" | "seconds" | "s" => Some(Second)
    case "minute" | "minutes" | "min" | "mins" | "m" => Some(Minute)
    case "hour" | "hours" | "h" => Some(Hour)
    case "day" | "days" | "d" => Some(Day)
    case "week" | "weeks" | "w" => Some(Week)
    case "month" | "months" => Some(Month)
    case "year" | "years" | "yr" | "yrs" | "y" => Some(Year)
    case "decade" | "decades" => Some(Decade)
    case "century" | "centuries" => Some(Century)
    case _ => None
  }

  /** The spellings of each unit, as a reference table: the case labels of the unit
      switch, grouped by the unit they select. */
  function Spellings(u: Unit): set<string> {
    match u
    case Millisecond => {"millisecond", "milliseconds", "ms"}
    case Second => {"second", "seconds", "s"}
    case Minute => {"minute", "minutes", "min", "mins", "m"}
    case Hour => {"hour", "hours", "h"}
    case Day => {"day", "days", "d"}
    case Week => {"week", "weeks", "w"}
    case Month => {"month", "months"}
    case Year => {"year", "years", "yr", "yrs", "y"}
    case Decade => {"decade", "decades"}
    case Century => {"century", "centuries"}
  }

  /** Every spelling in the table names its unit, in any letter case. */
  lemma SpellingNamesUnit(word: string, u: Unit)
    requires Lower(word) in Spellings(u)
    ensures UnitOf(word) == Some(u)
  {
  }

  /** A word names a unit only through one of that unit's spellings. */
  lemma UnitHasSpelling(word: string)
    requires UnitOf(word).Some?
    ensures Lower(word) in Spellings(UnitOf(word).value)
  {
  }

  /** The unit switch and the spelling table agree: a word names a unit exactly when
      its lower-case form is one of that unit's spellings, and a word matching no
      spelling falls to the default case. So the switch's labels are exactly the
      table's spellings, and no label is shared by two units (SpellingsDisjoint). */
  lemma {:induction false} UnitTable(word: string, u: Unit)
    ensures UnitOf(word) == Some(u) <==> Lower(word) in Spellings(u)
    ensures UnitOf(word) == None <==> forall v: Unit :: Lower(word) !in Spellings(v)
  {
    if UnitOf(word).Some? {
      UnitHasSpelling(word);
    }
    if Lower(word) in Spellings(u) {
      SpellingNamesUnit(word, u);
    }
    forall v: Unit | Lower(word) in Spellings(v) ensures UnitOf(word) == Some(v) {
      SpellingNamesUnit(word, v);
    }
  }

  /** No word, in any letter case, is a spelling of two units: the switch's case
      labels do not overlap. */
  lemma {:induction false} SpellingsDisjoint(word: string, u: Unit, v: Unit)
    requires Lower(word) in Spellings(u) && Lower(word) in Spellings(v)
    ensures u == v
  {
    SpellingNamesUnit(word, u);
    SpellingNamesUnit(word, v);
  }

  /** The display mode a unit implies. */
  function ModeOf(u: Unit): DateTimeMode {
    match u
    case Millisecond | Second | Minute | Hour => Time
    case Day | Week | Month | Year | Decade | Century => Date
  }

  /** The length in milliseconds of a unit of fixed length; the calendar units
      (month and longer) have none. */
  function FixedMillis(u: Unit): Option<int> {
    match u
    case Millisecond => Some(1)
    case Second => Some(MillisPerSecond)
    case Minute => Some(MillisPerMinute)
    case Hour => Some(MillisPerHour)
    case Day => Some(MillisPerDay)
    case Week => Some(7 * MillisPerDay)
    case _ => None
  }

  /** Units shorter than a day are displayed as a time of day, all others as a date. */
  lemma ModeFollowsLength(u: Unit)
    ensures ModeOf(u) != Auto
    ensures ModeOf(u) == Time <==> FixedMillis(u).Some? && FixedMillis(u).value < MillisPerDay
  {
  }

  // ---------------------------------------------------------------------------
  // What an offset does to the clock

  /** A parsed relative offset: the unit and the signed amount of it. */
  datatype Offset = Offset(unit: Unit, amount: real)

  /** The unit switch: apply `offset.amount` units to `now`. */
  function Apply(now: Instant, offset: Offset, rt: Runtime): Result<Instant> {
    var amount := offset.amount;
    match offset.unit
    case Millisecond => AddMilliseconds(now, amount)
    case Second => AddSeconds(now, amount)
    case Minute => AddMinutes(now, amount)
    case Hour => AddHours(now, amount)
    case Day => AddDays(now, amount)
    case Week => AddWeeks(now, amount)
    case Month => AddMonths(now, amount, rt)
    case Year => AddYears(now, amount, rt)
    case Decade => AddDecades(now, amount, rt)
    case Century => AddCenturies(now, amount, rt)
  }

  /** The two kinds of clock change: a move by a number of ticks, or a calendar
      shift by a number of months. */
  datatype Shift = Ticks(delta: int) | CalendarShift(months: int)

  function Negate(s: Shift): Shift {
    match s
    case Ticks(d) => Ticks(-d)
    case CalendarShift(m) => CalendarShift(-m)
  }

  function Perform(t: Instant, s: Shift, rt: Runtime): Result<Instant> {
    match s
    case Ticks(d) => AddTicks(t, d)
    case CalendarShift(m) => CalendarMonths(t, m, rt)
  }

  /** Months in one calendar unit. */
  function MonthsPer(u: Unit): int {
    match u
    case Month => 1
    case Year => 12
    case Decade => 120
    case Century => 1200
    case _ => 0
  }

  /** The average length in days of one calendar unit. */
  function AverageDays(u: Unit): real {
    match u
    case Month => 365.25 / 12.0
    case Year => 365.25
    case Decade => 3652.5
    case Century => 36525.0
    case _ => 0.0
  }

  /** Reference meaning of `amount` units: fixed-length units move by the amount's
      length rounded to the millisecond; calendar units shift by whole months when
      the amount is whole, and otherwise move by the amount's average length in days
      truncated toward zero. */
  function ShiftOf(u: Unit, amount: real): Shift {
    match FixedMillis(u)
    case Some(ms) => Ticks(RoundMillis(amount * ms as real) * TicksPerMillisecond)
    case None =>
      if IsIntegral(amount) then CalendarShift(Trunc(amount) * MonthsPer(u))
      else Ticks(Trunc(amount * AverageDays(u)) * TicksPerDay)
  }

  /** Fixed-length units move by their length times the amount, to the millisecond. */
  lemma FixedUnitShift(now: Instant, u: Unit, amount: real, rt: Runtime)
    requires FixedMillis(u).Some?
    ensures Apply(now, Offset(u, amount), rt) == AddScaled(now, amount, FixedMillis(u).value)
    ensures Apply(now, Offset(u, amount), rt) == Perform(now, ShiftOf(u, amount), rt)
  {
    if u == Week {
      WeekIsSevenDays(now, amount);
    }
  }

  /** A week is DateTime.Add by seven times the amount in days, which is the amount
      in units of 7 × 86400000 ms. */
  lemma WeekIsSevenDays(now: Instant, amount: real)
    ensures AddWeeks(now, amount) == AddScaled(now, amount, 7 * MillisPerDay)
  {
    assert amount * 7.0 * MillisPerDay as real == amount * (7 * MillisPerDay) as real;
  }

  /** Calendar units shift by whole months or move by truncated average days. */
  lemma {:induction false} CalendarUnitShift(now: Instant, u: Unit, amount: real, rt: Runtime)
    requires FixedMillis(u).None?
    ensures Apply(now, Offset(u, amount), rt) == Perform(now, ShiftOf(u, amount), rt)
  {
    IntegralExactly(amount);
    match u
    case Month =>
      MonthsRule(now, amount, rt);
      assert amount * 365.25 / 12.0 == amount * (365.25 / 12.0);
    case Year =>
      YearsRule(now, amount, rt);
    case Decade =>
      DecadesRule(now, amount, rt);
    case Century =>
      CenturiesRule(now, amount, rt);
  }

  /** The unit switch and the helpers carry out exactly the reference shift. */
  lemma {:induction false} ApplyIsShift(now: Instant, offset: Offset, rt: Runtime)
    ensures Apply(now, offset, rt) == Perform(now, ShiftOf(offset.unit, offset.amount), rt)
  {
    match offset.unit
    case Millisecond | Second | Minute | Hour | Day | Week =>
      FixedUnitShift(now, offset.unit, offset.amount, rt);
    case Month | Year | Decade | Century =>
      CalendarUnitShift(now, offset.unit, offset.amount, rt);
  }

  /** Rounding a scaled amount commutes with negating the amount. */
  lemma RoundScaledNegate(amount: real, k: real)
    ensures RoundMillis(-amount * k) == -RoundMillis(amount * k)
  {
    assert -amount * k == -(amount * k);
    RoundMillisNegate(amount * k);
  }

  /** Truncating a scaled amount commutes with negating the amount. */
  lemma TruncScaledNegate(amount: real, k: real)
    ensures Trunc(-amount * k) == -Trunc(amount * k)
  {
    assert -amount * k == -(amount * k);
    TruncNegate(amount * k);
  }

  /** A zero amount of any unit leaves the instant as it is (`next-0-days`,
      `previous-0-months` resolve to now), given a calendar that keeps an instant
      under a zero-month shift. */
  lemma {:induction false} ZeroAmountKeepsInstant(now: Instant, u: Unit, rt: Runtime)
    requires ZeroMonthsKeepInstant(rt)
    ensures Apply(now, Offset(u, 0.0), rt) == Ok(now)
  {
    ApplyIsShift(now, Offset(u, 0.0), rt);
    WholeIsIntegral(0);
    RoundMillisWhole(0);
    assert rt.addCalendarMonths(now, 0) == Some(now);
  }

  /** Opposite amounts of a fixed-length unit move by opposite numbers of ticks. */
  lemma FixedShiftNegate(u: Unit, amount: real)
    requires FixedMillis(u).Some?
    ensures ShiftOf(u, -amount) == Negate(ShiftOf(u, amount))
  {
    var ms := FixedMillis(u).value;
    var n := RoundMillis(amount * ms as real);
    RoundScaledNegate(amount, ms as real);
    assert -n * TicksPerMillisecond == -(n * TicksPerMillisecond);
  }

  /** Opposite whole amounts of a calendar unit shift by opposite numbers of months. */
  lemma WholeShiftNegate(u: Unit, amount: real)
    requires FixedMillis(u).None? && IsIntegral(amount)
    ensures ShiftOf(u, -amount) == Negate(ShiftOf(u, amount))
  {
    IntegralExactly(amount);
    TruncNegate(amount);
    var n := Trunc(amount);
    assert ShiftOf(u, amount) == CalendarShift(n * MonthsPer(u));
    assert ShiftOf(u, -amount) == CalendarShift(-n * MonthsPer(u));
    assert -n * MonthsPer(u) == -(n * MonthsPer(u));
  }

  /** Opposite fractional amounts of a calendar unit move by opposite numbers of days. */
  lemma FractionShiftNegate(u: Unit, amount: real)
    requires FixedMillis(u).None? && !IsIntegral(amount)
    ensures ShiftOf(u, -amount) == Negate(ShiftOf(u, amount))
  {
    IntegralExactly(amount);
    var days := Trunc(amount * AverageDays(u));
    TruncScaledNegate(amount, AverageDays(u));
    assert ShiftOf(u, amount) == Ticks(days * TicksPerDay);
    assert ShiftOf(u, -amount) == Ticks(-days * TicksPerDay);
    assert -days * TicksPerDay == -(days * TicksPerDay);
  }

  /** Opposite amounts give opposite shifts, for every unit. */
  lemma {:induction false} ShiftNegate(u: Unit, amount: real)
    ensures ShiftOf(u, -amount) == Negate(ShiftOf(u, amount))
  {
    if FixedMillis(u).Some? {
      FixedShiftNegate(u, amount);
    } else if IsIntegral(amount) {
      WholeShiftNegate(u, amount);
    } else {
      FractionShiftNegate(u, amount);
    }
  }

  /** A fractional calendar amount moves by a whole number of days that lies within
      one day of the amount's average length, on the same side of zero. */
  lemma FractionalCalendarDays(u: Unit, amount: real)
    requires FixedMillis(u).None? && !IsIntegral(amount)
    ensures ShiftOf(u, amount).Ticks?
    ensures var days := ShiftOf(u, amount).delta / TicksPerDay;
      && ShiftOf(u, amount).delta == days * TicksPerDay
      && (amount > 0.0 ==> 0 <= days && days as real <= amount * AverageDays(u) < days as real + 1.0)
      && (amount < 0.0 ==> days <= 0 && days as real - 1.0 < amount * AverageDays(u) <= days as real)
  {
  }

  // ---------------------------------------------------------------------------
  // Parsing

  /** The direction word's factor: +1 for next, -1 for previous and last. */
  function Factor(word: string): Option<real> {
    match Lower(word)
    case "next" => Some(1.0)
    case "previous" | "last" => Some(-1.0)
    case _ => None
  }

  /** A direction's factor is a sign. */
  lemma FactorIsSign(word: string)
    requires Factor(word).Some?
    ensures Factor(word) == Some(1.0) || Factor(word) == Some(-1.0)
  {
  }

  /** The magnitude of a split relative expression: 1 when there are two pieces,
      otherwise the middle piece as a number. */
  function Magnitude(words: seq<string>, rt: Runtime): Result<real>
    requires |words| == 2 || |words| == 3
  {
    if |words| == 2 then Ok(1.0)
    else
      match rt.tryParseDouble(words[1])
      case Some(m) => Ok(m)
      case None => Err(Unexpected(words[1]))
  }

  /** The readings of the three pieces put together, checked in the order direction,
      magnitude, unit; the amount is the magnitude times the direction's factor. */
  function Combine(factor: Option<real>, magnitude: Result<real>, unit: Option<Unit>): Result<Offset> {
    match factor
    case None => Err(Unrecognizable)
    case Some(f) =>
      match magnitude
      case Err(e) => Err(e)
      case Ok(m) =>
        match unit
        case None => Err(Unrecognizable)
        case Some(u) => Ok(Offset(u, m * f))
  }

  /** The pieces of a relative expression: two or three of them, a direction first,
      an optional magnitude, a unit last. */
  function OffsetOf(words: seq<string>, rt: Runtime): Result<Offset> {
    if |words| != 2 && |words| != 3 then Err(Unrecognizable)
    else Combine(Factor(words[0]), Magnitude(words, rt), UnitOf(words[|words| - 1]))
  }

  /** A relative expression `direction-unit` or `direction-magnitude-unit`. */
  function ParseOffset(s: string, rt: Runtime): Result<Offset> {
    OffsetOf(Split(s, '-'), rt)
  }

  /** The instant an offset leads to, displayed in its unit's mode. */
  function Resolve(now: Instant, offset: Offset, rt: Runtime): Result<Resolved> {
    var t :- Apply(now, offset, rt);
    Ok(Resolved(t, ModeOf(offset.unit)))
  }

  /** A parsed offset applied to `now`; a parse error passes through. */
  function ResolveParsed(now: Instant, parsed: Result<Offset>, rt: Runtime): Result<Resolved> {
    var offset :- parsed;
    Resolve(now, offset, rt)
  }

  /** The relative stage of Parse: the offset the expression spells, applied to `now`. */
  function Relative(s: string, now: Instant, rt: Runtime): Result<Resolved> {
    ResolveParsed(now, ParseOffset(s, rt), rt)
  }

  /** The keyword switch on the lower-case expression; None when `key` is no keyword. */
  function Keyword(key: string, now: Instant): Option<Result<Resolved>> {
    match key
    case "now" => Some(Ok(Resolved(now, Time)))
    case "today" => Some(Ok(Resolved(now, Date)))
    case "tomorrow" =>
      Some(match AddDays(now, 1.0) case Ok(t) => Ok(Resolved(t, Date)) case Err(e) => Err(e))
    case "yesterday" =>
      Some(match AddDays(now, -1.0) case Ok(t) => Ok(Resolved(t, Date)) case Err(e) => Err(e))
    case _ => None
  }

  /** No keyword is blank. */
  lemma KeywordsAreNotBlank(key: string, now: Instant)
    requires Keyword(key, now).Some?
    ensures !IsBlank(key)
  {
    assert !IsWhiteSpace(key[0]);
  }

  /** No keyword contains a hyphen. */
  lemma KeywordsHaveNoHyphen(key: string, now: Instant)
    requires '-' in key
    ensures Keyword(key, now) == None
  {
  }

  /** DateTimeHelpers.Parse: blank input, then an absolute date/time, then the four
      keywords, then a relative expression. */
  function Parse(s: string, now: Instant, rt: Runtime): (r: Result<Resolved>)
    ensures IsBlank(s) ==> r == Ok(Resolved(now, Time))
    ensures r.Ok? ==> r.value.mode != Auto
  {
    if IsBlank(s) then Ok(Resolved(now, Time))
    else
      match rt.tryParseDateTime(s)
      case Some(t) => Ok(Resolved(t, if TimeOfDay(t) == 0 then Date else Time))
      case None =>
        match Keyword(Lower(s), now)
        case Some(r) => r
        case None => Relative(s, now, rt)
  }
}
