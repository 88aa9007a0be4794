# gettime time-expression resolver, modelled in Dafny

`gettime` is a command-line tool that prints a point in time. At its core, in
`Source/DateTimeHelpers.cs`, are two parts:

- `DateTimeHelpers.Parse`. It turns an expression and the current instant into an
  instant plus a display mode (`Date` or `Time`), or fails. It tries four things in
  order, and the first that applies decides:
  1. blank input gives the current instant as a time;
  2. an absolute date/time (`DateTime.TryParse`) gives that instant, as a date
     exactly when it falls on midnight;
  3. the keywords `now`, `today`, `tomorrow` and `yesterday`, in any letter case;
  4. a relative expression `direction[-magnitude]-unit`, split on `-`.
     The direction is `next` (+1), `previous` or `last` (-1).
     The magnitude is a number and defaults to 1.
     The unit comes from one case-insensitive table, which also fixes the display mode.
- The extension helpers `AddWeeks`, `AddMonths`, `AddYears`, `AddDecades` and
  `AddCenturies`. A week is seven days. For a calendar unit, a whole amount is a
  calendar shift by whole months or years. A fractional amount instead moves by the
  amount times an average length in days (365.25/12, 365.25, 3652.5 or 36525),
  truncated toward zero.

The grammar has no sign-prefixed form (`+5h`) and no `-ago` or `-later` suffix.
There is a single unit table, abbreviations included, and every spelling in it is
accepted in both the two-piece and the three-piece form.

## Layout

- `Results.dfy`: `Option`, `Result` and the three errors. `Unrecognizable` is the
  "unrecognizable DateTime" exception. `Unexpected(word)` is the
  "unexpected '<word>'" exception for a magnitude that is not a number. `OutOfRange`
  is DateTime's range exception.
- `Text.dfy`: `string.IsNullOrWhiteSpace`, `ToLower` and `Split('-')`, with the
  split/join round trip.
- `Instants.dfy`: instants as DateTime ticks in the range DateTime.MinValue to
  DateTime.MaxValue. It holds the `(int)` cast (truncation toward zero) and the
  fixed-length DateTime additions. These round to the nearest millisecond, halves
  away from zero, and fail outside the range.
- `DateTimeHelpers.dfy`: the helpers `AddWeeks` to `AddCenturies`, the unit table
  `UnitOf`, and `Parse`. After the blank and absolute checks, `Parse` tries `Keyword`
  and then `Relative`.
  `Relative` calls `ParseOffset` (split, direction, magnitude, unit) and `Resolve`,
  and `Resolve` calls the unit switch `Apply`. The file also holds a reference
  meaning `ShiftOf` for every unit. `ShiftOf` says which move happens: a number of
  ticks, or a calendar shift by a number of months.
- `ParseProperties.dfy`: what `Parse` promises, stage by stage.
- `YearCountOverflow.dfy`: the 32-bit wrap-around described under Findings.

The runtime services are passed in as a `Runtime` value with three function fields:
the culture's date/time parser, the culture's number parser, and the calendar month
shift behind `DateTime.AddMonths(int)`. The current instant is a parameter.

## Model

| member | source | states |
|---|---|---|
| `DateTimeHelpers.Parse` | Source/DateTimeHelpers.cs:7-127 | blank or white-space input gives (now, Time) and nothing else is tried; a successful result is never `Auto` |
| `ParseProperties.AbsoluteWins` | Source/DateTimeHelpers.cs:15-19 | a non-blank string the absolute parser accepts gives that instant, before any keyword or relative form; the mode is Date exactly when the time of day is midnight, Time otherwise |
| `ParseProperties.KeywordParse` | Source/DateTimeHelpers.cs:9-35 | a non-absolute expression whose lower-case form is a keyword resolves as that keyword |
| `DateTimeHelpers.KeywordsAreNotBlank` | Source/DateTimeHelpers.cs:9-35 | no keyword is blank, so the blank check never hides one |
| `ParseProperties.Keywords` | Source/DateTimeHelpers.cs:21-35 | in any letter case: `now` gives (now, Time), `today` (now, Date), `tomorrow` now plus one day's ticks and `yesterday` now minus one day's ticks, both as Date, or the range error |
| `DateTimeHelpers.KeywordsHaveNoHyphen` | Source/DateTimeHelpers.cs:21-35 | no keyword contains a hyphen, so a hyphenated expression always reaches the relative grammar |
| `ParseProperties.ShapeErrors` | Source/DateTimeHelpers.cs:37-56 | a relative expression that does not split into 2 or 3 pieces, or whose first piece is no direction, is unrecognizable |
| `ParseProperties.SingleWord` | Source/DateTimeHelpers.cs:37-42 | a word that is neither blank, absolute, a keyword nor hyphenated (such as `purple`) splits into one piece and is unrecognizable |
| `ParseProperties.DirectionWords` | Source/DateTimeHelpers.cs:44-56 | `next` has factor +1, `previous` and `last` factor -1 |
| `ParseProperties.TwoPieceForm` | Source/DateTimeHelpers.cs:37-125 | `direction-unit` has magnitude 1, so the amount is the direction's factor; an unknown direction or unit is unrecognizable |
| `ParseProperties.ThreePieceForm` | Source/DateTimeHelpers.cs:37-125 | `direction-magnitude-unit` checks the direction, then the number (a failed parse is `Unexpected` naming that piece), then the unit; the amount is magnitude times factor |
| `ParseProperties.OppositeDirections` | Source/DateTimeHelpers.cs:44-67 | split expressions differing only in a direction of opposite factor give opposite amounts of the same unit, or the same error |
| `ParseProperties.CombineOpposite` | Source/DateTimeHelpers.cs:44-67 | an opposite factor gives the opposite amount of the same unit, or the same error |
| `ParseProperties.SplitDirection` | Source/DateTimeHelpers.cs:37 | a hyphen-free first word and a hyphen are split off as the first piece |
| `ParseProperties.OppositeWords` | Source/DateTimeHelpers.cs:44-67 | with `next` and `previous` (factors +1 and -1) in front of the same rest, the second parses to the first's offset with the amount negated, or fails with the same error |
| `ParseProperties.SynonymWords` | Source/DateTimeHelpers.cs:44-56 | direction words of equal factor, such as `previous` and `last`, in front of the same rest parse alike |
| `ParseProperties.ReachesRelative` | Source/DateTimeHelpers.cs:9-37 | a hyphenated expression the absolute parser rejects is neither blank nor a keyword, so it reaches the relative stage |
| `ParseProperties.RelativeOutcome` | Source/DateTimeHelpers.cs:58-125 | the relative stage fails as the offset fails, or carries out the unit's reference shift and takes the unit's mode |
| `ParseProperties.RelativeParse` | Source/DateTimeHelpers.cs:37-125 | a hyphenated expression the absolute parser rejects fails as its offset fails, or carries out the unit's reference shift and takes the unit's mode |
| `ParseProperties.ReversedResolves` | Source/DateTimeHelpers.cs:67-160 | an offset and its reversed copy resolve with opposite shifts of the same unit; an error passes through unchanged |
| `ParseProperties.MirroredRelatives` | Source/DateTimeHelpers.cs:44-125 | two expressions with reversed offsets, such as `next-X-u` and `previous-X-u`, give the same error, or the same unit with opposite shifts |
| `ParseProperties.OutcomeMirror` | Source/DateTimeHelpers.cs:67-125 | a shift and its negation in the same unit share the display mode, and tick moves land equally far on either side of now |
| `ParseProperties.TwoPieceResolves` | Source/DateTimeHelpers.cs:58-125 | a well-formed `direction-unit` resolves to one unit's shift in the direction's sense (e.g. `last-hour`: one hour back, as Time) |
| `ParseProperties.ThreePieceResolves` | Source/DateTimeHelpers.cs:58-125 | a well-formed `direction-magnitude-unit` resolves to the unit's shift by magnitude times factor (e.g. `next-3-days`: three days ahead, as Date) |
| `ParseProperties.YearAndAHalfShift` | Source/DateTimeHelpers.cs:141-146 | 1.5 years is 547 days ahead and -1.5 years 547 days back |
| `ParseProperties.YearAndAHalfOutcome` | Source/DateTimeHelpers.cs:141-146 | 1.5 years forward lands 547 days ahead and backward 547 days back, both as Date |
| `ParseProperties.YearAndAHalf` | Source/DateTimeHelpers.cs:58-146 | `next-1.5-years` resolves to now + 547 days and `previous-1.5-years` to now - 547 days, both as Date |
| `DateTimeHelpers.SpellingNamesUnit` | Source/DateTimeHelpers.cs:69-125 | every spelling in the table names its unit, in any letter case |
| `DateTimeHelpers.UnitHasSpelling` | Source/DateTimeHelpers.cs:69-125 | a word names a unit only through one of that unit's spellings |
| `DateTimeHelpers.UnitTable` | Source/DateTimeHelpers.cs:69-125 | a word names unit u if and only if its lower-case form is a spelling of u; it names no unit if and only if it matches no spelling |
| `DateTimeHelpers.SpellingsDisjoint` | Source/DateTimeHelpers.cs:70-124 | no word, in any letter case, is a spelling of two different units: the switch's case labels do not overlap |
| `DateTimeHelpers.ModeFollowsLength` | Source/DateTimeHelpers.cs:72-122 | a unit's mode is never Auto, and it is Time exactly for the fixed-length units shorter than a day (ms, s, min, h) |
| `DateTimeHelpers.FixedUnitShift` | Source/DateTimeHelpers.cs:72-103 | millisecond to week move by the amount times the unit's length in milliseconds (a week is 7 days), rounded to the millisecond, which is the reference shift |
| `DateTimeHelpers.CalendarUnitShift` | Source/DateTimeHelpers.cs:104-122 | month, year, decade and century carry out the reference shift: whole months for whole amounts, truncated average days otherwise |
| `DateTimeHelpers.ApplyIsShift` | Source/DateTimeHelpers.cs:69-160 | the unit switch and the helpers carry out exactly the reference shift of the unit and amount |
| `DateTimeHelpers.FactorIsSign` | Source/DateTimeHelpers.cs:44-56 | a direction's factor is +1 or -1 |
| `DateTimeHelpers.FixedShiftNegate` | Source/DateTimeHelpers.cs:72-103 | opposite amounts of a fixed-length unit move by opposite numbers of ticks |
| `DateTimeHelpers.WholeShiftNegate` | Source/DateTimeHelpers.cs:134-160 | opposite whole amounts of a calendar unit shift by opposite numbers of months |
| `DateTimeHelpers.FractionShiftNegate` | Source/DateTimeHelpers.cs:134-160 | opposite fractional amounts of a calendar unit move by opposite numbers of days |
| `DateTimeHelpers.RoundScaledNegate` | Source/DateTimeHelpers.cs:76-103 | rounding a scaled amount to the millisecond commutes with negating the amount |
| `DateTimeHelpers.TruncScaledNegate` | Source/DateTimeHelpers.cs:138-159 | truncating a scaled amount commutes with negating the amount |
| `DateTimeHelpers.ShiftNegate` | Source/DateTimeHelpers.cs:67-160 | for every unit, the negated amount gives the negated shift: opposite ticks or opposite months |
| `DateTimeHelpers.FractionalCalendarDays` | Source/DateTimeHelpers.cs:134-160 | a fractional calendar amount moves by whole days, within one day of amount times average length and on the same side of zero |
| `DateTimeHelpers.WeekIsSevenDays` | Source/DateTimeHelpers.cs:129-132 | a week amount is DateTime.Add of that amount in units of seven days' milliseconds |
| `DateTimeHelpers.WeeksAreSevenDays` | Source/DateTimeHelpers.cs:129-132 | any amount of weeks moves by seven times as many days to the millisecond; n whole weeks move by exactly 7n days |
| `DateTimeHelpers.MonthsRule` | Source/DateTimeHelpers.cs:134-139 | a whole amount n is a calendar shift by n months; a fractional amount moves by trunc(amount × 365.25/12) days |
| `DateTimeHelpers.YearsRule` | Source/DateTimeHelpers.cs:141-146 | a whole amount n is a calendar shift by 12n months; a fractional amount moves by trunc(amount × 365.25) days |
| `DateTimeHelpers.DecadesRule` | Source/DateTimeHelpers.cs:148-153 | a whole amount n is a calendar shift by 10n years, with the product unbounded (see Left out); a fractional amount moves by trunc(amount × 3652.5) days |
| `DateTimeHelpers.CenturiesRule` | Source/DateTimeHelpers.cs:155-160 | a whole amount n is a calendar shift by 100n years, with the product unbounded (see Left out); a fractional amount moves by trunc(amount × 36525) days |
| `DateTimeHelpers.YearExamples` | Source/DateTimeHelpers.cs:141-146 | 1.5 years adds 547 days, -1.5 years subtracts 547 days, and 2 years is a calendar shift by 24 months |
| `DateTimeHelpers.CalendarMonths` | Source/DateTimeHelpers.cs:137 | the calendar month shift rejects counts beyond ±120000 as out of range |
| `DateTimeHelpers.CalendarYearsAreMonths` | Source/DateTimeHelpers.cs:144-158 | a calendar shift by n years is the shift by 12n months, range check included |
| `Instants.Trunc` | Source/DateTimeHelpers.cs:136-159 | the `(int)` cast truncates toward zero: the result is within one of the amount, between it and zero |
| `Instants.IsIntegral` | Source/DateTimeHelpers.cs:136 | `amount.Equals((int)amount)`; its contract is `Instants.IntegralExactly` |
| `Instants.IntegralExactly` | Source/DateTimeHelpers.cs:136 | `amount.Equals((int)amount)` holds exactly for whole numbers, and for an amount exactly when for its negation |
| `Instants.WholeIsIntegral` | Source/DateTimeHelpers.cs:136-137 | a whole number passes the `Equals` test and the cast gives it back unchanged |
| `Instants.TruncNegate` | Source/DateTimeHelpers.cs:136-159 | truncation toward zero commutes with negation |
| `Instants.RoundMillisNegate` | Source/DateTimeHelpers.cs:76-98 | rounding to the millisecond commutes with negation |
| `Instants.RoundMillisWhole` | Source/DateTimeHelpers.cs:76-98 | a whole number of milliseconds is not changed by rounding |
| `Instants.AddTicks` | Source/DateTimeHelpers.cs:31-34 | a move succeeds exactly when it stays within DateTime's range, and then moves by exactly the given ticks |
| `Instants.RoundMillis` | Source/DateTimeHelpers.cs:76-98 | the DateTime additions move by the nearest whole millisecond, halves away from zero |
| `Instants.TimeOfDay` | Source/DateTimeHelpers.cs:17 | the time of day lies in [0, one day) and the instant minus it is a whole number of days |
| `Instants.AddScaledInverse` | Source/DateTimeHelpers.cs:29-34 | when adding a span succeeds, adding its negation to the result returns to the starting instant (tomorrow's yesterday is now) |
| `Instants.AddWholeDays` | Source/DateTimeHelpers.cs:29-34 | a whole number of days moves by exactly that many days' ticks, or fails outside the range |
| `Text.LowerChar` | Source/DateTimeHelpers.cs:21 | an upper-case ASCII letter becomes its lower-case letter, and every other character stays as it is |
| `Text.Lower` | Source/DateTimeHelpers.cs:21 | lower-casing keeps the length and maps each character on its own |
| `Text.LowerKeepsBlank` | Source/DateTimeHelpers.cs:9-21 | a string and its lower-case form are blank together, so no keyword is blank input |
| `Text.LowerKeepsSeparator` | Source/DateTimeHelpers.cs:21-37 | a hyphen in the expression survives lower-casing |
| `Text.LowerFixesLowerCase` | Source/DateTimeHelpers.cs:45 | a string without upper-case letters is its own lower-case form |
| `Text.Split` | Source/DateTimeHelpers.cs:37 | the pieces are hyphen-free, there is at least one, and joining them with hyphens gives back the input |
| `Text.SplitWithoutSeparator` | Source/DateTimeHelpers.cs:37 | a hyphen-free string is one piece |
| `Text.SplitAfterWord` | Source/DateTimeHelpers.cs:37 | a hyphen-free word followed by a hyphen becomes the first piece |
| `Text.SplitJoin` | Source/DateTimeHelpers.cs:37 | splitting inverts joining for hyphen-free pieces |
| `YearCountOverflow.Wrap32` | Source/DateTimeHelpers.cs:151-158 | unchecked `int` arithmetic gives the value congruent modulo 2^32, unchanged when in range |
| `YearCountOverflow.DecadesWrapAround` | Source/DateTimeHelpers.cs:148-153 | as written, 429496730 decades become a 4-year shift; the unbounded count is out of range |
| `YearCountOverflow.CenturiesWrapAround` | Source/DateTimeHelpers.cs:155-160 | as written, 42949673 centuries become a 4-year shift; the unbounded count is out of range |
| `YearCountOverflow.DecadesRejectLargeCounts` | Source/DateTimeHelpers.cs:148-153 | n whole decades are a shift by 120n months, and beyond ±1000 decades always out of range |
| `YearCountOverflow.CenturiesRejectLargeCounts` | Source/DateTimeHelpers.cs:155-160 | n whole centuries are a shift by 1200n months, and beyond ±100 centuries always out of range |
| `DateTimeHelpers.AddWeeks` | Source/DateTimeHelpers.cs:129-132 | `AddDays(amount * 7)`; its contract is `DateTimeHelpers.WeeksAreSevenDays` |
| `DateTimeHelpers.AddMonths` | Source/DateTimeHelpers.cs:134-139 | whole amounts shift by calendar months, others by truncated average days; its contract is `DateTimeHelpers.MonthsRule` |
| `DateTimeHelpers.AddYears` | Source/DateTimeHelpers.cs:141-146 | whole amounts shift by calendar years, others by truncated 365.25-day years; its contract is `DateTimeHelpers.YearsRule` |
| `DateTimeHelpers.AddDecades` | Source/DateTimeHelpers.cs:148-153 | the corrected decade helper with an unbounded product; its contracts are `DateTimeHelpers.DecadesRule` and `YearCountOverflow.DecadesRejectLargeCounts` |
| `DateTimeHelpers.AddCenturies` | Source/DateTimeHelpers.cs:155-160 | the corrected century helper with an unbounded product; its contracts are `DateTimeHelpers.CenturiesRule` and `YearCountOverflow.CenturiesRejectLargeCounts` |
| `DateTimeHelpers.ModeOf` | Source/DateTimeHelpers.cs:75-121 | the `mode = …` assignment of each unit case; its contract is `DateTimeHelpers.ModeFollowsLength` |
| `DateTimeHelpers.CalendarYears` | Source/DateTimeHelpers.cs:141-160 | `DateTime.AddYears(int)` as the helpers call it; its contract is `DateTimeHelpers.CalendarYearsAreMonths` |
| `DateTimeHelpers.Combine` | Source/DateTimeHelpers.cs:44-125 | the direction, magnitude and unit checks in the source's order, with the amount magnitude times factor; its contracts are `ParseProperties.TwoPieceForm`, `ParseProperties.ThreePieceForm` and `ParseProperties.CombineOpposite` |
| `DateTimeHelpers.Resolve` | Source/DateTimeHelpers.cs:70-125 | the unit switch applied to `now`, in the unit's mode; its contract is `ParseProperties.RelativeOutcome` |
| `DateTimeHelpers.ResolveParsed` | Source/DateTimeHelpers.cs:37-125 | a parse error passes through, otherwise the offset is resolved; its contract is `ParseProperties.RelativeOutcome` |
| `DateTimeHelpers.Relative` | Source/DateTimeHelpers.cs:37-125 | the relative stage of `Parse`; its contracts are `ParseProperties.RelativeOutcome` and `ParseProperties.RelativeParse` |
| `Text.IsWhiteSpace` | Source/DateTimeHelpers.cs:9 | `Char.IsWhiteSpace`, which `string.IsNullOrWhiteSpace` tests; its contract is `Text.LowerKeepsBlank` |
| `DateTimeHelpers.UnitOf` | Source/DateTimeHelpers.cs:69-125 | the case-insensitive unit switch; its contract is `DateTimeHelpers.UnitTable` |
| `DateTimeHelpers.Apply` | Source/DateTimeHelpers.cs:72-122 | the unit switch's calls to the Add helpers; its contract is `DateTimeHelpers.ApplyIsShift` |
| `DateTimeHelpers.ZeroAmountKeepsInstant` | Source/DateTimeHelpers.cs:72-122 | a zero amount of any unit resolves to the instant itself, given a calendar that keeps an instant under a zero-month shift |
| `DateTimeHelpers.Factor` | Source/DateTimeHelpers.cs:44-56 | the direction switch; its contracts are `ParseProperties.DirectionWords` and `DateTimeHelpers.FactorIsSign` |
| `DateTimeHelpers.Magnitude` | Source/DateTimeHelpers.cs:58-65 | 1.0, or the middle piece as a number, or the `unexpected` error; its contract is `ParseProperties.ThreePieceForm` |
| `DateTimeHelpers.Keyword` | Source/DateTimeHelpers.cs:21-35 | the keyword switch; its contract is `ParseProperties.Keywords` |
| `DateTimeHelpers.OffsetOf` | Source/DateTimeHelpers.cs:39-125 | the piece-count check, direction, magnitude and unit of the split expression; its contracts are `ParseProperties.ShapeErrors` and `ParseProperties.OppositeDirections` |
| `DateTimeHelpers.ParseOffset` | Source/DateTimeHelpers.cs:37-125 | the split expression's offset; its contracts are `ParseProperties.TwoPieceForm` and `ParseProperties.ThreePieceForm` |
| `Instants.AddScaled` | Source/DateTimeHelpers.cs:76-98 | DateTime.Add(double, scale); its contracts are `Instants.AddScaledInverse` and `DateTimeHelpers.FixedUnitShift` |
| `Instants.AddMilliseconds` | Source/DateTimeHelpers.cs:76 | scale 1 ms; its contract is `DateTimeHelpers.FixedUnitShift` |
| `Instants.AddSeconds` | Source/DateTimeHelpers.cs:81 | scale 1000 ms; its contract is `DateTimeHelpers.FixedUnitShift` |
| `Instants.AddMinutes` | Source/DateTimeHelpers.cs:88 | scale 60000 ms; its contract is `DateTimeHelpers.FixedUnitShift` |
| `Instants.AddHours` | Source/DateTimeHelpers.cs:93 | scale 3600000 ms; its contract is `DateTimeHelpers.FixedUnitShift` |
| `Instants.AddDays` | Source/DateTimeHelpers.cs:31-34 | scale one day; its contracts are `Instants.AddWholeDays` and `Instants.AddScaledInverse` |
| `Text.IsBlank` | Source/DateTimeHelpers.cs:9 | `string.IsNullOrWhiteSpace` for a non-null string; its contract is `Text.LowerKeepsBlank` |
| `YearCountOverflow.AddDecadesAsWritten` | Source/DateTimeHelpers.cs:148-153 | the decade helper with the wrapping `int` product; its contracts are `YearCountOverflow.DecadesWrapAround` and `YearCountOverflow.DecadesAgreeUnlessWrapped` |
| `YearCountOverflow.AddCenturiesAsWritten` | Source/DateTimeHelpers.cs:155-160 | the century helper with the wrapping `int` product; its contracts are `YearCountOverflow.CenturiesWrapAround` and `YearCountOverflow.CenturiesAgreeUnlessWrapped` |
| `YearCountOverflow.DecadesAgreeUnlessWrapped` | Source/DateTimeHelpers.cs:148-153 | over the whole range the `(int)` cast represents, the as-written and corrected decade helpers agree on every fractional amount and on every amount within ±214748364, so they differ only on whole counts where `(int)amount * 10` wraps |
| `YearCountOverflow.CenturiesAgreeUnlessWrapped` | Source/DateTimeHelpers.cs:155-160 | over the whole range the `(int)` cast represents, the as-written and corrected century helpers agree on every fractional amount and on every amount within ±21474836, so they differ only on whole counts where `(int)amount * 100` wraps |

## Findings

| source | as written | input that shows it | evidently intended | confidence | as-written member | corrected member |
|---|---|---|---|---|---|---|
| Source/DateTimeHelpers.cs:151 | `(int)amount * 10` is a 32-bit product that wraps around | `next-429496730-decades`: the year count 4294967300 wraps to 4, giving a 4-year shift | a shift by ten times as many years, so the count is rejected as out of range | medium, not executed (assumes the default unchecked arithmetic) | `YearCountOverflow.DecadesWrapAround` | `YearCountOverflow.DecadesRejectLargeCounts` |
| Source/DateTimeHelpers.cs:158 | `(int)amount * 100` is a 32-bit product that wraps around | `next-42949673-centuries`: the year count 4294967300 wraps to 4, giving a 4-year shift | a shift by a hundred times as many years, so the count is rejected as out of range | medium, not executed (assumes the default unchecked arithmetic) | `YearCountOverflow.CenturiesWrapAround` | `YearCountOverflow.CenturiesRejectLargeCounts` |

The as-written helpers are `YearCountOverflow.AddDecadesAsWritten` and
`YearCountOverflow.AddCenturiesAsWritten`. `Parse` uses `DateTimeHelpers.AddDecades`
and `DateTimeHelpers.AddCenturies`, which form the product without a bound.

## Left out

- DateTimeHelpers.Parse: uses the corrected `AddDecades` and `AddCenturies`, whose year count is an unbounded product. As written, the source wraps `(int)amount * 10` and `(int)amount * 100` in 32 bits. So `next-429496730-decades` is the range error in the model, where the source shifts by 4 years. The two agree on every fractional amount and on whole amounts within ±214748364 decades and ±21474836 centuries (see Findings).
- DateTimeHelpers.AddDecades: forms the year count as the unbounded product `Trunc(amount) * 10`, where the source wraps `(int)amount * 10` in 32 bits; the two agree on fractional amounts and within ±214748364 decades (`YearCountOverflow.DecadesAgreeUnlessWrapped`), and the wrapping version is `YearCountOverflow.AddDecadesAsWritten`.
- DateTimeHelpers.AddCenturies: forms the year count as the unbounded product `Trunc(amount) * 100`, where the source wraps `(int)amount * 100` in 32 bits; the two agree on fractional amounts and within ±21474836 centuries (`YearCountOverflow.CenturiesAgreeUnlessWrapped`), and the wrapping version is `YearCountOverflow.AddCenturiesAsWritten`.
- DateTimeHelpers.DecadesRule: states the shift by 10n years with the unbounded product; the source's wrapped product differs once 10n leaves the 32-bit range.
- DateTimeHelpers.CenturiesRule: states the shift by 100n years with the unbounded product; the source's wrapped product differs once 100n leaves the 32-bit range.
- DateTimeHelpers.ZeroAmountKeepsInstant: holds only for a calendar that keeps an instant under a zero-month shift (`ZeroMonthsKeepInstant`). The calendar's other rules stay unconstrained.
- `Source/Program.cs` and `Source/Options.cs` are not part of this model. They hold
  the command-line parsing, the extra fixed offsets added after `Parse` (which only
  call the helpers modelled here), the choice between the resolved mode and a
  requested one (`Auto`), the output formatting and the error exit code.
- The clock: each path through `Parse` reads `DateTime.Now` once, and the model takes
  that reading as the parameter `now`.
- `DateTime.TryParse` and `double.TryParse` follow the current culture. They are
  function fields of `Runtime`, and their formats are not specified.
- The calendar rules of `DateTime.AddMonths(int)` (month lengths, leap years) are the
  function field `addCalendarMonths`. Only its ±120000-month guard is modelled.
  `AddYears(int)` is modelled as 12 months per year after its ±10000-year guard.
- Floating point: amounts are exact reals. The rounding of double products such as
  `amount * 365.25 / 12` is not modelled.
- `NaN` and infinities, which `double.TryParse` accepts, are not modelled: the number
  parser returns only finite values.
- `Trunc`: an `(int)` cast of an amount beyond the 32-bit range gives an unspecified
  value in C#. The model truncates without a bound. Both lead to the range error,
  because such a count is far beyond the calendar's or DateTime's range.
- `Instants.RoundMillis`: fixed-length additions round to the millisecond, as
  `DateTime.Add(double, int)` does on .NET Framework. Newer runtimes keep the
  sub-millisecond ticks.
- Text.LowerChar: lower-cases only the ASCII letters A to Z and leaves every other character unchanged, where `ToLower` also maps other upper-case letters (accented Latin, Greek, Cyrillic and so on) by the current culture.
- `Text.Lower`: only ASCII letters are lower-cased. Culture-specific mappings are
  left out, such as the Turkish dotless i and the Kelvin sign becoming `k`.
- A null input string and DateTime's `Kind` (time zones) are not modelled.
