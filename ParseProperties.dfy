/** What `Parse` promises, stage by stage: blank input, absolute date/times,
    keywords, and the `direction[-magnitude]-unit` relative grammar. */
module ParseProperties {
  import opened Results
  import opened Text
  import opened Instants
  import opened DateTimeHelpers

  /** The outcome of carrying out `shift` from `now`, displayed in the mode of `u`. */
  function Outcome(now: Instant, u: Unit, shift: Shift, rt: Runtime): Result<Resolved> {
    match Perform(now, shift, rt)
    case Ok(t) => Ok(Resolved(t, ModeOf(u)))
    case Err(e) => Err(e)
  }

  /** The same offset in the opposite direction; errors stay as they are. */
  function Reversed(r: Result<Offset>): Result<Offset> {
    match r
    case Ok(Offset(u, a)) => Ok(Offset(u, -a))
    case Err(e) => Err(e)
  }

  /** Once the absolute parser accepts a non-blank expression, its instant is the
      answer; the answer is a date exactly when that instant falls on midnight. */
  lemma AbsoluteWins(s: string, now: Instant, rt: Runtime, t: Instant)
    requires !IsBlank(s) && rt.tryParseDateTime(s) == Some(t)
    ensures Parse(s, now, rt).Ok? && Parse(s, now, rt).value.instant == t
    ensures Parse(s, now, rt).value.mode == Date <==> TimeOfDay(t) == 0
    ensures Parse(s, now, rt).value.mode == Time <==> TimeOfDay(t) != 0
  {
  }

  /** A non-absolute expression whose lower-case form is a keyword resolves as that
      keyword. */
  lemma {:induction false} KeywordParse(s: string, now: Instant, rt: Runtime)
    requires rt.tryParseDateTime(s) == None && Keyword(Lower(s), now).Some?
    ensures Parse(s, now, rt) == Keyword(Lower(s), now).value
  {
    KeywordsAreNotBlank(Lower(s), now);
    LowerKeepsBlank(s);
  }

  /** The keywords, in any letter case: now and today keep the instant (as a time and
      as a date); tomorrow and yesterday move it one day either way, as dates, unless
      that leaves the representable range. */
  lemma {:induction false} Keywords(s: string, now: Instant, rt: Runtime)
    requires rt.tryParseDateTime(s) == None
    ensures Lower(s) == "now" ==> Parse(s, now, rt) == Ok(Resolved(now, Time))
    ensures Lower(s) == "today" ==> Parse(s, now, rt) == Ok(Resolved(now, Date))
    ensures Lower(s) == "tomorrow" ==>
      (Parse(s, now, rt) ==
         if now + TicksPerDay <= MaxTicks then Ok(Resolved(now + TicksPerDay, Date)) else Err(OutOfRange))
    ensures Lower(s) == "yesterday" ==>
      (Parse(s, now, rt) ==
         if TicksPerDay <= now then Ok(Resolved(now - TicksPerDay, Date)) else Err(OutOfRange))
  {
    var key := Lower(s);
    if key == "now" || key == "today" || key == "tomorrow" || key == "yesterday" {
      KeywordParse(s, now, rt);
      AddWholeDays(now, 1);
      AddWholeDays(now, -1);
    }
  }

  /** The three direction words, in lower case. */
  lemma DirectionWords()
    ensures Factor("next") == Some(1.0)
    ensures Factor("previous") == Some(-1.0)
    ensures Factor("last") == Some(-1.0)
  {
    LowerFixesLowerCase("next");
    LowerFixesLowerCase("previous");
    LowerFixesLowerCase("last");
  }

  /** A relative expression with other than two or three pieces, or whose first
      piece is no direction, is unrecognizable. */
  lemma ShapeErrors(s: string, rt: Runtime)
    ensures |Split(s, '-')| != 2 && |Split(s, '-')| != 3 ==> ParseOffset(s, rt) == Err(Unrecognizable)
    ensures Factor(Split(s, '-')[0]).None? ==> ParseOffset(s, rt) == Err(Unrecognizable)
  {
  }

  /** `direction-unit`: the magnitude defaults to 1, so the amount is the direction's
      factor; an unknown direction or unit is unrecognizable. */
  lemma {:induction false} TwoPieceForm(d: string, w: string, rt: Runtime)
    requires '-' !in d && '-' !in w
    ensures ParseOffset(d + "-" + w, rt) ==
      if Factor(d).None? || UnitOf(w).None? then Err(Unrecognizable)
      else Ok(Offset(UnitOf(w).value, Factor(d).value))
  {
    SplitJoin([d, w], '-');
    assert Join([d, w], '-') == d + "-" + w;
  }

  /** `direction-magnitude-unit`: the direction is checked first, then the magnitude
      (a failed number parse names the offending piece), then the unit; the amount is
      the magnitude times the direction's factor. */
  lemma {:induction false} ThreePieceForm(d: string, x: string, w: string, rt: Runtime)
    requires '-' !in d && '-' !in x && '-' !in w
    ensures ParseOffset(d + "-" + x + "-" + w, rt) ==
      if Factor(d).None? then Err(Unrecognizable)
      else if rt.tryParseDouble(x).None? then Err(Unexpected(x))
      else if UnitOf(w).None? then Err(Unrecognizable)
      else Ok(Offset(UnitOf(w).value, rt.tryParseDouble(x).value * Factor(d).value))
  {
    var words := [d, x, w];
    calc {
      Join(words, '-');
      d + "-" + Join([x, w], '-');
      { assert Join([x, w], '-') == x + "-" + w; }
      d + "-" + (x + "-" + w);
      d + "-" + x + "-" + w;
    }
    SplitJoin(words, '-');
    assert ParseOffset(d + "-" + x + "-" + w, rt) == OffsetOf(words, rt);
    assert OffsetOf(words, rt) == Combine(Factor(d), Magnitude(words, rt), UnitOf(w));
  }

  /** Two split expressions that differ only in a direction of opposite factor
      parse to opposite offsets, or to the same error. */
  lemma OppositeDirections(d1: string, d2: string, words: seq<string>, rt: Runtime)
    requires Factor(d1).Some? && Factor(d2) == Some(-Factor(d1).value)
    ensures OffsetOf([d2] + words, rt) == Reversed(OffsetOf([d1] + words, rt))
  {
    var n, p := [d1] + words, [d2] + words;
    if |words| == 1 || |words| == 2 {
      assert n[0] == d1 && p[0] == d2 && n[1..] == p[1..] == words;
      assert Magnitude(p, rt) == Magnitude(n, rt);
      assert p[|p| - 1] == n[|n| - 1];
      CombineOpposite(Factor(d1).value, Magnitude(n, rt), UnitOf(n[|n| - 1]));
    }
  }

  /** An opposite factor gives the opposite amount of the same unit, or the same error. */
  lemma CombineOpposite(f: real, magnitude: Result<real>, unit: Option<Unit>)
    ensures Combine(Some(-f), magnitude, unit) == Reversed(Combine(Some(f), magnitude, unit))
  {
    match magnitude
    case Err(e) =>
    case Ok(m) =>
      assert m * -f == -(m * f);
      match unit
      case None =>
      case Some(u) =>
        var forward, backward := Combine(Some(f), magnitude, unit), Combine(Some(-f), magnitude, unit);
        assert forward.Ok? && forward.value.unit == u && forward.value.amount == m * f;
        assert backward.Ok? && backward.value.unit == u && backward.value.amount == m * -f;
  }

  /** A hyphen-free first word followed by a hyphen is split off as the first piece. */
  lemma {:induction false} SplitDirection(d: string, rest: string, rt: Runtime)
    requires '-' !in d
    ensures ParseOffset(d + "-" + rest, rt) == OffsetOf([d] + Split(rest, '-'), rt)
  {
    SplitAfterWord(d, '-', rest);
    assert d + "-" + rest == d + ['-'] + rest;
  }

  /** Two direction words of opposite factor, followed by the same rest, parse to
      opposite offsets or to the same error. */
  lemma {:induction false} OppositeWords(d1: string, d2: string, rest: string, rt: Runtime)
    requires '-' !in d1 && '-' !in d2
    requires Factor(d1).Some? && Factor(d2) == Some(-Factor(d1).value)
    ensures ParseOffset(d2 + "-" + rest, rt) == Reversed(ParseOffset(d1 + "-" + rest, rt))
  {
    SplitDirection(d1, rest, rt);
    SplitDirection(d2, rest, rt);
    OppositeDirections(d1, d2, Split(rest, '-'), rt);
  }

  /** Two direction words of equal factor, followed by the same rest, parse alike. */
  lemma {:induction false} SynonymWords(d1: string, d2: string, rest: string, rt: Runtime)
    requires '-' !in d1 && '-' !in d2
    requires Factor(d1) == Factor(d2)
    ensures ParseOffset(d2 + "-" + rest, rt) == ParseOffset(d1 + "-" + rest, rt)
  {
    SplitDirection(d1, rest, rt);
    SplitDirection(d2, rest, rt);
    var words := Split(rest, '-');
    var n, p := [d1] + words, [d2] + words;
    if |words| == 1 || |words| == 2 {
      assert n[1..] == p[1..] == words;
      assert Magnitude(p, rt) == Magnitude(n, rt);
      assert p[|p| - 1] == n[|n| - 1];
    }
  }

  /** An expression with a hyphen that the absolute parser rejects reaches the
      relative stage. */
  lemma {:induction false} ReachesRelative(s: string, now: Instant, rt: Runtime)
    requires rt.tryParseDateTime(s) == None && '-' in s
    ensures Parse(s, now, rt) == Relative(s, now, rt)
  {
    var i :| 0 <= i < |s| && s[i] == '-';
    assert !IsWhiteSpace(s[i]);
    LowerKeepsSeparator(s, '-');
    KeywordsHaveNoHyphen(Lower(s), now);
  }

  /** The relative stage fails as the offset fails, or carries out the offset's
      reference shift and displays it in the unit's mode. */
  lemma {:induction false} RelativeOutcome(s: string, now: Instant, rt: Runtime)
    ensures ParseOffset(s, rt).Err? ==> Relative(s, now, rt) == Err(ParseOffset(s, rt).error)
    ensures ParseOffset(s, rt).Ok? ==>
      Relative(s, now, rt) == Outcome(now, ParseOffset(s, rt).value.unit,
                                      ShiftOf(ParseOffset(s, rt).value.unit, ParseOffset(s, rt).value.amount), rt)
  {
    if ParseOffset(s, rt).Ok? {
      ApplyIsShift(now, ParseOffset(s, rt).value, rt);
    }
  }

  /** An expression with a hyphen that the absolute parser rejects is a relative
      expression: it fails as its offset fails, or it carries out the offset's
      reference shift and is displayed in the unit's mode. */
  lemma {:induction false} RelativeParse(s: string, now: Instant, rt: Runtime)
    requires rt.tryParseDateTime(s) == None && '-' in s
    ensures ParseOffset(s, rt).Err? ==> Parse(s, now, rt) == Err(ParseOffset(s, rt).error)
    ensures ParseOffset(s, rt).Ok? ==>
      Parse(s, now, rt) == Outcome(now, ParseOffset(s, rt).value.unit,
                                   ShiftOf(ParseOffset(s, rt).value.unit, ParseOffset(s, rt).value.amount), rt)
  {
    ReachesRelative(s, now, rt);
    RelativeOutcome(s, now, rt);
  }

  /** A parsed offset and its reversed copy: the same error, or the same unit with
      opposite shifts. */
  lemma {:induction false} ReversedResolves(parsed: Result<Offset>, now: Instant, rt: Runtime)
    ensures parsed.Err? ==> ResolveParsed(now, Reversed(parsed), rt) == ResolveParsed(now, parsed, rt)
    ensures parsed.Ok? ==>
      var shift := ShiftOf(parsed.value.unit, parsed.value.amount);
      && ResolveParsed(now, parsed, rt) == Outcome(now, parsed.value.unit, shift, rt)
      && ResolveParsed(now, Reversed(parsed), rt) == Outcome(now, parsed.value.unit, Negate(shift), rt)
  {
    match parsed
    case Err(e) =>
    case Ok(off) =>
      var back := Offset(off.unit, -off.amount);
      assert Reversed(parsed) == Ok(back);
      ApplyIsShift(now, off, rt);
      ApplyIsShift(now, back, rt);
      ShiftNegate(off.unit, off.amount);
  }

  /** Two expressions whose offsets are reversed copies of each other, such as
      `next-X-u` and `previous-X-u`, at the relative stage: the same error, or the
      same unit with opposite shifts. */
  lemma {:induction false} MirroredRelatives(s1: string, s2: string, now: Instant, rt: Runtime)
    requires ParseOffset(s2, rt) == Reversed(ParseOffset(s1, rt))
    ensures ParseOffset(s1, rt).Err? ==> Relative(s2, now, rt) == Relative(s1, now, rt)
    ensures ParseOffset(s1, rt).Ok? ==>
      var off := ParseOffset(s1, rt).value;
      var shift := ShiftOf(off.unit, off.amount);
      && Relative(s1, now, rt) == Outcome(now, off.unit, shift, rt)
      && Relative(s2, now, rt) == Outcome(now, off.unit, Negate(shift), rt)
  {
    ReversedResolves(ParseOffset(s1, rt), now, rt);
  }

  /** A shift and its negation, displayed in the same unit's mode, share the mode;
      tick moves land equally far on either side of the start. */
  lemma OutcomeMirror(now: Instant, u: Unit, s: Shift, rt: Runtime)
    ensures Outcome(now, u, s, rt).Ok? && Outcome(now, u, Negate(s), rt).Ok? ==>
      && Outcome(now, u, s, rt).value.mode == Outcome(now, u, Negate(s), rt).value.mode
      && (s.Ticks? ==>
            Outcome(now, u, s, rt).value.instant - now == now - Outcome(now, u, Negate(s), rt).value.instant)
  {
  }

  /** A single word that is neither blank, absolute nor a keyword (such as `purple`)
      is unrecognizable: it has no hyphen, so it splits into one piece. */
  lemma {:induction false} SingleWord(s: string, now: Instant, rt: Runtime)
    requires !IsBlank(s) && rt.tryParseDateTime(s) == None && '-' !in s
    requires Keyword(Lower(s), now).None?
    ensures Parse(s, now, rt) == Err(Unrecognizable)
  {
    SplitWithoutSeparator(s, '-');
    assert ParseOffset(s, rt) == OffsetOf([s], rt);
  }

  /** A well-formed `direction-magnitude-unit` expression resolves to the unit's
      reference shift by magnitude times factor, displayed in the unit's mode
      (e.g. `next-3-days` three days ahead as a date). */
  lemma {:induction false} ThreePieceResolves(d: string, x: string, w: string, now: Instant, rt: Runtime)
    requires '-' !in d && '-' !in x && '-' !in w
    requires rt.tryParseDateTime(d + "-" + x + "-" + w) == None
    requires Factor(d).Some? && rt.tryParseDouble(x).Some? && UnitOf(w).Some?
    ensures Parse(d + "-" + x + "-" + w, now, rt) ==
      Outcome(now, UnitOf(w).value, ShiftOf(UnitOf(w).value, rt.tryParseDouble(x).value * Factor(d).value), rt)
  {
    var s := d + "-" + x + "-" + w;
    ThreePieceForm(d, x, w, rt);
    assert s[|d|] == '-';
    RelativeParse(s, now, rt);
  }

  /** A well-formed `direction-unit` expression resolves to the unit's reference shift
      by one unit in the direction's sense (e.g. `last-hour` one hour back as a time). */
  lemma {:induction false} TwoPieceResolves(d: string, w: string, now: Instant, rt: Runtime)
    requires '-' !in d && '-' !in w
    requires rt.tryParseDateTime(d + "-" + w) == None
    requires Factor(d).Some? && UnitOf(w).Some?
    ensures Parse(d + "-" + w, now, rt) ==
      Outcome(now, UnitOf(w).value, ShiftOf(UnitOf(w).value, Factor(d).value), rt)
  {
    var s := d + "-" + w;
    TwoPieceForm(d, w, rt);
    assert s[|d|] == '-';
    RelativeParse(s, now, rt);
  }

  /** A year and a half is 547 days (547.875 truncated toward zero) either way. */
  lemma YearAndAHalfShift()
    ensures ShiftOf(Year, 1.5) == Ticks(547 * TicksPerDay)
    ensures ShiftOf(Year, -1.5) == Ticks(-547 * TicksPerDay)
  {
    FractionalCalendarDays(Year, 1.5);
    FractionalCalendarDays(Year, -1.5);
  }

  /** The outcome of a year and a half either way, as a date. */
  lemma YearAndAHalfOutcome(now: Instant, f: real, rt: Runtime)
    requires f == 1.0 || f == -1.0
    ensures f == 1.0 && now + 547 * TicksPerDay <= MaxTicks ==>
      Outcome(now, Year, ShiftOf(Year, 1.5 * f), rt) == Ok(Resolved(now + 547 * TicksPerDay, Date))
    ensures f == -1.0 && 547 * TicksPerDay <= now ==>
      Outcome(now, Year, ShiftOf(Year, 1.5 * f), rt) == Ok(Resolved(now - 547 * TicksPerDay, Date))
  {
    YearAndAHalfShift();
    if f == 1.0 {
      assert 1.5 * f == 1.5;
    } else {
      assert 1.5 * f == -1.5;
    }
  }

  /** A fractional number of years moves by whole days only: with magnitude 1.5, a
      forward direction (`next`) goes 547 days ahead and a backward one (`previous`,
      `last`) 547 days back, both displayed as dates. */
  lemma {:induction false} YearAndAHalf(d: string, x: string, w: string, now: Instant, rt: Runtime)
    requires '-' !in d && '-' !in x && '-' !in w
    requires Factor(d).Some? && rt.tryParseDouble(x) == Some(1.5) && UnitOf(w) == Some(Year)
    requires rt.tryParseDateTime(d + "-" + x + "-" + w) == None
    ensures Factor(d) == Some(1.0) && now + 547 * TicksPerDay <= MaxTicks ==>
      Parse(d + "-" + x + "-" + w, now, rt) == Ok(Resolved(now + 547 * TicksPerDay, Date))
    ensures Factor(d) == Some(-1.0) && 547 * TicksPerDay <= now ==>
      Parse(d + "-" + x + "-" + w, now, rt) == Ok(Resolved(now - 547 * TicksPerDay, Date))
  {
    ThreePieceResolves(d, x, w, now, rt);
    FactorIsSign(d);
    YearAndAHalfOutcome(now, Factor(d).value, rt);
  }
}
