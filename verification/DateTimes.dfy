/** DateTime: calendar dates with setters, and the carrying arithmetic over them. */
module DateTimes {
  import opened Arithmetic
  import opened Calendar
  import opened Duration
  import opened Words

  /** A call that may throw InvalidDateTimeException. */
  datatype Outcome<+T> = Returned(value: T) | InvalidDateTime
  {
    predicate IsFailure() {
      InvalidDateTime?
    }

    function PropagateFailure<U>(): Outcome<U>
      requires InvalidDateTime?
    {
      InvalidDateTime
    }

    function Extract(): T
      requires Returned?
    {
      value
    }
  }

  /** What one wrap-around of an unsigned day counter takes away. */
  const WRAP := U32_SPAN * MS_PER_DAY

  /** The call returned a valid date that stands for `instant`. */
  ghost predicate LandsAt(r: Outcome<DateTime>, instant: int)
    reads if r.Returned? then {r.value} else {}
  {
    r.Returned? && r.value.Valid() && r.value.Instant() == instant
  }

  /** The call gave a date of that instant, or threw where there is none. */
  ghost predicate Gives(r: Outcome<DateTime>, instant: Option<nat>)
    reads if r.Returned? then {r.value} else {}
  {
    if instant.Some? then LandsAt(r, instant.value) else r.InvalidDateTime?
  }

  /** Where a move on the cycle of the unsigned years ends, unless that is in year 0. */
  function Moved(instant: int): Option<nat> {
    if OnCalendar(instant) then Some(Around(instant)) else None
  }

  /** The days that addDays moves by: its day counter is an unsigned int. */
  function CountedDays(dayOfYear: nat, days: nat): int {
    if dayOfYear + days < U32_SPAN then days else days - U32_SPAN
  }

  function ClockMillis(hours: nat, minutes: nat, seconds: nat, milliseconds: nat): nat {
    hours * MS_PER_HOUR + minutes * MS_PER_MINUTE + seconds * MS_PER_SECOND + milliseconds
  }

  /** `add` from `instant` is exact up to the last unsigned year, unless its day counter wraps. */
  ghost predicate AddFits(instant: nat, days: nat, time: nat) {
    && instant + time + days * MS_PER_DAY < END_INSTANT
    && DayOfYearAt(instant + time) + days < U32_SPAN
  }

  /** Milliseconds, seconds, minutes and hours, moved by one after the other, never stop in year 0. */
  predicate ClockFits(instant: int, hours: int, minutes: int, seconds: int, milliseconds: int) {
    && OnCalendar(instant + milliseconds)
    && OnCalendar(instant + milliseconds + seconds * MS_PER_SECOND)
    && OnCalendar(instant + milliseconds + seconds * MS_PER_SECOND + minutes * MS_PER_MINUTE)
    && OnCalendar(instant + milliseconds + seconds * MS_PER_SECOND + minutes * MS_PER_MINUTE + hours * MS_PER_HOUR)
  }

  /** Where `add` ends: the clock part first, then days as far as the day counter holds them. */
  function Added(instant: int, s: Span): Option<nat> {
    var later := instant + Clock(s);
    var dayOfYear := DayOfYearAt(Around(later));
    if ClockFits(instant, s.hours, s.minutes, s.seconds, s.milliseconds) && dayOfYear + s.days != U32_SPAN
    then Moved(later + CountedDays(dayOfYear, s.days) * MS_PER_DAY)
    else None
  }

  /** Where `subtract` ends. */
  function Subtracted(instant: int, s: Span): Option<nat> {
    if ClockFits(instant, -(s.hours as int), -(s.minutes as int), -(s.seconds as int), -(s.milliseconds as int))
    then Moved(instant - Clock(s) - s.days * MS_PER_DAY)
    else None
  }

  /** Where a signed duration leads. */
  function Shifted(instant: int, s: Span): Option<nat> {
    if s.negative then Subtracted(instant, s) else Added(instant, s)
  }

  /** No step of the way there and back stops in year 0, and the day counter of `add` does not wrap. */
  predicate WayAndBackFit(instant: int, s: Span) {
    var h: int, m: int, sec: int, ms: int := s.hours, s.minutes, s.seconds, s.milliseconds;
    if s.negative then
      && ClockFits(instant, -h, -m, -sec, -ms) && OnCalendar(instant - s.Millis())
      && ClockFits(instant - s.Millis(), h, m, sec, ms)
      && DayOfYearAt(Around(instant - s.days * MS_PER_DAY)) + s.days < U32_SPAN
    else
      && ClockFits(instant, h, m, sec, ms) && OnCalendar(instant + s.Millis())
      && ClockFits(instant + s.Millis(), -h, -m, -sec, -ms)
      && DayOfYearAt(Around(instant + Clock(s))) + s.days < U32_SPAN
  }

  /** The part of a duration that its day counter does not hold. */
  function Clock(s: Span): nat {
    ClockMillis(s.hours, s.minutes, s.seconds, s.milliseconds)
  }

  /** Full days between two dates. */
  function WholeDays(late: Stamp, early: Stamp): (days: nat)
    requires late.Valid() && early.Valid() && early.Instant() <= late.Instant()
    ensures days <= late.Ordinal() && days <= late.Ordinal() - early.Ordinal()
  {
    InstantBounds(late);
    InstantBounds(early);
    (late.Instant() - early.Instant()) / MS_PER_DAY
  }

  /** The date at which timeBetween stops counting days back from `late`: (year, day of the year). */
  function StopDate(late: Stamp, early: Stamp): (nat, nat)
    requires late.Valid() && early.Valid() && early.Instant() <= late.Instant()
  {
    Walk(1, late.Ordinal() - WholeDays(late, early) + 1)
  }

  /** True days less those timeBetween counts, which starts the last year at this date's day of the year: -1 to 365. */
  function Shortfall(late: Stamp, early: Stamp): int
    requires late.Valid() && early.Valid() && early.Instant() <= late.Instant()
  {
    var stop := StopDate(late, early);
    if stop.0 == late.year then 0 else DaysInYear(stop.0) - Max(late.DayOfYear(), stop.1)
  }

  /** What timeBetween makes of two dates in order: the exact clock part, and days with the shortfall. */
  predicate Measures(dur: Span, late: Stamp, early: Stamp)
    requires late.Valid() && early.Valid() && early.Instant() <= late.Instant()
  {
    && dur.days == Wrap32(WholeDays(late, early) - Shortfall(late, early))
    && Clock(dur) == (late.Instant() - early.Instant()) % MS_PER_DAY
  }

  /** The instant the day count stops at: `early`, or a day later when its time of day is the later one. */
  function StopInstant(late: Stamp, early: Stamp): nat
    requires early.Valid()
  {
    early.Instant() + if early.TimeOfDay() > late.TimeOfDay() then MS_PER_DAY else 0
  }

  lemma {:induction false} ClockDifference(late: Stamp, early: Stamp)
    requires late.Valid() && early.Valid() && early.Instant() < late.Instant()
    ensures
      var gap := late.TimeOfDay() - early.TimeOfDay();
      var days := late.Ordinal() - early.Ordinal();
      && WholeDays(late, early) == (if gap < 0 then days - 1 else days)
      && (late.Instant() - early.Instant()) % MS_PER_DAY == if gap < 0 then gap + MS_PER_DAY else gap
  {
    InstantBounds(late);
    InstantBounds(early);
    var gap := late.TimeOfDay() - early.TimeOfDay();
    var days := late.Ordinal() - early.Ordinal();
    if gap < 0 {
      ModuloIsRemainder(late.Instant() - early.Instant(), days - 1, MS_PER_DAY, gap + MS_PER_DAY);
    } else {
      ModuloIsRemainder(late.Instant() - early.Instant(), days, MS_PER_DAY, gap);
    }
  }

  lemma {:induction false} StopIsInReach(late: Stamp, early: Stamp)
    requires late.Valid() && early.Valid() && early.Instant() < late.Instant()
    ensures early.TimeOfDay() > late.TimeOfDay() ==> AddFits(early.Instant(), 1, 0)
    ensures StopInstant(late, early) / MS_PER_DAY == late.Ordinal() - WholeDays(late, early)
  {
    ClockDifference(late, early);
    InstantBounds(early);
    InstantBounds(late);
    var later := early.TimeOfDay() > late.TimeOfDay();
    ModuloIsRemainder(StopInstant(late, early), early.Ordinal() + if later then 1 else 0, MS_PER_DAY, early.TimeOfDay());
    if later {
      WalkFindsDate(early);
      assert early.Ordinal() < late.Ordinal();
    }
  }

  /** What the two counting loops of timeBetween make of a stop date. */
  function DaysCounted(late: Stamp, stopYear: nat, stopDay: nat): int
    requires late.Valid()
  {
    Max(0, late.DayOfYear() - stopDay)
    + if stopYear == late.year then 0
      else late.DayOfYear() + DaysBeforeYear(late.year) - DaysBeforeYear(stopYear + 1)
  }

  /** The loops are short by what the stop year still has after the later of the two days of the year. */
  lemma {:induction false} CountIsShortOfDays(late: Stamp, stop: Stamp)
    requires late.Valid() && stop.Valid() && stop.Ordinal() <= late.Ordinal()
    ensures stop.year <= late.year
    ensures DaysCounted(late, stop.year, stop.DayOfYear())
            == late.Ordinal() - stop.Ordinal()
               - if stop.year == late.year then 0
                 else DaysInYear(stop.year) - Max(late.DayOfYear(), stop.DayOfYear())
  {
    InstantBounds(late);
    InstantBounds(stop);
    if late.year < stop.year {
      YearsInOrder(late.year, stop.year);
    }
  }

  /** What the loops would count if the last year started from its length, as the loop over the years suggests. */
  function DaysRepaired(late: Stamp, stopYear: nat, stopDay: nat): int
    requires late.Valid()
  {
    if stopYear == late.year then Max(0, late.DayOfYear() - stopDay)
    else DaysInYear(stopYear) - stopDay + late.DayOfYear() + DaysBeforeYear(late.year) - DaysBeforeYear(stopYear + 1)
  }

  /** With that repair the count is exact for all dates; without it, exactly when nothing falls short. */
  lemma {:induction false} RepairIsExact(late: Stamp, stop: Stamp)
    requires late.Valid() && stop.Valid() && stop.Ordinal() <= late.Ordinal()
    ensures DaysRepaired(late, stop.year, stop.DayOfYear()) == late.Ordinal() - stop.Ordinal()
    ensures DaysCounted(late, stop.year, stop.DayOfYear()) == DaysRepaired(late, stop.year, stop.DayOfYear()) <==>
            stop.year == late.year || Max(late.DayOfYear(), stop.DayOfYear()) == DaysInYear(stop.year)
  {
    CountIsShortOfDays(late, stop);
  }

  lemma {:induction false} CountIsShort(late: Stamp, early: Stamp, stop: Stamp)
    requires late.Valid() && early.Valid() && stop.Valid() && early.Instant() < late.Instant()
    requires stop.Instant() == StopInstant(late, early)
    ensures stop.year <= late.year && StopDate(late, early) == (stop.year, stop.DayOfYear())
    ensures DaysCounted(late, stop.year, stop.DayOfYear()) == WholeDays(late, early) - Shortfall(late, early)
  {
    assert stop.Ordinal() == late.Ordinal() - WholeDays(late, early) by {
      StopIsInReach(late, early);
      InstantBounds(stop);
    }
    assert StopDate(late, early) == (stop.year, stop.DayOfYear()) by {
      InstantBounds(stop);
      WalkFindsDate(stop);
    }
    CountIsShortOfDays(late, stop);
  }

  lemma {:induction false} RepairCountsAll(late: Stamp, early: Stamp, stop: Stamp)
    requires late.Valid() && early.Valid() && stop.Valid() && early.Instant() < late.Instant()
    requires stop.Instant() == StopInstant(late, early)
    ensures 1 <= stop.year <= late.year && stop.DayOfYear() <= DaysInYear(stop.year)
    ensures DaysRepaired(late, stop.year, stop.DayOfYear()) == WholeDays(late, early)
  {
    StopIsInReach(late, early);
    InstantBounds(stop);
    CountIsShort(late, early, stop);
    RepairIsExact(late, stop);
  }

  /** Days that do not wrap and an exact clock part are the whole difference. */
  lemma {:induction false} RepairedIsExact(dur: Span, late: Stamp, early: Stamp)
    requires late.Valid() && early.Valid() && early.Instant() <= late.Instant()
    requires dur.days == Wrap32(WholeDays(late, early)) && Clock(dur) == (late.Instant() - early.Instant()) % MS_PER_DAY
    ensures dur.Millis() == late.Instant() - early.Instant() <==> WholeDays(late, early) < U32_SPAN
    ensures
      var fits := AddFits(early.Instant(), WholeDays(late, early), (late.Instant() - early.Instant()) % MS_PER_DAY);
      && (fits ==> WholeDays(late, early) < U32_SPAN)
      && (WholeDays(late, early) < U32_SPAN ==> (fits <==> AddFits(early.Instant(), dur.days, Clock(dur))))
  {
    var days := WholeDays(late, early);
    DayOfYearIsReached(early.Instant() + Clock(dur));
    assert late.Instant() - early.Instant() == days * MS_PER_DAY + Clock(dur);
    if days < U32_SPAN {
      ModuloIsRemainder(days, 0, U32_SPAN, days);
    }
  }

  /** The loops' count and the split clock part together are the measure of the difference. */
  lemma {:induction false} CountMeasures(dur: Span, late: Stamp, early: Stamp, stop: Stamp)
    requires late.Valid() && early.Valid() && stop.Valid() && early.Instant() < late.Instant()
    requires stop.Instant() == StopInstant(late, early)
    requires dur.days == Wrap32(DaysCounted(late, stop.year, stop.DayOfYear()))
    requires Clock(dur) == (late.Instant() - early.Instant()) % MS_PER_DAY
    ensures Measures(dur, late, early)
  {
    CountIsShort(late, early, stop);
  }

  lemma {:induction false} SameDateMeasuresZero(s: Stamp)
    requires s.Valid()
    ensures Measures(Span(0, 0, 0, 0, 0, false), s, s)
  {
    InstantBounds(s);
    WalkFindsDate(s);
  }

  /** Exactly when adding timeBetween's answer back to `b` gives `a`. */
  ghost predicate Recoverable(a: Stamp, b: Stamp)
    requires a.Valid() && b.Valid()
  {
    if b.Instant() <= a.Instant() then
      Shortfall(a, b) == 0 && AddFits(b.Instant(), WholeDays(a, b), (a.Instant() - b.Instant()) % MS_PER_DAY)
    else
      Shortfall(b, a) == 0 && WholeDays(b, a) < U32_SPAN
  }

  /** The measure is the true difference exactly when nothing falls short and the day counter does not wrap. */
  lemma {:induction false} MeasureIsExact(dur: Span, late: Stamp, early: Stamp)
    requires late.Valid() && early.Valid() && early.Instant() <= late.Instant()
    requires Measures(dur, late, early)
    ensures dur.Millis() == dur.days * MS_PER_DAY + (late.Instant() - early.Instant()) % MS_PER_DAY
    ensures dur.Millis() == late.Instant() - early.Instant() <==> dur.days == WholeDays(late, early)
    ensures dur.days == WholeDays(late, early) <==> Shortfall(late, early) == 0 && WholeDays(late, early) < U32_SPAN
  {
    var days, short := WholeDays(late, early), Shortfall(late, early);
    var diff := late.Instant() - early.Instant();
    assert diff == days * MS_PER_DAY + diff % MS_PER_DAY;
    assert -1 <= short <= 365 by { InstantBounds(late); }
    if dur.days == days {
      SmallMultiple((days - short) / U32_SPAN, U32_SPAN, -short);
    } else if short == 0 && days < U32_SPAN {
      ModuloIsRemainder(days, 0, U32_SPAN, days);
    }
  }

  /** New Year's Day of year 2 is 31 days after 1 December of year 1; timeBetween answers one day. */
  lemma {:induction false} TimeBetweenFallsShort()
    ensures
      var late, early := Stamp(2, 1, 1, 0, 0, 0, 0), Stamp(1, 12, 1, 0, 0, 0, 0);
      && late.Valid() && early.Valid() && early.Instant() <= late.Instant()
      && WholeDays(late, early) == 31 && Shortfall(late, early) == 30
      && !Recoverable(late, early)
  {
    var late, early := Stamp(2, 1, 1, 0, 0, 0, 0), Stamp(1, 12, 1, 0, 0, 0, 0);
    assert DaysBeforeMonth(1, 12) == 334 && DaysInYear(1) == 365 by { MonthTable(1); }
    assert early.Instant() == 334 * MS_PER_DAY && late.Instant() == 365 * MS_PER_DAY;
    assert WholeDays(late, early) == 31;
    assert StopDate(late, early) == (1, 335);
  }

  /** From the last day of a common year to the last day of a leap year are 366 days; timeBetween answers 367. */
  lemma {:induction false} TimeBetweenOvercounts()
    ensures
      var late, early := Stamp(4, 12, 31, 0, 0, 0, 0), Stamp(3, 12, 31, 0, 0, 0, 0);
      && late.Valid() && early.Valid() && early.Instant() <= late.Instant()
      && WholeDays(late, early) == 366 && Shortfall(late, early) == -1
      && !Recoverable(late, early)
  {
    var late, early := Stamp(4, 12, 31, 0, 0, 0, 0), Stamp(3, 12, 31, 0, 0, 0, 0);
    MonthTable(3);
    MonthTable(4);
    GregorianDayCount(3);
    GregorianDayCount(4);
    WalkFindsDate(early);
    assert early.Instant() == 1094 * MS_PER_DAY && late.Instant() == 1460 * MS_PER_DAY;
    assert WholeDays(late, early) == 366;
    assert StopDate(late, early) == (3, 365);
  }

  /** The count of timeBetween is never short by more than a year, and at most one day too long. */
  lemma {:induction false} ShortfallSign(late: Stamp, early: Stamp)
    requires late.Valid() && early.Valid() && early.Instant() <= late.Instant()
    ensures
      var stop := StopDate(late, early);
      && -1 <= Shortfall(late, early) <= 365
      && (Shortfall(late, early) == 0 <==> stop.0 == late.year || Max(late.DayOfYear(), stop.1) == DaysInYear(stop.0))
      && (Shortfall(late, early) == -1 <==> stop.0 != late.year && late.DayOfYear() == 366 && !IsLeapYear(stop.0))
  {
    InstantBounds(late);
  }

  /** Where a walk over the years ends, given how often the year (`laps`) and the day counter (`wraps`) wrapped. */
  lemma {:induction false} WalkForwardLands(start: Stamp, days: U32, year: U32, dayOfYear: nat, laps: nat, wraps: int)
    requires start.Valid() && 1 <= dayOfYear <= DaysInYear(year)
    requires wraps == days - CountedDays(start.DayOfYear(), days)
    requires FirstDay(year) + dayOfYear + laps * (END_DAYS + 366) + wraps
             == FirstDay(start.year) + start.DayOfYear() + days
    ensures
      var target := start.Instant() + CountedDays(start.DayOfYear(), days) * MS_PER_DAY;
      var instant := (FirstDay(year) + dayOfYear - 1) * MS_PER_DAY + start.TimeOfDay();
      (Moved(target).Some? <==> 1 <= year) && (1 <= year ==> Moved(target) == Some(instant as int))
  {
    InstantBounds(start);
    YearOnCycle(year, dayOfYear, start.TimeOfDay());
    AroundIs(start.Instant() + CountedDays(start.DayOfYear(), days) * MS_PER_DAY, laps,
             (FirstDay(year) + dayOfYear - 1) * MS_PER_DAY + start.TimeOfDay());
  }

  lemma {:induction false} WalkBackwardLands(start: Stamp, days: U32, year: U32, dayOfYear: nat, laps: nat)
    requires start.Valid() && 1 <= dayOfYear <= DaysInYear(year)
    requires FirstDay(year) + dayOfYear
             == FirstDay(start.year) + start.DayOfYear() - days + laps * (END_DAYS + 366)
    ensures
      var target := start.Instant() - days * MS_PER_DAY;
      var instant := (FirstDay(year) + dayOfYear - 1) * MS_PER_DAY + start.TimeOfDay();
      (Moved(target).Some? <==> 1 <= year) && (1 <= year ==> Moved(target) == Some(instant as int))
  {
    InstantBounds(start);
    YearOnCycle(year, dayOfYear, start.TimeOfDay());
    AroundIs(start.Instant() - days * MS_PER_DAY, -(laps as int),
             (FirstDay(year) + dayOfYear - 1) * MS_PER_DAY + start.TimeOfDay());
  }

  /** A day of the years 1 to 4294967295 stands on the calendar, and one of year 0 before it. */
  lemma {:induction false} YearOnCycle(year: U32, dayOfYear: nat, time: nat)
    requires 1 <= dayOfYear <= DaysInYear(year) && time < MS_PER_DAY
    ensures
      var instant := (FirstDay(year) + dayOfYear - 1) * MS_PER_DAY + time;
      END_INSTANT - CYCLE <= instant < END_INSTANT && (0 <= instant <==> 1 <= year)
  {
    if 1 <= year {
      EndOfYears(year);
    }
  }

  lemma {:induction false} StartsOnCalendar(s: Stamp)
    requires s.Valid()
    ensures 0 <= s.Instant() < END_INSTANT && Moved(s.Instant()) == Some(s.Instant())
  {
    InstantBounds(s);
    AroundLaps(s.Instant());
  }

  /** Setting a field after its carry moves round the cycle like the whole amount. */
  lemma {:induction false} FieldMoves(i: int, unit: nat, radix: nat, cur: nat, rest: nat, carry: int, next: nat, n: int)
    requires cur < radix && next < radix && rest < unit
    requires carry * radix + next - cur == n
    ensures 0 < unit * radix
    requires i % (unit * radix) == cur * unit + rest
    requires CYCLE % (unit * radix) == 0 && END_INSTANT % (unit * radix) == 0
    ensures
      var whole := Moved(i + carry * (unit * radix));
      && (whole.None? <==> Moved(i + n * unit).None?)
      && (whole.Some? ==> Moved(i + n * unit) == Some(whole.value + (next - cur) * unit))
  {
    CarryMoves(i, unit, radix, cur, rest, carry, next, n, CYCLE, END_INSTANT);
  }

  /** Moving by `all` leads where moving by `whole` and then stepping by `rest` leads, or nowhere like it. */
  predicate MoveSplits(instant: int, whole: int, rest: int, all: int) {
    && Moved(instant) == Some(instant as int)
    && (Moved(instant + whole).None? <==> Moved(instant + all).None?)
    && (Moved(instant + all).Some? ==> Moved(instant + all).value == Moved(instant + whole).value + rest)
  }

  lemma {:induction false} HoursMove(s: Stamp, carry: int, next: nat, n: int)
    requires s.Valid() && next < 24 && carry * 24 + next - s.hour == n
    ensures MoveSplits(s.Instant(), carry * MS_PER_DAY, (next - s.hour) * MS_PER_HOUR, n * MS_PER_HOUR)
  {
    hide Stamp.Instant, Moved;
    ClockFields(s);
    StartsOnCalendar(s);
    FieldMoves(s.Instant(), MS_PER_HOUR, 24, s.hour,
               s.minute * MS_PER_MINUTE + s.second * MS_PER_SECOND + s.millisecond, carry, next, n);
  }

  lemma {:induction false} MinutesMove(s: Stamp, carry: int, next: nat, n: int)
    requires s.Valid() && next < 60 && carry * 60 + next - s.minute == n
    ensures MoveSplits(s.Instant(), carry * MS_PER_HOUR, (next - s.minute) * MS_PER_MINUTE, n * MS_PER_MINUTE)
  {
    hide Stamp.Instant, Moved;
    ClockFields(s);
    StartsOnCalendar(s);
    FieldMoves(s.Instant(), MS_PER_MINUTE, 60, s.minute, s.second * MS_PER_SECOND + s.millisecond, carry, next, n);
  }

  lemma {:induction false} SecondsMove(s: Stamp, carry: int, next: nat, n: int)
    requires s.Valid() && next < 60 && carry * 60 + next - s.second == n
    ensures MoveSplits(s.Instant(), carry * MS_PER_MINUTE, (next - s.second) * MS_PER_SECOND, n * MS_PER_SECOND)
  {
    hide Stamp.Instant, Moved;
    ClockFields(s);
    StartsOnCalendar(s);
    FieldMoves(s.Instant(), MS_PER_SECOND, 60, s.second, s.millisecond, carry, next, n);
  }

  lemma {:induction false} MillisecondsMove(s: Stamp, carry: int, next: nat, n: int)
    requires s.Valid() && next < 1000 && carry * 1000 + next - s.millisecond == n
    ensures MoveSplits(s.Instant(), carry * MS_PER_SECOND, (next - s.millisecond), n)
  {
    hide Stamp.Instant, Moved;
    ClockFields(s);
    StartsOnCalendar(s);
    FieldMoves(s.Instant(), 1, 1000, s.millisecond, 0, carry, next, n);
  }

  /** Moving on from where a move stands is moving from the start by both. */
  lemma {:induction false} MovedOn(x: int, y: int)
    ensures Moved(x).Some? ==> Moved(Moved(x).value + y) == Moved(x + y)
  {
    AroundTwice(x, y);
  }

  /** Where milliseconds, seconds, minutes and hours lead, one after the other. */
  function ClockMoved(instant: int, hours: int, minutes: int, seconds: int, milliseconds: int): Option<nat> {
    if ClockFits(instant, hours, minutes, seconds, milliseconds)
    then Moved(instant + milliseconds + seconds * MS_PER_SECOND + minutes * MS_PER_MINUTE + hours * MS_PER_HOUR)
    else None
  }

  /** Each step of the clock part goes on from where the one before it stands on the cycle. */
  lemma {:induction false} ClockSteps(instant: int, hours: int, minutes: int, seconds: int, milliseconds: int)
    ensures
      var a := Moved(instant + milliseconds);
      var b := if a.Some? then Moved(a.value + seconds * MS_PER_SECOND) else None;
      var c := if b.Some? then Moved(b.value + minutes * MS_PER_MINUTE) else None;
      var d := if c.Some? then Moved(c.value + hours * MS_PER_HOUR) else None;
      ClockMoved(instant, hours, minutes, seconds, milliseconds) == d
  {
    hide Around;
    var a := instant + milliseconds;
    var b := a + seconds * MS_PER_SECOND;
    MovedOn(a, seconds * MS_PER_SECOND);
    MovedOn(b, minutes * MS_PER_MINUTE);
    MovedOn(b + minutes * MS_PER_MINUTE, hours * MS_PER_HOUR);
  }

  lemma {:induction false} GivesExactly(r: Outcome<DateTime>, o: Option<nat>, target: int)
    requires Gives(r, o)
    ensures LandsAt(r, target) <==> o == Some(target as int)
    ensures r.Returned? <==> o.Some?
    ensures r.Returned? ==> r.value.Valid() && r.value.Instant() == o.value
  {
  }

  /** After the clock part, days are counted from the day of the year it led to. */
  lemma {:induction false} AddedSteps(x: int, s: Span)
    ensures
      var clock := ClockMoved(x, s.hours, s.minutes, s.seconds, s.milliseconds);
      Added(x, s) == if clock.None? || DayOfYearAt(clock.value) + s.days == U32_SPAN then None
                     else Moved(clock.value + CountedDays(DayOfYearAt(clock.value), s.days) * MS_PER_DAY)
  {
    hide DayOfYearAt;
    var later := x + Clock(s);
    MovedOn(later, CountedDays(DayOfYearAt(Around(later)), s.days) * MS_PER_DAY);
  }

  lemma {:induction false} SubtractedSteps(x: int, s: Span)
    ensures
      var clock := ClockMoved(x, -(s.hours as int), -(s.minutes as int), -(s.seconds as int), -(s.milliseconds as int));
      Subtracted(x, s) == if clock.None? then None else Moved(clock.value - s.days * MS_PER_DAY)
  {
    MovedOn(x - Clock(s), -(s.days * MS_PER_DAY as int));
  }

  /** On the first lap and on the calendar a move is exact. */
  lemma {:induction false} MovedIsExact(x: int)
    ensures 0 <= x < END_INSTANT <==> Moved(x) == Some(x as int)
    ensures END_INSTANT <= x && Moved(x).Some? ==> Moved(x).value <= x - CYCLE
    ensures x < 0 && Moved(x).Some? ==> Moved(x).value >= x + CYCLE
  {
    AroundLaps(x);
  }

  lemma {:induction false} DayOfYearFound(s: Stamp)
    requires s.Valid()
    ensures DayOfYearAt(s.Instant()) == s.DayOfYear()
  {
    WalkFindsDate(s);
  }

  lemma {:induction false} DayOfYearIsReached(instant: nat)
    ensures 1 <= DayOfYearAt(instant) && (DayOfYearAt(instant) - 1) * MS_PER_DAY <= instant
  {
    WalkKeepsDay(1, instant / MS_PER_DAY + 1);
  }

  /** A clock part of one sign whose whole way stays on the calendar. */
  lemma {:induction false} StraightWay(x: int, hours: int, minutes: int, seconds: int, milliseconds: int)
    requires (0 <= hours && 0 <= minutes && 0 <= seconds && 0 <= milliseconds)
             || (hours <= 0 && minutes <= 0 && seconds <= 0 && milliseconds <= 0)
    requires 0 <= x < END_INSTANT
    requires 0 <= x + milliseconds + seconds * MS_PER_SECOND + minutes * MS_PER_MINUTE + hours * MS_PER_HOUR < END_INSTANT
    ensures ClockFits(x, hours, minutes, seconds, milliseconds)
  {
    var a := x + milliseconds;
    var b := a + seconds * MS_PER_SECOND;
    var c := b + minutes * MS_PER_MINUTE;
    hide Around;
    AroundLaps(a);
    AroundLaps(b);
    AroundLaps(c);
    AroundLaps(c + hours * MS_PER_HOUR);
  }

  /** `add` is exact up to the last unsigned year unless its day counter wraps; else it falls behind by a wrap. */
  lemma {:induction false} AddedIsExact(x: nat, s: Span)
    requires x < END_INSTANT
    ensures
      var target := x + Clock(s) + s.days * MS_PER_DAY;
      && (Added(x, s) == Some(target) <==> AddFits(x, s.days, Clock(s)))
      && (Added(x, s).Some? && !AddFits(x, s.days, Clock(s)) ==> Added(x, s).value <= target - WRAP)
  {
    var later := x + Clock(s);
    var dayOfYear := DayOfYearAt(Around(later));
    AroundLaps(later);
    DayOfYearIsReached(Around(later));
    MovedIsExact(later + CountedDays(dayOfYear, s.days) * MS_PER_DAY);
    if later < END_INSTANT {
      StraightWay(x, s.hours, s.minutes, s.seconds, s.milliseconds);
    }
  }

  /** `subtract` is exact unless the result would lie before year 1. */
  lemma {:induction false} SubtractedIsExact(x: nat, s: Span)
    requires x < END_INSTANT
    ensures
      var target := x - Clock(s) - s.days * MS_PER_DAY;
      && (Subtracted(x, s) == Some(target as int) <==> 0 <= target)
      && (Subtracted(x, s).Some? && target < 0 ==> Subtracted(x, s).value >= target + WRAP)
  {
    MovedIsExact(x - Clock(s) - s.days * MS_PER_DAY);
    if Clock(s) <= x {
      StraightWay(x, -(s.hours as int), -(s.minutes as int), -(s.seconds as int), -(s.milliseconds as int));
    }
  }

  /** The clock part fits from where a move stands exactly if it fits from where the move leads. */
  lemma {:induction false} ClockFitsFrom(x: int, hours: int, minutes: int, seconds: int, milliseconds: int)
    ensures Moved(x).Some? ==>
              (ClockFits(Moved(x).value, hours, minutes, seconds, milliseconds)
               <==> ClockFits(x, hours, minutes, seconds, milliseconds))
  {
    hide Around;
    var a := milliseconds;
    var b := a + seconds * MS_PER_SECOND;
    var c := b + minutes * MS_PER_MINUTE;
    AroundTwice(x, a);
    AroundTwice(x, b);
    AroundTwice(x, c);
    AroundTwice(x, c + hours * MS_PER_HOUR);
  }

  /** One wrap-around of the day counter is no whole number of laps. */
  lemma {:induction false} WrapIsNoLap(x: nat)
    requires x < END_INSTANT
    ensures Moved(x - WRAP) != Some(x) && Moved(x) == Some(x)
  {
    MovedIsExact(x);
    AroundLaps(x - WRAP);
  }

  lemma {:induction false} AddedAndBack(x: nat, s: Span)
    requires x < END_INSTANT && !s.negative
    ensures Added(x, s).Some? && Subtracted(Added(x, s).value, s) == Some(x) <==> WayAndBackFit(x, s)
  {
    hide Around, DayOfYearAt, OnCalendar, ClockFits;
    var dayOfYear := DayOfYearAt(Around(x + Clock(s)));
    var there := x + Clock(s) + CountedDays(dayOfYear, s.days) * MS_PER_DAY;
    ClockFitsFrom(there, -(s.hours as int), -(s.minutes as int), -(s.seconds as int), -(s.milliseconds as int));
    MovedOn(there, -(s.Millis() as int));
    WrapIsNoLap(x);
  }

  lemma {:induction false} SubtractedAndBack(x: nat, s: Span)
    requires x < END_INSTANT && s.negative
    ensures Subtracted(x, s).Some? && Added(Subtracted(x, s).value, s) == Some(x) <==> WayAndBackFit(x, s)
  {
    hide Around, DayOfYearAt, OnCalendar, ClockFits;
    var there := x - s.Millis();
    ClockFitsFrom(there, s.hours, s.minutes, s.seconds, s.milliseconds);
    AroundTwice(there, Clock(s));
    var dayOfYear := DayOfYearAt(Around(there + Clock(s)));
    MovedOn(there, Clock(s) + CountedDays(dayOfYear, s.days) * MS_PER_DAY);
    WrapIsNoLap(x);
  }

  lemma {:induction false} SignIsApart(x: int, s: Span)
    ensures Added(x, s.(negative := !s.negative)) == Added(x, s)
    ensures Subtracted(x, s.(negative := !s.negative)) == Subtracted(x, s)
  {
  }

  lemma {:induction false} LandsOnce(r: Outcome<DateTime>, x: int, y: int)
    ensures LandsAt(r, x) && LandsAt(r, y) ==> x == y
    ensures LandsAt(r, x) ==> r.Returned? && r.value.Valid() && r.value.Instant() == x
  {
  }

  class DateTime {
    var year: U32
    var month: U32
    var day: U32
    var hour: U32
    var minute: U32
    var second: U32
    var millisecond: U32

    function Value(): Stamp
      reads this
    {
      Stamp(year, month, day, hour, minute, second, millisecond)
    }

    ghost predicate Valid()
      reads this
    {
      Value().Valid()
    }

    ghost function Instant(): nat
      reads this
      requires Valid()
    {
      Value().Instant()
    }

    /** The default: 1970-01-01 00:00:00.000. */
    constructor ()
      ensures Value() == Stamp(1970, 1, 1, 0, 0, 0, 0)
    {
      year, month, day, hour, minute, second, millisecond := 1970, 1, 1, 0, 0, 0, 0;
    }

    constructor Copy(dt: DateTime)
      ensures Value() == dt.Value()
    {
      year, month, day := dt.year, dt.month, dt.day;
      hour, minute, second, millisecond := dt.hour, dt.minute, dt.second, dt.millisecond;
    }

    static method GetDayOfYear(year: U32, month: U32, day: U32) returns (dayOfYear: nat)
      requires month <= 13
      ensures dayOfYear == ((if month == 0 then 0 else DaysBeforeMonth(year, month)) + day) % 0x1_0000
    {
      var total: nat := 0;
      var m := 1;
      while m < month
        invariant 1 <= m && (m <= month || (month == 0 && m == 1)) && total == DaysBeforeMonth(year, m)
      {
        total := total + DaysInMonth(year, m);
        m := m + 1;
      }
      dayOfYear := Wrap32(total + day) % 0x1_0000;
      TruncateTwice(total + day);
    }

    /** The inverse of GetDayOfYear: it throws exactly outside the days of the year. */
    static method GetReverseDayOfYear(year: U32, dayOfYear: U32) returns (r: Outcome<DateTime>)
      ensures r.Returned? <==> 1 <= year && 1 <= dayOfYear <= DaysInYear(year)
      ensures r.Returned? ==>
                && fresh(r.value) && r.value.Valid() && r.value.year == year
                && r.value.Value().DayOfYear() == dayOfYear
    {
      MonthTable(year);
      var left := dayOfYear;
      var month := 1;
      while month < 12
        invariant 1 <= month <= 12 && 0 <= left
        invariant DaysBeforeMonth(year, month) + left == dayOfYear
        invariant 1 < month ==> 1 <= left
      {
        var numDays := DaysInMonth(year, month);
        if numDays >= left {
          break;
        }
        left := left - numDays;
        month := month + 1;
      }
      var dt := new DateTime();
      var ok := dt.SetDateTime(year, month, left, 0, 0, 0, 0);
      MonthsInOrder(year, month, 13);
      r := if ok then Returned(dt) else InvalidDateTime;
    }

    /** GetReverseDayOfYear undoes GetDayOfYear on every valid date. */
    static method ReverseOfDayOfYear(year: U32, month: U32, day: U32) returns (dt: DateTime)
      requires ValidDate(year, month, day)
      ensures dt.Value() == Stamp(year, month, day, dt.hour, dt.minute, dt.second, dt.millisecond)
    {
      DayOfYearInOrder(year, month, day, month, day);
      var dayOfYear := GetDayOfYear(year, month, day);
      var r := GetReverseDayOfYear(year, dayOfYear);
      dt := r.value;
      DayOfYearInOrder(year, month, day, dt.month, dt.day);
      DayOfYearInOrder(year, dt.month, dt.day, month, day);
    }

    method DayOfYear() returns (n: U32)
      requires Valid()
      ensures n == Value().DayOfYear()
    {
      InstantBounds(Value());
      n := GetDayOfYear(year, month, day);
    }

    method SetDateTime(year: U32, month: U32, day: U32, hour: U32, minute: U32, second: U32, millisecond: U32)
      returns (ok: bool)
      modifies this
      ensures ok <==> Stamp(year, month, day, hour, minute, second, millisecond).Valid()
      ensures Value() == if ok then Stamp(year, month, day, hour, minute, second, millisecond) else old(Value())
    {
      if !ValidDate(year, month, day) || hour >= 24 || minute >= 60 || second >= 60 || millisecond >= 1000 {
        return false;
      }
      this.year, this.month, this.day := year, month, day;
      this.hour, this.minute, this.second, this.millisecond := hour, minute, second, millisecond;
      return true;
    }

    /** A day that the new year does not have falls back to the first of January. */
    method SetYear(year: U32) returns (ok: bool)
      requires Valid()
      modifies this
      ensures Valid() && (ok <==> year != 0)
      ensures Value() ==
              if !ok then old(Value())
              else if ValidDate(year, old(month), old(day)) then old(Value()).(year := year)
              else old(Value()).(year := year, month := 1, day := 1)
    {
      if year == 0 {
        return false;
      }
      this.year := year;
      if !ValidDate(year, month, day) {
        month := 1;
        day := 1;
      }
      return true;
    }

    method SetMonth(month: U32) returns (ok: bool)
      requires Valid()
      modifies this
      ensures Valid() && (ok <==> 1 <= month <= 12)
      ensures Value() ==
              if !ok then old(Value())
              else if old(day) <= DaysInMonth(old(year), month) then old(Value()).(month := month)
              else old(Value()).(month := month, day := 1)
    {
      if month == 0 || month > 12 {
        return false;
      }
      this.month := month;
      if day > DaysInMonth(year, month) {
        day := 1;
      }
      return true;
    }

    method SetDay(day: U32) returns (ok: bool)
      requires Valid()
      modifies this
      ensures Valid() && (ok <==> 1 <= day <= DaysInMonth(old(year), old(month)))
      ensures Value() == if ok then old(Value()).(day := day) else old(Value())
    {
      if day == 0 || day > DaysInMonth(year, month) {
        return false;
      }
      this.day := day;
      return true;
    }

    /** Despite the day that SetMonth may reset on the way, the date reached is the asked day of the year. */
    method SetDayOfYear(dayOfYear: U32) returns (ok: bool)
      requires Valid()
      modifies this
      ensures Valid() && (ok <==> 1 <= dayOfYear <= DaysInYear(old(year)))
      ensures ok ==> Value() == old(Value()).(month := month, day := day) && Value().DayOfYear() == dayOfYear
      ensures !ok ==> Value() == old(Value())
    {
      var newDate := GetReverseDayOfYear(year, dayOfYear);
      if newDate.InvalidDateTime? {
        return false;
      }
      ok := SetMonth(newDate.value.month);
      ok := SetDay(newDate.value.day);
    }

    method SetHour(hour: U32) returns (ok: bool)
      requires Valid()
      modifies this
      ensures Valid() && (ok <==> hour < 24)
      ensures Value() == if ok then old(Value()).(hour := hour) else old(Value())
      ensures ok ==> Instant() == old(Instant()) + (hour - old(this.hour)) * MS_PER_HOUR
    {
      if hour >= 24 {
        return false;
      }
      this.hour := hour;
      return true;
    }

    method SetMinute(minute: U32) returns (ok: bool)
      requires Valid()
      modifies this
      ensures Valid() && (ok <==> minute < 60)
      ensures Value() == if ok then old(Value()).(minute := minute) else old(Value())
      ensures ok ==> Instant() == old(Instant()) + (minute - old(this.minute)) * MS_PER_MINUTE
    {
      if minute >= 60 {
        return false;
      }
      this.minute := minute;
      return true;
    }

    method SetSecond(second: U32) returns (ok: bool)
      requires Valid()
      modifies this
      ensures Valid() && (ok <==> second < 60)
      ensures Value() == if ok then old(Value()).(second := second) else old(Value())
      ensures ok ==> Instant() == old(Instant()) + (second - old(this.second)) * MS_PER_SECOND
    {
      if second >= 60 {
        return false;
      }
      this.second := second;
      return true;
    }

    method SetMillisecond(millisecond: U32) returns (ok: bool)
      requires Valid()
      modifies this
      ensures Valid() && (ok <==> millisecond < 1000)
      ensures Value() == if ok then old(Value()).(millisecond := millisecond) else old(Value())
      ensures ok ==> Instant() == old(Instant()) + (millisecond - old(this.millisecond))
    {
      if millisecond >= 1000 {
        return false;
      }
      this.millisecond := millisecond;
      return true;
    }

    ghost predicate SameTime(dt: DateTime)
      reads this, dt
    {
      && hour == dt.hour && minute == dt.minute
      && second == dt.second && millisecond == dt.millisecond
    }

    /** A copy of this date moved to a day of a year; AddDays and SubtractDays end this way. */
    method OnDay(year: U32, dayOfYear: U32) returns (r: Outcome<DateTime>)
      requires Valid()
      ensures r.Returned? <==> 1 <= year && 1 <= dayOfYear <= DaysInYear(year)
      ensures r.Returned? ==>
                && fresh(r.value) && r.value.Valid() && SameTime(r.value)
                && r.value.Instant() == (FirstDay(year) + dayOfYear - 1) * MS_PER_DAY + Value().TimeOfDay()
    {
      var tmp := new DateTime.Copy(this);
      var ok := tmp.SetYear(year);
      if !ok {
        return InvalidDateTime;
      }
      ok := tmp.SetDayOfYear(dayOfYear);
      if !ok {
        return InvalidDateTime;
      }
      return Returned(tmp);
    }

    /** The year loop of addDays; `laps` counts how often the unsigned year wrapped to 0. */
    static method WalkForward(year: U32, dayOfYear: U32) returns (year': U32, left: U32, ghost laps: nat)
      requires 1 <= year
      ensures left <= DaysInYear(year')
      ensures FirstDay(year') + left + laps * (END_DAYS + 366) == FirstDay(year) + dayOfYear
      ensures left == 0 <==> dayOfYear == 0
    {
      year', left, laps := year, dayOfYear, 0;
      var daysInYear := DaysInYear(year');
      while left > daysInYear
        invariant daysInYear == DaysInYear(year')
        invariant left == 0 <==> dayOfYear == 0
        invariant FirstDay(year') + left + laps * (END_DAYS + 366) == FirstDay(year) + dayOfYear
      {
        NextYear(year');
        laps := laps + if year' == U32_SPAN - 1 then 1 else 0;
        left := left - daysInYear;
        year' := Wrap32((year' as int) + 1);
        daysInYear := DaysInYear(year');
      }
    }

    /** A move on the cycle of the unsigned years; it also throws when the day counter wraps to zero. */
    method AddDays(days: U32) returns (r: Outcome<DateTime>)
      requires Valid()
      ensures r.Returned? ==> fresh(r.value) && r.value.Valid() && SameTime(r.value)
      ensures if Value().DayOfYear() + days == U32_SPAN then r.InvalidDateTime?
              else Gives(r, Moved(Instant() + CountedDays(Value().DayOfYear(), days) * MS_PER_DAY))
    {
      hide Moved, FirstDay, DaysInYear, Stamp.TimeOfDay;
      var dayOfYear := DayOfYear();
      var sum := Wrap32((dayOfYear as int) + days);
      WrapOnce(dayOfYear + days);
      var year', left, laps := WalkForward(year, sum);
      if 1 <= left {
        WalkForwardLands(Value(), days, year', left, laps, days - CountedDays(dayOfYear, days));
      }
      r := OnDay(year', left);
    }

    /** The year loop of subtractDays; below year 0 the unsigned year starts again at the top. */
    static method WalkBackward(year: U32, dayOfYear: U32, days: U32) returns (year': U32, left: U32, ghost laps: nat)
      requires 1 <= year && 1 <= dayOfYear <= DaysInYear(year)
      ensures 1 <= left <= DaysInYear(year')
      ensures FirstDay(year') + left == FirstDay(year) + dayOfYear - days + laps * (END_DAYS + 366)
    {
      year', left, laps := year, dayOfYear, 0;
      var toGo := days;
      while toGo > 0
        invariant 0 <= toGo && 1 <= left <= DaysInYear(year')
        invariant FirstDay(year') + left - toGo == FirstDay(year) + dayOfYear - days + laps * (END_DAYS + 366)
      {
        if left > toGo {
          left := left - toGo;
          toGo := 0;
        } else {
          PreviousYear(year');
          toGo := toGo - left;
          laps := laps + if year' == 0 then 1 else 0;
          year' := Wrap32((year' as int) - 1);
          left := DaysInYear(year');
        }
      }
    }

    /** A move on the cycle of the unsigned years. */
    method SubtractDays(days: U32) returns (r: Outcome<DateTime>)
      requires Valid()
      ensures r.Returned? ==> fresh(r.value) && r.value.Valid() && SameTime(r.value)
      ensures Gives(r, Moved(Instant() - days * MS_PER_DAY))
    {
      hide Moved, FirstDay, DaysInYear, Stamp.TimeOfDay;
      InstantBounds(Value());
      var dayOfYear := DayOfYear();
      var year', left, laps := WalkBackward(year, dayOfYear, days);
      WalkBackwardLands(Value(), days, year', left, laps);
      r := OnDay(year', left);
    }

    /** The carry of the add methods: a new field value and what goes on to the next field. */
    static method CarryOver(amount: U32, current: U32, radix: U32) returns (carry: U32, next: U32)
      requires 2 <= radix <= 1000 && current < radix
      ensures carry * radix + next == current + amount && next < radix
      ensures carry <= U32_SPAN / 2
    {
      carry, next := amount / radix, amount % radix;
      assert carry * radix + next == amount;
      AtMostHalf(carry, radix, amount);
      if next + current >= radix {
        assert (carry + 1) * radix == carry * radix + radix;
        ModuloIsRemainder(next + current, 1, radix, next + current - radix);
        carry := carry + 1;
        next := (next + current) % radix;
      } else {
        next := next + current;
      }
    }

    /** The borrow of the subtract methods. */
    static method BorrowFrom(amount: U32, current: U32, radix: U32) returns (borrow: U32, next: U32)
      requires 2 <= radix <= 1000 && current < radix
      ensures next - borrow * radix == current - amount && next < radix
    {
      borrow, next := amount / radix, amount % radix;
      if next > current {
        borrow := borrow + 1;
        next := radix - (next - current);
      } else {
        next := current - next;
      }
    }

    method AddHours(hours: U32) returns (r: Outcome<DateTime>)
      requires Valid()
      ensures r.Returned? ==>
                && fresh(r.value) && r.value.Valid()
                && r.value.minute == minute && r.value.second == second && r.value.millisecond == millisecond
      ensures Gives(r, Moved(Instant() + hours * MS_PER_HOUR))
    {
      hide Moved, Stamp.Instant;
      var tmp := new DateTime.Copy(this);
      var carry, newHour := CarryOver(hours, hour, 24);
      HoursMove(Value(), carry, newHour, hours);
      assert CountedDays(Value().DayOfYear(), carry) == carry by { InstantBounds(Value()); }
      if carry > 0 {
        tmp :- tmp.AddDays(carry);
      }
      var _ := tmp.SetHour(newHour);
      return Returned(tmp);
    }

    method SubtractHours(hours: U32) returns (r: Outcome<DateTime>)
      requires Valid()
      ensures r.Returned? ==>
                && fresh(r.value) && r.value.Valid()
                && r.value.minute == minute && r.value.second == second && r.value.millisecond == millisecond
      ensures Gives(r, Moved(Instant() - hours * MS_PER_HOUR))
    {
      hide Moved, Stamp.Instant;
      var tmp := new DateTime.Copy(this);
      var borrow, newHour := BorrowFrom(hours, hour, 24);
      HoursMove(Value(), -(borrow as int), newHour, -(hours as int));
      if borrow > 0 {
        tmp :- tmp.SubtractDays(borrow);
      }
      var _ := tmp.SetHour(newHour);
      return Returned(tmp);
    }

    method AddMinutes(minutes: U32) returns (r: Outcome<DateTime>)
      requires Valid()
      ensures r.Returned? ==>
                && fresh(r.value) && r.value.Valid()
                && r.value.second == second && r.value.millisecond == millisecond
      ensures Gives(r, Moved(Instant() + minutes * MS_PER_MINUTE))
    {
      hide Moved, Stamp.Instant;
      var tmp := new DateTime.Copy(this);
      var carry, newMinute := CarryOver(minutes, minute, 60);
      MinutesMove(Value(), carry, newMinute, minutes);
      if carry > 0 {
        tmp :- tmp.AddHours(carry);
      }
      var _ := tmp.SetMinute(newMinute);
      return Returned(tmp);
    }

    method SubtractMinutes(minutes: U32) returns (r: Outcome<DateTime>)
      requires Valid()
      ensures r.Returned? ==>
                && fresh(r.value) && r.value.Valid()
                && r.value.second == second && r.value.millisecond == millisecond
      ensures Gives(r, Moved(Instant() - minutes * MS_PER_MINUTE))
    {
      hide Moved, Stamp.Instant;
      var tmp := new DateTime.Copy(this);
      var borrow, newMinute := BorrowFrom(minutes, minute, 60);
      MinutesMove(Value(), -(borrow as int), newMinute, -(minutes as int));
      if borrow > 0 {
        tmp :- tmp.SubtractHours(borrow);
      }
      var _ := tmp.SetMinute(newMinute);
      return Returned(tmp);
    }

    method AddSeconds(seconds: U32) returns (r: Outcome<DateTime>)
      requires Valid()
      ensures r.Returned? ==> fresh(r.value) && r.value.Valid() && r.value.millisecond == millisecond
      ensures Gives(r, Moved(Instant() + seconds * MS_PER_SECOND))
    {
      hide Moved, Stamp.Instant;
      var tmp := new DateTime.Copy(this);
      var carry, newSecond := CarryOver(seconds, second, 60);
      SecondsMove(Value(), carry, newSecond, seconds);
      if carry > 0 {
        tmp :- tmp.AddMinutes(carry);
      }
      var _ := tmp.SetSecond(newSecond);
      return Returned(tmp);
    }

    method SubtractSeconds(seconds: U32) returns (r: Outcome<DateTime>)
      requires Valid()
      ensures r.Returned? ==> fresh(r.value) && r.value.Valid() && r.value.millisecond == millisecond
      ensures Gives(r, Moved(Instant() - seconds * MS_PER_SECOND))
    {
      hide Moved, Stamp.Instant;
      var tmp := new DateTime.Copy(this);
      var borrow, newSecond := BorrowFrom(seconds, second, 60);
      SecondsMove(Value(), -(borrow as int), newSecond, -(seconds as int));
      if borrow > 0 {
        tmp :- tmp.SubtractMinutes(borrow);
      }
      var _ := tmp.SetSecond(newSecond);
      return Returned(tmp);
    }

    method AddMilliseconds(milliseconds: U32) returns (r: Outcome<DateTime>)
      requires Valid()
      ensures r.Returned? ==> fresh(r.value) && r.value.Valid()
      ensures Gives(r, Moved(Instant() + milliseconds))
    {
      hide Moved, Stamp.Instant;
      var tmp := new DateTime.Copy(this);
      var carry, newMillisecond := CarryOver(milliseconds, millisecond, 1000);
      MillisecondsMove(Value(), carry, newMillisecond, milliseconds);
      if carry > 0 {
        tmp :- tmp.AddSeconds(carry);
      }
      var _ := tmp.SetMillisecond(newMillisecond);
      return Returned(tmp);
    }

    method SubtractMilliseconds(milliseconds: U32) returns (r: Outcome<DateTime>)
      requires Valid()
      ensures r.Returned? ==> fresh(r.value) && r.value.Valid()
      ensures Gives(r, Moved(Instant() - milliseconds))
    {
      hide Moved, Stamp.Instant;
      var tmp := new DateTime.Copy(this);
      var borrow, newMillisecond := BorrowFrom(milliseconds, millisecond, 1000);
      MillisecondsMove(Value(), -(borrow as int), newMillisecond, -(milliseconds as int));
      if borrow > 0 {
        tmp :- tmp.SubtractSeconds(borrow);
      }
      var _ := tmp.SetMillisecond(newMillisecond);
      return Returned(tmp);
    }

    /** The clock part of `add`: milliseconds first, hours last. */
    method AddClock(hours: U32, minutes: U32, seconds: U32, milliseconds: U32) returns (r: Outcome<DateTime>)
      requires Valid()
      ensures r.Returned? ==> fresh(r.value) && r.value.Valid()
      ensures Gives(r, ClockMoved(Instant(), hours, minutes, seconds, milliseconds))
    {
      hide Stamp.Instant, Stamp.Valid, Moved, ClockMoved, ClockFits, OnCalendar;
      ClockSteps(Instant(), hours, minutes, seconds, milliseconds);
      var tmp := new DateTime.Copy(this);
      tmp :- tmp.AddMilliseconds(milliseconds);
      tmp :- tmp.AddSeconds(seconds);
      tmp :- tmp.AddMinutes(minutes);
      tmp :- tmp.AddHours(hours);
      return Returned(tmp);
    }

    /** Milliseconds first, days last; exact unless a counter wraps, and else off by whole wrap-arounds. */
    method Add(days: U32, hours: U32, minutes: U32, seconds: U32, milliseconds: U32)
      returns (r: Outcome<DateTime>)
      requires Valid()
      ensures r.Returned? ==> fresh(r.value) && r.value.Valid()
      ensures Gives(r, Added(Instant(), Span(days, hours, minutes, seconds, milliseconds, false)))
      ensures
        var time := ClockMillis(hours, minutes, seconds, milliseconds);
        var target := Instant() + time + days * MS_PER_DAY;
        && (LandsAt(r, target) <==> AddFits(Instant(), days, time))
        && (r.Returned? && !LandsAt(r, target) ==> r.value.Instant() <= target - WRAP)
    {
      r := AddSteps(days, hours, minutes, seconds, milliseconds);
      hide Stamp.Instant, Stamp.Valid, Added, Gives, LandsAt, AddFits;
      ghost var s := Span(days, hours, minutes, seconds, milliseconds, false);
      StartsOnCalendar(Value());
      AddedIsExact(Instant(), s);
      GivesExactly(r, Added(Instant(), s), Instant() + Clock(s) + days * MS_PER_DAY);
    }

    /** The calls that `add` makes. */
    method AddSteps(days: U32, hours: U32, minutes: U32, seconds: U32, milliseconds: U32)
      returns (r: Outcome<DateTime>)
      requires Valid()
      ensures r.Returned? ==> fresh(r.value) && r.value.Valid()
      ensures Gives(r, Added(Instant(), Span(days, hours, minutes, seconds, milliseconds, false)))
    {
      hide Stamp.Instant, Stamp.Valid, Moved, ClockMoved, Added, DayOfYearAt, CountedDays;
      AddedSteps(Instant(), Span(days, hours, minutes, seconds, milliseconds, false));
      var tmp :- AddClock(hours, minutes, seconds, milliseconds);
      DayOfYearFound(tmp.Value());
      r := tmp.AddDays(days);
    }

    /** The clock part of `subtract`. */
    method SubtractClock(hours: U32, minutes: U32, seconds: U32, milliseconds: U32) returns (r: Outcome<DateTime>)
      requires Valid()
      ensures r.Returned? ==> fresh(r.value) && r.value.Valid()
      ensures Gives(r, ClockMoved(Instant(), -(hours as int), -(minutes as int), -(seconds as int), -(milliseconds as int)))
    {
      hide Stamp.Instant, Stamp.Valid, Moved, ClockMoved, ClockFits, OnCalendar;
      ClockSteps(Instant(), -(hours as int), -(minutes as int), -(seconds as int), -(milliseconds as int));
      var tmp := new DateTime.Copy(this);
      tmp :- tmp.SubtractMilliseconds(milliseconds);
      tmp :- tmp.SubtractSeconds(seconds);
      tmp :- tmp.SubtractMinutes(minutes);
      tmp :- tmp.SubtractHours(hours);
      return Returned(tmp);
    }

    /** Exact unless the result would lie before year 1, and else off by whole cycles. */
    method Subtract(days: U32, hours: U32, minutes: U32, seconds: U32, milliseconds: U32)
      returns (r: Outcome<DateTime>)
      requires Valid()
      ensures r.Returned? ==> fresh(r.value) && r.value.Valid()
      ensures Gives(r, Subtracted(Instant(), Span(days, hours, minutes, seconds, milliseconds, true)))
      ensures
        var target := Instant() - ClockMillis(hours, minutes, seconds, milliseconds) - days * MS_PER_DAY;
        && (LandsAt(r, target) <==> 0 <= target)
        && (r.Returned? && !LandsAt(r, target) ==> r.value.Instant() >= target + WRAP)
    {
      r := SubtractSteps(days, hours, minutes, seconds, milliseconds);
      hide Stamp.Instant, Stamp.Valid, Subtracted, Gives, LandsAt;
      ghost var s := Span(days, hours, minutes, seconds, milliseconds, true);
      StartsOnCalendar(Value());
      SubtractedIsExact(Instant(), s);
      GivesExactly(r, Subtracted(Instant(), s), Instant() - Clock(s) - days * MS_PER_DAY);
    }

    /** The calls that `subtract` makes. */
    method SubtractSteps(days: U32, hours: U32, minutes: U32, seconds: U32, milliseconds: U32)
      returns (r: Outcome<DateTime>)
      requires Valid()
      ensures r.Returned? ==> fresh(r.value) && r.value.Valid()
      ensures Gives(r, Subtracted(Instant(), Span(days, hours, minutes, seconds, milliseconds, true)))
    {
      hide Stamp.Instant, Stamp.Valid, Moved, ClockMoved, Subtracted;
      SubtractedSteps(Instant(), Span(days, hours, minutes, seconds, milliseconds, true));
      var tmp :- SubtractClock(hours, minutes, seconds, milliseconds);
      r := tmp.SubtractDays(days);
    }

    method AddDuration(dur: DateTimeDuration) returns (r: Outcome<DateTime>)
      requires Valid() && dur.Valid()
      ensures r.Returned? ==> fresh(r.value) && r.value.Valid()
      ensures Gives(r, Shifted(Instant(), dur.Value()))
      ensures dur.isNegative ==>
                var target := Instant() - dur.Value().Millis();
                && (LandsAt(r, target) <==> 0 <= target)
                && (r.Returned? && !LandsAt(r, target) ==> r.value.Instant() > Instant())
      ensures !dur.isNegative ==>
                var target := Instant() + dur.Value().Millis();
                && (LandsAt(r, target) <==> AddFits(Instant(), dur.days, Clock(dur.Value())))
                && (r.Returned? && !LandsAt(r, target) ==> r.value.Instant() < Instant())
    {
      hide Stamp.Instant, Added, Subtracted;
      if dur.isNegative {
        r := Subtract(dur.days, dur.hours, dur.minutes, dur.seconds, dur.milliseconds);
      } else {
        r := Add(dur.days, dur.hours, dur.minutes, dur.seconds, dur.milliseconds);
      }
    }

    /** Adding the duration with its sign turned round. */
    method SubtractDuration(dur: DateTimeDuration) returns (r: Outcome<DateTime>)
      requires Valid() && dur.Valid()
      ensures r.Returned? ==> fresh(r.value) && r.value.Valid()
      ensures Gives(r, Shifted(Instant(), dur.Value().(negative := !dur.isNegative)))
      ensures !dur.isNegative ==>
                (LandsAt(r, Instant() - dur.Value().Millis()) <==> dur.Value().Millis() <= Instant())
      ensures dur.isNegative ==>
                (LandsAt(r, Instant() + dur.Value().Millis()) <==>
                 AddFits(Instant(), dur.days, Clock(dur.Value())))
    {
      hide Stamp.Ordinal, Around;
      var tmp := new DateTimeDuration.Copy(dur);
      tmp.isNegative := !dur.isNegative;
      assert tmp.Value() == dur.Value().(negative := !dur.isNegative);
      r := AddDuration(tmp);
    }

    /**
     * Adding a duration of either sign and taking it away gives the date back exactly if no step of the way
     * stops in year 0 and the day counter does not wrap, whatever laps the years make.
     */
    method AddThenSubtract(dur: DateTimeDuration) returns (r: Outcome<DateTime>)
      requires Valid() && dur.Valid()
      ensures r.Returned? ==> r.value.Valid()
      ensures r.Returned? && r.value.Value() == Value() <==> WayAndBackFit(Instant(), dur.Value())
    {
      hide Stamp.Instant, Stamp.Valid, Added, Subtracted, WayAndBackFit;
      ghost var x, s := Instant(), dur.Value();
      StartsOnCalendar(Value());
      if s.negative {
        SubtractedAndBack(x, s);
      } else {
        AddedAndBack(x, s);
      }
      var moved :- AddDuration(dur);
      SignIsApart(moved.Instant(), s);
      r := moved.SubtractDuration(dur);
      if r.Returned? {
        CompareIsTimeOrder(r.value.Value(), Value());
      }
    }

    /** The two counting loops of timeBetween. The second starts from this date's own day of the year. */
    method CountDaysDownTo(stopYear: U32, stopDay: U32) returns (total: U32)
      requires Valid() && 1 <= stopYear <= year
      ensures total == Wrap32(DaysCounted(Value(), stopYear, stopDay))
    {
      total := 0;
      var currentYear := year;
      var currentDay := DayOfYear();
      ghost var exact := 0;
      while currentYear > stopYear
        invariant stopYear <= currentYear <= year
        invariant total == Wrap32(exact) && currentDay == Value().DayOfYear()
        invariant exact == if currentYear == year then 0
                           else Value().DayOfYear() + DaysBeforeYear(year) - DaysBeforeYear(currentYear + 1)
      {
        var step := if currentYear == year then currentDay else DaysInYear(currentYear);
        WrapSum(exact, step);
        total := Wrap32((total as int) + step);
        exact := exact + step;
        currentYear := currentYear - 1;
        currentDay := DayOfYear();
      }
      ghost var walked := exact;
      while currentDay > stopDay
        invariant stopDay <= currentDay <= Value().DayOfYear() || currentDay == Value().DayOfYear() <= stopDay
        invariant total == Wrap32(exact) && exact == walked + Value().DayOfYear() - currentDay
      {
        WrapSum(exact, 1);
        total := Wrap32((total as int) + 1);
        exact := exact + 1;
        currentDay := currentDay - 1;
      }
    }

    /** The counting loops with the one repair: every year but this one starts from its length. */
    method CountDaysRepaired(stopYear: U32, stopDay: U32) returns (total: U32)
      requires Valid() && 1 <= stopYear <= year && stopDay <= DaysInYear(stopYear)
      ensures total == Wrap32(DaysRepaired(Value(), stopYear, stopDay))
    {
      total := 0;
      var currentYear := year;
      var currentDay := DayOfYear();
      ghost var exact := 0;
      while currentYear > stopYear
        invariant stopYear <= currentYear <= year
        invariant total == Wrap32(exact)
        invariant currentDay == if currentYear == year then Value().DayOfYear() else DaysInYear(currentYear)
        invariant exact == if currentYear == year then 0
                           else Value().DayOfYear() + DaysBeforeYear(year) - DaysBeforeYear(currentYear + 1)
      {
        WrapSum(exact, currentDay);
        total := Wrap32((total as int) + currentDay);
        exact := exact + currentDay;
        currentYear := currentYear - 1;
        currentDay := DaysInYear(currentYear);
      }
      ghost var walked, start := exact, currentDay;
      while currentDay > stopDay
        invariant stopDay <= currentDay <= start || currentDay == start <= stopDay
        invariant total == Wrap32(exact) && exact == walked + start - currentDay
      {
        WrapSum(exact, 1);
        total := Wrap32((total as int) + 1);
        exact := exact + 1;
        currentDay := currentDay - 1;
      }
    }

    method ClockOf() returns (ms: U32)
      requires Valid()
      ensures ms == Value().TimeOfDay() && ms < MS_PER_DAY
    {
      ms := hour * MS_PER_HOUR + minute * MS_PER_MINUTE + second * MS_PER_SECOND + millisecond;
    }

    method NextDay() returns (next: DateTime)
      requires Valid() && AddFits(Instant(), 1, 0)
      ensures next.Valid() && next.Instant() == Instant() + MS_PER_DAY
    {
      var r := Add(1, 0, 0, 0, 0);
      assert LandsAt(r, Instant() + MS_PER_DAY);
      next := r.value;
    }

    /** The date to count days down to, and the clock part of the difference. */
    method StopFor(rhs: DateTime) returns (stop: DateTime, clock: U32)
      requires Valid() && rhs.Valid() && rhs.Instant() < Instant()
      ensures stop.Valid() && stop.Instant() == StopInstant(Value(), rhs.Value())
      ensures clock == (Instant() - rhs.Instant()) % MS_PER_DAY
    {
      hide Stamp.Ordinal;
      var ms := ClockOf();
      var rhsMs := rhs.ClockOf();
      ClockDifference(Value(), rhs.Value());
      if rhsMs > ms {
        assert AddFits(rhs.Instant(), 1, 0) by { StopIsInReach(Value(), rhs.Value()); }
        stop := rhs.NextDay();
        clock := MS_PER_DAY - (rhsMs - ms);
      } else {
        stop := rhs;
        clock := ms - rhsMs;
      }
    }

    /** The clock part, taken apart into its four fields. */
    static method SplitClock(total: U32) returns (hours: U32, minutes: U32, seconds: U32, milliseconds: U32)
      requires total < MS_PER_DAY
      ensures hours < 24 && minutes < 60 && seconds < 60 && milliseconds < 1000
      ensures ClockMillis(hours, minutes, seconds, milliseconds) == total
    {
      var rest := total;
      hours, rest := rest / MS_PER_HOUR, rest % MS_PER_HOUR;
      minutes, rest := rest / MS_PER_MINUTE, rest % MS_PER_MINUTE;
      seconds, milliseconds := rest / MS_PER_SECOND, rest % MS_PER_SECOND;
    }

    /** timeBetween when this date is the later one. */
    method TimeSince(rhs: DateTime) returns (dur: DateTimeDuration)
      requires Valid() && rhs.Valid() && rhs.Instant() < Instant()
      ensures fresh(dur) && dur.Valid() && !dur.isNegative
      ensures Measures(dur.Value(), Value(), rhs.Value())
    {
      hide Stamp.Ordinal;
      var stop, clock := StopFor(rhs);
      var hours, minutes, seconds, milliseconds := SplitClock(clock);
      CountIsShort(Value(), rhs.Value(), stop.Value());
      var stopDay := stop.DayOfYear();
      var totalDays := CountDaysDownTo(stop.year, stopDay);
      dur := new DateTimeDuration(totalDays, hours, minutes, seconds, milliseconds, false);
      CountMeasures(dur.Value(), Value(), rhs.Value(), stop.Value());
    }

    method TimeBetween(rhs: DateTime) returns (dur: DateTimeDuration)
      requires Valid() && rhs.Valid()
      ensures fresh(dur) && dur.Valid()
      ensures dur.isNegative <==> Instant() < rhs.Instant()
      ensures if dur.isNegative then Measures(dur.Value(), rhs.Value(), Value())
              else Measures(dur.Value(), Value(), rhs.Value())
    {
      hide Stamp.Ordinal;
      var order := rhs.Value().Compare(Value());
      assert order == Sign(rhs.Instant() - Instant()) && (order == 0 ==> rhs.Value() == Value()) by {
        CompareIsTimeOrder(rhs.Value(), Value());
      }
      if order == 0 {
        SameDateMeasuresZero(Value());
        dur := new DateTimeDuration(0, 0, 0, 0, 0, false);
      } else if order > 0 {
        dur := rhs.TimeSince(this);
        dur.isNegative := true;
      } else {
        dur := TimeSince(rhs);
      }
    }

    /** `rhs.add(this.timeBetween(rhs))` is this date exactly when the two dates are recoverable. */
    method AddBack(rhs: DateTime) returns (r: Outcome<DateTime>)
      requires Valid() && rhs.Valid()
      ensures LandsAt(r, Instant()) <==> Recoverable(Value(), rhs.Value())
    {
      hide Stamp.Ordinal;
      var dur := TimeBetween(rhs);
      r := rhs.AddDuration(dur);
      if dur.isNegative {
        MeasureIsExact(dur.Value(), rhs.Value(), Value());
      } else {
        MeasureIsExact(dur.Value(), Value(), rhs.Value());
      }
    }

    /** timeBetween with the repaired count, when this date is not the earlier one. */
    method TimeSinceRepaired(rhs: DateTime) returns (dur: DateTimeDuration)
      requires Valid() && rhs.Valid() && rhs.Instant() <= Instant()
      ensures fresh(dur) && dur.Valid() && !dur.isNegative
      ensures dur.days == Wrap32(WholeDays(Value(), rhs.Value()))
      ensures Clock(dur.Value()) == (Instant() - rhs.Instant()) % MS_PER_DAY
    {
      hide Stamp.Ordinal;
      CompareIsTimeOrder(rhs.Value(), Value());
      if rhs.Value().Compare(Value()) == 0 {
        dur := new DateTimeDuration(0, 0, 0, 0, 0, false);
      } else {
        var stop, clock := StopFor(rhs);
        var hours, minutes, seconds, milliseconds := SplitClock(clock);
        CountIsShort(Value(), rhs.Value(), stop.Value());
        RepairCountsAll(Value(), rhs.Value(), stop.Value());
        var stopDay := stop.DayOfYear();
        var totalDays := CountDaysRepaired(stop.year, stopDay);
        dur := new DateTimeDuration(totalDays, hours, minutes, seconds, milliseconds, false);
      }
    }

    /** With the repaired count the date comes back exactly if the days fit their counter on the way. */
    method AddBackRepaired(rhs: DateTime) returns (r: Outcome<DateTime>)
      requires Valid() && rhs.Valid()
      ensures LandsAt(r, Instant()) <==>
              if rhs.Instant() <= Instant()
              then AddFits(rhs.Instant(), WholeDays(Value(), rhs.Value()), (Instant() - rhs.Instant()) % MS_PER_DAY)
              else WholeDays(rhs.Value(), Value()) < U32_SPAN
    {
      hide Stamp.Instant, Stamp.Valid, Added, Subtracted, Shifted, Gives, AddFits;
      var dur;
      CompareIsTimeOrder(rhs.Value(), Value());
      if rhs.Value().Compare(Value()) <= 0 {
        dur := TimeSinceRepaired(rhs);
        RepairedIsExact(dur.Value(), Value(), rhs.Value());
      } else {
        dur := rhs.TimeSinceRepaired(this);
        RepairedIsExact(dur.Value(), rhs.Value(), Value());
        dur.isNegative := true;
      }
      r := rhs.AddDuration(dur);
      LandsOnce(r, Instant(), rhs.Instant() + (if dur.isNegative then -(dur.Value().Millis() as int) else dur.Value().Millis()));
    }
  }

  lemma {:induction false} WrapSum(x: int, y: int)
    ensures Wrap32(Wrap32(x) + y) == Wrap32(x + y)
  {
    var q, q' := x / U32_SPAN, (Wrap32(x) + y) / U32_SPAN;
    ModuloIsRemainder(x + y, q + q', U32_SPAN, Wrap32(Wrap32(x) + y));
  }

  lemma {:induction false} WrapOnce(x: int)
    requires 0 <= x < 2 * U32_SPAN
    ensures Wrap32(x) == if x < U32_SPAN then x else x - U32_SPAN
  {
    ModuloIsRemainder(x, if x < U32_SPAN then 0 else 1, U32_SPAN, if x < U32_SPAN then x else x - U32_SPAN);
  }

  lemma {:induction false} TruncateTwice(x: nat)
    ensures Wrap32(x) % 0x1_0000 == x % 0x1_0000
  {
    var q, r := x / U32_SPAN, x % U32_SPAN;
    var q', r' := r / 0x1_0000, r % 0x1_0000;
    ModuloIsRemainder(x, q * 0x1_0000 + q', 0x1_0000, r');
  }
}
