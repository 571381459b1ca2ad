/** The Gregorian calendar of DateTime.cpp, and dates as values. */
module Calendar {
  import opened Arithmetic
  import opened Words

  const MONTH_LENGTHS: seq<nat> := [31, 28, 31, 30, 31, 30, 31, 31, 30, 31, 30, 31]

  const MS_PER_SECOND := 1000
  const MS_PER_MINUTE := 60000
  const MS_PER_HOUR := 3600000
  const MS_PER_DAY := 86400000

  predicate IsLeapYear(year: nat) {
    (year % 4 == 0 && year % 100 != 0) || year % 400 == 0
  }

  function DaysInYear(year: nat): nat {
    if IsLeapYear(year) then 366 else 365
  }

  function DaysInMonth(year: nat, month: nat): nat
    requires 1 <= month <= 12
  {
    MONTH_LENGTHS[month - 1] + if month == 2 && IsLeapYear(year) then 1 else 0
  }

  predicate ValidDate(year: nat, month: nat, day: nat) {
    && year != 0 && month != 0 && day != 0
    && month <= 12
    && day <= DaysInMonth(year, month)
  }

  /** Days of `year` that precede `month`; month 13 stands for the end of the year. */
  function DaysBeforeMonth(year: nat, month: nat): nat
    requires 1 <= month <= 13
  {
    if month == 1 then 0 else DaysBeforeMonth(year, month - 1) + DaysInMonth(year, month - 1)
  }

  /** Days from 0001-01-01 to the first day of `year`. */
  function DaysBeforeYear(year: nat): nat
    requires 1 <= year
  {
    if year == 1 then 0 else DaysBeforeYear(year - 1) + DaysInYear(year - 1)
  }

  /** Days from 0001-01-01 to the end of year 4294967295, the last an unsigned int can hold. */
  const END_DAYS: nat := 1568704592244

  const END_INSTANT: nat := END_DAYS * MS_PER_DAY

  /** The years 0 to 4294967295 laid end to end: where the unsigned year starts again. */
  const CYCLE: int := END_INSTANT + 366 * MS_PER_DAY

  /** An instant brought round the cycle of the unsigned years; from END_INSTANT on it stands in year 0. */
  function Around(instant: int): nat {
    instant % CYCLE
  }

  /** No date of year 0 is valid. */
  predicate OnCalendar(instant: int) {
    Around(instant) < END_INSTANT
  }

  /** The first day of `year`; year 0, which only wrap-around can reach, is a leap year. */
  function FirstDay(year: nat): int {
    if year == 0 then -366 else DaysBeforeYear(year)
  }

  /** A date and time as a value: the fields of the class DateTime. */
  datatype Stamp = Stamp(year: U32, month: U32, day: U32,
                         hour: U32, minute: U32, second: U32, millisecond: U32)
  {
    predicate Valid() {
      ValidDate(year, month, day) && hour < 24 && minute < 60 && second < 60 && millisecond < 1000
    }

    /** 1 for the first of January. */
    function DayOfYear(): nat
      requires Valid()
    {
      DaysBeforeMonth(year, month) + day
    }

    /** Whole days since 0001-01-01. */
    function Ordinal(): nat
      requires Valid()
    {
      DaysBeforeYear(year) + DayOfYear() - 1
    }

    function TimeOfDay(): nat {
      hour * MS_PER_HOUR + minute * MS_PER_MINUTE + second * MS_PER_SECOND + millisecond
    }

    /** Milliseconds since 0001-01-01 00:00:00.000. */
    function Instant(): nat
      requires Valid()
    {
      Ordinal() * MS_PER_DAY + TimeOfDay()
    }

    /** The nested field-by-field test of DateTime::compare. */
    function Compare(rhs: Stamp): int {
      if year == rhs.year then
        if month == rhs.month then
          if day == rhs.day then
            if hour == rhs.hour then
              if minute == rhs.minute then
                if second == rhs.second then
                  if millisecond == rhs.millisecond then 0
                  else if millisecond < rhs.millisecond then -1 else 1
                else if second < rhs.second then -1 else 1
              else if minute < rhs.minute then -1 else 1
            else if hour < rhs.hour then -1 else 1
          else if day < rhs.day then -1 else 1
        else if month < rhs.month then -1 else 1
      else if year < rhs.year then -1 else 1
    }
  }

  /** The running totals of the twelve month lengths, leap day included. */
  lemma {:induction false} MonthTable(year: nat)
    ensures
      var leap := if IsLeapYear(year) then 1 else 0;
      && DaysBeforeMonth(year, 1) == 0
      && DaysBeforeMonth(year, 2) == 31
      && DaysBeforeMonth(year, 3) == 59 + leap
      && DaysBeforeMonth(year, 4) == 90 + leap
      && DaysBeforeMonth(year, 5) == 120 + leap
      && DaysBeforeMonth(year, 6) == 151 + leap
      && DaysBeforeMonth(year, 7) == 181 + leap
      && DaysBeforeMonth(year, 8) == 212 + leap
      && DaysBeforeMonth(year, 9) == 243 + leap
      && DaysBeforeMonth(year, 10) == 273 + leap
      && DaysBeforeMonth(year, 11) == 304 + leap
      && DaysBeforeMonth(year, 12) == 334 + leap
      && DaysBeforeMonth(year, 13) == DaysInYear(year)
  {
    assert DaysBeforeMonth(year, 3) == DaysBeforeMonth(year, 2) + DaysInMonth(year, 2);
    assert DaysBeforeMonth(year, 5) == DaysBeforeMonth(year, 4) + DaysInMonth(year, 4);
    assert DaysBeforeMonth(year, 7) == DaysBeforeMonth(year, 6) + DaysInMonth(year, 6);
    assert DaysBeforeMonth(year, 9) == DaysBeforeMonth(year, 8) + DaysInMonth(year, 8);
    assert DaysBeforeMonth(year, 11) == DaysBeforeMonth(year, 10) + DaysInMonth(year, 10);
  }

  /** Each of the three divisions steps up exactly in the years its part of the leap rule names. */
  lemma {:induction false} LeapDayCount(year: nat)
    requires 1 <= year
    ensures year / 4 - year / 100 + year / 400
            == (year - 1) / 4 - (year - 1) / 100 + (year - 1) / 400 + if IsLeapYear(year) then 1 else 0
  {
    NextQuotient(year, 4);
    NextQuotient(year, 100);
    NextQuotient(year, 400);
    assert year == 400 * (year / 400) + year % 400;
    assert year % 400 == 0 ==> year % 100 == 0;
    assert year == 100 * (year / 100) + year % 100;
    assert year % 100 == 0 ==> year % 4 == 0;
  }

  /** The leap rule adds up to the closed Gregorian count of days. */
  lemma {:induction false} GregorianDayCount(year: nat)
    requires 1 <= year
    ensures DaysBeforeYear(year) == 365 * (year - 1) + ((year - 1) / 4 - (year - 1) / 100 + (year - 1) / 400)
  {
    if year == 1 {
    } else {
      GregorianDayCount(year - 1);
      LeapDayCount(year - 1);
    }
  }

  /** END_DAYS is where the last unsigned year ends. */
  lemma {:induction false} EndOfYears(year: nat)
    requires 1 <= year < U32_SPAN
    ensures DaysBeforeYear(year) + DaysInYear(year) <= END_DAYS
    ensures year == U32_SPAN - 1 ==> DaysBeforeYear(year) + DaysInYear(year) == END_DAYS
  {
    GregorianDayCount(year);
    LeapDayCount(year);
  }

  lemma {:induction false} YearsInOrder(early: nat, late: nat)
    requires 1 <= early < late
    ensures DaysBeforeYear(early) + DaysInYear(early) <= DaysBeforeYear(late)
  {
    if early + 1 == late {
    } else {
      YearsInOrder(early, late - 1);
    }
  }

  lemma {:induction false} MonthsInOrder(year: nat, early: nat, late: nat)
    requires 1 <= early < late <= 13
    ensures DaysBeforeMonth(year, early) + DaysInMonth(year, early) <= DaysBeforeMonth(year, late)
    decreases late
  {
    if early + 1 == late {
    } else {
      MonthsInOrder(year, early, late - 1);
    }
  }

  /** A valid date lies inside its year, and later (month, day) pairs have later days of year. */
  lemma {:induction false} DayOfYearInOrder(year: nat, month: nat, day: nat, month': nat, day': nat)
    requires ValidDate(year, month, day) && ValidDate(year, month', day')
    ensures 1 <= DaysBeforeMonth(year, month) + day <= DaysInYear(year)
    ensures (month < month' || (month == month' && day < day'))
            <==> DaysBeforeMonth(year, month) + day < DaysBeforeMonth(year, month') + day'
  {
    MonthTable(year);
    MonthsInOrder(year, month, 13);
    if month < month' {
      MonthsInOrder(year, month, month');
    } else if month' < month {
      MonthsInOrder(year, month', month);
    }
  }

  lemma {:induction false} InstantBounds(s: Stamp)
    requires s.Valid()
    ensures 1 <= s.DayOfYear() <= DaysInYear(s.year)
    ensures 0 <= s.Ordinal() < END_DAYS
    ensures 0 <= s.TimeOfDay() < MS_PER_DAY
    ensures s.Instant() / MS_PER_DAY == s.Ordinal() && s.Instant() % MS_PER_DAY == s.TimeOfDay()
  {
    DayOfYearInOrder(s.year, s.month, s.day, s.month, s.day);
    EndOfYears(s.year);
  }

  /** Where an instant stands inside its day, hour, minute and second. */
  lemma {:induction false} ClockFields(s: Stamp)
    requires s.Valid()
    ensures
      var i := s.Instant();
      && i % MS_PER_DAY == s.hour * MS_PER_HOUR + (s.minute * MS_PER_MINUTE + s.second * MS_PER_SECOND + s.millisecond)
      && i % MS_PER_HOUR == s.minute * MS_PER_MINUTE + (s.second * MS_PER_SECOND + s.millisecond)
      && i % MS_PER_MINUTE == s.second * MS_PER_SECOND + s.millisecond
      && i % MS_PER_SECOND == s.millisecond
  {
    var i := s.Instant();
    var hours := s.Ordinal() * 24 + s.hour;
    var minutes := hours * 60 + s.minute;
    var seconds := minutes * 60 + s.second;
    ModuloIsRemainder(i, s.Ordinal(), MS_PER_DAY, s.TimeOfDay());
    ModuloIsRemainder(i, hours, MS_PER_HOUR, s.minute * MS_PER_MINUTE + (s.second * MS_PER_SECOND + s.millisecond));
    ModuloIsRemainder(i, minutes, MS_PER_MINUTE, s.second * MS_PER_SECOND + s.millisecond);
    ModuloIsRemainder(i, seconds, MS_PER_SECOND, s.millisecond);
  }

  /** Comparing field by field is comparing linear time. */
  lemma {:induction false} CompareIsTimeOrder(a: Stamp, b: Stamp)
    requires a.Valid() && b.Valid()
    ensures a.Compare(b) == Sign(a.Instant() - b.Instant())
    ensures a.Instant() == b.Instant() <==> a == b
  {
    InstantBounds(a);
    InstantBounds(b);
    if a.year < b.year {
      YearsInOrder(a.year, b.year);
    } else if b.year < a.year {
      YearsInOrder(b.year, a.year);
    } else {
      DayOfYearInOrder(a.year, a.month, a.day, b.month, b.day);
      DayOfYearInOrder(a.year, b.month, b.day, a.month, a.day);
    }
  }

  /** Stepping an unsigned year: the last year is followed by year 0, a whole cycle earlier. */
  lemma {:induction false} NextYear(year: nat)
    requires year < U32_SPAN
    ensures Wrap32(year + 1) == if year == U32_SPAN - 1 then 0 else year + 1
    ensures FirstDay(Wrap32(year + 1)) + (if year == U32_SPAN - 1 then END_DAYS + 366 else 0)
            == FirstDay(year) + DaysInYear(year)
  {
    NextModulo(year, U32_SPAN);
    if year == U32_SPAN - 1 {
      EndOfYears(year);
    }
  }

  lemma {:induction false} PreviousYear(year: nat)
    requires year < U32_SPAN
    ensures Wrap32(year - 1) == if year == 0 then U32_SPAN - 1 else year - 1
    ensures FirstDay(Wrap32(year - 1)) + DaysInYear(Wrap32(year - 1))
            == FirstDay(year) + if year == 0 then END_DAYS + 366 else 0
  {
    if year == 0 {
      ModuloIsRemainder(-1, -1, U32_SPAN, U32_SPAN - 1);
      NextYear(U32_SPAN - 1);
    } else {
      ModuloIsRemainder(year - 1, 0, U32_SPAN, year - 1);
      NextYear(year - 1);
    }
  }

  /** Carries a day count out of `year` into the years after it. */
  function Walk(year: nat, dayOfYear: nat): (r: (nat, nat))
    ensures r.1 <= DaysInYear(r.0)
    decreases dayOfYear
  {
    if dayOfYear <= DaysInYear(year) then (year, dayOfYear)
    else Walk(year + 1, dayOfYear - DaysInYear(year))
  }

  /** The day of the year that holds an instant. */
  function DayOfYearAt(instant: nat): nat {
    Walk(1, instant / MS_PER_DAY + 1).1
  }

  lemma {:induction false} WalkFromYear(from: nat, count: nat, year: nat, dayOfYear: nat)
    requires 1 <= from <= year
    requires 1 <= dayOfYear <= DaysInYear(year)
    requires DaysBeforeYear(from) + count == DaysBeforeYear(year) + dayOfYear
    ensures Walk(from, count) == (year, dayOfYear)
    decreases year - from
  {
    if from == year {
    } else {
      YearsInOrder(from, year);
      var rest := count - DaysInYear(from);
      assert DaysBeforeYear(from + 1) == DaysBeforeYear(from) + DaysInYear(from);
      WalkFromYear(from + 1, rest, year, dayOfYear);
    }
  }

  /** Walking from year 1 recovers the year and the day of the year of any valid stamp. */
  lemma {:induction false} WalkFindsDate(s: Stamp)
    requires s.Valid()
    ensures Walk(1, s.Instant() / MS_PER_DAY + 1) == (s.year, s.DayOfYear())
  {
    InstantBounds(s);
    WalkFromYear(1, s.Ordinal() + 1, s.year, s.DayOfYear());
  }

  /** A walk moves a day count into a later year and ends at a day of that year. */
  lemma {:induction false} WalkKeepsDay(from: nat, count: nat)
    requires 1 <= from && 1 <= count
    ensures
      var r := Walk(from, count);
      from <= r.0 && 1 <= r.1 && DaysBeforeYear(r.0) + r.1 == DaysBeforeYear(from) + count
    decreases count
  {
    if count <= DaysInYear(from) {
    } else {
      WalkKeepsDay(from + 1, count - DaysInYear(from));
    }
  }

  /** The month that holds a day of the year, looked for from `last` downwards. */
  lemma {:induction false} MonthHolds(year: nat, dayOfYear: nat, last: nat) returns (month: nat, day: nat)
    requires 1 <= last <= 12 && 1 <= year && 1 <= dayOfYear <= DaysBeforeMonth(year, last + 1)
    ensures ValidDate(year, month, day) && DaysBeforeMonth(year, month) + day == dayOfYear
  {
    if DaysBeforeMonth(year, last) < dayOfYear {
      month, day := last, dayOfYear - DaysBeforeMonth(year, last);
    } else {
      month, day := MonthHolds(year, dayOfYear, last - 1);
    }
  }

  lemma {:induction false} YearFits(year: nat, dayOfYear: nat)
    requires 1 <= year && 1 <= dayOfYear && DaysBeforeYear(year) + dayOfYear <= END_DAYS
    ensures year < U32_SPAN
  {
    if year >= U32_SPAN {
      EndOfYears(U32_SPAN - 1);
      YearsInOrder(U32_SPAN - 1, year);
    }
  }

  /** Every instant before the end of the unsigned years is that of a valid date. */
  lemma {:induction false} EveryInstantHasStamp(instant: nat) returns (s: Stamp)
    requires instant < END_INSTANT
    ensures s.Valid() && s.Instant() == instant
  {
    var days, time := instant / MS_PER_DAY, instant % MS_PER_DAY;
    WalkKeepsDay(1, days + 1);
    var (year, dayOfYear) := Walk(1, days + 1);
    YearFits(year, dayOfYear);
    var month, day := MonthHolds(year, dayOfYear, 12) by { MonthTable(year); }
    var hour, inHour := time / MS_PER_HOUR, time % MS_PER_HOUR;
    var minute, inMinute := inHour / MS_PER_MINUTE, inHour % MS_PER_MINUTE;
    s := Stamp(year, month, day, hour, minute, inMinute / MS_PER_SECOND, inMinute % MS_PER_SECOND);
  }

  lemma {:induction false} AroundTwice(x: int, y: int)
    ensures Around(Around(x) + y) == Around(x + y)
  {
    TwoMoves(x, y, CYCLE);
  }

  /** On the first lap, and one lap off it. */
  lemma {:induction false} AroundLaps(x: int)
    ensures 0 <= x < CYCLE ==> Around(x) == x
    ensures CYCLE <= x ==> Around(x) <= x - CYCLE
    ensures x < 0 ==> Around(x) >= x + CYCLE
  {
    var laps := x / CYCLE;
    assert x == laps * CYCLE + Around(x);
    if 0 <= x < CYCLE {
      ModuloIsRemainder(x, 0, CYCLE, x);
    }
  }

  /** Whole laps do not matter, and a start in year 0 is the end of the cycle. */
  lemma {:induction false} AroundIs(x: int, laps: int, rest: int)
    requires x == rest + laps * CYCLE && END_INSTANT - CYCLE <= rest < END_INSTANT
    ensures OnCalendar(x) <==> 0 <= rest
    ensures 0 <= rest ==> Around(x) == rest
  {
    if 0 <= rest {
      ModuloIsRemainder(x, laps, CYCLE, rest);
    } else {
      ModuloIsRemainder(x, laps - 1, CYCLE, rest + CYCLE);
    }
  }
}
