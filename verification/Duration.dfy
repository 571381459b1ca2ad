/** DateTimeDuration: a signed duration whose setters carry into the larger fields. */
module Duration {
  import opened Arithmetic
  import opened Calendar
  import opened Words

  /** How many hours, minutes, seconds and milliseconds 2^32 days hold: the wrap-around of a duration. */
  const HOUR_CYCLE := 24 * U32_SPAN
  const MINUTE_CYCLE := 60 * HOUR_CYCLE
  const SECOND_CYCLE := 60 * MINUTE_CYCLE
  const MS_CYCLE := 1000 * SECOND_CYCLE

  /** A duration as a value: the fields of the class DateTimeDuration. */
  datatype Span = Span(days: U32, hours: U32, minutes: U32, seconds: U32, milliseconds: U32, negative: bool)
  {
    /** Every field below its radix. */
    predicate Normal() {
      hours < 24 && minutes < 60 && seconds < 60 && milliseconds < 1000
    }

    /** The magnitude; the sign is kept apart. */
    function Millis(): nat {
      days * MS_PER_DAY + hours * MS_PER_HOUR + minutes * MS_PER_MINUTE + seconds * MS_PER_SECOND + milliseconds
    }

    predicate IsZero() {
      days == 0 && hours == 0 && minutes == 0 && seconds == 0 && milliseconds == 0
    }

    /** DateTimeDuration::compare, which never looks at the sign. */
    function Compare(rhs: Span): int {
      if IsZero() && rhs.IsZero() then 0
      else if days == rhs.days then
        if hours == rhs.hours then
          if minutes == rhs.minutes then
            if seconds == rhs.seconds then
              if milliseconds == rhs.milliseconds then 0
              else if milliseconds < rhs.milliseconds then -1 else 1
            else if seconds < rhs.seconds then -1 else 1
          else if minutes < rhs.minutes then -1 else 1
        else if hours < rhs.hours then -1 else 1
      else if days < rhs.days then -1 else 1
    }
  }

  /** On normal durations the field-by-field test is the order of magnitudes. */
  lemma {:induction false} CompareIsMagnitudeOrder(a: Span, b: Span)
    requires a.Normal() && b.Normal()
    ensures a.Compare(b) == Sign(a.Millis() - b.Millis())
    ensures a.Compare(b) == 0 <==> a == b.(negative := a.negative)
  {
    var a', b' := a.Millis() - a.days * MS_PER_DAY, b.Millis() - b.days * MS_PER_DAY;
    assert 0 <= a' < MS_PER_DAY && 0 <= b' < MS_PER_DAY;
  }

  lemma {:induction false} HornerForm(s: Span)
    ensures s.Millis()
            == (((s.days * 24 + s.hours) * 60 + s.minutes) * 60 + s.seconds) * 1000 + s.milliseconds
  {
  }

  /** Carrying leaves a normal duration alone. */
  lemma {:induction false} AlreadyNormal(carried: Span, s: Span)
    requires carried.Normal() && carried.Millis() == s.Millis() % MS_CYCLE
    requires carried.negative == s.negative
    ensures s.Normal() ==> carried == s
  {
    if s.Normal() {
      ModuloIsRemainder(s.Millis(), 0, MS_CYCLE, s.Millis());
      CompareIsMagnitudeOrder(carried, s);
    }
  }

  /** The four carries, taken one after the other, wrap like one carry of the whole total. */
  lemma {:induction false} TotalIsCarried(input: Span, h: nat, m: nat, s: nat, total: nat)
    requires h == (input.days * 24 + input.hours) % HOUR_CYCLE
    requires m == (h * 60 + input.minutes) % MINUTE_CYCLE
    requires s == (m * 60 + input.seconds) % SECOND_CYCLE
    requires total == (s * 1000 + input.milliseconds) % MS_CYCLE
    ensures total == input.Millis() % MS_CYCLE
  {
    HornerForm(input);
    var hours := input.days * 24 + input.hours;
    var minutes := hours * 60 + input.minutes;
    var seconds := minutes * 60 + input.seconds;
    CarryModulo(h, hours, input.minutes, 60, HOUR_CYCLE, MINUTE_CYCLE, m);
    CarryModulo(m, minutes, input.seconds, 60, MINUTE_CYCLE, SECOND_CYCLE, s);
    CarryModulo(s, seconds, input.milliseconds, 1000, SECOND_CYCLE, MS_CYCLE, total);
  }

  class DateTimeDuration {
    var days: U32
    var hours: U32
    var minutes: U32
    var seconds: U32
    var milliseconds: U32
    var isNegative: bool

    function Value(): Span
      reads this
    {
      Span(days, hours, minutes, seconds, milliseconds, isNegative)
    }

    ghost predicate Valid()
      reads this
    {
      Value().Normal()
    }

    ghost function WholeHours(): nat
      reads `days, `hours
    {
      days * 24 + hours
    }

    ghost function WholeMinutes(): nat
      reads `days, `hours, `minutes
    {
      WholeHours() * 60 + minutes
    }

    ghost function WholeSeconds(): nat
      reads `days, `hours, `minutes, `seconds
    {
      WholeMinutes() * 60 + seconds
    }

    constructor (days: U32, hours: U32, minutes: U32, seconds: U32, milliseconds: U32, isNegative: bool)
      ensures Valid() && this.isNegative == isNegative
      ensures Value().Millis() == Span(days, hours, minutes, seconds, milliseconds, isNegative).Millis() % MS_CYCLE
      ensures Span(days, hours, minutes, seconds, milliseconds, isNegative).Normal() ==>
                Value() == Span(days, hours, minutes, seconds, milliseconds, isNegative)
    {
      new;
      SetDateTimeDuration(days, hours, minutes, seconds, milliseconds, isNegative);
    }

    /** Copying goes through the carrying setters too, and changes nothing. */
    constructor Copy(dur: DateTimeDuration)
      requires dur.Valid()
      ensures Value() == dur.Value()
    {
      new;
      SetDateTimeDuration(dur.days, dur.hours, dur.minutes, dur.seconds, dur.milliseconds, dur.isNegative);
    }

    /** The total is conserved, modulo the 2^32 days the day counter can hold. */
    method SetDateTimeDuration(days: U32, hours: U32, minutes: U32, seconds: U32, milliseconds: U32,
                               isNegative: bool)
      modifies this
      ensures Valid() && this.isNegative == isNegative
      ensures Value().Millis() == Span(days, hours, minutes, seconds, milliseconds, isNegative).Millis() % MS_CYCLE
      ensures Span(days, hours, minutes, seconds, milliseconds, isNegative).Normal() ==>
                Value() == Span(days, hours, minutes, seconds, milliseconds, isNegative)
    {
      this.isNegative := isNegative;
      this.days := days;
      SetHours(hours);
      ghost var h := WholeHours();
      SetMinutes(minutes);
      ghost var m := WholeMinutes();
      SetSeconds(seconds);
      ghost var s := WholeSeconds();
      SetMilliseconds(milliseconds);
      TotalIsCarried(Span(days, hours, minutes, seconds, milliseconds, isNegative), h, m, s, Value().Millis());
      AlreadyNormal(Value(), Span(days, hours, minutes, seconds, milliseconds, isNegative));
    }

    method SetHours(hours: U32)
      modifies `days, `hours
      ensures this.hours < 24
      ensures WholeHours() == (old(days) * 24 + hours) % HOUR_CYCLE
    {
      var left := hours;
      ghost var start := days * 24 + hours;
      ghost var laps := 0;
      while left >= 24
        invariant 0 <= left <= hours
        invariant days * 24 + left + laps * HOUR_CYCLE == start
      {
        if days == U32_SPAN - 1 { laps := laps + 1; }
        days := Wrap32(days + 1);
        left := left - 24;
      }
      this.hours := left;
      ModuloIsRemainder(start, laps, HOUR_CYCLE, WholeHours());
    }

    method SetMinutes(minutes: U32)
      requires hours < 24
      modifies `days, `hours, `minutes
      ensures hours < 24 && this.minutes < 60
      ensures WholeMinutes() == (old(WholeHours()) * 60 + minutes) % MINUTE_CYCLE
    {
      var left := minutes;
      ghost var start := WholeHours() * 60 + minutes;
      ghost var laps := 0;
      while left >= 60
        invariant 0 <= left <= minutes && hours < 24
        invariant WholeHours() * 60 + left + laps * MINUTE_CYCLE == start
      {
        ghost var whole := WholeHours();
        SetHours(hours + 1);
        NextModulo(whole, HOUR_CYCLE);
        if whole + 1 == HOUR_CYCLE { laps := laps + 1; }
        left := left - 60;
      }
      this.minutes := left;
      ModuloIsRemainder(start, laps, MINUTE_CYCLE, WholeMinutes());
    }

    method SetSeconds(seconds: U32)
      requires hours < 24 && minutes < 60
      modifies `days, `hours, `minutes, `seconds
      ensures hours < 24 && minutes < 60 && this.seconds < 60
      ensures WholeSeconds() == (old(WholeMinutes()) * 60 + seconds) % SECOND_CYCLE
    {
      var left := seconds;
      ghost var start := WholeMinutes() * 60 + seconds;
      ghost var laps := 0;
      while left >= 60
        invariant 0 <= left <= seconds && hours < 24 && minutes < 60
        invariant WholeMinutes() * 60 + left + laps * SECOND_CYCLE == start
      {
        ghost var whole := WholeMinutes();
        SetMinutes(minutes + 1);
        NextModulo(whole, MINUTE_CYCLE);
        if whole + 1 == MINUTE_CYCLE { laps := laps + 1; }
        left := left - 60;
      }
      this.seconds := left;
      ModuloIsRemainder(start, laps, SECOND_CYCLE, WholeSeconds());
    }

    method SetMilliseconds(milliseconds: U32)
      requires hours < 24 && minutes < 60 && seconds < 60
      modifies `days, `hours, `minutes, `seconds, `milliseconds
      ensures Valid()
      ensures Value().Millis() == (old(WholeSeconds()) * 1000 + milliseconds) % MS_CYCLE
    {
      var left := milliseconds;
      ghost var start := WholeSeconds() * 1000 + milliseconds;
      ghost var laps := 0;
      while left >= 1000
        invariant 0 <= left <= milliseconds && hours < 24 && minutes < 60 && seconds < 60
        invariant WholeSeconds() * 1000 + left + laps * MS_CYCLE == start
      {
        ghost var whole := WholeSeconds();
        SetSeconds(seconds + 1);
        NextModulo(whole, SECOND_CYCLE);
        if whole + 1 == SECOND_CYCLE { laps := laps + 1; }
        left := left - 1000;
      }
      this.milliseconds := left;
      ModuloIsRemainder(start, laps, MS_CYCLE, Value().Millis());
    }
  }
}
