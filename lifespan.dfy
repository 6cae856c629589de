/**
  `CalculateRemainingTime` and the hour and minute components `FormatTimeSpan` reads from
  the resulting `TimeSpan`. Instants are `DateTime` tick counts (100 ns units since
  1 January of year 1); spans are signed tick counts. The current time is a parameter,
  and so is the fixed offset `AddDays(0.06 * 365.2425)` adds, in ticks.
 */
module Lifespan {
  import opened Wrappers
  import opened Gregorian
  import opened DateText

  const TicksPerMinute := 600_000_000
  const TicksPerHour := 36_000_000_000
  const TicksPerDay := 864_000_000_000

  /** The tick count of 31 December 9999 23:59:59.9999999, the largest `DateTime`. */
  const MaxTicks := 3_155_378_975_999_999_999

  /** A `DateTime` value, as its tick count. */
  type Instant = t: int | 0 <= t <= MaxTicks

  /** The years `AddYears` adds to the birth date. */
  const LifeYears := 70

  /** Midnight at the start of a date. */
  function DateToTicks(d: Date): (t: int)
    requires IsValid(d)
    ensures 0 <= t && t + TicksPerDay - 1 <= MaxTicks
    ensures t % TicksPerDay == 0
  {
    DayNumberRange(d);
    DayNumber(d) * TicksPerDay
  }

  /** Midnights follow calendar order and are at least a day apart. */
  lemma DateToTicksOrder(a: Date, b: Date)
    requires IsValid(a) && IsValid(b)
    ensures Before(a, b) <==> DateToTicks(a) < DateToTicks(b)
    ensures Before(a, b) ==> DateToTicks(a) + TicksPerDay <= DateToTicks(b)
    ensures a == b <==> DateToTicks(a) == DateToTicks(b)
  {
    DayNumberOrder(a, b);
  }

  /**
    What `CalculateRemainingTime` yields: `NoValue` is its `null` return (the strict parse
    failed), `OutOfRange` the `ArgumentOutOfRangeException` `AddYears` or `AddDays` throws
    when the date leaves the range of `DateTime`, `Span` the `TimeSpan` it returns.
   */
  datatype Remaining = NoValue | OutOfRange | Span(ticks: int)

  /** The target date: the birth date moved 70 years by `AddYears`. */
  function TargetDate(birth: Date): (r: Option<Date>)
    ensures r.Some? <==> MinYear <= birth.year + LifeYears <= MaxYear
    ensures IsValid(birth) && r.Some? ==>
      && IsValid(r.value)
      && r.value.year == birth.year + LifeYears
      && r.value.month == birth.month
      && r.value.day <= birth.day
  {
    AddYears(birth, LifeYears)
  }

  /** `birth.AddYears(70).AddDays(...) - now` for a parsed birth date. */
  function RemainingFromBirth(birth: Date, now: Instant, offset: int): (r: Remaining)
    requires IsValid(birth)
    ensures !r.NoValue?
    ensures r.Span? ==> -MaxTicks <= r.ticks <= MaxTicks
  {
    match TargetDate(birth)
    case None => OutOfRange
    case Some(target) =>
      var death := DateToTicks(target) + offset;
      if 0 <= death <= MaxTicks then Span(death - now) else OutOfRange
  }

  /** `CalculateRemainingTime(birthDateStr)` with `DateTime.Now` passed in as `now`. */
  function CalculateRemainingTime(s: string, now: Instant, offset: int): (r: Remaining)
    ensures r.NoValue? <==> ParseExact(s).None?
    ensures r.Span? ==> -MaxTicks <= r.ticks <= MaxTicks
  {
    match ParseExact(s)
    case None => NoValue
    case Some(birth) => RemainingFromBirth(birth, now, offset)
  }

  /** The largest offset considered: one year of days. */
  const MaxOffset := 366 * TicksPerDay

  /** The death instant of a birth date: midnight of the target date plus the offset. */
  function DeathTicks(birth: Date, offset: int): (t: int)
    requires IsValid(birth) && birth.year <= 2099 && 0 <= offset <= MaxOffset
    ensures offset <= t <= MaxTicks
  {
    var target := Date(birth.year + LifeYears, birth.month, Min(birth.day, DaysInMonth(birth.year + LifeYears, birth.month)));
    TargetBeforeYear2170(target);
    DateToTicks(target) + offset
  }

  lemma TargetBeforeYear2170(t: Date)
    requires IsValid(t) && t.year <= 2169
    ensures DateToTicks(t) < 2170 * 366 * TicksPerDay
  {
    DayNumberInYear(t);
    YearsMonotone(t.year + 1, 2170);
  }

  /**
    For a birth date of the years the lexical check admits, the result is a span, the
    target keeps the month, moves the year by 70 and clamps the day to the month's length,
    and the span is the signed distance from `now` to the death instant: positive exactly
    when the death instant is later than `now`, and never clamped to zero.
   */
  lemma RemainingIsSignedDistance(birth: Date, now: Instant, offset: int)
    requires IsValid(birth) && 1900 <= birth.year <= 2099 && 0 <= offset <= MaxOffset
    ensures TargetDate(birth)
         == Some(Date(birth.year + 70, birth.month, Min(birth.day, DaysInMonth(birth.year + 70, birth.month))))
    ensures RemainingFromBirth(birth, now, offset) == Span(DeathTicks(birth, offset) - now)
    ensures RemainingFromBirth(birth, now, offset).ticks > 0 <==> now < DeathTicks(birth, offset)
    ensures RemainingFromBirth(birth, now, offset).ticks < 0 <==> now > DeathTicks(birth, offset)
  {
    AddYearsClamps(birth, LifeYears);
  }

  /** For a text that parses to a birth date of 1900..2099, the result is the signed distance to the death instant. */
  lemma RemainingOfParsedText(s: string, birth: Date, now: Instant, offset: int)
    requires ParseExact(s) == Some(birth) && 1900 <= birth.year <= 2099 && 0 <= offset <= MaxOffset
    ensures CalculateRemainingTime(s, now, offset) == Span(DeathTicks(birth, offset) - now)
  {
    RemainingIsSignedDistance(birth, now, offset);
  }

  /**
    A later birth date never leaves less time, and leaves the same time only for 28 and
    29 February of one leap year, which both land on 28 February seventy years later.
   */
  lemma LaterBirthNoLessTime(b1: Date, b2: Date, now: Instant, offset: int)
    requires IsValid(b1) && IsValid(b2) && Before(b1, b2)
    requires 1900 <= b1.year <= 2099 && 1900 <= b2.year <= 2099 && 0 <= offset <= MaxOffset
    ensures RemainingFromBirth(b1, now, offset).ticks <= RemainingFromBirth(b2, now, offset).ticks
    ensures RemainingFromBirth(b1, now, offset).ticks == RemainingFromBirth(b2, now, offset).ticks
        <==> b1 == Date(b1.year, 2, 28) && b2 == Date(b1.year, 2, 29)
  {
    RemainingIsSignedDistance(b1, now, offset);
    RemainingIsSignedDistance(b2, now, offset);
    var t1, t2 := TargetDate(b1).value, TargetDate(b2).value;
    AddYearsMonotone(b1, b2, LifeYears);
    DateToTicksOrder(t1, t2);
    if b2 == Date(b1.year, 2, 29) {
      LeapDayClampedAfterSeventy(b1.year);
    }
  }

  // ---------------------------------------------------------------- TimeSpan components

  /** C#'s integer division on `long`: the quotient truncated toward zero. */
  function TruncDiv(a: int, b: int): (q: int)
    requires b > 0
    ensures a >= 0 ==> 0 <= q * b <= a < q * b + b
    ensures a <= 0 ==> q * b - b < a <= q * b <= 0
  {
    if a >= 0 then a / b else -((-a) / b)
  }

  /** C#'s `%` on `long`: the remainder takes the sign of the dividend. */
  function TruncRem(a: int, b: int): (r: int)
    requires b > 0
    ensures a >= 0 ==> 0 <= r < b
    ensures a <= 0 ==> -b < r <= 0
    ensures a == b * TruncDiv(a, b) + r
  {
    a - b * TruncDiv(a, b)
  }

  /** `TimeSpan.Hours`: whole hours of the span, less its whole days. */
  function Hours(span: int): (h: int)
    ensures -23 <= h <= 23
    ensures span >= 0 ==> h >= 0
    ensures span <= 0 ==> h <= 0
  {
    TruncRem(TruncDiv(span, TicksPerHour), 24)
  }

  /** `TimeSpan.Minutes`: whole minutes of the span, less its whole hours. */
  function Minutes(span: int): (m: int)
    ensures -59 <= m <= 59
    ensures span >= 0 ==> m >= 0
    ensures span <= 0 ==> m <= 0
  {
    TruncRem(TruncDiv(span, TicksPerMinute), 60)
  }

  lemma NestedDivNonNegative(a: int)
    requires a >= 0
    ensures (a / TicksPerMinute) / 60 == a / TicksPerHour
    ensures (a / TicksPerHour) / 24 == a / TicksPerDay
  {
  }

  lemma NestedTruncDiv(a: int)
    ensures TruncDiv(TruncDiv(a, TicksPerMinute), 60) == TruncDiv(a, TicksPerHour)
    ensures TruncDiv(TruncDiv(a, TicksPerHour), 24) == TruncDiv(a, TicksPerDay)
  {
    if a >= 0 {
      NestedDivNonNegative(a);
    } else {
      NestedDivNonNegative(-a);
    }
  }

  /**
    The components put the span back together: whole days, then `Hours`, then `Minutes`,
    then less than a minute, every part carrying the sign of the span.
   */
  lemma SpanComponents(span: int)
    ensures span == TruncDiv(span, TicksPerDay) * TicksPerDay + Hours(span) * TicksPerHour
                  + Minutes(span) * TicksPerMinute + TruncRem(span, TicksPerMinute)
  {
    NestedTruncDiv(span);
  }

  /** Negating a span negates both components. */
  lemma ComponentsOfNegatedSpan(span: int)
    ensures Hours(-span) == -Hours(span) && Minutes(-span) == -Minutes(span)
  {
  }

  // ---------------------------------------------------------------- examples

  /** 29.02.2024 aims at 28.02.2094. */
  lemma LeapDayTarget()
    ensures TargetDate(Date(2024, 2, 29)) == Some(Date(2094, 2, 28))
  {
  }

  /** A birth date long past gives a negative span rather than zero. */
  lemma PastTargetIsNegative(offset: int)
    requires 0 <= offset <= MaxOffset
    ensures var now := DateToTicks(Date(2026, 10, 16));
      RemainingFromBirth(Date(1900, 1, 1), now, offset).Span?
      && RemainingFromBirth(Date(1900, 1, 1), now, offset).ticks < 0
  {
    RemainingIsSignedDistance(Date(1900, 1, 1), DateToTicks(Date(2026, 10, 16)), offset);
    DateToTicksOrder(Date(1971, 1, 1), Date(2026, 10, 16));
    DateToTicksOrder(Date(1970, 1, 1), Date(1971, 1, 1));
  }
}
