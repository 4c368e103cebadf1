/**
 * The time-value arithmetic behind `Date.UTC` and `new Date(ms)`, as ECMA-262
 * defines it (section 21.4.1: DaysInYear, DayFromYear, InLeapYear,
 * MonthFromTime, MakeTime, MakeDay, MakeDate, MakeFullYear, TimeClip; section
 * 21.4.3.4: Date.UTC). Calendar arithmetic is the proleptic Gregorian calendar
 * counted in days from 1 January 1970, over mathematical integers.
 */
module EcmaDate {
  import opened JsText

  const MsPerSecond: int := 1000
  const MsPerMinute: int := 60000
  const MsPerHour: int := 3600000
  const MsPerDay: int := 86400000
  /** A time value lies within 8.64e15 ms (100 000 000 days) of the epoch. */
  const MaxTimeMs: int := 8_640_000_000_000_000

  type TimeMs = t: int | -MaxTimeMs <= t <= MaxTimeMs

  /** The time value a Date object holds: NaN (an "Invalid Date") or milliseconds since the epoch. */
  datatype TimeValue = InvalidDate | Instant(ms: TimeMs)

  /** TimeClip: a time value out of range becomes NaN; one in range is kept as it is. */
  function TimeClip(t: int): (v: TimeValue)
    ensures v.InvalidDate? ==> t < -MaxTimeMs || MaxTimeMs < t
  {
    if -MaxTimeMs <= t <= MaxTimeMs then Instant(t) else InvalidDate
  }

  function DaysInYear(y: int): int {
    if y % 4 != 0 then 365
    else if y % 100 != 0 then 366
    else if y % 400 != 0 then 365
    else 366
  }

  predicate InLeapYear(y: int) {
    DaysInYear(y) == 366
  }

  /** The day number of 1 January of year y: negative exactly for the years before 1970. */
  function DayFromYear(y: int): (d: int)
    ensures d >= 0 <==> y >= 1970
  {
    365 * (y - 1970) + (y - 1969) / 4 - (y - 1901) / 100 + (y - 1601) / 400
  }

  /** The day within the year on which month m (0 = January) starts, per MonthFromTime. */
  function DaysBeforeMonth(m: int, leap: bool): int
    requires 0 <= m < 12
  {
    var l := if leap then 1 else 0;
    if m == 0 then 0
    else if m == 1 then 31
    else if m == 2 then 59 + l
    else if m == 3 then 90 + l
    else if m == 4 then 120 + l
    else if m == 5 then 151 + l
    else if m == 6 then 181 + l
    else if m == 7 then 212 + l
    else if m == 8 then 243 + l
    else if m == 9 then 273 + l
    else if m == 10 then 304 + l
    else 334 + l
  }

  /** The length of month m (0 = January) of year y, from the usual calendar table. */
  function DaysInMonth(y: int, m: int): int
    requires 0 <= m < 12
  {
    if m == 1 then (if InLeapYear(y) then 29 else 28)
    else if m == 3 || m == 5 || m == 8 || m == 10 then 30
    else 31
  }

  function MakeTime(hour: int, min: int, sec: int, ms: int): int {
    hour * MsPerHour + min * MsPerMinute + sec * MsPerSecond + ms
  }

  /**
   * MakeDay: the day number of date `date` of month `month` of `year`, where a
   * month outside 0..11 carries into the year (floor division) and a date
   * outside the month carries into the following or preceding months.
   */
  function MakeDay(year: int, month: int, date: int): (day: int)
    ensures 0 <= month < 12 && 1 <= date <= DaysInMonth(year, month) ==>
              DayFromYear(year) <= day < DayFromYear(year + 1)
  {
    var ym := year + month / 12;
    var mn := month % 12;
    YearLength(ym);
    MonthWithinYear(ym, mn);
    assert 0 <= month < 12 ==> ym == year && mn == month;
    DayFromYear(ym) + DaysBeforeMonth(mn, InLeapYear(ym)) + date - 1
  }

  function MakeDate(day: int, time: int): int {
    day * MsPerDay + time
  }

  /** MakeFullYear: years 0 to 99 stand for 1900 to 1999. */
  function MakeFullYear(y: int): int {
    if 0 <= y <= 99 then 1900 + y else y
  }

  /** `Date.UTC(year, month, date, hours, minutes)` with all five arguments passed. */
  function DateUtc(year: JsNumber, month: JsNumber, date: JsNumber, hours: JsNumber, minutes: JsNumber): (t: TimeValue)
    ensures t.Instant? ==> year.Int? && month.Int? && date.Int? && hours.Int? && minutes.Int?
  {
    if year.NaN? || month.NaN? || date.NaN? || hours.NaN? || minutes.NaN? then InvalidDate
    else
      var yr := MakeFullYear(year.value);
      TimeClip(MakeDate(MakeDay(yr, month.value, date.value), MakeTime(hours.value, minutes.value, 0, 0)))
  }

  /** The milliseconds of a UTC calendar reading, before clipping. */
  function UtcMs(year: int, month: int, date: int, hours: int, minutes: int): int {
    MakeDate(MakeDay(year, month, date), MakeTime(hours, minutes, 0, 0))
  }

  // ---- The calendar DayFromYear and the month table describe ----

  /** Day 0 is 1 January 1970. */
  lemma EpochIsDayZero()
    ensures DayFromYear(1970) == 0
    ensures MakeDay(1970, 0, 1) == 0
  {
  }

  /** Floor division by a fixed divisor steps up by one exactly at its multiples. */
  lemma FloorStep4(a: int)
    ensures (a + 1) / 4 - a / 4 == if (a + 1) % 4 == 0 then 1 else 0
  {
  }

  lemma FloorStep100(a: int)
    ensures (a + 1) / 100 - a / 100 == if (a + 1) % 100 == 0 then 1 else 0
  {
  }

  lemma FloorStep400(a: int)
    ensures (a + 1) / 400 - a / 400 == if (a + 1) % 400 == 0 then 1 else 0
  {
  }

  /** The three corrections of DayFromYear each step at the matching kind of year. */
  lemma LeapSteps(y: int)
    ensures (y - 1968) / 4 - (y - 1969) / 4 == if y % 4 == 0 then 1 else 0
    ensures (y - 1900) / 100 - (y - 1901) / 100 == if y % 100 == 0 then 1 else 0
    ensures (y - 1600) / 400 - (y - 1601) / 400 == if y % 400 == 0 then 1 else 0
  {
    FloorStep4(y - 1969);
    assert (y - 1968) % 4 == y % 4;
    FloorStep100(y - 1901);
    assert (y - 1900) % 100 == y % 100;
    FloorStep400(y - 1601);
    assert (y - 1600) % 400 == y % 400;
  }

  /** A year divisible by 400 is divisible by 100, and one divisible by 100 is divisible by 4. */
  lemma DivisibilityChain(y: int)
    ensures y % 400 == 0 ==> y % 100 == 0
    ensures y % 100 == 0 ==> y % 4 == 0
  {
    if y % 400 == 0 {
      MultipleOf400(y / 400);
    }
    if y % 100 == 0 {
      MultipleOf100(y / 100);
    }
  }

  lemma MultipleOf400(k: int)
    ensures (400 * k) % 100 == 0
  {
    assert 400 * k == 100 * (4 * k) + 0;
  }

  lemma MultipleOf100(k: int)
    ensures (100 * k) % 4 == 0
  {
    assert 100 * k == 4 * (25 * k) + 0;
  }

  /** A month ends no later than its year does. */
  lemma MonthWithinYear(y: int, m: int)
    requires 0 <= m < 12
    ensures DaysBeforeMonth(m, InLeapYear(y)) + DaysInMonth(y, m) <= DaysInYear(y)
  {
  }

  /** Consecutive years start DaysInYear apart: 366 days exactly in the Gregorian leap years. */
  lemma YearLength(y: int)
    ensures DayFromYear(y + 1) - DayFromYear(y) == DaysInYear(y)
  {
    LeapSteps(y);
    DivisibilityChain(y);
    var s4 := (y - 1968) / 4 - (y - 1969) / 4;
    var s100 := (y - 1900) / 100 - (y - 1901) / 100;
    var s400 := (y - 1600) / 400 - (y - 1601) / 400;
    assert DayFromYear(y + 1) - DayFromYear(y) == 365 + s4 - s100 + s400;
    assert DaysInYear(y) == 365 + s4 - s100 + s400;
  }

  /** Consecutive months start DaysInMonth apart, and December ends the year. */
  lemma MonthLength(y: int, m: int)
    requires 0 <= m < 12
    ensures m < 11 ==> DaysBeforeMonth(m + 1, InLeapYear(y)) == DaysBeforeMonth(m, InLeapYear(y)) + DaysInMonth(y, m)
    ensures m == 11 ==> DaysBeforeMonth(m, InLeapYear(y)) + DaysInMonth(y, m) == DaysInYear(y)
  {
  }

  // ---- Normalisation of out-of-range fields ----

  /** A month 12 past m is month m of the following year. */
  lemma MonthCarry(year: int, month: int, date: int)
    ensures MakeDay(year, month + 12, date) == MakeDay(year + 1, month, date)
  {
    assert (month + 12) / 12 == month / 12 + 1;
    assert (month + 12) % 12 == month % 12;
  }

  /** The 32nd of December is the 1st of January of the next year. */
  lemma DecemberCarry(year: int, date: int)
    ensures MakeDay(year, 11, 31 + date) == MakeDay(year, 12, date)
  {
    YearLength(year);
    assert 12 / 12 == 1 && 12 % 12 == 0 && 11 / 12 == 0 && 11 % 12 == 11;
    assert MakeDay(year, 12, date) == DayFromYear(year + 1) + date - 1;
    assert MakeDay(year, 11, 31 + date) == DayFromYear(year) + DaysBeforeMonth(11, InLeapYear(year)) + 31 + date - 1;
  }

  /** A date past the end of a month is counted on into the next month, December into January. */
  lemma DateCarry(year: int, month: int, date: int)
    requires 0 <= month < 12
    ensures MakeDay(year, month, DaysInMonth(year, month) + date) == MakeDay(year, month + 1, date)
  {
    if month == 11 {
      DecemberCarry(year, date);
    } else {
      MonthLength(year, month);
      assert month / 12 == 0 && month % 12 == month && (month + 1) / 12 == 0 && (month + 1) % 12 == month + 1;
    }
  }

  /** Dates are consecutive days; minutes past 59 and hours past 23 run on into the next hour and day. */
  lemma TimeCarry(year: int, month: int, date: int, hours: int, minutes: int)
    ensures UtcMs(year, month, date + 1, hours, minutes) == UtcMs(year, month, date, hours, minutes) + MsPerDay
    ensures UtcMs(year, month, date, hours, minutes + 60) == UtcMs(year, month, date, hours + 1, minutes)
    ensures UtcMs(year, month, date, hours + 24, minutes) == UtcMs(year, month, date + 1, hours, minutes)
  {
  }

  lemma DivModDay(q: int, r: int)
    requires 0 <= r < MsPerDay
    ensures (q * MsPerDay + r) / MsPerDay == q
    ensures (q * MsPerDay + r) % MsPerDay == r
  {
  }

  /**
   * The time value of a calendar reading with every field in range gives the
   * fields back: its whole days are the reading's day number, which lies in the
   * reading's year, and the rest is the time of day.
   */
  lemma UtcMsFields(year: int, month: int, date: int, hours: int, minutes: int)
    requires 0 <= month < 12 && 1 <= date <= DaysInMonth(year, month)
    requires 0 <= hours < 24 && 0 <= minutes < 60
    ensures UtcMs(year, month, date, hours, minutes) / MsPerDay == MakeDay(year, month, date)
    ensures UtcMs(year, month, date, hours, minutes) % MsPerDay == hours * MsPerHour + minutes * MsPerMinute
    ensures DayFromYear(year) <= UtcMs(year, month, date, hours, minutes) / MsPerDay < DayFromYear(year + 1)
  {
    var day := MakeDay(year, month, date);
    var time := hours * MsPerHour + minutes * MsPerMinute;
    assert MakeTime(hours, minutes, 0, 0) == time;
    assert 0 <= time < MsPerDay;
    DivModDay(day, time);
  }
}
