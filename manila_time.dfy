/**
 * Manila wall-clock time (src/lib/time.ts): reading a `datetime-local` string
 * (`YYYY-MM-DDTHH:MM`) as a Manila wall-clock time under the fixed UTC+8
 * offset, and adding hours to an instant.
 */
module ManilaTime {
  import opened Wrappers
  import opened JsText
  import opened EcmaDate

  const ManilaOffsetHours: int := 8

  /** One element of `parts.map(Number)` after destructuring: `undefined` past the end. */
  datatype Field = Undefined | Defined(num: JsNumber)

  function FieldAt(parts: seq<string>, i: nat): Field {
    if i < |parts| then Defined(ToNumber(parts[i])) else Undefined
  }

  /** `Number.isNaN(f)`: false for `undefined`. */
  predicate IsNaN(f: Field) {
    f == Defined(NaN)
  }

  /** `ToNumber(f)` as Date.UTC applies it: `undefined` becomes NaN. */
  function AsNumber(f: Field): JsNumber {
    if f.Undefined? then NaN else f.num
  }

  /** `f - k`: `undefined - k` and `NaN - k` are NaN. */
  function Minus(f: Field, k: int): JsNumber {
    if f.Undefined? || f.num.NaN? then NaN else Int(f.num.value - k)
  }

  /** The date and time fields once the nulls have been ruled out (lines 6-12). */
  function FromFields(dateFields: seq<string>, timeFields: seq<string>): (r: Option<TimeValue>)
    ensures r.Some? && r.value.Instant? ==> |dateFields| >= 3 && |timeFields| >= 2
  {
    var year, month, day := FieldAt(dateFields, 0), FieldAt(dateFields, 1), FieldAt(dateFields, 2);
    var hour, minute := FieldAt(timeFields, 0), FieldAt(timeFields, 1);
    if IsNaN(year) || IsNaN(month) || IsNaN(day) || IsNaN(hour) || IsNaN(minute) then None
    else Some(DateUtc(AsNumber(year), Minus(month, 1), AsNumber(day), Minus(hour, ManilaOffsetHours), AsNumber(minute)))
  }

  /**
   * parseManilaLocal: `null` (None) for a value without a non-empty date part
   * and time part or with a NaN field; otherwise a Date, whose time value may
   * be NaN when a field was missing. A missing time part (`undefined`) is
   * falsy just like an empty one, so both are represented by "".
   */
  function ParseManilaLocal(value: string): (r: Option<TimeValue>)
    ensures r.Some? ==> 'T' in value
  {
    SplitCount(value, 'T');
    var halves := Split(value, 'T');
    var datePart := halves[0];
    var timePart := if |halves| > 1 then halves[1] else "";
    if datePart == "" || timePart == "" then None
    else FromFields(Split(datePart, '-'), Split(timePart, ':'))
  }

  /** addHours: `new Date(date.getTime() + hours * 3600000)`; the Date constructor clips. */
  function AddHours(date: TimeValue, hours: int): (r: TimeValue)
    ensures r.Instant? ==> date.Instant? && r.ms == date.ms + hours * MsPerHour
  {
    match date
    case InvalidDate => InvalidDate
    case Instant(ms) => TimeClip(ms + hours * MsPerHour)
  }

  /** The instant of a Manila wall-clock reading with integer fields, as the parser computes it. */
  function WallClockInstant(year: int, month: int, day: int, hour: int, minute: int): TimeValue {
    DateUtc(Int(year), Int(month - 1), Int(day), Int(hour - ManilaOffsetHours), Int(minute))
  }

  /** A `datetime-local` shaped string built from five field texts. */
  function Reading(year: string, month: string, day: string, hour: string, minute: string): string {
    year + "-" + month + "-" + day + "T" + hour + ":" + minute
  }

  predicate NoSeparators(s: string) {
    'T' !in s && '-' !in s && ':' !in s
  }

  // ---- Splitting at the first "T" ----

  /** The text before the first "T" is the date part and the text after it, up to any second "T", the time part. */
  lemma {:induction false} ParseHalves(datePart: string, timePart: string)
    requires 'T' !in datePart && 'T' !in timePart
    ensures ParseManilaLocal(datePart + "T" + timePart) ==
              (if datePart == "" || timePart == "" then None
               else FromFields(Split(datePart, '-'), Split(timePart, ':')))
  {
    SplitTwo(datePart, 'T', timePart);
  }

  /** A second "T" and everything after it are ignored. */
  lemma {:induction false} ParseIgnoresSecondT(datePart: string, timePart: string, rest: string)
    requires 'T' !in datePart && 'T' !in timePart
    ensures ParseManilaLocal(datePart + "T" + timePart + "T" + rest) == ParseManilaLocal(datePart + "T" + timePart)
  {
    SplitTwo(datePart, 'T', timePart);
    SplitTwoThenRest(datePart, 'T', timePart, rest);
  }

  /** Without a "T" there is no time part, so the result is null. */
  lemma ParseWithoutT(value: string)
    requires 'T' !in value
    ensures ParseManilaLocal(value) == None
  {
    SplitNoSep(value, 'T');
  }

  /** An empty date part or an empty time part gives null. */
  lemma ParseEmptyHalf(datePart: string, timePart: string)
    requires 'T' !in datePart && 'T' !in timePart
    requires datePart == "" || timePart == ""
    ensures ParseManilaLocal(datePart + "T" + timePart) == None
  {
    ParseHalves(datePart, timePart);
  }

  // ---- Complete readings ----

  lemma SplitReading(year: string, month: string, day: string, hour: string, minute: string)
    requires NoSeparators(year) && NoSeparators(month) && NoSeparators(day)
    requires NoSeparators(hour) && NoSeparators(minute)
    ensures Split(year + "-" + month + "-" + day, '-') == [year, month, day]
    ensures Split(hour + ":" + minute, ':') == [hour, minute]
    ensures Reading(year, month, day, hour, minute) == (year + "-" + month + "-" + day) + "T" + (hour + ":" + minute)
  {
    SplitThree(year, '-', month, day);
    SplitTwo(hour, ':', minute);
  }

  /** All five fields convert to numbers. */
  predicate AllNumbers(year: string, month: string, day: string, hour: string, minute: string) {
    ToNumber(year).Int? && ToNumber(month).Int? && ToNumber(day).Int? && ToNumber(hour).Int? && ToNumber(minute).Int?
  }

  /** Five present fields: null exactly when one is NaN, else the wall-clock instant. */
  lemma FromFiveFields(year: string, month: string, day: string, hour: string, minute: string)
    ensures !AllNumbers(year, month, day, hour, minute) ==> FromFields([year, month, day], [hour, minute]) == None
    ensures AllNumbers(year, month, day, hour, minute) ==>
              FromFields([year, month, day], [hour, minute])
              == Some(WallClockInstant(ToNumber(year).value, ToNumber(month).value, ToNumber(day).value,
                                       ToNumber(hour).value, ToNumber(minute).value))
  {
    if AllNumbers(year, month, day, hour, minute) {
      FiveNumbers(year, month, day, hour, minute);
    } else {
      FiveFieldsPresent(year, month, day, hour, minute);
    }
  }

  lemma FiveFieldsPresent(year: string, month: string, day: string, hour: string, minute: string)
    ensures FieldAt([year, month, day], 0) == Defined(ToNumber(year))
    ensures FieldAt([year, month, day], 1) == Defined(ToNumber(month))
    ensures FieldAt([year, month, day], 2) == Defined(ToNumber(day))
    ensures FieldAt([hour, minute], 0) == Defined(ToNumber(hour))
    ensures FieldAt([hour, minute], 1) == Defined(ToNumber(minute))
  {
  }

  lemma FiveNumbers(year: string, month: string, day: string, hour: string, minute: string)
    requires AllNumbers(year, month, day, hour, minute)
    ensures FromFields([year, month, day], [hour, minute])
            == Some(WallClockInstant(ToNumber(year).value, ToNumber(month).value, ToNumber(day).value,
                                     ToNumber(hour).value, ToNumber(minute).value))
  {
    FiveFieldsPresent(year, month, day, hour, minute);
    FiveInts([year, month, day], [hour, minute], ToNumber(year).value, ToNumber(month).value, ToNumber(day).value,
             ToNumber(hour).value, ToNumber(minute).value);
  }

  lemma FiveInts(dateFields: seq<string>, timeFields: seq<string>, y: int, mo: int, d: int, h: int, mi: int)
    requires FieldAt(dateFields, 0) == Defined(Int(y)) && FieldAt(dateFields, 1) == Defined(Int(mo))
    requires FieldAt(dateFields, 2) == Defined(Int(d))
    requires FieldAt(timeFields, 0) == Defined(Int(h)) && FieldAt(timeFields, 1) == Defined(Int(mi))
    ensures FromFields(dateFields, timeFields) == Some(WallClockInstant(y, mo, d, h, mi))
  {
    assert Minus(FieldAt(dateFields, 1), 1) == Int(mo - 1);
    assert Minus(FieldAt(timeFields, 0), ManilaOffsetHours) == Int(h - ManilaOffsetHours);
  }

  /**
   * A complete reading parses to null exactly when one of its five fields
   * converts to NaN, and otherwise to the instant of that Manila wall-clock
   * reading.
   */
  lemma ParseReading(year: string, month: string, day: string, hour: string, minute: string)
    requires NoSeparators(year) && NoSeparators(month) && NoSeparators(day)
    requires NoSeparators(hour) && NoSeparators(minute)
    ensures !AllNumbers(year, month, day, hour, minute) ==> ParseManilaLocal(Reading(year, month, day, hour, minute)) == None
    ensures AllNumbers(year, month, day, hour, minute) ==>
              ParseManilaLocal(Reading(year, month, day, hour, minute))
              == Some(WallClockInstant(ToNumber(year).value, ToNumber(month).value, ToNumber(day).value,
                                       ToNumber(hour).value, ToNumber(minute).value))
  {
    SplitReading(year, month, day, hour, minute);
    var d, t := year + "-" + month + "-" + day, hour + ":" + minute;
    assert 'T' !in d && 'T' !in t;
    ParseHalves(d, t);
    assert ParseManilaLocal(Reading(year, month, day, hour, minute)) == FromFields([year, month, day], [hour, minute]);
    FromFiveFields(year, month, day, hour, minute);
  }

  /** Only the first two time fields are read. */
  lemma FromFieldsReadsTwoTimeFields(dateFields: seq<string>, timeFields: seq<string>, more: seq<string>)
    requires |timeFields| == 2
    ensures FromFields(dateFields, timeFields + more) == FromFields(dateFields, timeFields)
  {
    assert FieldAt(timeFields + more, 0) == FieldAt(timeFields, 0);
    assert FieldAt(timeFields + more, 1) == FieldAt(timeFields, 1);
  }

  lemma SplitWithSeconds(hour: string, minute: string, rest: string)
    requires ':' !in hour && ':' !in minute
    ensures Split(hour + ":" + minute, ':') == [hour, minute]
    ensures Split(hour + ":" + minute + ":" + rest, ':') == [hour, minute] + Split(rest, ':')
  {
    assert ":" == [':'];
    SplitTwo(hour, ':', minute);
    SplitTwoThenRest(hour, ':', minute, rest);
  }

  /** Seconds, and anything else after the second ":"-separated field, are ignored. */
  lemma ParseIgnoresSeconds(datePart: string, hour: string, minute: string, rest: string)
    requires 'T' !in datePart && datePart != ""
    requires NoSeparators(hour) && NoSeparators(minute) && 'T' !in rest
    ensures ParseManilaLocal(datePart + "T" + hour + ":" + minute + ":" + rest)
            == ParseManilaLocal(datePart + "T" + hour + ":" + minute)
  {
    var t := hour + ":" + minute;
    var t' := hour + ":" + minute + ":" + rest;
    assert datePart + "T" + hour + ":" + minute + ":" + rest == datePart + "T" + t';
    assert datePart + "T" + hour + ":" + minute == datePart + "T" + t;
    assert 'T' !in t && 'T' !in t' && t != "" && t' != "";
    ParseHalves(datePart, t);
    ParseHalves(datePart, t');
    SplitWithSeconds(hour, minute, rest);
    FromFieldsReadsTwoTimeFields(Split(datePart, '-'), [hour, minute], Split(rest, ':'));
  }

  // ---- Missing fields ----

  /**
   * A field past the end of its part is `undefined`: `Number.isNaN(undefined)`
   * is false, so it passes the NaN test, but Date.UTC turns it into NaN and the
   * result is an Invalid Date rather than null.
   */
  lemma MissingFieldIsInvalidDate(dateFields: seq<string>, timeFields: seq<string>)
    requires !IsNaN(FieldAt(dateFields, 0)) && !IsNaN(FieldAt(dateFields, 1)) && !IsNaN(FieldAt(dateFields, 2))
    requires !IsNaN(FieldAt(timeFields, 0)) && !IsNaN(FieldAt(timeFields, 1))
    requires |dateFields| < 3 || |timeFields| < 2
    ensures FromFields(dateFields, timeFields) == Some(InvalidDate)
  {
  }

  /** "2024-05T10:00": the day is missing, so the result is an Invalid Date. */
  lemma ParseMissingDay(year: string, month: string, hour: string, minute: string)
    requires NoSeparators(year) && NoSeparators(month) && NoSeparators(hour) && NoSeparators(minute)
    requires ToNumber(year).Int? && ToNumber(month).Int? && ToNumber(hour).Int? && ToNumber(minute).Int?
    ensures ParseManilaLocal(year + "-" + month + "T" + hour + ":" + minute) == Some(InvalidDate)
  {
    var d, t := year + "-" + month, hour + ":" + minute;
    SplitTwo(year, '-', month);
    SplitTwo(hour, ':', minute);
    assert year + "-" + month + "T" + hour + ":" + minute == d + "T" + t;
    ParseHalves(d, t);
    assert ParseManilaLocal(d + "T" + t) == FromFields([year, month], [hour, minute]);
    MissingFieldIsInvalidDate([year, month], [hour, minute]);
  }

  /** "2024-05-01T10": the minute is missing, so the result is an Invalid Date. */
  lemma ParseMissingMinute(year: string, month: string, day: string, hour: string)
    requires NoSeparators(year) && NoSeparators(month) && NoSeparators(day) && NoSeparators(hour)
    requires ToNumber(year).Int? && ToNumber(month).Int? && ToNumber(day).Int? && ToNumber(hour).Int? && hour != ""
    ensures ParseManilaLocal(year + "-" + month + "-" + day + "T" + hour) == Some(InvalidDate)
  {
    var d := year + "-" + month + "-" + day;
    SplitThree(year, '-', month, day);
    SplitNoSep(hour, ':');
    ParseHalves(d, hour);
    assert ParseManilaLocal(d + "T" + hour) == FromFields([year, month, day], [hour]);
    MissingFieldIsInvalidDate([year, month, day], [hour]);
  }

  // ---- The instant of a wall-clock reading ----

  /** The parsed instant is the UTC reading of the same fields, moved back by the 8-hour offset. */
  lemma WallClockIsUtcMinusOffset(year: int, month: int, day: int, hour: int, minute: int)
    ensures WallClockInstant(year, month, day, hour, minute)
            == TimeClip(UtcMs(MakeFullYear(year), month - 1, day, hour, minute) - ManilaOffsetHours * MsPerHour)
  {
  }

  /** Raising the minute field by k moves the (unclipped) instant by k minutes. */
  lemma WallClockMinuteShift(year: int, month: int, day: int, hour: int, minute: int, k: int)
    ensures WallClockInstant(year, month, day, hour, minute + k)
            == TimeClip(UtcMs(MakeFullYear(year), month - 1, day, hour - ManilaOffsetHours, minute) + k * MsPerMinute)
  {
  }

  /** Out-of-range minutes, hours and days are carried, not rejected. */
  lemma WallClockTimeCarry(year: int, month: int, day: int, hour: int, minute: int)
    ensures WallClockInstant(year, month, day, hour, minute + 60) == WallClockInstant(year, month, day, hour + 1, minute)
    ensures WallClockInstant(year, month, day, hour + 24, minute) == WallClockInstant(year, month, day + 1, hour, minute)
  {
  }

  /** A day past the end of the month is a day of the next month (December runs into January). */
  lemma WallClockDayCarry(year: int, month: int, day: int, hour: int, minute: int)
    requires 1 <= month <= 12
    ensures WallClockInstant(year, month, DaysInMonth(MakeFullYear(year), month - 1) + day, hour, minute)
            == WallClockInstant(year, month + 1, day, hour, minute)
  {
    var y := MakeFullYear(year);
    DateCarry(y, month - 1, day);
    var last := DaysInMonth(y, month - 1) + day;
    assert MakeDay(y, month - 1, last) == MakeDay(y, month, day);
    assert WallClockInstant(year, month, last, hour, minute)
           == TimeClip(UtcMs(y, month - 1, last, hour - ManilaOffsetHours, minute));
    assert WallClockInstant(year, month + 1, day, hour, minute)
           == TimeClip(UtcMs(y, month, day, hour - ManilaOffsetHours, minute));
  }

  /**
   * Month 13 is January of the next year, except across the two-digit-year
   * boundaries: year 99 means 1999 but year 100 means 100, and year -1 means
   * -1 but year 0 means 1900.
   */
  lemma WallClockMonthCarry(year: int, month: int, day: int, hour: int, minute: int)
    requires year != -1 && year != 99
    ensures WallClockInstant(year, month + 12, day, hour, minute) == WallClockInstant(year + 1, month, day, hour, minute)
  {
    MonthCarry(MakeFullYear(year), month - 1, day);
  }

  /** Years 0 to 99 are read as 1900 to 1999. */
  lemma WallClockTwoDigitYear(year: int, month: int, day: int, hour: int, minute: int)
    requires 0 <= year <= 99
    ensures WallClockInstant(year, month, day, hour, minute) == WallClockInstant(1900 + year, month, day, hour, minute)
  {
  }

  // ---- addHours ----

  /** Adding zero hours gives the same date. */
  lemma AddHoursZero(date: TimeValue)
    ensures AddHours(date, 0) == date
  {
  }

  /** Adding hours to an Invalid Date gives an Invalid Date; otherwise the time value moves by whole hours. */
  lemma AddHoursShift(date: TimeValue, hours: int)
    ensures date.InvalidDate? ==> AddHours(date, hours).InvalidDate?
    ensures AddHours(date, hours).Instant? ==> date.Instant? && AddHours(date, hours).ms == date.ms + hours * MsPerHour
    ensures date.Instant? && -MaxTimeMs <= date.ms + hours * MsPerHour <= MaxTimeMs ==> AddHours(date, hours).Instant?
  {
  }

  /** Going back the same number of hours undoes addHours whenever its result is a valid date. */
  lemma AddHoursInverse(date: TimeValue, hours: int)
    requires AddHours(date, hours).Instant?
    ensures AddHours(AddHours(date, hours), -hours) == date
  {
  }

  /** Two additions make one, as long as the intermediate date stays in the time-value range. */
  lemma AddHoursCompose(date: TimeValue, a: int, b: int)
    requires date.InvalidDate? || AddHours(date, a).Instant?
    ensures AddHours(AddHours(date, a), b) == AddHours(date, a + b)
  {
  }

  /**
   * Without that condition composition fails: the intermediate date is clipped
   * to an Invalid Date, which no later addition repairs.
   */
  lemma AddHoursComposeNeedsRange()
    ensures AddHours(AddHours(Instant(0), 3_000_000_000), -3_000_000_000) == InvalidDate
    ensures AddHours(Instant(0), 3_000_000_000 + -3_000_000_000) == Instant(0)
  {
  }

  // ---- Examples ----

  lemma NumberExamples()
    ensures ToNumber("2024") == Int(2024) && ToNumber("05") == Int(5) && ToNumber("01") == Int(1)
    ensures ToNumber("10") == Int(10) && ToNumber("11") == Int(11) && ToNumber("00") == Int(0)
    ensures ToNumber("60") == Int(60) && ToNumber("5x") == NaN
  {
    assert "2024"[..3] == "202" && "202"[..2] == "20" && "20"[..1] == "2" && "2"[..0] == "";
    assert "05"[..1] == "0" && "01"[..1] == "0" && "10"[..1] == "1" && "11"[..1] == "1";
    assert "00"[..1] == "0" && "60"[..1] == "6" && "0"[..0] == "" && "1"[..0] == "" && "6"[..0] == "";
    assert !IsDigit("5x"[1]);
  }

  lemma FirstOfMay2024()
    ensures MakeDay(2024, 4, 1) == 19844
  {
    assert (2024 - 1969) / 4 == 13 && (2024 - 1901) / 100 == 1 && (2024 - 1601) / 400 == 1;
    assert DayFromYear(2024) == 19723;
    assert InLeapYear(2024);
  }

  lemma WallClockExample()
    ensures WallClockInstant(2024, 5, 1, 10, 0) == Instant(1_714_528_800_000)
  {
    FirstOfMay2024();
    assert UtcMs(2024, 4, 1, 2, 0) == 19844 * MsPerDay + 2 * MsPerHour;
  }

  /** 10:00 on 1 May 2024 in Manila is 02:00 UTC, 1714528800000 ms after the epoch. */
  lemma ParseExampleValid()
    ensures ParseManilaLocal("2024-05-01T10:00") == Some(Instant(1_714_528_800_000))
  {
    NumberExamples();
    assert "2024-05-01T10:00" == Reading("2024", "05", "01", "10", "00");
    ParseReading("2024", "05", "01", "10", "00");
    WallClockExample();
  }

  lemma ParseExampleSixtyMinutes()
    ensures ParseManilaLocal("2024-05-01T10:60") == Some(WallClockInstant(2024, 5, 1, 10, 60))
  {
    NumberExamples();
    assert "2024-05-01T10:60" == Reading("2024", "05", "01", "10", "60");
    ParseReading("2024", "05", "01", "10", "60");
  }

  lemma ParseExampleEleven()
    ensures ParseManilaLocal("2024-05-01T11:00") == Some(WallClockInstant(2024, 5, 1, 11, 0))
  {
    NumberExamples();
    assert "2024-05-01T11:00" == Reading("2024", "05", "01", "11", "00");
    ParseReading("2024", "05", "01", "11", "00");
  }

  /** Minute 60 reads as the next hour. */
  lemma ParseExampleMinuteCarry()
    ensures ParseManilaLocal("2024-05-01T10:60") == ParseManilaLocal("2024-05-01T11:00")
  {
    ParseExampleSixtyMinutes();
    ParseExampleEleven();
    WallClockTimeCarry(2024, 5, 1, 10, 0);
  }

  /** A missing day gives an Invalid Date. */
  lemma ParseExampleMissingDay()
    ensures ParseManilaLocal("2024-05T10:00") == Some(InvalidDate)
  {
    NumberExamples();
    assert "2024-05T10:00" == "2024" + "-" + "05" + "T" + "10" + ":" + "00";
    ParseMissingDay("2024", "05", "10", "00");
  }

  /** A missing minute gives an Invalid Date. */
  lemma ParseExampleMissingMinute()
    ensures ParseManilaLocal("2024-05-01T10") == Some(InvalidDate)
  {
    NumberExamples();
    assert "2024-05-01T10" == "2024" + "-" + "05" + "-" + "01" + "T" + "10";
    ParseMissingMinute("2024", "05", "01", "10");
  }

  /** A missing or empty time part gives null. */
  lemma ParseExampleNoTime()
    ensures ParseManilaLocal("2024-05-01") == None
    ensures ParseManilaLocal("2024-05-01T") == None
  {
    ParseWithoutT("2024-05-01");
    assert "2024-05-01T" == "2024-05-01" + "T" + "";
    ParseEmptyHalf("2024-05-01", "");
  }

  /** A field that is not a number makes the whole reading null. */
  lemma ParseExampleNaN()
    ensures ParseManilaLocal("2024-5x-01T10:00") == None
  {
    NumberExamples();
    ParseReading("2024", "5x", "01", "10", "00");
    assert "2024-5x-01T10:00" == Reading("2024", "5x", "01", "10", "00");
  }
}
