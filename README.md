# Hotel console: Manila time, room availability and room capacity

This project models three pieces of decision logic from a staff-facing hotel
operations console. Each piece is stated in Dafny, and its properties are proved:

- **Manila wall-clock time** (`src/lib/time.ts`):
  - `parseManilaLocal` turns a `datetime-local` string such as
    `2024-05-01T10:00` into an instant. It treats the string as a reading in
    Manila's fixed UTC+8 offset.
  - `addHours` shifts an instant by a number of hours.
  - The model has three outcomes for the parser: `null`, a Date whose time
    value is NaN (an *Invalid Date*), and a valid instant.
  - `Date.UTC` and the `Date` constructor are modelled as ECMA-262 (section
    21.4.3.4, with MakeTime, MakeDay, MakeDate, MakeFullYear and TimeClip of
    section 21.4.1) defines them, over unbounded integers.
  - `String.prototype.split` and `Number` are modelled in module `JsText`.
- **Available rooms** (`GET /api/available-rooms?check_in&stay_hours&pax`):
  - The handler validates its three parameters and computes check-out as
    check-in plus the stay hours.
  - It collects the rooms held by an active booking (reserved or checked in)
    whose window overlaps the half-open stay window.
  - It answers with the other rooms that are not under maintenance and are
    big enough, ordered by room number.
  - The two database queries are modelled as filters and a sort over the rows
    passed in.
  - When `toISOString` throws on an Invalid Date, the model returns the
    outcome `Threw`.
- **Room capacity** (`src/components/RoomForm.tsx`):
  - The capacity the room form displays for each room type: Single 1,
    Double 2, Family 4, and empty for anything else.
  - The capacity the rooms page stores with a room.

Modules:

- `Wrappers`: `Option`.
- `JsText`: `split` with a one-character separator, and `Number` on digit strings.
- `EcmaDate`: the calendar and `Date.UTC`.
- `ManilaTime`: the parser and `addHours`.
- `RoomCapacity`: the capacity table.
- `AvailableRooms`: the route handler.

Three behaviours of the code are easy to mistake:

- **Room order.** The route orders by the `room_number` text column, so the
  model sorts by code-point lexicographic order (`"10"` before `"9"`). The
  rooms page (`src/app/(protected)/rooms/page.tsx`, lines 34-41) re-sorts its
  own list numerically, but the available-rooms answer is not re-sorted.
- **Bad check-in values.** The parser returns null only for a missing or empty
  half, or a NaN field. It returns an Invalid Date, not null, when a trailing date or
  time field is missing. The route then throws instead of answering 400 (see
  Findings).
- **Unknown room types.** The form displays an empty capacity for a type it
  does not know, while the rooms page stores capacity 1 for it
  (`src/app/(protected)/rooms/page.tsx`, line 74).

## Model

| member | source | states |
|---|---|---|
| JsText.SplitJoin | src/lib/time.ts:4 | joining the pieces of `split` with the separator gives back the original string, so `split` loses nothing |
| JsText.SplitPiecesFree | src/lib/time.ts:4 | no piece produced by `split` contains the separator |
| JsText.SplitNoSep | src/lib/time.ts:4-5 | a string without the separator splits into itself alone, so a value without "T" has no time part |
| JsText.SplitCount | src/lib/time.ts:4-5 | `split` yields more than one piece exactly when the separator occurs, so a value without "T" has no time part |
| JsText.SplitFirst | src/lib/time.ts:4 | the first occurrence of the separator ends the first piece, and the rest splits on its own |
| JsText.SplitTwo | src/lib/time.ts:7 | `h:m` splits into exactly `[h, m]` when neither part holds ":" |
| JsText.SplitTwoThenRest | src/lib/time.ts:7 | `h:m:rest` splits into `[h, m]` followed by the pieces of `rest` |
| JsText.SplitThree | src/lib/time.ts:6 | `y-m-d` splits into exactly `[y, m, d]` when no part holds "-" |
| JsText.Split | src/lib/time.ts:4 | `split` always yields at least one piece, so the first destructured element is always a string |
| JsText.DecimalString | src/lib/time.ts:6-7 | the decimal writing of a natural number is a non-empty digit string |
| JsText.ToNumberDecimalString | src/lib/time.ts:6-7 | `Number` applied to the decimal writing of n gives back n |
| JsText.ToNumber | src/lib/time.ts:6-7 | `Number("")` is 0: an empty field reads as zero, not NaN |
| JsText.ToNumberLeadingZero | src/lib/time.ts:6-7 | a leading zero never changes the value (`Number("05")` is `Number("5")`), and a NaN field stays NaN |
| EcmaDate.EpochIsDayZero | src/lib/time.ts:11 | day 0 of the time value is 1 January 1970 |
| EcmaDate.TimeClip | src/lib/time.ts:12 | a time value becomes NaN only when it lies more than 8.64e15 ms from the epoch |
| EcmaDate.DayFromYear | src/lib/time.ts:11 | the day number of 1 January is negative exactly for the years before 1970 |
| EcmaDate.LeapSteps | src/lib/time.ts:11 | each floor term of DayFromYear grows by one exactly at years divisible by 4, 100 and 400 respectively |
| EcmaDate.YearLength | src/lib/time.ts:11 | consecutive years start DaysInYear days apart (366 exactly in Gregorian leap years), so DayFromYear is the proleptic Gregorian calendar |
| EcmaDate.MonthLength | src/lib/time.ts:11 | each month starts where the previous one ends, and December ends where the year does |
| EcmaDate.MonthWithinYear | src/lib/time.ts:11 | no month ends after the end of its year |
| EcmaDate.MakeDay | src/lib/time.ts:11 | a valid date (month 0 to 11, day 1 to the month's length) falls on a day within its own year |
| EcmaDate.MonthCarry | src/lib/time.ts:11 | month m + 12 of a year is month m of the next year |
| EcmaDate.DecemberCarry | src/lib/time.ts:11 | day 31 + d of December is day d of the following January |
| EcmaDate.DateCarry | src/lib/time.ts:11 | a date past the end of a month carries into the next month |
| EcmaDate.TimeCarry | src/lib/time.ts:11 | minute 60 is the next hour, hour 24 is the next day, and the next day is 86 400 000 ms later |
| EcmaDate.DateUtc | src/lib/time.ts:11 | `Date.UTC` yields an instant only when all five arguments are numbers |
| EcmaDate.UtcMsFields | src/lib/time.ts:11 | for in-range fields the time value gives the fields back: its whole days are the reading's day number, which lies in the reading's year, and the remainder is hours × 3 600 000 + minutes × 60 000 |
| ManilaTime.ParseHalves | src/lib/time.ts:4-5 | the value is cut at the first "T": null when the date or time half is empty, else the fields of the two halves |
| ManilaTime.ParseIgnoresSecondT | src/lib/time.ts:4 | anything after a second "T" is ignored |
| ManilaTime.ParseWithoutT | src/lib/time.ts:4-5 | a value without "T" parses to null |
| ManilaTime.ParseEmptyHalf | src/lib/time.ts:5 | an empty date half or time half gives null |
| ManilaTime.SplitReading | src/lib/time.ts:4-7 | a well-formed reading splits into its five field texts |
| ManilaTime.FromFields | src/lib/time.ts:6-12 | a valid instant is produced only when all three date fields and both time fields are present |
| ManilaTime.FromFiveFields | src/lib/time.ts:6-12 | with all five fields present, the result is null exactly when one is NaN, and otherwise the Manila wall-clock instant of the fields |
| ManilaTime.ParseReading | src/lib/time.ts:3-12 | a `YYYY-MM-DDTHH:MM` reading parses to null exactly when a field is not a number, and otherwise to the instant of that Manila wall-clock reading |
| ManilaTime.ParseManilaLocal | src/lib/time.ts:3-13 | a value without "T" never parses to a Date |
| ManilaTime.FromFieldsReadsTwoTimeFields | src/lib/time.ts:7 | time fields after the second are never read |
| ManilaTime.SplitWithSeconds | src/lib/time.ts:7 | `h:m:rest` has `h` and `m` as its first two time fields |
| ManilaTime.ParseIgnoresSeconds | src/lib/time.ts:7 | seconds, and anything after the second ":", do not change the result |
| ManilaTime.MissingFieldIsInvalidDate | src/lib/time.ts:6-11 | a missing date or time field passes the NaN check (`undefined` is not NaN) and yields an Invalid Date, not null |
| ManilaTime.ParseMissingDay | src/lib/time.ts:6-11 | `YYYY-MMTHH:MM` with numeric fields parses to an Invalid Date |
| ManilaTime.ParseMissingMinute | src/lib/time.ts:7-11 | `YYYY-MM-DDTHH` with numeric fields parses to an Invalid Date |
| ManilaTime.WallClockIsUtcMinusOffset | src/lib/time.ts:11 | the parsed instant is the UTC milliseconds of the reading minus 8 × 3 600 000, clipped to the Date range |
| ManilaTime.WallClockMinuteShift | src/lib/time.ts:11 | raising the minute by k raises the unclipped instant by k × 60 000 ms |
| ManilaTime.WallClockTimeCarry | src/lib/time.ts:11 | minute 60 reads as the next hour at minute 0, hour 24 as the next day |
| ManilaTime.WallClockDayCarry | src/lib/time.ts:11 | a day past the end of the month reads as that day of the next month |
| ManilaTime.WallClockMonthCarry | src/lib/time.ts:11 | month 13 reads as January of the next year, for every year but -1 and 99 |
| ManilaTime.WallClockTwoDigitYear | src/lib/time.ts:11 | years 0-99 read as 1900-1999 |
| ManilaTime.AddHours | src/lib/time.ts:15-17 | a valid result is the date moved by exactly hours × 3 600 000 ms |
| ManilaTime.AddHoursZero | src/lib/time.ts:15-17 | adding zero hours changes nothing |
| ManilaTime.AddHoursShift | src/lib/time.ts:15-17 | the result is the date plus hours × 3 600 000 ms when that is in the Date range; an Invalid Date or an out-of-range sum gives an Invalid Date |
| ManilaTime.AddHoursInverse | src/lib/time.ts:15-17 | adding h hours and then -h hours gives back the date while the intermediate is valid |
| ManilaTime.AddHoursCompose | src/lib/time.ts:15-17 | adding a hours and then b hours is adding a + b hours, while the intermediate is valid |
| ManilaTime.AddHoursComposeNeedsRange | src/lib/time.ts:15-17 | the Date constructor clips: 3 000 000 000 hours forward and back again is an Invalid Date, not the start |
| ManilaTime.NumberExamples | src/lib/time.ts:6-7 | `Number` of the fields of sample readings, and NaN for "5x" |
| ManilaTime.WallClockExample | src/lib/time.ts:1-11 | 10:00 on 1 May 2024 in Manila is 1 714 528 800 000 ms, 02:00 UTC |
| ManilaTime.ParseExampleValid | src/lib/time.ts:3-12 | `2024-05-01T10:00` parses to 1 714 528 800 000 ms |
| ManilaTime.ParseExampleMinuteCarry | src/lib/time.ts:11 | `2024-05-01T10:60` parses to the same instant as `2024-05-01T11:00` |
| ManilaTime.ParseExampleMissingDay | src/lib/time.ts:6-11 | `2024-05T10:00` parses to an Invalid Date |
| ManilaTime.ParseExampleMissingMinute | src/lib/time.ts:7-11 | `2024-05-01T10` parses to an Invalid Date |
| ManilaTime.ParseExampleNoTime | src/lib/time.ts:4-5 | `2024-05-01` and `2024-05-01T` parse to null |
| ManilaTime.ParseExampleNaN | src/lib/time.ts:8-10 | `2024-5x-01T10:00` parses to null |
| RoomCapacity.CapacityTable | src/components/RoomForm.tsx:15-19 | Single shows capacity 1, Double 2, Family 4 |
| RoomCapacity.CapacityFor | src/components/RoomForm.tsx:15-23 | a capacity the form displays is always the capacity stored with a room of that type |
| RoomCapacity.CapacityOtherTypes | src/components/RoomForm.tsx:23 | the capacity display is empty exactly for types other than the three, including the "Select type" value "" |
| RoomCapacity.CapacityValues | src/components/RoomForm.tsx:15-19 | a displayed capacity is one of 1, 2 and 4, and Single < Double < Family |
| RoomCapacity.InitialCapacity | src/components/RoomForm.tsx:22-23 | a new room's form starts with an empty capacity; an edited room's starts with its own type's capacity |
| RoomCapacity.StoredMatchesDisplay | src/components/RoomForm.tsx:15-23 | the capacity the rooms page stores with a room (`rooms/page.tsx`, line 74) equals the one the form displays for the three types, and is 1 for any other type |
| RoomCapacity.StoredCapacity | src/app/api/available-rooms/route.ts:37 | the capacity the rooms page writes when it adds a room and when it updates one (`rooms/page.tsx`, lines 74 and 111), which this filter compares pax against, is always 1, 2 or 4 |
| AvailableRooms.ConflictIds | src/app/api/available-rooms/route.ts:25-32 | an id is among the conflict ids exactly when some active booking of that room overlaps the stay window |
| AvailableRooms.Candidates | src/app/api/available-rooms/route.ts:33-37 | the candidates are the rooms not under maintenance with capacity at least pax, each as often as in the table |
| AvailableRooms.WithoutIds | src/app/api/available-rooms/route.ts:40-42 | the exclusion drops exactly the rooms whose id is listed and keeps the others with their multiplicity |
| AvailableRooms.LexLeTotal | src/app/api/available-rooms/route.ts:38 | any two room numbers are ordered one way or the other |
| AvailableRooms.LexLeTransitive | src/app/api/available-rooms/route.ts:38 | the room-number order is transitive |
| AvailableRooms.LexLeAntisymmetric | src/app/api/available-rooms/route.ts:38 | two room numbers ordered both ways are equal |
| AvailableRooms.Insert | src/app/api/available-rooms/route.ts:38 | inserting a room into a sorted sequence keeps it sorted and adds exactly that room |
| AvailableRooms.SortByNumber | src/app/api/available-rooms/route.ts:38 | the ordered result is sorted by room number and a permutation of its input |
| AvailableRooms.RoomsQuery | src/app/api/available-rooms/route.ts:33-44 | the rooms query answers rooms sorted by room number, each drawn from the table at most as often as it appears there |
| AvailableRooms.Available | src/app/api/available-rooms/route.ts:25-45 | the rooms offered for a window are sorted by room number and drawn from the table |
| AvailableRooms.EmptyExclusionKeepsAll | src/app/api/available-rooms/route.ts:40-42 | skipping the exclusion when there are no conflict ids gives the same rooms as applying it |
| AvailableRooms.WithoutNoIds | src/app/api/available-rooms/route.ts:40-42 | excluding no ids keeps every room in order |
| AvailableRooms.AvailableSpec | src/app/api/available-rooms/route.ts:25-45 | the answer is sorted by room number and holds each eligible, unblocked room as often as the table does, and nothing else |
| AvailableRooms.AvailableSound | src/app/api/available-rooms/route.ts:32-42 | every room offered is in the table, not under maintenance, large enough and not blocked |
| AvailableRooms.AvailableComplete | src/app/api/available-rooms/route.ts:33-45 | every room in the table that is not under maintenance, large enough and not blocked is offered |
| AvailableRooms.BackToBackDoesNotBlock | src/app/api/available-rooms/route.ts:29-30 | for any two windows, a booking ending when the stay starts, or starting when it ends, does not block |
| AvailableRooms.Blocks | src/app/api/available-rooms/route.ts:28-30 | the conflict test of the bookings query: an active booking that starts before the stay ends and ends after it starts; BlocksIffOverlap states what it means |
| AvailableRooms.BlocksIffOverlap | src/app/api/available-rooms/route.ts:28-30 | for non-empty windows, an active booking blocks exactly when it shares an instant with the stay |
| AvailableRooms.ActiveOnly | src/app/api/available-rooms/route.ts:28 | the active bookings are exactly the reserved and checked-in ones |
| AvailableRooms.ConflictIdsIgnoreInactive | src/app/api/available-rooms/route.ts:28 | dropping the cancelled and checked-out bookings leaves the conflict ids unchanged |
| AvailableRooms.InactiveBookingsIgnored | src/app/api/available-rooms/route.ts:28 | cancelled and checked-out bookings never change the rooms offered |
| AvailableRooms.OccupiedRoomOffered | src/app/api/available-rooms/route.ts:36 | an occupied room with no active booking is offered: status alone excludes only maintenance |
| AvailableRooms.DisplayedCapacityBoundsPax | src/app/api/available-rooms/route.ts:37 | a room stored with its type's capacity is never offered to a party larger than the capacity the room form displays for that type, nor to more than one guest when the form knows no such type |
| AvailableRooms.GetMissing | src/app/api/available-rooms/route.ts:11-13 | the answer is 400 "Missing dates." exactly when a parameter is absent or empty, before any other check |
| AvailableRooms.Get | src/app/api/available-rooms/route.ts:5-46 | an error answer carries one of the two messages, and a room list is sorted by room number and drawn from the table |
| AvailableRooms.GetInvalid | src/app/api/available-rooms/route.ts:15-20 | with all parameters present, the answer is 400 "Invalid dates." exactly when check-in parses to null or stay hours or pax is NaN or not positive |
| AvailableRooms.GetThrows | src/app/api/available-rooms/route.ts:22-30 | past validation, the handler throws exactly when check-in or check-out is an Invalid Date |
| AvailableRooms.GetRooms | src/app/api/available-rooms/route.ts:15-45 | a successful answer holds the rooms available from the parsed check-in to exactly stay hours later, for the parsed party size |
| AvailableRooms.GetThrowsOnInvalidDate | src/app/api/available-rooms/route.ts:17-30 | a check-in parsing to an Invalid Date, with valid stay hours and pax, makes the handler throw |
| AvailableRooms.GetThrowsOnMissingDay | src/app/api/available-rooms/route.ts:17-30 | `check_in=2024-05T10:00&stay_hours=3&pax=1` makes the handler throw |
| AvailableRooms.GetValidated | src/app/api/available-rooms/route.ts:18-22 | the handler that also rejects an Invalid Date never throws; its errors carry one of the two messages and its room lists are sorted and drawn from the table |
| AvailableRooms.GetValidatedNeverThrows | src/app/api/available-rooms/route.ts:18-22 | the handler that also rejects an Invalid Date check-in or check-out never throws, answers "Invalid dates." where the original throws, and otherwise answers as the original |

## Left out

- `formatManilaDateTime` and `formatManilaInput` (src/lib/time.ts:19-42): they format through `Intl.DateTimeFormat` with an IANA zone, a library outside this model.
- `Number` on anything but decimal digit strings and "": whitespace, signs, decimal points, exponents, hexadecimal and `Infinity` are all read as NaN. Fractional stay hours, pax and minutes are therefore not modelled.
- Floating-point rounding: time values and products are unbounded integers, so rounding of values beyond 2^53 is not modelled.
- The database: the Supabase client, the query builder and the `(1,2,3)` id-list string are replaced by the tables passed in as sequences. Timestamp comparisons in the database are modelled as comparisons of the instants' milliseconds. The `toISOString` text is not modelled; only its throwing on an Invalid Date is.
- AvailableRooms.SortByNumber: the database's collation is modelled as code-point order. The relative order of rooms with equal room numbers is left unconstrained, as with SQL `ORDER BY`.
- SQL NULL in `capacity` or `status`, and booking status texts other than the four known ones, are not modelled.
- RoomCapacity.CapacityFor: the JavaScript lookup also finds inherited object keys such as "toString". The model treats every key outside the three types as absent.
- Database errors: the model assumes both queries succeed. When the conflicts query fails, the route reads `(conflicts || [])` as no conflicts and offers rooms that are booked; when the rooms query fails, it answers `rooms ?? []`, an empty list. AvailableSound and AvailableComplete describe successful queries only.
- The HTTP status of the thrown error (a 500 from the framework) is not modelled; the outcome is `Threw`.
- ManilaTime.AddHoursCompose: requires the intermediate date to be valid, because the Date constructor clips to an Invalid Date (AddHoursComposeNeedsRange shows the composition failing otherwise).
- ManilaTime.WallClockMonthCarry: excludes the years -1 and 99, where adding a year crosses the two-digit-year window of MakeFullYear.
- ManilaTime.AddHoursInverse: requires the intermediate date to be valid, for the same reason as AddHoursCompose.
- The form's React state, the other UI components, authentication, middleware, login and the booking operations are not part of this model.

## Findings

| source | as written | input that shows it | evidently intended | confidence | as-written member | corrected member |
|---|---|---|---|---|---|---|
| src/app/api/available-rooms/route.ts:18-30 | an Invalid Date check-in is truthy, so it passes the `!checkInDate` test, and `toISOString` then throws | `check_in=2024-05T10:00&stay_hours=3&pax=1` | answer 400 "Invalid dates." for a check-in that is not a valid instant | not executed | AvailableRooms.GetThrowsOnMissingDay | AvailableRooms.GetValidatedNeverThrows |
