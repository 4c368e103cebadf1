/**
 * The available-rooms endpoint (src/app/api/available-rooms/route.ts):
 * `GET ?check_in&stay_hours&pax` validates its parameters, computes the stay
 * window, collects the rooms held by active bookings overlapping that window,
 * and answers with the other rooms that are not under maintenance and are big
 * enough, ordered by room number. The two database queries are modelled as
 * filters over the rows passed in.
 */
module AvailableRooms {
  import opened Wrappers
  import opened JsText
  import opened EcmaDate
  import opened ManilaTime
  import RoomCapacity

  datatype RoomStatus = Vacant | Occupied | Maintenance

  /** A row of `rooms`: `id, room_number, status, capacity`. */
  datatype Room = Room(id: int, roomNumber: string, status: RoomStatus, capacity: int)

  datatype BookingStatus = Reserved | CheckedIn | CheckedOut | Cancelled

  /** A row of `bookings`, with its check-in and check-out instants in milliseconds. */
  datatype Booking = Booking(roomId: int, checkIn: int, checkOut: int, status: BookingStatus)

  /** The handler's outcomes: a 400 with an error message, a 200 with rooms, or an uncaught RangeError. */
  datatype Response = BadRequest(error: string) | Rooms(rooms: seq<Room>) | Threw

  const MissingDates: string := "Missing dates."
  const InvalidDates: string := "Invalid dates."

  /** A query parameter is truthy: present (`get` is not null) and not empty. */
  predicate Present(param: Option<string>) {
    param.Some? && param.value != ""
  }

  // ---- Conflicts ----

  predicate IsActive(status: BookingStatus) {
    status == Reserved || status == CheckedIn
  }

  /** `.in("status", [reserved, checked_in]).lt("check_in", checkOut).gt("check_out", checkIn)`. */
  predicate Blocks(b: Booking, checkIn: int, checkOut: int) {
    IsActive(b.status) && b.checkIn < checkOut && b.checkOut > checkIn
  }

  /** Some active booking of the room overlaps the half-open window [checkIn, checkOut). */
  predicate RoomBlocked(bookings: seq<Booking>, roomId: int, checkIn: int, checkOut: int) {
    exists b :: b in bookings && b.roomId == roomId && Blocks(b, checkIn, checkOut)
  }

  /** `conflictIds`: the room ids of the blocking bookings, in booking order. */
  function ConflictIds(bookings: seq<Booking>, checkIn: int, checkOut: int): (ids: seq<int>)
    ensures forall id :: id in ids <==> RoomBlocked(bookings, id, checkIn, checkOut)
  {
    if bookings == [] then []
    else
      var rest := ConflictIds(bookings[1..], checkIn, checkOut);
      assert forall b :: b in bookings <==> b == bookings[0] || b in bookings[1..];
      if Blocks(bookings[0], checkIn, checkOut) then [bookings[0].roomId] + rest else rest
  }

  // ---- The rooms query ----

  /** `.neq("status", "maintenance").gte("capacity", pax)`. */
  predicate Eligible(r: Room, pax: int) {
    r.status != Maintenance && r.capacity >= pax
  }

  /** The eligible rooms, each as often as in `rooms`. */
  function Candidates(rooms: seq<Room>, pax: int): (kept: seq<Room>)
    ensures forall r :: multiset(kept)[r] == if Eligible(r, pax) then multiset(rooms)[r] else 0
  {
    if rooms == [] then []
    else
      var rest := Candidates(rooms[1..], pax);
      assert rooms == [rooms[0]] + rooms[1..];
      if Eligible(rooms[0], pax) then [rooms[0]] + rest else rest
  }

  /** `.not("id", "in", ids)`: the rooms whose id is not listed, each as often as in `rooms`. */
  function WithoutIds(rooms: seq<Room>, ids: seq<int>): (kept: seq<Room>)
    ensures forall r :: multiset(kept)[r] == if r.id in ids then 0 else multiset(rooms)[r]
  {
    if rooms == [] then []
    else
      var rest := WithoutIds(rooms[1..], ids);
      assert rooms == [rooms[0]] + rooms[1..];
      if rooms[0].id in ids then rest else [rooms[0]] + rest
  }

  // ---- Ordering by room number ----

  /** Code-point lexicographic order on room numbers (a prefix sorts first). */
  predicate LexLe(a: string, b: string)
    decreases |a|
  {
    if a == [] then true
    else if b == [] then false
    else if a[0] != b[0] then a[0] < b[0]
    else LexLe(a[1..], b[1..])
  }

  lemma {:induction false} LexLeTotal(a: string, b: string)
    ensures LexLe(a, b) || LexLe(b, a)
    decreases |a|
  {
    if a != [] && b != [] && a[0] == b[0] {
      LexLeTotal(a[1..], b[1..]);
    }
  }

  lemma {:induction false} LexLeTransitive(a: string, b: string, c: string)
    requires LexLe(a, b) && LexLe(b, c)
    ensures LexLe(a, c)
    decreases |a|
  {
    if a != [] && b != [] && c != [] && a[0] == b[0] && b[0] == c[0] {
      LexLeTransitive(a[1..], b[1..], c[1..]);
    }
  }

  lemma {:induction false} LexLeAntisymmetric(a: string, b: string)
    requires LexLe(a, b) && LexLe(b, a)
    ensures a == b
    decreases |a|
  {
    if a != [] {
      LexLeAntisymmetric(a[1..], b[1..]);
      assert a == [a[0]] + a[1..] && b == [b[0]] + b[1..];
    }
  }

  predicate SortedByNumber(rooms: seq<Room>) {
    forall i, j :: 0 <= i < j < |rooms| ==> LexLe(rooms[i].roomNumber, rooms[j].roomNumber)
  }

  /** A room no later than every room of a sorted sequence can go in front of it. */
  lemma PrependSorted(x: Room, sorted: seq<Room>)
    requires SortedByNumber(sorted)
    requires forall j :: 0 <= j < |sorted| ==> LexLe(x.roomNumber, sorted[j].roomNumber)
    ensures SortedByNumber([x] + sorted)
  {
    var s := [x] + sorted;
    forall i, j | 0 <= i < j < |s| ensures LexLe(s[i].roomNumber, s[j].roomNumber) {
      if i > 0 {
        assert s[i] == sorted[i - 1] && s[j] == sorted[j - 1];
      }
    }
  }

  /** A room no later than the first of a sorted sequence is no later than any of it. */
  lemma BelowFirst(x: Room, sorted: seq<Room>)
    requires SortedByNumber(sorted) && |sorted| > 0 && LexLe(x.roomNumber, sorted[0].roomNumber)
    ensures forall j :: 0 <= j < |sorted| ==> LexLe(x.roomNumber, sorted[j].roomNumber)
  {
    forall j | 0 < j < |sorted| ensures LexLe(x.roomNumber, sorted[j].roomNumber) {
      LexLeTransitive(x.roomNumber, sorted[0].roomNumber, sorted[j].roomNumber);
    }
  }

  /** The first room of a sorted sequence is no later than anything made of its tail and a later room. */
  lemma FirstBelowRest(sorted: seq<Room>, r: Room, rest: seq<Room>)
    requires SortedByNumber(sorted) && |sorted| > 0 && LexLe(sorted[0].roomNumber, r.roomNumber)
    requires multiset(rest) == multiset(sorted[1..]) + multiset{r}
    ensures forall j :: 0 <= j < |rest| ==> LexLe(sorted[0].roomNumber, rest[j].roomNumber)
  {
    forall j | 0 <= j < |rest| ensures LexLe(sorted[0].roomNumber, rest[j].roomNumber) {
      assert rest[j] in multiset(rest);
      if rest[j] != r {
        assert rest[j] in multiset(sorted[1..]);
        var k :| 0 <= k < |sorted[1..]| && sorted[1..][k] == rest[j];
        assert sorted[k + 1] == rest[j];
      }
    }
  }

  function Insert(r: Room, sorted: seq<Room>): (s: seq<Room>)
    requires SortedByNumber(sorted)
    ensures SortedByNumber(s) && multiset(s) == multiset(sorted) + multiset{r}
  {
    if sorted == [] then [r]
    else if LexLe(r.roomNumber, sorted[0].roomNumber) then
      BelowFirst(r, sorted);
      PrependSorted(r, sorted);
      [r] + sorted
    else
      var rest := Insert(r, sorted[1..]);
      LexLeTotal(r.roomNumber, sorted[0].roomNumber);
      assert sorted == [sorted[0]] + sorted[1..];
      FirstBelowRest(sorted, r, rest);
      PrependSorted(sorted[0], rest);
      [sorted[0]] + rest
  }

  /** `.order("room_number", { ascending: true })`: the rooms sorted by room number. */
  function SortByNumber(rooms: seq<Room>): (s: seq<Room>)
    ensures SortedByNumber(s) && multiset(s) == multiset(rooms)
  {
    if rooms == [] then []
    else
      assert rooms == [rooms[0]] + rooms[1..];
      Insert(rooms[0], SortByNumber(rooms[1..]))
  }

  /**
   * The rooms query of lines 33-44: maintenance and small rooms filtered out,
   * the conflicting ids excluded only when there are any, ordered by number.
   */
  function RoomsQuery(rooms: seq<Room>, pax: int, conflictIds: seq<int>): (r: seq<Room>)
    ensures SortedByNumber(r) && multiset(r) <= multiset(rooms)
  {
    var kept := Candidates(rooms, pax);
    SortByNumber(if |conflictIds| > 0 then WithoutIds(kept, conflictIds) else kept)
  }

  /** The rooms offered for the stay window [checkIn, checkOut) and party size. */
  function Available(rooms: seq<Room>, bookings: seq<Booking>, checkIn: int, checkOut: int, pax: int): (r: seq<Room>)
    ensures SortedByNumber(r) && multiset(r) <= multiset(rooms)
  {
    RoomsQuery(rooms, pax, ConflictIds(bookings, checkIn, checkOut))
  }

  /** GET /api/available-rooms, with the two tables passed in as `rooms` and `bookings`. */
  function Get(checkIn: Option<string>, stayHoursParam: Option<string>, paxParam: Option<string>,
               rooms: seq<Room>, bookings: seq<Booking>): (resp: Response)
    ensures resp.BadRequest? ==> resp.error == MissingDates || resp.error == InvalidDates
    ensures resp.Rooms? ==> SortedByNumber(resp.rooms) && multiset(resp.rooms) <= multiset(rooms)
  {
    if !Present(checkIn) || !Present(stayHoursParam) || !Present(paxParam) then BadRequest(MissingDates)
    else
      var stayHours := ToNumber(stayHoursParam.value);
      var pax := ToNumber(paxParam.value);
      var checkInDate := ParseManilaLocal(checkIn.value);
      if checkInDate.None? || stayHours.NaN? || stayHours.value <= 0 || pax.NaN? || pax.value <= 0 then
        BadRequest(InvalidDates)
      else
        var checkOutDate := AddHours(checkInDate.value, stayHours.value);
        // toISOString() throws a RangeError on an Invalid Date, check-out first
        if checkOutDate.InvalidDate? || checkInDate.value.InvalidDate? then Threw
        else Rooms(Available(rooms, bookings, checkInDate.value.ms, checkOutDate.ms, pax.value))
  }

  // ---- What the endpoint promises ----

  /** The id exclusion is skipped when there are no conflicts; skipping it changes nothing. */
  lemma EmptyExclusionKeepsAll(rooms: seq<Room>, pax: int, conflictIds: seq<int>)
    ensures RoomsQuery(rooms, pax, conflictIds) == SortByNumber(WithoutIds(Candidates(rooms, pax), conflictIds))
  {
    if |conflictIds| == 0 {
      WithoutNoIds(Candidates(rooms, pax));
    }
  }

  lemma {:induction false} WithoutNoIds(rooms: seq<Room>)
    ensures WithoutIds(rooms, []) == rooms
  {
    if rooms != [] {
      WithoutNoIds(rooms[1..]);
      assert rooms == [rooms[0]] + rooms[1..];
    }
  }

  /**
   * Each room is offered exactly as often as it is listed when it is not under
   * maintenance, holds the party and is not blocked, and never otherwise; the
   * result is ordered by room number.
   */
  lemma AvailableSpec(rooms: seq<Room>, bookings: seq<Booking>, checkIn: int, checkOut: int, pax: int)
    ensures SortedByNumber(Available(rooms, bookings, checkIn, checkOut, pax))
    ensures forall r :: multiset(Available(rooms, bookings, checkIn, checkOut, pax))[r]
                        == if Eligible(r, pax) && !RoomBlocked(bookings, r.id, checkIn, checkOut)
                           then multiset(rooms)[r] else 0
  {
    var ids := ConflictIds(bookings, checkIn, checkOut);
    EmptyExclusionKeepsAll(rooms, pax, ids);
  }

  /** Soundness: every offered room is listed, not under maintenance, big enough and free. */
  lemma AvailableSound(rooms: seq<Room>, bookings: seq<Booking>, checkIn: int, checkOut: int, pax: int, r: Room)
    requires r in Available(rooms, bookings, checkIn, checkOut, pax)
    ensures r in rooms && r.status != Maintenance && r.capacity >= pax
    ensures !RoomBlocked(bookings, r.id, checkIn, checkOut)
  {
    AvailableSpec(rooms, bookings, checkIn, checkOut, pax);
    assert multiset(Available(rooms, bookings, checkIn, checkOut, pax))[r] > 0;
  }

  /** Completeness: every listed room that is not under maintenance, big enough and free is offered. */
  lemma AvailableComplete(rooms: seq<Room>, bookings: seq<Booking>, checkIn: int, checkOut: int, pax: int, r: Room)
    requires r in rooms && r.status != Maintenance && r.capacity >= pax
    requires !RoomBlocked(bookings, r.id, checkIn, checkOut)
    ensures r in Available(rooms, bookings, checkIn, checkOut, pax)
  {
    AvailableSpec(rooms, bookings, checkIn, checkOut, pax);
    assert multiset(rooms)[r] > 0;
  }

  /** Stays that only touch end to start do not conflict: the window is half-open. */
  lemma BackToBackDoesNotBlock(b: Booking, checkIn: int, checkOut: int)
    requires b.checkOut == checkIn || b.checkIn == checkOut
    ensures !Blocks(b, checkIn, checkOut)
  {
  }

  predicate During(t: int, start: int, end: int) {
    start <= t < end
  }

  /**
   * For non-empty stays, the two comparisons say exactly that the active
   * booking and the requested stay share an instant.
   */
  lemma BlocksIffOverlap(b: Booking, checkIn: int, checkOut: int)
    requires IsActive(b.status) && b.checkIn < b.checkOut && checkIn < checkOut
    ensures Blocks(b, checkIn, checkOut) <==>
            exists t :: During(t, b.checkIn, b.checkOut) && During(t, checkIn, checkOut)
  {
    if Blocks(b, checkIn, checkOut) {
      var t := if b.checkIn < checkIn then checkIn else b.checkIn;
      assert During(t, b.checkIn, b.checkOut) && During(t, checkIn, checkOut);
    }
  }

  function ActiveOnly(bookings: seq<Booking>): (active: seq<Booking>)
    ensures forall b :: b in active <==> b in bookings && IsActive(b.status)
  {
    if bookings == [] then []
    else
      var rest := ActiveOnly(bookings[1..]);
      assert forall b :: b in bookings <==> b == bookings[0] || b in bookings[1..];
      if IsActive(bookings[0].status) then [bookings[0]] + rest else rest
  }

  lemma {:induction false} ConflictIdsIgnoreInactive(bookings: seq<Booking>, checkIn: int, checkOut: int)
    ensures ConflictIds(ActiveOnly(bookings), checkIn, checkOut) == ConflictIds(bookings, checkIn, checkOut)
  {
    if bookings != [] {
      ConflictIdsIgnoreInactive(bookings[1..], checkIn, checkOut);
      if IsActive(bookings[0].status) {
        var a := ActiveOnly(bookings);
        assert a[0] == bookings[0] && a[1..] == ActiveOnly(bookings[1..]);
      }
    }
  }

  /** Cancelled and checked-out bookings never keep a room from being offered. */
  lemma InactiveBookingsIgnored(rooms: seq<Room>, bookings: seq<Booking>, checkIn: int, checkOut: int, pax: int)
    ensures Available(rooms, ActiveOnly(bookings), checkIn, checkOut, pax) == Available(rooms, bookings, checkIn, checkOut, pax)
  {
    ConflictIdsIgnoreInactive(bookings, checkIn, checkOut);
  }

  /** An occupied room is not excluded for its status: it is offered when big enough and free. */
  lemma OccupiedRoomOffered(rooms: seq<Room>, bookings: seq<Booking>, checkIn: int, checkOut: int, pax: int, r: Room)
    requires r in rooms && r.status == Occupied && r.capacity >= pax
    requires forall b :: b in bookings && b.roomId == r.id ==> !IsActive(b.status)
    ensures r in Available(rooms, bookings, checkIn, checkOut, pax)
  {
    AvailableComplete(rooms, bookings, checkIn, checkOut, pax, r);
  }

  /**
   * A room stored with its type's capacity is never offered to a party larger
   * than the capacity the room form displays for that type, and a room of a
   * type the form does not know is offered to one guest at most.
   */
  lemma DisplayedCapacityBoundsPax(rooms: seq<Room>, bookings: seq<Booking>, checkIn: int, checkOut: int, pax: int,
                                   r: Room, roomType: string)
    requires r.capacity == RoomCapacity.StoredCapacity(roomType)
    ensures RoomCapacity.CapacityFor(roomType).Pax? && pax > RoomCapacity.CapacityFor(roomType).n ==>
              r !in Available(rooms, bookings, checkIn, checkOut, pax)
    ensures RoomCapacity.CapacityFor(roomType).Empty? && pax > 1 ==>
              r !in Available(rooms, bookings, checkIn, checkOut, pax)
  {
    RoomCapacity.StoredMatchesDisplay(roomType);
    if r in Available(rooms, bookings, checkIn, checkOut, pax) {
      AvailableSound(rooms, bookings, checkIn, checkOut, pax, r);
    }
  }

  // ---- Validation ----

  /** A missing or empty parameter is answered "Missing dates.", before anything else is looked at. */
  lemma GetMissing(checkIn: Option<string>, stayHours: Option<string>, pax: Option<string>,
                   rooms: seq<Room>, bookings: seq<Booking>)
    ensures Get(checkIn, stayHours, pax, rooms, bookings) == BadRequest(MissingDates)
            <==> !Present(checkIn) || !Present(stayHours) || !Present(pax)
  {
  }

  /**
   * With all three parameters present, "Invalid dates." answers exactly an
   * unparseable check-in or a stay or party size that is NaN or not positive.
   */
  lemma GetInvalid(checkIn: Option<string>, stayHours: Option<string>, pax: Option<string>,
                   rooms: seq<Room>, bookings: seq<Booking>)
    requires Present(checkIn) && Present(stayHours) && Present(pax)
    ensures Get(checkIn, stayHours, pax, rooms, bookings) == BadRequest(InvalidDates)
            <==> ParseManilaLocal(checkIn.value).None?
                 || ToNumber(stayHours.value).NaN? || ToNumber(stayHours.value).value <= 0
                 || ToNumber(pax.value).NaN? || ToNumber(pax.value).value <= 0
  {
  }

  /**
   * The handler throws (toISOString of an Invalid Date) exactly when the
   * check-in parsed to an Invalid Date or the check-out falls outside the
   * time-value range; it never throws on a request it rejects.
   */
  lemma GetThrows(checkIn: Option<string>, stayHours: Option<string>, pax: Option<string>,
                  rooms: seq<Room>, bookings: seq<Booking>)
    ensures Get(checkIn, stayHours, pax, rooms, bookings) == Threw <==>
            Present(checkIn) && Present(stayHours) && Present(pax)
            && ToNumber(stayHours.value).Int? && ToNumber(stayHours.value).value > 0
            && ToNumber(pax.value).Int? && ToNumber(pax.value).value > 0
            && ParseManilaLocal(checkIn.value).Some?
            && AddHours(ParseManilaLocal(checkIn.value).value, ToNumber(stayHours.value).value).InvalidDate?
  {
  }

  /**
   * A successful answer offers the rooms available for the window that starts
   * at the parsed check-in and ends exactly stay-hours later, for the parsed
   * party size.
   */
  lemma GetRooms(checkIn: Option<string>, stayHours: Option<string>, pax: Option<string>,
                 rooms: seq<Room>, bookings: seq<Booking>)
    requires Get(checkIn, stayHours, pax, rooms, bookings).Rooms?
    ensures Present(checkIn) && ParseManilaLocal(checkIn.value).Some? && ParseManilaLocal(checkIn.value).value.Instant?
    ensures Present(stayHours) && ToNumber(stayHours.value).Int? && ToNumber(stayHours.value).value > 0
    ensures Present(pax) && ToNumber(pax.value).Int? && ToNumber(pax.value).value > 0
    ensures var t := ParseManilaLocal(checkIn.value).value.ms;
            Get(checkIn, stayHours, pax, rooms, bookings).rooms
            == Available(rooms, bookings, t, t + ToNumber(stayHours.value).value * MsPerHour, ToNumber(pax.value).value)
  {
    var date := ParseManilaLocal(checkIn.value).value;
    var h := ToNumber(stayHours.value).value;
    var p := ToNumber(pax.value).value;
    var out := AddHours(date, h);
    assert out.Instant? && date.Instant?;
    assert Get(checkIn, stayHours, pax, rooms, bookings) == Rooms(Available(rooms, bookings, date.ms, out.ms, p));
  }

  // ---- An Invalid Date check-in escapes validation ----

  /**
   * As written: a check-in that parses to an Invalid Date is truthy, so it
   * passes the "Invalid dates." test, and with valid stay hours and party size
   * the handler throws on toISOString instead of answering 400.
   */
  lemma GetThrowsOnInvalidDate(checkIn: string, stayHours: string, pax: string,
                               rooms: seq<Room>, bookings: seq<Booking>)
    requires checkIn != [] && stayHours != [] && pax != []
    requires ParseManilaLocal(checkIn) == Some(InvalidDate)
    requires ToNumber(stayHours).Int? && ToNumber(stayHours).value > 0
    requires ToNumber(pax).Int? && ToNumber(pax).value > 0
    ensures Get(Some(checkIn), Some(stayHours), Some(pax), rooms, bookings) == Threw
  {
    GetThrows(Some(checkIn), Some(stayHours), Some(pax), rooms, bookings);
  }

  /** The input that shows it: a check-in with its day of month missing. */
  lemma GetThrowsOnMissingDay(rooms: seq<Room>, bookings: seq<Booking>)
    ensures Get(Some("2024-05T10:00"), Some("3"), Some("1"), rooms, bookings) == Threw
  {
    ParseExampleMissingDay();
    SmallNumbers();
    GetThrowsOnInvalidDate("2024-05T10:00", "3", "1", rooms, bookings);
  }

  lemma SmallNumbers()
    ensures ToNumber("3") == Int(3) && ToNumber("1") == Int(1)
  {
    assert "3"[..0] == "" && "1"[..0] == "";
  }

  /** The handler with an Invalid Date check-in or check-out answered "Invalid dates." */
  function GetValidated(checkIn: Option<string>, stayHoursParam: Option<string>, paxParam: Option<string>,
                        rooms: seq<Room>, bookings: seq<Booking>): (resp: Response)
    ensures resp != Threw
    ensures resp.BadRequest? ==> resp.error == MissingDates || resp.error == InvalidDates
    ensures resp.Rooms? ==> SortedByNumber(resp.rooms) && multiset(resp.rooms) <= multiset(rooms)
  {
    if !Present(checkIn) || !Present(stayHoursParam) || !Present(paxParam) then BadRequest(MissingDates)
    else
      var stayHours := ToNumber(stayHoursParam.value);
      var pax := ToNumber(paxParam.value);
      var checkInDate := ParseManilaLocal(checkIn.value);
      if checkInDate.None? || stayHours.NaN? || stayHours.value <= 0 || pax.NaN? || pax.value <= 0 then
        BadRequest(InvalidDates)
      else
        var checkOutDate := AddHours(checkInDate.value, stayHours.value);
        if checkInDate.value.InvalidDate? || checkOutDate.InvalidDate? then BadRequest(InvalidDates)
        else Rooms(Available(rooms, bookings, checkInDate.value.ms, checkOutDate.ms, pax.value))
  }

  /** The corrected handler never throws, and answers every request the original answers in the same way. */
  lemma GetValidatedNeverThrows(checkIn: Option<string>, stayHours: Option<string>, pax: Option<string>,
                                rooms: seq<Room>, bookings: seq<Booking>)
    ensures GetValidated(checkIn, stayHours, pax, rooms, bookings) != Threw
    ensures Get(checkIn, stayHours, pax, rooms, bookings) != Threw ==>
              GetValidated(checkIn, stayHours, pax, rooms, bookings) == Get(checkIn, stayHours, pax, rooms, bookings)
    ensures Get(checkIn, stayHours, pax, rooms, bookings) == Threw ==>
              GetValidated(checkIn, stayHours, pax, rooms, bookings) == BadRequest(InvalidDates)
  {
  }
}
