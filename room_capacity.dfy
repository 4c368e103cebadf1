/**
 * Room types and capacities: the room form's `capacityMap` display lookup
 * (src/components/RoomForm.tsx) and the capacity the room actions store
 * (src/app/(protected)/rooms/page.tsx), which the availability filter reads.
 */
module RoomCapacity {
  import opened Wrappers

  /** `capacityMap`: Single 1, Double 2, Family 4. */
  const CapacityMap: map<string, nat> := map["Single" := 1, "Double" := 2, "Family" := 4]

  /** The read-only capacity field: a number, or empty (`""`). */
  datatype CapacityField = Empty | Pax(n: nat)

  /** `capacityMap[roomType] ?? ""`. */
  function CapacityFor(roomType: string): (c: CapacityField)
    ensures c.Pax? ==> c.n == StoredCapacity(roomType)
  {
    if roomType in CapacityMap then Pax(CapacityMap[roomType]) else Empty
  }

  /** The room being edited, if any, as the form receives it. */
  datatype RoomProps = RoomProps(id: int, roomNumber: string, roomType: string, status: string)

  /** The form's initial type: `room?.room_type ?? ""`. */
  function InitialRoomType(room: Option<RoomProps>): string {
    if room.Some? then room.value.roomType else ""
  }

  /** The capacity the rooms page writes with a room, both when adding and when updating it: 4 for Family, 2 for Double, 1 for anything else. */
  function StoredCapacity(roomType: string): (n: nat)
    ensures n == 1 || n == 2 || n == 4
  {
    if roomType == "Family" then 4 else if roomType == "Double" then 2 else 1
  }

  /** The three room types the select offers, and their capacities. */
  lemma CapacityTable()
    ensures CapacityFor("Single") == Pax(1)
    ensures CapacityFor("Double") == Pax(2)
    ensures CapacityFor("Family") == Pax(4)
  {
  }

  /** Any other type, including the "Select type" option's "", leaves the field empty. */
  lemma CapacityOtherTypes(roomType: string)
    ensures CapacityFor(roomType) == Empty <==> roomType !in {"Single", "Double", "Family"}
  {
  }

  /** A displayed capacity is always 1, 2 or 4, and grows strictly from Single to Double to Family. */
  lemma CapacityValues(roomType: string)
    ensures CapacityFor(roomType).Pax? ==> CapacityFor(roomType).n in {1, 2, 4}
    ensures CapacityFor("Single").n < CapacityFor("Double").n < CapacityFor("Family").n
  {
  }

  /** A new room's form starts with an empty capacity; an edited room's shows its own type's. */
  lemma InitialCapacity(room: Option<RoomProps>)
    ensures room.None? ==> CapacityFor(InitialRoomType(room)) == Empty
    ensures room.Some? ==> CapacityFor(InitialRoomType(room)) == CapacityFor(room.value.roomType)
  {
  }

  /**
   * The stored capacity agrees with the displayed one for the three offered
   * types; for any other type the form shows nothing but 1 is stored.
   */
  lemma StoredMatchesDisplay(roomType: string)
    ensures CapacityFor(roomType).Pax? ==> StoredCapacity(roomType) == CapacityFor(roomType).n
    ensures CapacityFor(roomType).Empty? ==> StoredCapacity(roomType) == 1
  {
  }
}
