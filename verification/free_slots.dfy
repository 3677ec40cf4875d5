/**
 * The availability calculator: the per-room answer of the availability
 * query, and the free-slot sweep that specifies it.
 *
 * A UTC date is a day number `d` (days since 1970-01-01); its window is
 * `[d * 86400, (d + 1) * 86400)` in seconds, as UTC has no daylight saving.
 */
module FreeSlots {
  import opened Sorting
  import opened Rooms
  import opened Reservations

  const SecondsPerDay := 86400

  /** Midnight UTC at the start of day `day`. */
  function DayStart(day: int): int {
    day * SecondsPerDay
  }

  /** Midnight UTC at the start of the next day. */
  function DayEnd(day: int): int {
    (day + 1) * SecondsPerDay
  }

  // The response records of the availability query.

  datatype FreeSlot = FreeSlot(startAt: int, endAt: int)

  datatype ReservationWindow = ReservationWindow(id: int, userId: int, startAt: int, endAt: int)

  datatype RoomAvailability = RoomAvailability(
    roomId: int, name: string, location: string, capacity: int,
    reservations: seq<ReservationWindow>, freeSlots: seq<FreeSlot>)

  function Window(r: Reservation): ReservationWindow {
    ReservationWindow(r.id, r.userId, r.startAt, r.endAt)
  }

  function Windows(list: seq<Reservation>): seq<ReservationWindow> {
    seq(|list|, i requires 0 <= i < |list| => Window(list[i]))
  }

  /**
   * The free slots the sweep emits from index `i` of `list` on, with the
   * cursor at `cursor`: a gap before each reservation that starts after the
   * cursor, the cursor then moving to the later of itself and the
   * reservation's end, and a last gap up to `dayEnd`.
   */
  function FreeSlotsFrom(list: seq<Reservation>, i: nat, cursor: int, dayEnd: int): (slots: seq<FreeSlot>)
    requires i <= |list|
    ensures |slots| <= |list| - i + 1
    decreases |list| - i
  {
    if i == |list| then
      if cursor < dayEnd then [FreeSlot(cursor, dayEnd)] else []
    else
      var r := list[i];
      var gap := if r.startAt > cursor then [FreeSlot(cursor, r.startAt)] else [];
      gap + FreeSlotsFrom(list, i + 1, if r.endAt > cursor then r.endAt else cursor, dayEnd)
  }

  predicate StartSorted(list: seq<Reservation>) {
    forall i, j :: 0 <= i < j < |list| ==> list[i].startAt <= list[j].startAt
  }

  /** Instant `t` lies inside some reservation of `list` at index `i` or later. */
  predicate BookedFrom(list: seq<Reservation>, i: nat, t: int) {
    exists k :: i <= k < |list| && list[k].startAt <= t < list[k].endAt
  }

  /** Instant `t` lies inside some free slot. */
  predicate InSlots(slots: seq<FreeSlot>, t: int) {
    exists g :: g in slots && g.startAt <= t < g.endAt
  }

  /** Each slot ends strictly before the next one starts. */
  predicate Ascending(slots: seq<FreeSlot>) {
    forall i, j :: 0 <= i < j < |slots| ==> slots[i].endAt < slots[j].startAt
  }

  /** Every slot is non-empty and starts at or after the cursor. */
  lemma {:induction false} FreeSlotsAfterCursor(list: seq<Reservation>, i: nat, cursor: int, dayEnd: int)
    requires i <= |list|
    ensures forall g :: g in FreeSlotsFrom(list, i, cursor, dayEnd) ==> cursor <= g.startAt < g.endAt
    decreases |list| - i
  {
    if i < |list| {
      var r := list[i];
      FreeSlotsAfterCursor(list, i + 1, if r.endAt > cursor then r.endAt else cursor, dayEnd);
    }
  }

  /**
   * When every reservation is a proper interval starting no later than
   * `dayEnd`, every slot ends by `dayEnd` and the slots are strictly
   * ascending, hence disjoint and never adjacent.
   */
  lemma {:induction false} FreeSlotsBoundedAscending(list: seq<Reservation>, i: nat, cursor: int, dayEnd: int)
    requires i <= |list|
    requires forall x :: x in list ==> x.startAt < x.endAt && x.startAt <= dayEnd
    ensures forall g :: g in FreeSlotsFrom(list, i, cursor, dayEnd) ==> g.endAt <= dayEnd
    ensures Ascending(FreeSlotsFrom(list, i, cursor, dayEnd))
    decreases |list| - i
  {
    if i < |list| {
      var r := list[i];
      var next := if r.endAt > cursor then r.endAt else cursor;
      assert r in list;
      FreeSlotsBoundedAscending(list, i + 1, next, dayEnd);
      FreeSlotsAfterCursor(list, i + 1, next, dayEnd);
      var rest := FreeSlotsFrom(list, i + 1, next, dayEnd);
      if r.startAt > cursor {
        AscendingCons(FreeSlot(cursor, r.startAt), rest);
      }
    }
  }

  lemma AscendingCons(g: FreeSlot, rest: seq<FreeSlot>)
    requires Ascending(rest)
    requires forall h :: h in rest ==> g.endAt < h.startAt
    ensures Ascending([g] + rest)
  {
    var slots := [g] + rest;
    forall a, b | 0 <= a < b < |slots| ensures slots[a].endAt < slots[b].startAt {
      if a == 0 {
        assert slots[b] == rest[b - 1];
      } else {
        assert slots[a] == rest[a - 1] && slots[b] == rest[b - 1];
      }
    }
  }

  /**
   * The partition property: over reservations sorted by start, an instant at
   * or after the cursor and before `dayEnd` is in a free slot exactly when no
   * remaining reservation covers it.
   */
  lemma {:induction false} FreeSlotsPartition(list: seq<Reservation>, i: nat, cursor: int, dayEnd: int, t: int)
    requires i <= |list|
    requires StartSorted(list)
    requires cursor <= t < dayEnd
    ensures InSlots(FreeSlotsFrom(list, i, cursor, dayEnd), t) <==> !BookedFrom(list, i, t)
    decreases |list| - i
  {
    var slots := FreeSlotsFrom(list, i, cursor, dayEnd);
    if i == |list| {
      assert slots[0] in slots;
    } else {
      var r := list[i];
      var next := if r.endAt > cursor then r.endAt else cursor;
      var rest := FreeSlotsFrom(list, i + 1, next, dayEnd);
      var gap := if r.startAt > cursor then [FreeSlot(cursor, r.startAt)] else [];
      assert slots == gap + rest;
      if t < r.startAt {
        assert gap[0] in slots;
        forall k | i <= k < |list| ensures !(list[k].startAt <= t < list[k].endAt) {
          assert list[i].startAt <= list[k].startAt;
        }
      } else if t < r.endAt {
        FreeSlotsAfterCursor(list, i + 1, next, dayEnd);
        forall g | g in slots ensures !(g.startAt <= t < g.endAt) {
          if g !in rest {
            assert g in gap;
          }
        }
      } else {
        FreeSlotsPartition(list, i + 1, next, dayEnd, t);
        assert BookedFrom(list, i, t) <==> BookedFrom(list, i + 1, t);
        assert InSlots(slots, t) <==> InSlots(rest, t) by {
          forall g | g in gap ensures !(g.startAt <= t < g.endAt) {
          }
        }
      }
    }
  }

  lemma StartSortedCons(x: Reservation, rest: seq<Reservation>)
    requires StartSorted(rest)
    requires forall y :: y in rest ==> x.startAt <= y.startAt
    ensures StartSorted([x] + rest)
  {
    var r := [x] + rest;
    forall i, j | 0 <= i < j < |r| ensures r[i].startAt <= r[j].startAt {
      if i == 0 {
        assert r[j] == rest[j - 1];
      } else {
        assert r[i] == rest[i - 1] && r[j] == rest[j - 1];
      }
    }
  }

  /** Over reservations sorted by (room, start), one room's reservations are sorted by start. */
  lemma {:induction false} OfRoomStartSorted(s: seq<Reservation>, roomId: int)
    requires SortedBy(s, RoomThenStart)
    ensures StartSorted(OfRoom(s, roomId))
  {
    if s != [] {
      var t := s[1..];
      SortedByTail(s, RoomThenStart);
      OfRoomStartSorted(t, roomId);
      if s[0].roomId == roomId {
        var rest := OfRoom(t, roomId);
        forall y | y in rest ensures s[0].startAt <= y.startAt {
          var k :| 0 <= k < |t| && t[k] == y;
          assert RoomThenStart(s[0], s[k + 1]);
        }
        StartSortedCons(s[0], rest);
      }
    }
  }

  lemma {:induction false} OfRoomNone(s: seq<Reservation>, roomId: int)
    requires forall x :: x in s ==> x.roomId != roomId
    ensures OfRoom(s, roomId) == []
  {
    if s != [] {
      OfRoomNone(s[1..], roomId);
    }
  }

  /** Every reservation of `list` has its window in `Windows(list)`. */
  lemma WindowsCover(list: seq<Reservation>)
    ensures forall x :: x in list ==> Window(x) in Windows(list)
  {
    forall x | x in list
      ensures Window(x) in Windows(list)
    {
      var k :| 0 <= k < |list| && list[k] == x;
      assert Windows(list)[k] == Window(x);
    }
  }

  /**
   * The entry the availability query builds for one room: its reservations
   * among `dayResvs` in query order, as windows, and the free slots of the day.
   */
  function RoomEntry(room: Room, dayResvs: seq<Reservation>, day: int): (e: RoomAvailability)
    ensures e.roomId == room.id && e.name == room.name
    ensures e.location == room.location && e.capacity == room.capacity
    ensures forall x :: x in dayResvs && x.roomId == room.id ==> Window(x) in e.reservations
    ensures forall w :: w in e.reservations ==>
      exists x :: x in dayResvs && x.roomId == room.id && w == Window(x)
    ensures |e.freeSlots| <= |e.reservations| + 1
  {
    var list := OfRoom(dayResvs, room.id);
    WindowsCover(list);
    RoomAvailability(room.id, room.name, room.location, room.capacity,
                     Windows(list), FreeSlotsFrom(list, 0, DayStart(day), DayEnd(day)))
  }

  /** One entry per room, in the rooms' order. */
  function Entries(rooms: seq<Room>, dayResvs: seq<Reservation>, day: int): (r: seq<RoomAvailability>)
    ensures |r| == |rooms|
    ensures forall i :: 0 <= i < |rooms| ==> r[i].roomId == rooms[i].id && r[i].name == rooms[i].name
  {
    seq(|rooms|, i requires 0 <= i < |rooms| => RoomEntry(rooms[i], dayResvs, day))
  }

  /** The result order: `comparing(RoomAvailabilityResponse::roomId)`. */
  predicate ByRoomId(a: RoomAvailability, b: RoomAvailability) {
    a.roomId <= b.roomId
  }

  lemma ByRoomIdIsTotalPreorder()
    ensures TotalPreorder(ByRoomId)
  {
  }

  /** Some stored reservation of room `roomId` covers instant `t`. */
  predicate RoomBookedAt(s: seq<Reservation>, roomId: int, t: int) {
    exists x :: x in s && x.roomId == roomId && x.startAt <= t < x.endAt
  }

  /**
   * For a store that keeps its invariant, the free slots of a room's entry
   * lie inside the day, are non-empty and strictly ascending, and an instant
   * of the day is free exactly when no reservation of that room covers it.
   */
  lemma DayFreeSlots(store: ReservationRepository, room: Room, day: int)
    requires store.Valid()
    ensures var slots := RoomEntry(room, store.FindAllOverlapping(DayStart(day), DayEnd(day)), day).freeSlots;
      && (forall g :: g in slots ==> DayStart(day) <= g.startAt < g.endAt <= DayEnd(day))
      && Ascending(slots)
      && (forall t :: DayStart(day) <= t < DayEnd(day) ==>
            (InSlots(slots, t) <==> !RoomBookedAt(store.reservations, room.id, t)))
  {
    var dayStart, dayEnd := DayStart(day), DayEnd(day);
    var q := store.FindAllOverlapping(dayStart, dayEnd);
    var list := OfRoom(q, room.id);
    var slots := FreeSlotsFrom(list, 0, dayStart, dayEnd);
    assert slots == RoomEntry(room, q, day).freeSlots;
    FreeSlotsBoundedAscending(list, 0, dayStart, dayEnd);
    FreeSlotsAfterCursor(list, 0, dayStart, dayEnd);
    OfRoomStartSorted(q, room.id);
    forall t | dayStart <= t < dayEnd
      ensures InSlots(slots, t) <==> !RoomBookedAt(store.reservations, room.id, t)
    {
      FreeSlotsPartition(list, 0, dayStart, dayEnd, t);
      BookedInDay(store, room.id, dayStart, dayEnd, t);
    }
  }

  /** An instant of the window is covered by a booking of the room exactly when it is covered by one of the room's query results. */
  lemma BookedInDay(store: ReservationRepository, roomId: int, dayStart: int, dayEnd: int, t: int)
    requires dayStart <= t < dayEnd
    ensures BookedFrom(OfRoom(store.FindAllOverlapping(dayStart, dayEnd), roomId), 0, t) <==>
            RoomBookedAt(store.reservations, roomId, t)
  {
    var list := OfRoom(store.FindAllOverlapping(dayStart, dayEnd), roomId);
    if RoomBookedAt(store.reservations, roomId, t) {
      var x :| x in store.reservations && x.roomId == roomId && x.startAt <= t < x.endAt;
      assert x in list;
      var k :| 0 <= k < |list| && list[k] == x;
      assert BookedFrom(list, 0, t);
    }
    if BookedFrom(list, 0, t) {
      var k :| 0 <= k < |list| && list[k].startAt <= t < list[k].endAt;
      assert list[k] in list;
    }
  }

  /** A room with no reservation overlapping the day gets the whole day as its one free slot. */
  lemma DayWithoutBookings(store: ReservationRepository, room: Room, day: int)
    requires forall x :: x in store.reservations && x.roomId == room.id ==>
      !Overlaps(x.startAt, x.endAt, DayStart(day), DayEnd(day))
    ensures RoomEntry(room, store.FindAllOverlapping(DayStart(day), DayEnd(day)), day).reservations == []
    ensures RoomEntry(room, store.FindAllOverlapping(DayStart(day), DayEnd(day)), day).freeSlots ==
      [FreeSlot(DayStart(day), DayEnd(day))]
  {
    var q := store.FindAllOverlapping(DayStart(day), DayEnd(day));
    OfRoomNone(q, room.id);
  }

  /** The documented example: one booking 09:00-10:00 on 2025-09-26 (day 20357) leaves 00:00-09:00 and 10:00-24:00. */
  lemma NineToTenExample()
    ensures var d := DayStart(20357);
      FreeSlotsFrom([Reservation(10, 1, 7, d + 9 * 3600, d + 10 * 3600)], 0, d, DayEnd(20357)) ==
        [FreeSlot(d, d + 9 * 3600), FreeSlot(d + 10 * 3600, DayEnd(20357))]
  {
  }
}
