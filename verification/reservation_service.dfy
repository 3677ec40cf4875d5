/**
 * `ReservationService`: booking creation and cancellation over the
 * reservation store, and the daily availability of every room.
 */
module ReservationService {
  import opened Wrappers
  import opened Sorting
  import opened Auth
  import opened Failures
  import opened Rooms
  import opened Reservations
  import opened FreeSlots

  /**
   * `validateRange`: a booking must start strictly before it ends, that is,
   * it must hold its own first second.
   */
  predicate ValidRange(startAt: int, endAt: int): (ok: bool)
    ensures ok <==> Overlaps(startAt, endAt, startAt, startAt + 1)
  {
    startAt < endAt
  }

  /**
   * `create`: the checks run in order (identity, user id, interval, room),
   * then the store's atomic insert; an overlap with a reservation of the same
   * room is CONFLICT_OVERLAP. Every failure leaves the store as it was.
   */
  method Create(store: ReservationRepository, rooms: RoomRepository,
                roomId: int, startAt: int, endAt: int, ctx: Option<AuthContext>)
    returns (r: Result<Reservation, Failure>)
    requires store.Valid()
    modifies store
    ensures store.Valid()
    ensures ctx.None? ==> r == Err(Unauthorized)
    ensures ctx.Some? && ctx.value.userId.None? ==> r == Err(ForbiddenReservationRequiresUser)
    ensures ctx.Some? && ctx.value.userId.Some? && !(startAt < endAt) ==> r == Err(InvalidRange)
    ensures ctx.Some? && ctx.value.userId.Some? && startAt < endAt && rooms.FindById(roomId).None? ==>
      r == Err(RoomNotFound)
    ensures ctx.Some? && ctx.value.userId.Some? && startAt < endAt && rooms.FindById(roomId).Some? ==>
      && (r.Err? ==> r == Err(ConflictOverlap))
      && (r.Ok? <==> !HasConflict(old(store.reservations), roomId, startAt, endAt))
    ensures r.Err? ==> store.reservations == old(store.reservations)
    ensures r.Ok? ==>
      && ctx.Some? && ctx.value.userId.Some?
      && r.value == Reservation(r.value.id, roomId, ctx.value.userId.value, startAt, endAt)
      && (forall x :: x in old(store.reservations) ==> x.id != r.value.id)
      && store.reservations == old(store.reservations) + [r.value]
  {
    if ctx.None? {
      return Err(Unauthorized);
    }
    if ctx.value.userId.None? {
      return Err(ForbiddenReservationRequiresUser);
    }
    if !ValidRange(startAt, endAt) {
      return Err(InvalidRange);
    }
    var room := rooms.FindById(roomId);
    if room.None? {
      return Err(RoomNotFound);
    }
    var saved := store.Insert(room.value.id, ctx.value.userId.value, startAt, endAt);
    match saved
    case Conflict =>
      r := Err(ConflictOverlap);
    case Inserted(reservation) =>
      r := Ok(reservation);
  }

  /**
   * `cancel`: no identity is UNAUTHORIZED, an unknown id is "reservation not
   * found", and only an administrator or the owner may delete; the delete
   * removes exactly that reservation and keeps the others in order.
   */
  method Cancel(store: ReservationRepository, reservationId: int, ctx: Option<AuthContext>)
    returns (r: Result<(), Failure>)
    requires store.Valid()
    modifies store
    ensures store.Valid()
    ensures ctx.None? ==> r == Err(Unauthorized)
    ensures ctx.Some? && old(store.FindById(reservationId)).None? ==> r == Err(ReservationNotFound)
    ensures ctx.Some? && old(store.FindById(reservationId)).Some? ==>
      var owner := old(store.FindById(reservationId)).value.userId;
      (r == Err(Forbidden) <==> !(ctx.value.IsAdmin() || ctx.value.IsOwner(Some(owner)))) &&
      (r.Ok? <==> ctx.value.IsAdmin() || ctx.value.IsOwner(Some(owner)))
    ensures r.Err? ==> store.reservations == old(store.reservations)
    ensures r.Ok? ==> exists k ::
      && 0 <= k < |old(store.reservations)|
      && old(store.reservations)[k].id == reservationId
      && store.reservations == old(store.reservations)[..k] + old(store.reservations)[k + 1..]
  {
    if ctx.None? {
      return Err(Unauthorized);
    }
    var resv := store.FindById(reservationId);
    if resv.None? {
      return Err(ReservationNotFound);
    }
    if !(ctx.value.IsAdmin() || ctx.value.IsOwner(Some(resv.value.userId))) {
      return Err(Forbidden);
    }
    ghost var before := store.reservations;
    ghost var k :| 0 <= k < |before| && before[k] == resv.value;
    RemoveIdAt(before, k);
    store.Delete(resv.value.id);
    r := Ok(());
  }

  /**
   * Touching intervals are admitted: on a room that is free over
   * `[startAt, endAt)`, a user books `[startAt, midAt)` and then
   * `[midAt, endAt)`, and both bookings are stored, in that order.
   */
  method BackToBack(store: ReservationRepository, rooms: RoomRepository, roomId: int,
                    startAt: int, midAt: int, endAt: int, ctx: Option<AuthContext>)
    returns (first: Result<Reservation, Failure>, second: Result<Reservation, Failure>)
    requires store.Valid()
    requires startAt < midAt < endAt
    requires ctx.Some? && ctx.value.userId.Some?
    requires rooms.FindById(roomId).Some?
    requires !HasConflict(store.reservations, roomId, startAt, endAt)
    modifies store
    ensures store.Valid()
    ensures first.Ok? && first.value.startAt == startAt && first.value.endAt == midAt
    ensures second.Ok? && second.value.startAt == midAt && second.value.endAt == endAt
    ensures store.reservations == old(store.reservations) + [first.value, second.value]
  {
    first := Create(store, rooms, roomId, startAt, midAt, ctx);
    assert first.Ok?;
    ghost var middle := store.reservations;
    assert !HasConflict(middle, roomId, midAt, endAt);
    second := Create(store, rooms, roomId, midAt, endAt, ctx);
    assert second.Ok?;
  }

  /**
   * The inner loop of `availability` for one room: walk the room's
   * reservations with a cursor that starts at midnight, collect the windows
   * and the free gaps, and close with the gap up to the next midnight.
   */
  method RoomSlots(list: seq<Reservation>, dayStart: int, dayEnd: int)
    returns (windows: seq<ReservationWindow>, free: seq<FreeSlot>)
    ensures windows == Windows(list)
    ensures free == FreeSlotsFrom(list, 0, dayStart, dayEnd)
  {
    var cursor := dayStart;
    windows, free := [], [];
    var i := 0;
    while i < |list|
      invariant 0 <= i <= |list|
      invariant free + FreeSlotsFrom(list, i, cursor, dayEnd) == FreeSlotsFrom(list, 0, dayStart, dayEnd)
      invariant windows == Windows(list[..i])
    {
      var s, e := list[i].startAt, list[i].endAt;
      var next := if e > cursor then e else cursor;
      var gap := if s > cursor then [FreeSlot(cursor, s)] else [];
      SweepStep(list, i, cursor, dayEnd);
      ghost var rest := FreeSlotsFrom(list, i + 1, next, dayEnd);
      ConcatAssoc(free, gap, rest);
      free := free + gap;
      cursor := next;
      WindowsSnoc(list, i);
      windows := windows + [Window(list[i])];
      i := i + 1;
    }
    assert list[..i] == list;
    if cursor < dayEnd {
      free := free + [FreeSlot(cursor, dayEnd)];
    } else {
      assert free + [] == free;
    }
  }

  /** The windows of one more reservation are the windows so far and its own. */
  lemma WindowsSnoc(list: seq<Reservation>, i: nat)
    requires i < |list|
    ensures Windows(list[..i + 1]) == Windows(list[..i]) + [Window(list[i])]
  {
    var a, b := Windows(list[..i + 1]), Windows(list[..i]) + [Window(list[i])];
    assert |a| == |b|;
    forall j | 0 <= j < |a|
      ensures a[j] == b[j]
    {
      if j < i {
        assert list[..i + 1][j] == list[..i][j];
      }
    }
  }

  /** The entries of one more room are the entries so far and its own. */
  lemma EntriesSnoc(rooms: seq<Room>, dayResvs: seq<Reservation>, day: int, k: nat)
    requires k < |rooms|
    ensures Entries(rooms[..k + 1], dayResvs, day) ==
      Entries(rooms[..k], dayResvs, day) + [RoomEntry(rooms[k], dayResvs, day)]
  {
    var a := Entries(rooms[..k + 1], dayResvs, day);
    var b := Entries(rooms[..k], dayResvs, day) + [RoomEntry(rooms[k], dayResvs, day)];
    assert |a| == |b|;
    forall j | 0 <= j < |a|
      ensures a[j] == b[j]
    {
      if j < k {
        assert rooms[..k + 1][j] == rooms[..k][j];
      }
    }
  }

  lemma ConcatAssoc<T>(a: seq<T>, b: seq<T>, c: seq<T>)
    ensures (a + b) + c == a + (b + c)
  {
  }

  /** One step of the sweep: the gap before booking `i`, then the sweep from `i + 1` with the cursor moved past it. */
  lemma SweepStep(list: seq<Reservation>, i: nat, cursor: int, dayEnd: int)
    requires i < |list|
    ensures FreeSlotsFrom(list, i, cursor, dayEnd) ==
      (if list[i].startAt > cursor then [FreeSlot(cursor, list[i].startAt)] else []) +
      FreeSlotsFrom(list, i + 1, if list[i].endAt > cursor then list[i].endAt else cursor, dayEnd)
  {
  }

  /**
   * `availability(date)`: one entry per room, built from the reservations
   * that overlap the day, and sorted by room id.
   */
  method Availability(rooms: RoomRepository, store: ReservationRepository, day: int)
    returns (result: seq<RoomAvailability>)
    ensures |result| == |rooms.rooms|
    ensures SortedBy(result, ByRoomId)
    ensures multiset(result) ==
      multiset(Entries(rooms.rooms, store.FindAllOverlapping(DayStart(day), DayEnd(day)), day))
  {
    var dayStart, dayEnd := DayStart(day), DayEnd(day);
    var allRooms := rooms.rooms;
    var allResvs := store.FindAllOverlapping(dayStart, dayEnd);
    var unsorted: seq<RoomAvailability> := [];
    var k := 0;
    while k < |allRooms|
      invariant 0 <= k <= |allRooms|
      invariant unsorted == Entries(allRooms[..k], allResvs, day)
    {
      var room := allRooms[k];
      var list := OfRoom(allResvs, room.id);
      var windows, free := RoomSlots(list, dayStart, dayEnd);
      EntriesSnoc(allRooms, allResvs, day, k);
      unsorted := unsorted + [RoomAvailability(room.id, room.name, room.location, room.capacity, windows, free)];
      k := k + 1;
    }
    assert allRooms[..k] == allRooms;
    ByRoomIdIsTotalPreorder();
    SortBySorted(unsorted, ByRoomId);
    result := SortBy(unsorted, ByRoomId);
  }

  /**
   * The sequential reading of the concurrency scenario: several users in turn
   * store the same interval of an empty room directly in the store. The first
   * insert succeeds and every later one conflicts, leaving one row for the room.
   */
  method SubmitInTurn(store: ReservationRepository, roomId: int, startAt: int, endAt: int,
                      userIds: seq<int>) returns (successes: nat)
    requires store.Valid()
    requires startAt < endAt
    requires forall x :: x in store.reservations ==> x.roomId != roomId
    requires |userIds| > 0
    modifies store
    ensures store.Valid()
    ensures successes == 1
    ensures |OfRoom(store.reservations, roomId)| == 1
  {
    successes := 0;
    OfRoomNone(store.reservations, roomId);
    var i := 0;
    while i < |userIds|
      invariant 0 <= i <= |userIds|
      invariant store.Valid()
      invariant successes == (if i == 0 then 0 else 1)
      invariant i == 0 ==> OfRoom(store.reservations, roomId) == []
      invariant i > 0 ==> |OfRoom(store.reservations, roomId)| == 1
      invariant i > 0 ==> HasConflict(store.reservations, roomId, startAt, endAt)
    {
      ghost var before := store.reservations;
      var outcome := store.Insert(roomId, userIds[i], startAt, endAt);
      if outcome.Inserted? {
        successes := successes + 1;
        OfRoomAppend(before, outcome.saved, roomId);
        assert outcome.saved in store.reservations;
      }
      i := i + 1;
    }
  }
}
