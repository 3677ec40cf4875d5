/** Rooms and the room store (the `Room` entity and its repository). */
module Rooms {
  import opened Wrappers
  import opened Lookup

  /** A room; the id is assigned by the store when the room is saved. */
  datatype Room = Room(id: int, name: string, location: string, capacity: int)

  /** The room table. Ids come from an identity column: positive and never reused.
   *  Every issued id is below `nextId`, no operation lowers `nextId`, and a new
   *  id is taken at or above it. */
  class RoomRepository {
    var rooms: seq<Room>
    var nextId: int

    ghost predicate Valid()
      reads this
    {
      && nextId >= 1
      && (forall i :: 0 <= i < |rooms| ==> 1 <= rooms[i].id < nextId)
      && (forall i, j :: 0 <= i < j < |rooms| ==> rooms[i].id != rooms[j].id)
    }

    constructor ()
      ensures Valid() && rooms == []
    {
      rooms := [];
      nextId := 1;
    }

    /** `findById`: the room with that id, if there is one. */
    function FindById(id: int): (r: Option<Room>)
      reads this
      ensures r.Some? ==> r.value in rooms && r.value.id == id
      ensures r.None? <==> forall x :: x in rooms ==> x.id != id
    {
      FindBy(rooms, (x: Room) => x.id, id)
    }

    /** `save` of a new room: it gets an id no stored room has. */
    method Save(name: string, location: string, capacity: int) returns (room: Room)
      requires Valid()
      modifies this
      ensures Valid()
      ensures room.name == name && room.location == location && room.capacity == capacity
      ensures forall x :: x in old(rooms) ==> x.id != room.id
      ensures rooms == old(rooms) + [room]
      ensures old(nextId) <= room.id < nextId
    {
      room := Room(nextId, name, location, capacity);
      rooms := rooms + [room];
      nextId := nextId + 1;
    }
  }
}

/** `RoomService`: room creation, reserved to administrators. */
module RoomService {
  import opened Wrappers
  import opened Auth
  import opened Failures
  import opened Rooms

  /**
   * `RoomService.create`: no identity is UNAUTHORIZED, a non-admin identity is
   * FORBIDDEN (in that order), and only an administrator saves a room.
   */
  method Create(repo: RoomRepository, name: string, location: string, capacity: int,
                ctx: Option<AuthContext>) returns (r: Result<Room, Failure>)
    requires repo.Valid()
    modifies repo
    ensures repo.Valid()
    ensures ctx.None? ==> r == Err(Unauthorized)
    ensures ctx.Some? && !ctx.value.IsAdmin() ==> r == Err(Forbidden)
    ensures r.Err? ==> repo.rooms == old(repo.rooms)
    ensures ctx.Some? && ctx.value.IsAdmin() ==>
      && r.Ok?
      && r.value.name == name && r.value.location == location && r.value.capacity == capacity
      && (forall x :: x in old(repo.rooms) ==> x.id != r.value.id)
      && repo.rooms == old(repo.rooms) + [r.value]
  {
    if ctx.None? {
      return Err(Unauthorized);
    }
    if !ctx.value.IsAdmin() {
      return Err(Forbidden);
    }
    var room := repo.Save(name, location, capacity);
    r := Ok(room);
  }
}
