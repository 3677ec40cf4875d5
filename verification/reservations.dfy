/**
 * Reservations and the reservation store. Instants are whole seconds; every
 * interval is half-open, `[startAt, endAt)`.
 *
 * The store stands for the reservation table together with its range
 * exclusion constraint: `Insert` checks for an overlap and writes in one
 * step, and reports a clash as a typed `Conflict`.
 */
module Reservations {
  import opened Wrappers
  import opened Sorting
  import opened Lookup

  /** A booking of one room by one user. */
  datatype Reservation = Reservation(id: int, roomId: int, userId: int, startAt: int, endAt: int)

  /** The outcome of the store's atomic overlap-checked insert. */
  datatype InsertResult = Inserted(saved: Reservation) | Conflict

  /** `[s1, e1)` and `[s2, e2)` share an instant. */
  predicate Overlaps(s1: int, e1: int, s2: int, e2: int) {
    s1 < e2 && s2 < e1
  }

  /** Some stored reservation of `roomId` overlaps `[startAt, endAt)`. */
  predicate HasConflict(s: seq<Reservation>, roomId: int, startAt: int, endAt: int) {
    exists x :: x in s && x.roomId == roomId && Overlaps(x.startAt, x.endAt, startAt, endAt)
  }

  ghost predicate DistinctIds(s: seq<Reservation>) {
    forall i, j :: 0 <= i < j < |s| ==> s[i].id != s[j].id
  }

  /** The exclusion constraint: no two reservations of the same room overlap. */
  ghost predicate NoOverlap(s: seq<Reservation>) {
    forall a, b :: a in s && b in s && a != b && a.roomId == b.roomId ==>
      !Overlaps(a.startAt, a.endAt, b.startAt, b.endAt)
  }

  /** The reservations of one room, in their original order. */
  function OfRoom(s: seq<Reservation>, roomId: int): (r: seq<Reservation>)
    ensures forall x :: x in r <==> x in s && x.roomId == roomId
    ensures |r| <= |s|
  {
    if s == [] then []
    else if s[0].roomId == roomId then [s[0]] + OfRoom(s[1..], roomId)
    else OfRoom(s[1..], roomId)
  }

  lemma {:induction false} OfRoomAppend(s: seq<Reservation>, x: Reservation, roomId: int)
    ensures OfRoom(s + [x], roomId) == OfRoom(s, roomId) + (if x.roomId == roomId then [x] else [])
  {
    if s != [] {
      assert (s + [x])[1..] == s[1..] + [x];
      OfRoomAppend(s[1..], x, roomId);
    }
  }

  /** All reservations but the one with id `id`: what deleting it leaves. */
  function RemoveId(s: seq<Reservation>, id: int): (r: seq<Reservation>)
    ensures forall x :: x in r <==> x in s && x.id != id
    ensures |r| <= |s|
  {
    if s == [] then []
    else if s[0].id == id then RemoveId(s[1..], id)
    else [s[0]] + RemoveId(s[1..], id)
  }

  lemma {:induction false} RemoveIdAbsent(s: seq<Reservation>, id: int)
    requires forall j :: 0 <= j < |s| ==> s[j].id != id
    ensures RemoveId(s, id) == s
  {
    if s != [] {
      var t := s[1..];
      forall j | 0 <= j < |t| ensures t[j].id != id {
        assert t[j] == s[j + 1];
      }
      RemoveIdAbsent(t, id);
      assert s[0].id != id;
      assert s == [s[0]] + t;
    }
  }

  lemma DistinctIdsTail(s: seq<Reservation>)
    requires s != [] && DistinctIds(s)
    ensures DistinctIds(s[1..])
  {
    forall i, j | 0 <= i < j < |s[1..]| ensures s[1..][i].id != s[1..][j].id {
      assert s[1..][i] == s[i + 1] && s[1..][j] == s[j + 1];
    }
  }

  lemma DistinctIdsCons(x: Reservation, rest: seq<Reservation>)
    requires DistinctIds(rest)
    requires forall y :: y in rest ==> y.id != x.id
    ensures DistinctIds([x] + rest)
  {
    var r := [x] + rest;
    forall i, j | 0 <= i < j < |r| ensures r[i].id != r[j].id {
      if i == 0 {
        assert r[j] == rest[j - 1];
      } else {
        assert r[i] == rest[i - 1] && r[j] == rest[j - 1];
      }
    }
  }

  lemma {:induction false} RemoveIdKeepsDistinct(s: seq<Reservation>, id: int)
    requires DistinctIds(s)
    ensures DistinctIds(RemoveId(s, id))
  {
    if s != [] {
      var t := s[1..];
      DistinctIdsTail(s);
      RemoveIdKeepsDistinct(t, id);
      if s[0].id != id {
        var rest := RemoveId(t, id);
        forall x | x in rest ensures x.id != s[0].id {
          var k :| 0 <= k < |t| && t[k] == x;
          assert s[k + 1] == x;
        }
        DistinctIdsCons(s[0], rest);
      }
    }
  }

  /** The ids after index 0 that differ from `s[k].id`, seen from the tail `s[1..]`. */
  lemma UniqueInTail(s: seq<Reservation>, k: int)
    requires 0 <= k < |s|
    requires forall j :: 0 <= j < |s| && j != k ==> s[j].id != s[k].id
    ensures forall j :: 0 <= j < |s| - 1 && j != k - 1 ==> s[1..][j].id != s[k].id
  {
    forall j | 0 <= j < |s| - 1 && j != k - 1
      ensures s[1..][j].id != s[k].id
    {
      assert s[1..][j] == s[j + 1];
    }
  }

  /** When no other reservation shares the id of the one at index `k`, deleting that id removes just it. */
  lemma {:induction false} RemoveIdUnique(s: seq<Reservation>, k: int)
    requires 0 <= k < |s|
    requires forall j :: 0 <= j < |s| && j != k ==> s[j].id != s[k].id
    ensures RemoveId(s, s[k].id) == s[..k] + s[k + 1..]
  {
    var id := s[k].id;
    var t := s[1..];
    UniqueInTail(s, k);
    if k == 0 {
      RemoveIdAbsent(t, id);
      assert s[..k] + s[k + 1..] == t;
    } else {
      assert s[0].id != id;
      assert t[k - 1] == s[k];
      RemoveIdUnique(t, k - 1);
      assert RemoveId(s, id) == [s[0]] + RemoveId(t, id);
      DropAfterHead(s, k);
    }
  }

  /** Dropping index `k > 0` of `s` is keeping the head and dropping index `k - 1` of the tail. */
  lemma DropAfterHead<T>(s: seq<T>, k: int)
    requires 0 < k < |s|
    ensures s[..k] + s[k + 1..] == [s[0]] + (s[1..][..k - 1] + s[1..][k..])
  {
    assert s[..k] == [s[0]] + s[1..][..k - 1];
    assert s[k + 1..] == s[1..][k..];
  }

  /** With distinct ids, deleting the reservation at index `k` removes exactly that element. */
  lemma RemoveIdAt(s: seq<Reservation>, k: int)
    requires DistinctIds(s)
    requires 0 <= k < |s|
    ensures RemoveId(s, s[k].id) == s[..k] + s[k + 1..]
  {
    forall j | 0 <= j < |s| && j != k ensures s[j].id != s[k].id {
      if j < k {
        assert s[j].id != s[k].id;
      } else {
        assert s[k].id != s[j].id;
      }
    }
    RemoveIdUnique(s, k);
  }

  /** The query's filter: the reservations that overlap `[start, end)`, in store order. */
  function Matching(s: seq<Reservation>, start: int, end: int): (r: seq<Reservation>)
    ensures forall x :: x in r <==> x in s && Overlaps(x.startAt, x.endAt, start, end)
  {
    if s == [] then []
    else if Overlaps(s[0].startAt, s[0].endAt, start, end) then [s[0]] + Matching(s[1..], start, end)
    else Matching(s[1..], start, end)
  }

  /** The query's `order by room.id asc, startAt asc`. */
  predicate RoomThenStart(a: Reservation, b: Reservation) {
    a.roomId < b.roomId || (a.roomId == b.roomId && a.startAt <= b.startAt)
  }

  lemma RoomThenStartIsTotalPreorder()
    ensures TotalPreorder(RoomThenStart)
  {
  }

  /** The reservation table. Ids come from an identity column: positive and never reused.
   *  Every issued id is below `nextId`, no operation lowers `nextId`, and a new
   *  id is taken at or above it. */
  class ReservationRepository {
    var reservations: seq<Reservation>
    var nextId: int

    ghost predicate Valid()
      reads this
    {
      && nextId >= 1
      && (forall x :: x in reservations ==> 1 <= x.id < nextId && x.startAt < x.endAt)
      && DistinctIds(reservations)
      && NoOverlap(reservations)
    }

    constructor ()
      ensures Valid() && reservations == []
    {
      reservations := [];
      nextId := 1;
    }

    /** `findById`: the reservation with that id, if there is one. */
    function FindById(id: int): (r: Option<Reservation>)
      reads this
      ensures r.Some? ==> r.value in reservations && r.value.id == id
      ensures r.None? <==> forall x :: x in reservations ==> x.id != id
    {
      FindBy(reservations, (x: Reservation) => x.id, id)
    }

    /**
     * `save` of a new reservation under the exclusion constraint: it is
     * refused with `Conflict` exactly when a reservation of the same room
     * overlaps it, and then nothing is written.
     */
    method Insert(roomId: int, userId: int, startAt: int, endAt: int) returns (r: InsertResult)
      requires Valid()
      requires startAt < endAt
      modifies this
      ensures Valid()
      ensures r.Conflict? <==> HasConflict(old(reservations), roomId, startAt, endAt)
      ensures r.Conflict? ==> reservations == old(reservations) && nextId == old(nextId)
      ensures r.Inserted? ==>
        && r.saved == Reservation(r.saved.id, roomId, userId, startAt, endAt)
        && (forall x :: x in old(reservations) ==> x.id != r.saved.id)
        && reservations == old(reservations) + [r.saved]
        && old(nextId) <= r.saved.id < nextId
    {
      if HasConflict(reservations, roomId, startAt, endAt) {
        return Conflict;
      }
      var saved := Reservation(nextId, roomId, userId, startAt, endAt);
      reservations := reservations + [saved];
      nextId := nextId + 1;
      r := Inserted(saved);
    }

    /** `delete`: removes the reservation with that id, if present; no other changes. */
    method Delete(id: int)
      requires Valid()
      modifies this
      ensures Valid()
      ensures reservations == RemoveId(old(reservations), id)
      ensures nextId == old(nextId)
    {
      RemoveIdKeepsDistinct(reservations, id);
      reservations := RemoveId(reservations, id);
    }

    /**
     * `findAllOverlapping(start, end)`: the reservations of every room whose
     * interval overlaps `[start, end)`, ordered by room id, then by start.
     */
    function FindAllOverlapping(start: int, end: int): (r: seq<Reservation>)
      reads this
      ensures forall x :: x in r <==> x in reservations && Overlaps(x.startAt, x.endAt, start, end)
      ensures multiset(r) == multiset(Matching(reservations, start, end))
      ensures SortedBy(r, RoomThenStart)
    {
      var matching := Matching(reservations, start, end);
      SortByMembers(matching, RoomThenStart);
      RoomThenStartIsTotalPreorder();
      SortBySorted(matching, RoomThenStart);
      SortBy(matching, RoomThenStart)
    }
  }

  /** A reservation that only touches the window at one end is not returned. */
  lemma TouchingIsNotOverlapping(store: ReservationRepository, start: int, end: int, x: Reservation)
    requires x in store.reservations
    requires x.endAt == start || x.startAt == end
    ensures x !in store.FindAllOverlapping(start, end)
  {
  }
}
