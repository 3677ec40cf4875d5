# Study-room booking: a Dafny model

This project models the core of a study-room booking service.

- Rooms are created by administrators.
- Users book a room for a half-open interval `[startAt, endAt)`.
- The database refuses two overlapping bookings of the same room. An
  exclusion constraint does this; the service reports a refusal as
  `CONFLICT_OVERLAP`.
- Bookings are cancelled by their owner or by an administrator.
- The availability query lists, for one UTC day, every room with its bookings
  and its free slots.

Requests carry an identity in an `Authorization: Bearer <token>` header
(section 2.1 of RFC 6750). `admin-token` is the administrator;
`user-token-<n>` is user `n`.

Layout, one module per component:

- `wrappers.dfy`: `Option` and `Result`.
- `lookup.dfy`: lookup by id in a table kept as a sequence, shared by both
  stores.
- `sorting.dfy`: a sort for the query's `order by` and for `List.sort`, as
  a pure function. SQL leaves ties unordered; the model picks a stable
  insertion sort, and its contracts use only sortedness and permutation.
- `auth.dfy`: `AuthContext` with `isAdmin`/`isOwner`, and Java's
  `String.trim` and `Long.parseLong`/`Long.toString`. It also holds the
  header parser and the filter, which sets or removes the request's
  identity attribute.
- `failures.dfy`: the exceptions the services throw, as one error datatype.
- `rooms.dfy`: `Room`, the room table as a class, and `RoomService.create`.
- `reservations.dfy`: `Reservation` and the reservation table as a class.
  - Its invariant: positive distinct ids, proper intervals, and no two
    overlapping bookings of one room.
  - An atomic overlap-checked `Insert` returns a typed `Conflict`.
  - `Delete`, `FindById` and the overlap query.
- `free_slots.dfy`: the response records of the availability query, the
  free-slot sweep as a specification function, and its lemmas.
  - The lemmas: slots lie inside the day, are non-empty and strictly
    ascending, and partition the day with the bookings.
- `reservation_service.dfy`: `create`, `cancel`, the availability loop with
  its inner sweep, and two sequential scenarios. One stores back-to-back
  bookings; the other replays the concurrent-insert test turn by turn.

Instants are whole seconds. A UTC date is a day number `d`, and its window is
`[d * 86400, (d + 1) * 86400)`, since UTC has no daylight-saving shifts.

## Model

| member | source | states |
|---|---|---|
| Auth.OwnerNeedsUserId | src/main/java/com/synclife/studyroom/auth/AuthContext.java:5 | `isOwner` is false when the identity has no user id, and false for a null target; otherwise it holds exactly when the target equals the identity's user id |
| Auth.ParsedAdminIsNeverOwner | src/main/java/com/synclife/studyroom/auth/AuthContext.java:4-5 | an administrator produced by the parser owns nothing, so it may cancel only through `isAdmin`; a parsed user owns its own id |
| Auth.Trim | src/main/java/com/synclife/studyroom/auth/AuthFilter.java:32 | the result is the input minus a prefix and a suffix made only of chars at or below U+0020, and it neither starts nor ends with such a char |
| Auth.TrimPadded | src/main/java/com/synclife/studyroom/auth/AuthFilter.java:32 | trimming a text with non-blank ends, padded with blanks on both sides, gives back exactly that text |
| Auth.ParseLong | src/main/java/com/synclife/studyroom/auth/AuthFilter.java:36 | a parsed value lies in the signed 64-bit range, and the accepted text starts with a sign or a digit |
| Auth.ParseLongComplete | src/main/java/com/synclife/studyroom/auth/AuthFilter.java:36 | every optional sign (`-`, `+` or none) followed by a non-empty digit run whose signed value fits a `long` is accepted with that value, leading zeros included |
| Auth.ParseNonCanonicalNumerals | src/main/java/com/synclife/studyroom/auth/AuthFilter.java:36 | "007" reads as 7, "+5" as 5 and "-0" as 0 |
| Auth.DigitsOfValue | src/main/java/com/synclife/studyroom/auth/AuthFilter.java:36 | a digit string without redundant leading zeros is exactly the decimal numeral of its own value |
| Auth.ParseLongSound | src/main/java/com/synclife/studyroom/auth/AuthFilter.java:36 | whatever is accepted is an optional sign followed by a non-empty run of ASCII digits, and printing the parsed value gives the text back in canonical form: no `+`, no leading zeros, and `-0` as `0` |
| Auth.ParseFormatLong | src/main/java/com/synclife/studyroom/auth/AuthFilter.java:36 | parsing the decimal numeral of `n` gives `n` back exactly when `n` fits a `long`, and fails otherwise |
| Auth.Parse | src/main/java/com/synclife/studyroom/auth/AuthFilter.java:30-41 | an identity is only produced from a header starting with "Bearer "; it is either the administrator with no user id, or a user whose id is in the `long` range |
| Auth.ParseOnlyKnownTokens | src/main/java/com/synclife/studyroom/auth/AuthFilter.java:30-41 | every identity the parser produces comes from a header that is "Bearer ", blanks, a token and blanks, where the token is either `admin-token` giving the administrator, or `user-token-` followed by text that parses to the identity's user id |
| Auth.ParseKnownToken | src/main/java/com/synclife/studyroom/auth/AuthFilter.java:30-41 | conversely, "Bearer ", blanks, a known token and blanks give exactly the identity that token names, so together with `ParseOnlyKnownTokens` and `ParseOtherToken` the parser's result is fixed for every header |
| Auth.ParseZeroPaddedUserToken | src/main/java/com/synclife/studyroom/auth/AuthFilter.java:34-37 | "Bearer user-token-007" is user 7 |
| Auth.ParseOtherToken | src/main/java/com/synclife/studyroom/auth/AuthFilter.java:33-40 | a header whose trimmed token is neither `admin-token` nor `user-token-` followed by a parseable number gives no identity |
| Auth.ParseNonNumericUserToken | src/main/java/com/synclife/studyroom/auth/AuthFilter.java:34-40 | "Bearer user-token-12x" gives no identity, since the user id is not a number |
| Auth.ParseNeedsBearer | src/main/java/com/synclife/studyroom/auth/AuthFilter.java:31 | a missing header, or one not starting with the case-sensitive "Bearer ", gives no identity |
| Auth.ParseAdminToken | src/main/java/com/synclife/studyroom/auth/AuthFilter.java:33 | "Bearer admin-token", with any blanks around the token, gives the administrator with no user id |
| Auth.ParseUserToken | src/main/java/com/synclife/studyroom/auth/AuthFilter.java:34-40 | "Bearer user-token-n", with any blanks around the token, gives user `n` when `n` fits a `long` and no identity otherwise |
| Auth.ParseEmptyUserToken | src/main/java/com/synclife/studyroom/auth/AuthFilter.java:34-40 | "user-token-" with nothing after it gives no identity |
| Auth.IsPublicPath | src/main/java/com/synclife/studyroom/auth/AuthFilter.java:18 | a path is passed through exactly when it starts with `/v3/api-docs`, `/swagger-ui` or `/docs`; the separate `/swagger-ui.html` test adds nothing |
| Auth.DoFilter | src/main/java/com/synclife/studyroom/auth/AuthFilter.java:18-25 | on a documentation path the request's identity attribute is left untouched; on any other path it is set to the parsed identity when there is one and removed otherwise |
| Rooms.RoomRepository.FindById | src/main/java/com/synclife/studyroom/reservation/application/ReservationService.java:37-38 | a found room is stored and has that id; nothing is found exactly when no stored room has the id |
| Rooms.RoomRepository.Save | src/main/java/com/synclife/studyroom/room/RoomService.java:16 | appends one room with the given name, location and capacity and an id no stored room has, and keeps the table's id invariant; the new id is at or above the previous `nextId` and below the new one, so ids are never reused |
| RoomService.Create | src/main/java/com/synclife/studyroom/room/RoomService.java:13-17 | no identity is UNAUTHORIZED; otherwise a non-admin is FORBIDDEN; neither failure saves anything; an administrator gets exactly one new room with the given fields and a fresh id, with the other rooms unchanged |
| Reservations.ReservationRepository.Insert | src/main/java/com/synclife/studyroom/reservation/application/ReservationService.java:40-45 | refused with `Conflict` exactly when a stored booking of the same room overlaps, leaving the table unchanged; otherwise appends one booking with those values and a fresh id; the no-overlap invariant is kept; a new id is at or above the previous `nextId` and below the new one, and a refusal leaves `nextId` as it was |
| Reservations.ReservationRepository.FindById | src/main/java/com/synclife/studyroom/reservation/application/ReservationService.java:52 | a found booking is stored and has that id; nothing is found exactly when no stored booking has it |
| Reservations.ReservationRepository.Delete | src/main/java/com/synclife/studyroom/reservation/application/ReservationService.java:54 | the table afterwards holds every booking except those with that id, in order, and keeps its invariant; `nextId` is unchanged, so a deleted id is never issued again |
| Reservations.RemoveIdAt | src/main/java/com/synclife/studyroom/reservation/application/ReservationService.java:54 | with distinct ids, deleting the booking at index `k` removes exactly that element and keeps the rest in order |
| Reservations.Matching | src/main/java/com/synclife/studyroom/reservation/ReservationRepository.java:14 | a booking is selected exactly when it starts before the window's end and ends after its start |
| Reservations.ReservationRepository.FindAllOverlapping | src/main/java/com/synclife/studyroom/reservation/ReservationRepository.java:11-17 | over all rooms, the result holds exactly the stored bookings overlapping `[start, end)`; it is a permutation of the matching subset, ordered by room id and then by start |
| Reservations.TouchingIsNotOverlapping | src/main/java/com/synclife/studyroom/reservation/ReservationRepository.java:14 | a booking that only touches the window at one end is not returned |
| Reservations.OfRoom | src/main/java/com/synclife/studyroom/reservation/application/ReservationService.java:68-74 | a room's group holds exactly the query's bookings of that room, so a room with none gets the empty list |
| Sorting.SortBy | src/main/java/com/synclife/studyroom/reservation/application/ReservationService.java:102 | sorting is a permutation of its input |
| Sorting.SortBySorted | src/main/java/com/synclife/studyroom/reservation/application/ReservationService.java:102 | under a total, transitive comparison the sorted sequence is ordered |
| FreeSlots.OfRoomStartSorted | src/main/java/com/synclife/studyroom/reservation/ReservationRepository.java:15 | when the query is ordered by room and then by start, each room's group is ordered by start, which is what the sweep needs |
| FreeSlots.FreeSlotsFrom | src/main/java/com/synclife/studyroom/reservation/application/ReservationService.java:77-94 | the sweep from booking `i` yields at most one slot per remaining booking plus the one after the last |
| FreeSlots.FreeSlotsAfterCursor | src/main/java/com/synclife/studyroom/reservation/application/ReservationService.java:84-93 | every free slot is non-empty and starts at or after the cursor |
| FreeSlots.FreeSlotsBoundedAscending | src/main/java/com/synclife/studyroom/reservation/application/ReservationService.java:77-94 | over proper intervals starting by the day's end, every free slot ends by the day's end, and the slots are strictly ascending, hence disjoint |
| FreeSlots.FreeSlotsPartition | src/main/java/com/synclife/studyroom/reservation/application/ReservationService.java:77-94 | over bookings sorted by start, an instant between the cursor and the day's end is in a free slot exactly when no booking covers it |
| FreeSlots.RoomEntry | src/main/java/com/synclife/studyroom/reservation/application/ReservationService.java:73-99 | a room's entry carries the room's id, name, location and capacity; its windows are exactly the windows of that room's bookings in the day's query; it has at most one free slot more than bookings |
| FreeSlots.Entries | src/main/java/com/synclife/studyroom/reservation/application/ReservationService.java:73-99 | one entry per room, in the rooms' order, each carrying its room's id and name |
| FreeSlots.DayFreeSlots | src/main/java/com/synclife/studyroom/reservation/application/ReservationService.java:58-94 | for a room of a consistent table, the entry's free slots lie inside the day, are non-empty and strictly ascending, and an instant of the day is free exactly when no booking of the room covers it |
| FreeSlots.DayWithoutBookings | src/main/java/com/synclife/studyroom/reservation/application/ReservationService.java:74-94 | a room with no booking overlapping the day gets no booking windows and the single free slot `[dayStart, dayEnd)` |
| FreeSlots.NineToTenExample | src/main/java/com/synclife/studyroom/api/RoomsApi.java:98-104 | one booking 09:00-10:00 on 2025-09-26 leaves the free slots 00:00-09:00 and 10:00-24:00 |
| ReservationService.ValidRange | src/main/java/com/synclife/studyroom/reservation/application/ReservationService.java:106-109 | an interval is accepted exactly when it holds its own first second, that is, when it is non-empty |
| ReservationService.Create | src/main/java/com/synclife/studyroom/reservation/application/ReservationService.java:31-47 | errors come in order: UNAUTHORIZED, then FORBIDDEN_RESERVATION_REQUIRES_USER, then an empty or reversed interval, then an unknown room, then CONFLICT_OVERLAP exactly when a booking of the same room overlaps; every failure leaves the table unchanged; success appends exactly one booking `(room, user, start, end)` under a fresh id |
| ReservationService.Cancel | src/main/java/com/synclife/studyroom/reservation/application/ReservationService.java:50-55 | no identity is UNAUTHORIZED, an unknown id is "reservation not found", and FORBIDDEN holds exactly when the caller is neither an administrator nor the owner; every failure leaves the table unchanged; success removes exactly that booking and keeps the others in order |
| ReservationService.RoomSlots | src/main/java/com/synclife/studyroom/reservation/application/ReservationService.java:77-94 | the cursor loop yields one window per booking, in order, and exactly the free slots of the sweep specification |
| ReservationService.Availability | src/main/java/com/synclife/studyroom/reservation/application/ReservationService.java:58-104 | one entry per room, ordered by room id; the entries are a permutation of the per-room entries built from the day's overlap query |
| ReservationService.BackToBack | src/main/java/com/synclife/studyroom/reservation/application/ReservationService.java:40-45 | touching intervals are admitted: on a room free over `[s, e)`, booking `[s, m)` and then `[m, e)` both succeed and both are stored |
| ReservationService.SubmitInTurn | src/test/java/com/synclife/studyroom/reservation/ConcurrencyReservationTest.java:41-68 | several users inserting the same interval of an empty room, one after another, give exactly one success and exactly one stored booking for that room |

## Left out

- Auth.ParseLong: accepts ASCII digits only. Java's `Long.parseLong` also accepts the other Unicode decimal digits, which the `char` model does not classify.
- Servlet plumbing: `FilterChain.doFilter` and the request/response objects are not modelled. `DoFilter` keeps only the bypass test and the set-or-remove decision on the identity attribute.
- `isExclusionViolation` (`ReservationService.java:111-116`) is not modelled; it inspects the database error text and the SQLSTATE. The store's `Insert` reports the exclusion constraint as a typed `Conflict` instead.
- Other integrity errors, which `create` rethrows, have no counterpart, because the model's store raises no other errors.
- The database schema, the exclusion constraint itself, transactions and concurrent requests are not modelled.
  - The store is sequential, and `Insert` checks and writes in one step.
  - Reservations.ReservationRepository.Insert: requires `startAt < endAt`. Its only caller checks this first; the table's own check constraints are not part of this model.
  - The concurrent-insert test is kept only as its sequential consequence, `SubmitInTurn`.
- The JPA repositories are replaced by the two store classes.
  - `RoomRepository` and the domain `ReservationRepository` are not part of this model.
  - `findAll` is the stored order of the rooms table; the database gives it no defined order, and the final sort by id makes the result independent of it.
- `groupingBy` into a `LinkedHashMap` is modelled as an order-preserving filter of the query result per room (`OfRoom`). `getOrDefault(..., List.of())` is then the empty filter.
- ReservationService.Availability: states the result as a permutation of the per-room entries, ordered by room id, rather than fixing the relative order of rooms with equal ids. Room ids are unique in the table, so no two entries tie.
- Instants are whole seconds; `Instant`'s nanosecond part is not modelled.
- ISO-8601 parsing of dates and instants, and the Bean Validation of the request records, are not modelled. Their non-null fields are parameters here, so `validateRange`'s null checks have no counterpart.
- A null reservation id passed to `cancel` is not modelled; ids are plain integers here.
- Controllers, `GlobalExceptionHandler`'s mapping of exceptions to HTTP status codes, and the OpenAPI annotations are transport and documentation, and are not modelled. Failures are the `Failure` datatype.
- `/swagger-ui.html` is listed separately in the bypass test, but it already starts with `/swagger-ui`; the model keeps the test as written.
