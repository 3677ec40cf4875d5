/** The failures the services signal; each stands for the exception message the service throws. */
module Failures {

  datatype Failure =
    | Unauthorized                      // SecurityException "UNAUTHORIZED": no identity
    | Forbidden                         // SecurityException "FORBIDDEN": identity lacks the right
    | ForbiddenReservationRequiresUser  // SecurityException "FORBIDDEN_RESERVATION_REQUIRES_USER"
    | InvalidRange                      // IllegalArgumentException "startAt < endAt"
    | RoomNotFound                      // NoSuchElementException "room not found"
    | ReservationNotFound               // NoSuchElementException "reservation not found"
    | ConflictOverlap                   // IllegalStateException "CONFLICT_OVERLAP"
}
