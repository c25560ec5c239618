/** Shared vocabulary of the reservation model: optional values, the failures
    the services raise, and the scalar types used for time, money and ids. */
module Common {

  /** An optional value; `None` stands for a field the caller left out. */
  datatype Option<+T> = None | Some(value: T) {

    /** The carried value, or `default` when there is none. */
    function GetOr(default: T): T {
      match this
      case Some(v) => v
      case None => default
    }
  }

  /** Every exception the modelled services throw, one constructor per cause. */
  datatype Failure =
    | InvalidRange        // check-out not after check-in
    | PastCheckIn         // check-in before the current instant
    | RoomNotFound
    | ClientNotFound
    | BookingNotFound
    | BookingCancelled    // update of a cancelled booking
    | AlreadyCancelled    // cancel of a cancelled booking
    | RoomUnavailable     // an Active booking on the room overlaps
    | DuplicateEmail      // client create with an email already registered

  /** The exception class the service throws for each failure. */
  datatype ExceptionKind = BadRequest | NotFound | Conflict

  function KindOf(f: Failure): ExceptionKind {
    match f
    case InvalidRange => BadRequest
    case PastCheckIn => BadRequest
    case BookingCancelled => BadRequest
    case AlreadyCancelled => BadRequest
    case RoomNotFound => NotFound
    case ClientNotFound => NotFound
    case BookingNotFound => NotFound
    case RoomUnavailable => Conflict
    case DuplicateEmail => Conflict
  }

  /** Either the new state (or the value read) or the failure that aborted the call. */
  datatype Result<+T> = Ok(value: T) | Err(failure: Failure)

  /** A point in time, in milliseconds since the epoch. */
  type Instant = int

  /** Milliseconds in one day, the divisor of the nights computation. */
  const DayMs: int := 1000 * 60 * 60 * 24

  /** An amount of money in cents; prices carry two decimal places. */
  type Cents = nat

  type BookingId = string
  type RoomId = string
  type ClientId = string
}
