/** The stored booking record. The ledger keys a booking by its id, so the
    record itself carries no id. */
module BookingEntity {
  import opened Common
  import opened DateRanges

  /** Exactly one of three states; a booking starts Active. */
  datatype BookingStatus = Active | Cancelled | Completed

  /** A reservation of one room by one client. `clientWasVip` is the client's
      VIP flag copied when the booking was made, not a link to the live flag. */
  datatype Booking = Booking(
    roomId: RoomId,
    clientId: ClientId,
    dates: DateRange,
    totalPrice: Cents,
    status: BookingStatus,
    clientWasVip: bool,
    notes: Option<string>
  )
}
