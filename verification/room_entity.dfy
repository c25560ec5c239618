/** The stored room record, keyed by its id in the room table. */
module RoomEntity {
  import opened Common

  datatype RoomType = Standard | Deluxe | Suite | Presidential

  /** A room; `isActive` false marks a room withdrawn by a soft delete. */
  datatype Room = Room(
    number: string,
    roomType: RoomType,
    pricePerNight: Cents,
    capacity: int,
    description: Option<string>,
    amenities: Option<seq<string>>,
    isActive: bool
  )
}
