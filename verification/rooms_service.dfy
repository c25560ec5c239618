/** Room reads, partial update, soft delete, and the availability search.
    The search is a left join of rooms with their bookings followed by a
    row filter, so a room survives when any one of its rows does. */
module RoomsService {
  import opened Common
  import opened DateRanges
  import opened BookingEntity
  import opened RoomEntity
  import opened ClientEntity
  import BookingsService

  /** All stored rooms, keyed by room id, withdrawn ones included. */
  type Rooms = map<RoomId, Room>

  /** The listing: every active room and no other. */
  function FindAll(rooms: Rooms): (r: Rooms)
    ensures r.Keys <= rooms.Keys
    ensures forall id | id in rooms :: id in r <==> rooms[id].isActive
    ensures forall id | id in r :: r[id] == rooms[id]
  {
    map id | id in rooms && rooms[id].isActive :: rooms[id]
  }

  /** Reads one room; a withdrawn room reads as missing. */
  function FindOne(rooms: Rooms, id: RoomId): (r: Result<Room>)
    ensures r.Ok? <==> id in rooms && rooms[id].isActive
    ensures r.Ok? ==> r.value == rooms[id]
    ensures r.Err? ==> r.failure == RoomNotFound
  {
    if id in rooms && rooms[id].isActive then Ok(rooms[id]) else Err(RoomNotFound)
  }

  /** The fields a room update may carry; `None` means not sent. */
  datatype RoomPatch = RoomPatch(
    number: Option<string>,
    roomType: Option<RoomType>,
    pricePerNight: Option<Cents>,
    capacity: Option<int>,
    description: Option<string>,
    amenities: Option<seq<string>>,
    isActive: Option<bool>
  )

  /** Overwrites the sent fields of an active room; a withdrawn room is not
      found, so it cannot be re-activated this way. */
  function Update(rooms: Rooms, id: RoomId, patch: RoomPatch): (r: Result<Rooms>)
    ensures r.Err? <==> id !in rooms || !rooms[id].isActive
    ensures r.Err? ==> r.failure == RoomNotFound
    ensures r.Ok? ==> r.value.Keys == rooms.Keys
    ensures r.Ok? ==> forall other | other in rooms && other != id :: r.value[other] == rooms[other]
    ensures r.Ok? ==>
      var before := rooms[id];
      var after := r.value[id];
      && after.number == patch.number.GetOr(before.number)
      && after.roomType == patch.roomType.GetOr(before.roomType)
      && after.pricePerNight == patch.pricePerNight.GetOr(before.pricePerNight)
      && after.capacity == patch.capacity.GetOr(before.capacity)
      && after.description == (if patch.description.Some? then patch.description else before.description)
      && after.amenities == (if patch.amenities.Some? then patch.amenities else before.amenities)
      && after.isActive == patch.isActive.GetOr(true)
  {
    match FindOne(rooms, id)
    case Err(f) => Err(f)
    case Ok(room) =>
      var updated := Room(
        patch.number.GetOr(room.number),
        patch.roomType.GetOr(room.roomType),
        patch.pricePerNight.GetOr(room.pricePerNight),
        patch.capacity.GetOr(room.capacity),
        if patch.description.Some? then patch.description else room.description,
        if patch.amenities.Some? then patch.amenities else room.amenities,
        patch.isActive.GetOr(room.isActive));
      Ok(rooms[id := updated])
  }

  /** Soft delete: the room stays on file with `isActive` cleared. */
  function Remove(rooms: Rooms, id: RoomId): (r: Result<Rooms>)
    ensures r.Err? <==> id !in rooms || !rooms[id].isActive
    ensures r.Err? ==> r.failure == RoomNotFound
    ensures r.Ok? ==> r.value.Keys == rooms.Keys
    ensures r.Ok? ==> forall other | other in rooms && other != id :: r.value[other] == rooms[other]
    ensures r.Ok? ==> r.value[id] == rooms[id].(isActive := false)
  {
    match FindOne(rooms, id)
    case Err(f) => Err(f)
    case Ok(room) => Ok(rooms[id := room.(isActive := false)])
  }

  /** After a soft delete the room is kept but no read shows it, and a
      second delete is refused. */
  lemma RemoveHidesRoom(rooms: Rooms, id: RoomId)
    requires Remove(rooms, id).Ok?
    ensures id in Remove(rooms, id).value
    ensures FindOne(Remove(rooms, id).value, id) == Err(RoomNotFound)
    ensures id !in FindAll(Remove(rooms, id).value)
    ensures FindAll(Remove(rooms, id).value) == FindAll(rooms) - {id}
    ensures Remove(Remove(rooms, id).value, id) == Err(RoomNotFound)
  {
  }

  /** Update looks the room up through the active-only read, so it cannot
      bring a soft-deleted room back. */
  lemma UpdateCannotReviveRemoved(rooms: Rooms, id: RoomId, patch: RoomPatch)
    requires Remove(rooms, id).Ok?
    ensures Update(Remove(rooms, id).value, id, patch) == Err(RoomNotFound)
    ensures FindOne(Remove(rooms, id).value, id) == Err(RoomNotFound)
  {
  }

  /** After an update the room still reads, now with its patched fields,
      unless the patch itself withdrew it. */
  lemma UpdateThenFindOne(rooms: Rooms, id: RoomId, patch: RoomPatch)
    requires Update(rooms, id, patch).Ok?
    ensures FindOne(Update(rooms, id, patch).value, id).Ok? <==> patch.isActive != Some(false)
    ensures FindOne(Update(rooms, id, patch).value, id).Ok? ==>
      FindOne(Update(rooms, id, patch).value, id).value.pricePerNight == patch.pricePerNight.GetOr(rooms[id].pricePerNight)
  {
  }

  /** No two stored rooms share a number, withdrawn rooms included. */
  predicate UniqueNumbers(rooms: Rooms) {
    forall i, j | i in rooms && j in rooms && i != j :: rooms[i].number != rooms[j].number
  }

  /** The rooms of the duplicate-number example: two active rooms. */
  function NumberedRooms(): Rooms {
    map[
      "r1" := Room("101", Standard, 10000, 2, None, None, true),
      "r2" := Room("102", Deluxe, 15000, 2, None, None, true)]
  }

  /** Update does not look for the new number among other rooms, so the
      service alone does not keep numbers unique; only the store's unique
      column would refuse the write. */
  lemma UpdateCanDuplicateNumber()
    ensures
      var r := Update(NumberedRooms(), "r2", RoomPatch(Some("101"), None, None, None, None, None, None));
      UniqueNumbers(NumberedRooms()) && r.Ok? && !UniqueNumbers(r.value)
  {
    var rooms := NumberedRooms();
    var r := Update(rooms, "r2", RoomPatch(Some("101"), None, None, None, None, None, None));
    assert "101"[2] != "102"[2];
    assert UniqueNumbers(rooms);
    assert r.value["r1"].number == r.value["r2"].number;
  }

  /** A soft-deleted room can still be booked, since booking creation looks
      the room up without the active filter. */
  lemma RemovedRoomStillBookable(
    ledger: BookingsService.Ledger, rooms: Rooms, clients: map<ClientId, Client>,
    now: Instant, req: BookingsService.CreateBookingRequest, newId: BookingId)
    requires newId !in ledger
    requires Remove(rooms, req.roomId).Ok?
    ensures BookingsService.Create(ledger, Remove(rooms, req.roomId).value, clients, now, req, newId)
         == BookingsService.Create(ledger, rooms, clients, now, req, newId)
  {
  }

  /** The availability search parameters; the dates are not validated. */
  datatype AvailabilityQuery = AvailabilityQuery(checkIn: Instant, checkOut: Instant, roomType: Option<RoomType>) {
    function Dates(): DateRange {
      DateRange(checkIn, checkOut)
    }
  }

  /** One row of the left join: a room with one of its bookings, or with no
      booking when it has none. */
  datatype JoinRow = JoinRow(roomId: RoomId, booking: Option<BookingId>)

  /** Some stored booking is on the room. */
  predicate HasBookings(ledger: BookingsService.Ledger, roomId: RoomId) {
    exists bid | bid in ledger :: ledger[bid].roomId == roomId
  }

  /** Rooms left-joined with bookings on the booking's room id. */
  function LeftJoin(rooms: Rooms, ledger: BookingsService.Ledger): (rows: set<JoinRow>)
    ensures forall row | row in rows :: row.roomId in rooms
    ensures forall row | row in rows && row.booking.Some? ::
      row.booking.value in ledger && ledger[row.booking.value].roomId == row.roomId
    ensures forall row | row in rows && row.booking.None? :: !HasBookings(ledger, row.roomId)
    ensures forall rid, bid | rid in rooms && bid in ledger && ledger[bid].roomId == rid :: JoinRow(rid, Some(bid)) in rows
    ensures forall rid | rid in rooms && !HasBookings(ledger, rid) :: JoinRow(rid, None) in rows
  {
    (set rid, bid | rid in rooms && bid in ledger && ledger[bid].roomId == rid :: JoinRow(rid, Some(bid)))
    + (set rid | rid in rooms && !HasBookings(ledger, rid) :: JoinRow(rid, None))
  }

  /** The search's test on one joined booking: not Active, or ending no later
      than the requested check-in, or starting no earlier than the requested
      check-out. It is the negation of the booking conflict test. */
  predicate BookingPasses(b: Booking, q: AvailabilityQuery)
    ensures BookingPasses(b, q) <==> !(b.status == Active && Overlaps(b.dates, q.Dates()))
  {
    b.status != Active || b.dates.checkOut <= q.checkIn || b.dates.checkIn >= q.checkOut
  }

  /** The room's type matches the filter, or no filter was given. */
  predicate TypeMatches(room: Room, q: AvailabilityQuery) {
    q.roomType.None? || room.roomType == q.roomType.value
  }

  /** The WHERE clause on one joined row. */
  predicate RowKept(rooms: Rooms, ledger: BookingsService.Ledger, q: AvailabilityQuery, row: JoinRow)
    requires row.roomId in rooms
    requires row.booking.Some? ==> row.booking.value in ledger
  {
    && rooms[row.roomId].isActive
    && (row.booking.None? || BookingPasses(ledger[row.booking.value], q))
    && TypeMatches(rooms[row.roomId], q)
  }

  /** The availability search: the distinct rooms of the rows the filter keeps. */
  function FindAvailable(rooms: Rooms, ledger: BookingsService.Ledger, q: AvailabilityQuery): (r: set<RoomId>)
    ensures r <= rooms.Keys
    ensures forall rid | rid in r :: rooms[rid].isActive && TypeMatches(rooms[rid], q)
  {
    var rows := LeftJoin(rooms, ledger);
    set row | row in rows && RowKept(rooms, ledger, q, row) :: row.roomId
  }

  /** A room is found exactly when it is active, matches the type filter, and
      has no bookings or at least one booking that passes the per-booking test. */
  lemma FindAvailableExactly(rooms: Rooms, ledger: BookingsService.Ledger, q: AvailabilityQuery, rid: RoomId)
    ensures rid in FindAvailable(rooms, ledger, q) <==>
      && rid in rooms
      && rooms[rid].isActive
      && TypeMatches(rooms[rid], q)
      && (!HasBookings(ledger, rid) || exists bid | bid in ledger :: ledger[bid].roomId == rid && BookingPasses(ledger[bid], q))
  {
  }

  /** An active room of the requested type with no bookings is always found. */
  lemma UnbookedRoomFound(rooms: Rooms, ledger: BookingsService.Ledger, q: AvailabilityQuery, rid: RoomId)
    requires rid in rooms && rooms[rid].isActive && TypeMatches(rooms[rid], q)
    requires !HasBookings(ledger, rid)
    ensures rid in FindAvailable(rooms, ledger, q)
  {
  }

  /** A room that booking creation would accept for the dates (no blocking
      Active booking) is found, provided it is active and of the requested type. */
  lemma ConflictFreeRoomFound(rooms: Rooms, ledger: BookingsService.Ledger, q: AvailabilityQuery, rid: RoomId)
    requires rid in rooms && rooms[rid].isActive && TypeMatches(rooms[rid], q)
    requires !BookingsService.HasConflict(ledger, rid, q.Dates(), None)
    ensures rid in FindAvailable(rooms, ledger, q)
  {
  }

  /** The rooms of the unavailable-room example: one active room. */
  function UnavailableRooms(): Rooms {
    map["r" := Room("101", Standard, 10000, 2, None, None, true)]
  }

  /** The ledger of the unavailable-room example: an Active and a Cancelled
      booking of the room for days 10 to 12. */
  function UnavailableLedger(): BookingsService.Ledger {
    map[
      "a" := Booking("r", "c", DateRange(10 * DayMs, 12 * DayMs), 20000, Active, false, None),
      "b" := Booking("r", "c", DateRange(10 * DayMs, 12 * DayMs), 20000, Cancelled, false, None)]
  }

  /** The converse fails: a room with one overlapping Active booking and one
      Cancelled booking is found, although booking it for the same dates is
      refused as a conflict. */
  lemma FoundRoomCanBeUnavailable()
    ensures
      var q := AvailabilityQuery(10 * DayMs, 12 * DayMs, None);
      var clients := map["c" := Client("Ann", "Lee", "ann@example.com", "+1", false, None)];
      var req := BookingsService.CreateBookingRequest("r", "c", 10 * DayMs, 12 * DayMs, None);
      && "r" in FindAvailable(UnavailableRooms(), UnavailableLedger(), q)
      && BookingsService.HasConflict(UnavailableLedger(), "r", q.Dates(), None)
      && BookingsService.Create(UnavailableLedger(), UnavailableRooms(), clients, 0, req, "n") == Err(RoomUnavailable)
  {
    var ledger := UnavailableLedger();
    var q := AvailabilityQuery(10 * DayMs, 12 * DayMs, None);
    FindAvailableExactly(UnavailableRooms(), ledger, q, "r");
    assert ledger["b"].roomId == "r" && BookingPasses(ledger["b"], q);
    assert BookingsService.Blocks("a", ledger["a"], "r", q.Dates(), None);
  }

  /** The search as evidently intended: a room is available when no Active
      booking on it overlaps the dates. */
  function FindAvailableStrict(rooms: Rooms, ledger: BookingsService.Ledger, q: AvailabilityQuery): (r: set<RoomId>)
    ensures r <= FindAvailable(rooms, ledger, q)
  {
    var r := set rid | rid in rooms && rooms[rid].isActive && TypeMatches(rooms[rid], q)
      && !BookingsService.HasConflict(ledger, rid, q.Dates(), None);
    assert r <= FindAvailable(rooms, ledger, q) by {
      forall rid | rid in r ensures rid in FindAvailable(rooms, ledger, q) {
        ConflictFreeRoomFound(rooms, ledger, q, rid);
      }
    }
    r
  }

  /** Every room the intended search lists can be booked for those dates by a
      known client, and every active room of the type it leaves out is refused
      as a conflict. */
  lemma StrictSearchMatchesBooking(
    rooms: Rooms, ledger: BookingsService.Ledger, clients: map<ClientId, Client>,
    now: Instant, q: AvailabilityQuery, rid: RoomId, cid: ClientId, newId: BookingId)
    requires Valid(q.Dates()) && q.checkIn >= now
    requires cid in clients
    requires newId !in ledger
    requires rid in rooms && rooms[rid].isActive && TypeMatches(rooms[rid], q)
    ensures
      var req := BookingsService.CreateBookingRequest(rid, cid, q.checkIn, q.checkOut, None);
      var made := BookingsService.Create(ledger, rooms, clients, now, req, newId);
      && (rid in FindAvailableStrict(rooms, ledger, q) <==> made.Ok?)
      && (rid !in FindAvailableStrict(rooms, ledger, q) <==> made == Err(RoomUnavailable))
  {
  }
}
