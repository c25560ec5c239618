/** The booking ledger and the reservation operations over it: create, read,
    partial update, cancel and hard delete. Every operation is a pure function
    from the current ledger to a new ledger or a failure; on failure the
    caller keeps the ledger it passed in, which is how the transaction's
    rollback appears here. */
module BookingsService {
  import opened Common
  import opened DateRanges
  import opened BookingEntity
  import opened RoomEntity
  import opened ClientEntity

  /** All stored bookings, keyed by booking id. */
  type Ledger = map<BookingId, Booking>

  /** Booking `id`, holding `b`, stands in the way of `dates` on `roomId`: it is
      on that room, is not the booking being moved, is Active and overlaps. */
  predicate Blocks(id: BookingId, b: Booking, roomId: RoomId, dates: DateRange, exclude: Option<BookingId>) {
    && b.roomId == roomId
    && exclude != Some(id)
    && b.status == Active
    && Overlaps(b.dates, dates)
  }

  /** The conflict query: some stored booking blocks `dates` on `roomId`. */
  predicate HasConflict(ledger: Ledger, roomId: RoomId, dates: DateRange, exclude: Option<BookingId>) {
    exists id | id in ledger :: Blocks(id, ledger[id], roomId, dates, exclude)
  }

  /** The conflict query as a scan that returns one blocking booking, if any. */
  method FindConflict(ledger: Ledger, roomId: RoomId, dates: DateRange, exclude: Option<BookingId>)
    returns (found: Option<BookingId>)
    ensures found.Some? ==> found.value in ledger && Blocks(found.value, ledger[found.value], roomId, dates, exclude)
    ensures found.None? <==> !HasConflict(ledger, roomId, dates, exclude)
  {
    var pending := ledger.Keys;
    while pending != {}
      invariant pending <= ledger.Keys
      invariant forall id | id in ledger && id !in pending :: !Blocks(id, ledger[id], roomId, dates, exclude)
      decreases pending
    {
      var id :| id in pending;
      if Blocks(id, ledger[id], roomId, dates, exclude) {
        return Some(id);
      }
      pending := pending - {id};
    }
    return None;
  }

  /** The ledger's guarantee: no two Active bookings of one room overlap.
      Cancelled and Completed bookings are history and may overlap freely. */
  predicate NoDoubleBooking(ledger: Ledger) {
    forall i, j | i in ledger && j in ledger && i != j ::
      (ledger[i].roomId == ledger[j].roomId && ledger[i].status == Active && ledger[j].status == Active)
      ==> !Overlaps(ledger[i].dates, ledger[j].dates)
  }

  /** The guarantee, restated through the conflict query: every Active booking
      would pass the conflict check that excludes its own id. */
  lemma NoDoubleBookingIffSelfExcludedChecksPass(ledger: Ledger)
    ensures NoDoubleBooking(ledger) <==>
      forall id | id in ledger && ledger[id].status == Active ::
        !HasConflict(ledger, ledger[id].roomId, ledger[id].dates, Some(id))
  {
  }

  /** Bookings that are not Active never block: adding one leaves every
      conflict query unchanged. */
  lemma InactiveNeverBlocks(ledger: Ledger, id: BookingId, b: Booking, roomId: RoomId, dates: DateRange, exclude: Option<BookingId>)
    requires id !in ledger
    requires b.status != Active
    ensures HasConflict(ledger[id := b], roomId, dates, exclude) <==> HasConflict(ledger, roomId, dates, exclude)
  {
    HasConflictAfterInsert(ledger, id, b, roomId, dates, exclude);
  }

  /** The body of a booking request. */
  datatype CreateBookingRequest = CreateBookingRequest(
    roomId: RoomId,
    clientId: ClientId,
    checkIn: Instant,
    checkOut: Instant,
    notes: Option<string>
  ) {
    function Dates(): DateRange {
      DateRange(checkIn, checkOut)
    }
  }

  /** Every check create runs before the conflict query passes. */
  predicate CreateAdmissible(rooms: map<RoomId, Room>, clients: map<ClientId, Client>, now: Instant, req: CreateBookingRequest) {
    && Valid(req.Dates())
    && req.checkIn >= now
    && req.roomId in rooms
    && req.clientId in clients
  }

  /** Books a room. The checks run in order: the range, the past check-in, the
      room (looked up whether or not it is active), the client, and the
      conflict query over Active bookings of the room. The new booking is
      stored under `newId`, the fresh id the store generates. */
  function Create(
    ledger: Ledger, rooms: map<RoomId, Room>, clients: map<ClientId, Client>,
    now: Instant, req: CreateBookingRequest, newId: BookingId
  ): (r: Result<Ledger>)
    requires newId !in ledger
    ensures r == Err(InvalidRange) <==> req.checkIn >= req.checkOut
    ensures r == Err(PastCheckIn) <==> req.checkIn < req.checkOut && req.checkIn < now
    ensures r == Err(RoomNotFound) <==> Valid(req.Dates()) && req.checkIn >= now && req.roomId !in rooms
    ensures r == Err(ClientNotFound) <==>
      Valid(req.Dates()) && req.checkIn >= now && req.roomId in rooms && req.clientId !in clients
    ensures r == Err(RoomUnavailable) <==>
      CreateAdmissible(rooms, clients, now, req) && HasConflict(ledger, req.roomId, req.Dates(), None)
    ensures r.Err? && KindOf(r.failure) == BadRequest <==> req.checkIn >= req.checkOut || req.checkIn < now
    ensures r.Ok? <==> CreateAdmissible(rooms, clients, now, req) && !HasConflict(ledger, req.roomId, req.Dates(), None)
    ensures r.Ok? ==> r.value.Keys == ledger.Keys + {newId}
    ensures r.Ok? ==> forall id | id in ledger :: r.value[id] == ledger[id]
    ensures r.Ok? ==>
      var b := r.value[newId];
      && b.roomId == req.roomId
      && b.clientId == req.clientId
      && b.dates == req.Dates()
      && b.status == Active
      && b.totalPrice == Nights(req.Dates()) * rooms[req.roomId].pricePerNight
      && b.totalPrice >= rooms[req.roomId].pricePerNight
      && b.clientWasVip == clients[req.clientId].isVip
      && b.notes == req.notes
  {
    var dates := req.Dates();
    if req.checkIn >= req.checkOut then Err(InvalidRange)
    else if req.checkIn < now then Err(PastCheckIn)
    else if req.roomId !in rooms then Err(RoomNotFound)
    else if req.clientId !in clients then Err(ClientNotFound)
    else if HasConflict(ledger, req.roomId, dates, None) then Err(RoomUnavailable)
    else
      var nights := Nights(dates);
      var price := rooms[req.roomId].pricePerNight;
      assert nights * price >= price by {
        assert (nights - 1) * price >= 0;
      }
      var booking := Booking(req.roomId, req.clientId, dates, nights * price, Active, clients[req.clientId].isVip, req.notes);
      Ok(ledger[newId := booking])
  }

  /** Reads one booking. */
  function FindOne(ledger: Ledger, id: BookingId): (r: Result<Booking>)
    ensures r.Ok? <==> id in ledger
    ensures r.Ok? ==> r.value == ledger[id]
    ensures r.Err? ==> r.failure == BookingNotFound
  {
    if id in ledger then Ok(ledger[id]) else Err(BookingNotFound)
  }

  /** The fields an update may carry; `None` means the field was not sent.
      Room, client and the VIP snapshot are not among them. */
  datatype BookingPatch = BookingPatch(
    checkIn: Option<Instant>,
    checkOut: Option<Instant>,
    status: Option<BookingStatus>,
    notes: Option<string>
  ) {
    /** At least one date was sent, which is what triggers the range check,
        the conflict query and the re-pricing. */
    predicate MovesDates() {
      checkIn.Some? || checkOut.Some?
    }
  }

  /** The stay after the patch: each date that was sent replaces the stored one. */
  function MergedDates(b: Booking, patch: BookingPatch): DateRange {
    DateRange(patch.checkIn.GetOr(b.dates.checkIn), patch.checkOut.GetOr(b.dates.checkOut))
  }

  /** Applies a partial update. Cancelled bookings are refused. Only when a date
      is sent does it check the merged range, run the conflict query excluding
      the booking itself, and re-price from the room's current nightly rate.
      No past check-in check is made. The booking's room must be on file, as
      the foreign key guarantees. */
  function Update(ledger: Ledger, rooms: map<RoomId, Room>, id: BookingId, patch: BookingPatch): (r: Result<Ledger>)
    requires id in ledger ==> ledger[id].roomId in rooms
    ensures id !in ledger ==> r == Err(BookingNotFound)
    ensures id in ledger && ledger[id].status == Cancelled ==> r == Err(BookingCancelled)
    ensures id in ledger && ledger[id].status != Cancelled && patch.MovesDates() ==>
      (r == Err(InvalidRange) <==> !Valid(MergedDates(ledger[id], patch)))
    ensures id in ledger && ledger[id].status != Cancelled && patch.MovesDates() ==>
      (r == Err(RoomUnavailable) <==>
        Valid(MergedDates(ledger[id], patch)) && HasConflict(ledger, ledger[id].roomId, MergedDates(ledger[id], patch), Some(id)))
    ensures r.Ok? <==>
      && id in ledger
      && ledger[id].status != Cancelled
      && (patch.MovesDates() ==>
            Valid(MergedDates(ledger[id], patch))
            && !HasConflict(ledger, ledger[id].roomId, MergedDates(ledger[id], patch), Some(id)))
    ensures r.Ok? ==> r.value.Keys == ledger.Keys
    ensures r.Ok? ==> forall other | other in ledger && other != id :: r.value[other] == ledger[other]
    ensures r.Ok? ==>
      var before := ledger[id];
      var after := r.value[id];
      && after.roomId == before.roomId
      && after.clientId == before.clientId
      && after.clientWasVip == before.clientWasVip
      && after.dates == MergedDates(before, patch)
      && after.status == patch.status.GetOr(before.status)
      && after.notes == (if patch.notes.Some? then patch.notes else before.notes)
      && (patch.MovesDates() ==> Valid(after.dates) && after.totalPrice == Nights(after.dates) * rooms[before.roomId].pricePerNight)
      && (!patch.MovesDates() ==> after.dates == before.dates && after.totalPrice == before.totalPrice)
  {
    match FindOne(ledger, id)
    case Err(f) => Err(f)
    case Ok(booking) =>
      if booking.status == Cancelled then Err(BookingCancelled)
      else
        var dates := MergedDates(booking, patch);
        if patch.MovesDates() && dates.checkIn >= dates.checkOut then Err(InvalidRange)
        else if patch.MovesDates() && HasConflict(ledger, booking.roomId, dates, Some(id)) then Err(RoomUnavailable)
        else
          var price := if patch.MovesDates() then Nights(dates) * rooms[booking.roomId].pricePerNight else booking.totalPrice;
          var updated := booking.(
            dates := dates,
            totalPrice := price,
            status := patch.status.GetOr(booking.status),
            notes := if patch.notes.Some? then patch.notes else booking.notes);
          Ok(ledger[id := updated])
  }

  /** Cancels a booking: refused only when it is already Cancelled, so a
      Completed booking can be cancelled too. Nothing but the status changes. */
  function Cancel(ledger: Ledger, id: BookingId): (r: Result<Ledger>)
    ensures id !in ledger ==> r == Err(BookingNotFound)
    ensures id in ledger && ledger[id].status == Cancelled ==> r == Err(AlreadyCancelled)
    ensures r.Ok? <==> id in ledger && ledger[id].status != Cancelled
    ensures r.Ok? ==> r.value.Keys == ledger.Keys
    ensures r.Ok? ==> forall other | other in ledger && other != id :: r.value[other] == ledger[other]
    ensures r.Ok? ==> r.value[id].status == Cancelled && r.value[id] == ledger[id].(status := Cancelled)
  {
    match FindOne(ledger, id)
    case Err(f) => Err(f)
    case Ok(booking) =>
      if booking.status == Cancelled then Err(AlreadyCancelled)
      else Ok(ledger[id := booking.(status := Cancelled)])
  }

  /** Deletes a booking outright, bypassing the lifecycle. */
  function Remove(ledger: Ledger, id: BookingId): (r: Result<Ledger>)
    ensures r.Err? <==> id !in ledger
    ensures r.Err? ==> r.failure == BookingNotFound
    ensures r.Ok? ==> r.value.Keys == ledger.Keys - {id}
    ensures r.Ok? ==> forall other | other in r.value :: r.value[other] == ledger[other]
  {
    if id in ledger then Ok(ledger - {id}) else Err(BookingNotFound)
  }

  lemma CreatePreservesNoDoubleBooking(
    ledger: Ledger, rooms: map<RoomId, Room>, clients: map<ClientId, Client>,
    now: Instant, req: CreateBookingRequest, newId: BookingId)
    requires newId !in ledger
    requires NoDoubleBooking(ledger)
    requires Create(ledger, rooms, clients, now, req, newId).Ok?
    ensures NoDoubleBooking(Create(ledger, rooms, clients, now, req, newId).value)
  {
  }

  lemma CancelPreservesNoDoubleBooking(ledger: Ledger, id: BookingId)
    requires NoDoubleBooking(ledger)
    requires Cancel(ledger, id).Ok?
    ensures NoDoubleBooking(Cancel(ledger, id).value)
  {
  }

  lemma RemovePreservesNoDoubleBooking(ledger: Ledger, id: BookingId)
    requires NoDoubleBooking(ledger)
    requires Remove(ledger, id).Ok?
    ensures NoDoubleBooking(Remove(ledger, id).value)
  {
  }

  /** Update keeps the guarantee whenever it cannot turn a non-Active booking
      Active without a conflict check: dates were sent, or the status is not
      set to Active, or the booking is Active already. */
  lemma UpdatePreservesNoDoubleBooking(ledger: Ledger, rooms: map<RoomId, Room>, id: BookingId, patch: BookingPatch)
    requires id in ledger ==> ledger[id].roomId in rooms
    requires NoDoubleBooking(ledger)
    requires Update(ledger, rooms, id, patch).Ok?
    requires patch.MovesDates() || patch.status != Some(Active) || ledger[id].status == Active
    ensures NoDoubleBooking(Update(ledger, rooms, id, patch).value)
  {
  }

  /** The rooms of the reactivation example: one room at 100.00 a night. */
  function ReactivationRooms(): map<RoomId, Room> {
    map["r" := Room("101", Standard, 10000, 2, None, None, true)]
  }

  /** The ledger of the reactivation example: an Active stay and a Completed
      one on the same room and dates. */
  function ReactivationLedger(): Ledger {
    map[
      "a" := Booking("r", "c", DateRange(0, DayMs), 10000, Active, false, None),
      "b" := Booking("r", "c", DateRange(0, DayMs), 10000, Completed, false, None)]
  }

  /** Without dates in the patch, setting a Completed booking back to Active
      skips the conflict query and can double-book the room. */
  lemma UpdateReactivationCanDoubleBook()
    ensures
      var r := Update(ReactivationLedger(), ReactivationRooms(), "b", BookingPatch(None, None, Some(Active), None));
      NoDoubleBooking(ReactivationLedger()) && r.Ok? && !NoDoubleBooking(r.value)
  {
    var r := Update(ReactivationLedger(), ReactivationRooms(), "b", BookingPatch(None, None, Some(Active), None));
    assert r.Ok?;
    assert r.value["a"].status == Active && r.value["b"].status == Active;
    assert "a" != "b";
  }

  /** Storing one more booking adds exactly that booking's own answer to
      every conflict query. */
  lemma HasConflictAfterInsert(
    ledger: Ledger, id: BookingId, b: Booking, roomId: RoomId, dates: DateRange, exclude: Option<BookingId>)
    requires id !in ledger
    ensures HasConflict(ledger[id := b], roomId, dates, exclude) <==>
      HasConflict(ledger, roomId, dates, exclude) || Blocks(id, b, roomId, dates, exclude)
  {
    var bigger := ledger[id := b];
    if HasConflict(bigger, roomId, dates, exclude) {
      var k :| k in bigger && Blocks(k, bigger[k], roomId, dates, exclude);
      if k != id {
        assert Blocks(k, ledger[k], roomId, dates, exclude);
      }
    }
    if HasConflict(ledger, roomId, dates, exclude) {
      var k :| k in ledger && Blocks(k, ledger[k], roomId, dates, exclude);
      assert k in bigger && bigger[k] == ledger[k];
    }
    if Blocks(id, b, roomId, dates, exclude) {
      assert id in bigger && bigger[id] == b;
    }
  }

  /** Two requests for the same room, each acceptable on its own against the
      ledger: whichever is made second fails with a conflict exactly when the
      two stays overlap, and the order does not change whether both succeed. */
  lemma SecondOfTwoFailsIffOverlap(
    ledger: Ledger, rooms: map<RoomId, Room>, clients: map<ClientId, Client>, now: Instant,
    a: CreateBookingRequest, b: CreateBookingRequest, idA: BookingId, idB: BookingId)
    requires idA != idB && idA !in ledger && idB !in ledger
    requires a.roomId == b.roomId
    requires CreateAdmissible(rooms, clients, now, a) && CreateAdmissible(rooms, clients, now, b)
    requires !HasConflict(ledger, a.roomId, a.Dates(), None) && !HasConflict(ledger, b.roomId, b.Dates(), None)
    ensures Create(ledger, rooms, clients, now, a, idA).Ok?
    ensures Create(ledger, rooms, clients, now, b, idB).Ok?
    ensures
      var first := Create(ledger, rooms, clients, now, a, idA).value;
      Create(first, rooms, clients, now, b, idB) == Err(RoomUnavailable) <==> Overlaps(a.Dates(), b.Dates())
    ensures
      var first := Create(ledger, rooms, clients, now, a, idA).value;
      Create(first, rooms, clients, now, b, idB).Ok? <==> !Overlaps(a.Dates(), b.Dates())
    ensures
      var firstA := Create(ledger, rooms, clients, now, a, idA).value;
      var firstB := Create(ledger, rooms, clients, now, b, idB).value;
      Create(firstA, rooms, clients, now, b, idB).Ok? <==> Create(firstB, rooms, clients, now, a, idA).Ok?
  {
    var firstA := Create(ledger, rooms, clients, now, a, idA).value;
    var firstB := Create(ledger, rooms, clients, now, b, idB).value;
    assert firstA == ledger[idA := firstA[idA]];
    assert firstB == ledger[idB := firstB[idB]];
    HasConflictAfterInsert(ledger, idA, firstA[idA], b.roomId, b.Dates(), None);
    HasConflictAfterInsert(ledger, idB, firstB[idB], a.roomId, a.Dates(), None);
    OverlapsSymmetric(a.Dates(), b.Dates());
  }

  /** A booking just created reads back as the request made it. */
  lemma CreateThenFindOne(
    ledger: Ledger, rooms: map<RoomId, Room>, clients: map<ClientId, Client>,
    now: Instant, req: CreateBookingRequest, newId: BookingId)
    requires newId !in ledger
    requires Create(ledger, rooms, clients, now, req, newId).Ok?
    ensures FindOne(Create(ledger, rooms, clients, now, req, newId).value, newId)
         == Ok(Booking(req.roomId, req.clientId, req.Dates(), Nights(req.Dates()) * rooms[req.roomId].pricePerNight,
                       Active, clients[req.clientId].isVip, req.notes))
  {
  }

  /** A deleted booking no longer reads; every other booking reads as before. */
  lemma RemoveThenFindOne(ledger: Ledger, id: BookingId, other: BookingId)
    requires Remove(ledger, id).Ok?
    ensures FindOne(Remove(ledger, id).value, id) == Err(BookingNotFound)
    ensures other != id ==> FindOne(Remove(ledger, id).value, other) == FindOne(ledger, other)
  {
  }

  /** A second cancel of the same booking is refused, so cancelling twice
      changes nothing beyond the first. */
  lemma CancelTwiceRefused(ledger: Ledger, id: BookingId)
    requires Cancel(ledger, id).Ok?
    ensures Cancel(Cancel(ledger, id).value, id) == Err(AlreadyCancelled)
  {
  }

  /** Whether the room is active plays no part in booking it. */
  lemma CreateIgnoresRoomActivity(
    ledger: Ledger, rooms: map<RoomId, Room>, clients: map<ClientId, Client>,
    now: Instant, req: CreateBookingRequest, newId: BookingId, active: bool)
    requires newId !in ledger
    requires req.roomId in rooms
    ensures Create(ledger, rooms[req.roomId := rooms[req.roomId].(isActive := active)], clients, now, req, newId)
         == Create(ledger, rooms, clients, now, req, newId)
  {
  }
}
