# Booking ledger of the room-reservation API, in Dafny

This project models the reservation core of a hotel booking backend: the
bookings held per room and the rules that keep them consistent, the room
catalogue with its soft delete and availability search, the client registry,
and the VIP classification of a client's email.

Everything is immutable data and pure functions. The bookings form a ledger,
a `map` from booking id to `Booking`. Rooms and clients are maps from id to
record too. Each service operation takes the current map and returns a
`Result`: either the new map (or the record read) or the `Failure` that
aborted the call. A failed call hands back no map, so the caller keeps the
one it passed in. That is the model's form of the transaction rolling back.

Scalars:
- Dates are instants in milliseconds (`Instant = int`). The current instant
  `now` is a parameter.
- Nights are the stay's length divided by `DayMs`, rounded up.
- Money is integer cents (`Cents = nat`), unbounded (see Left out).
- New ids come from the store. They are parameters with a precondition that
  they are fresh.

The VIP classifier's remote call is an oracle. Its outcome (`RemoteReply`)
and the random tier draw (`heads`) are parameters.

Modules, one per source file:
- `Common`: `Option`, `Result`, `Failure` and the exception class of each failure.
- `DateRanges`: stays as half-open intervals, the overlap test, and nights.
- `BookingEntity`, `RoomEntity`, `ClientEntity`: the stored records.
- `BookingsService`: the conflict query, create, findOne, update, cancel and
  remove, plus the no-double-booking invariant.
- `RoomsService`: findAll, findOne, update, soft delete, and the availability
  search, built as a left join followed by a row filter.
- `VipCheck`: the string heuristic and the remote-or-heuristic classification.
- `ClientsService`: create, findOne, update, remove and refreshVipStatus.

The central guarantee is `BookingsService.NoDoubleBooking`: no two Active
bookings of one room overlap. Create, cancel and remove preserve it. Update
preserves it except in one case, which the model shows can double-book:
setting a non-Active booking back to Active without sending dates.

Behaviour of the code that the model keeps as it is
(paths are under apps/api/src/modules/bookings/):
- Create compares check-in with the current instant, not the current date
  (bookings.service.ts:31). A check-in at today's midnight is therefore
  refused once midnight has passed.
- Update runs the conflict query whenever a date is sent, even when it
  equals the stored one (bookings.service.ts:126).
- Cancel refuses only a Cancelled booking, so it accepts Completed bookings
  (bookings.service.ts:167).
- Remove deletes the booking row outright (bookings.service.ts:175-180).
- Update takes no lock (bookings.service.ts:118-162). The model has no
  concurrency at all (see Left out).

## Model

| member | source | states |
|---|---|---|
| `DateRanges.Overlaps` | apps/api/src/modules/bookings/bookings.service.ts:53 | the conflict test: the stored stay starts before the requested check-out and ends after the requested check-in, both comparisons strict |
| `DateRanges.OverlapsIffSharedInstant` | apps/api/src/modules/bookings/bookings.service.ts:53 | for valid stays, the conflict test holds exactly when some instant lies in both half-open stays |
| `DateRanges.OverlapsSymmetric` | apps/api/src/modules/bookings/bookings.service.ts:53 | the overlap test gives the same answer with the stored and requested stays swapped |
| `DateRanges.BackToBackDisjoint` | apps/api/src/modules/bookings/bookings.service.ts:53 | a stay checking out when the next checks in does not overlap it, in either order |
| `DateRanges.ValidOverlapsItself` | apps/api/src/modules/bookings/bookings.service.ts:53 | a valid stay conflicts with an Active booking of the same dates |
| `DateRanges.Nights` | apps/api/src/modules/bookings/bookings.service.ts:63 | nights are at least 1, and a valid stay is longer than nights-1 days and at most nights days (the ceiling of its length in days) |
| `DateRanges.NightsUnique` | apps/api/src/modules/bookings/bookings.service.ts:63 | any count that brackets the stay's length this way is the nights value |
| `DateRanges.NightsOfWholeDays` | apps/api/src/database/entities/booking.entity.ts:30-34 | a stay of a whole number of days, as date-only columns give, is charged exactly that many nights |
| `BookingsService.FindConflict` | apps/api/src/modules/bookings/bookings.service.ts:48-56 | the scan returns a booking only if it is on the room, is Active, is not the excluded id and overlaps; it returns none exactly when no such booking exists |
| `BookingsService.NoDoubleBookingIffSelfExcludedChecksPass` | apps/api/src/modules/bookings/bookings.service.ts:137-146 | no two Active bookings of a room overlap exactly when every Active booking passes the conflict query that excludes its own id |
| `BookingsService.InactiveNeverBlocks` | apps/api/src/modules/bookings/bookings.service.ts:51 | adding a Cancelled or Completed booking changes no conflict query's answer |
| `BookingsService.Create` | apps/api/src/modules/bookings/bookings.service.ts:19-80 | fails with InvalidRange iff check-in is not before check-out, PastCheckIn iff the range is valid and check-in is before now, RoomNotFound or ClientNotFound iff that lookup fails (the room's active flag is not consulted), RoomUnavailable iff an Active booking on the room overlaps; the BadRequest kind covers exactly the two date errors; on success exactly one booking is added, Active, priced at nights times the nightly rate (so at least one night's rate), with the client's current VIP flag copied and all other bookings unchanged |
| `BookingsService.FindOne` | apps/api/src/modules/bookings/bookings.service.ts:89-100 | succeeds iff the id is stored and then returns that booking; otherwise BookingNotFound |
| `BookingsService.MergedDates` | apps/api/src/modules/bookings/bookings.service.ts:127-130 | the stay an update checks and stores: each date that was sent replaces the stored one, the other is kept |
| `BookingsService.Update` | apps/api/src/modules/bookings/bookings.service.ts:118-162 | BookingNotFound for an unknown id and BookingCancelled for a cancelled booking; only when a date is sent does it fail InvalidRange iff the merged range is not valid and RoomUnavailable iff another Active booking on the room overlaps it; on success room, client and VIP snapshot are unchanged, each sent field replaces the stored one, the price is recomputed from the room's current rate exactly when a date was sent, and no other booking changes |
| `BookingsService.Cancel` | apps/api/src/modules/bookings/bookings.service.ts:164-173 | fails iff the booking is unknown (BookingNotFound) or already Cancelled (AlreadyCancelled), so Active and Completed bookings can be cancelled; on success only that booking's status changes, to Cancelled |
| `BookingsService.Remove` | apps/api/src/modules/bookings/bookings.service.ts:175-180 | fails with BookingNotFound iff the id is absent; otherwise exactly that id disappears and every other booking is kept |
| `BookingsService.CreatePreservesNoDoubleBooking` | apps/api/src/modules/bookings/bookings.service.ts:47-78 | a successful create keeps "no two Active bookings of a room overlap" |
| `BookingsService.CancelPreservesNoDoubleBooking` | apps/api/src/modules/bookings/bookings.service.ts:164-173 | a successful cancel keeps the invariant |
| `BookingsService.RemovePreservesNoDoubleBooking` | apps/api/src/modules/bookings/bookings.service.ts:175-180 | a successful remove keeps the invariant |
| `BookingsService.UpdatePreservesNoDoubleBooking` | apps/api/src/modules/bookings/bookings.service.ts:126-161 | a successful update keeps the invariant when a date was sent, or the status is not set to Active, or the booking was Active already |
| `BookingsService.UpdateReactivationCanDoubleBook` | apps/api/src/modules/bookings/bookings.service.ts:126-160 | setting a Completed booking to Active without dates succeeds and breaks the invariant when an Active booking holds the same dates |
| `BookingsService.HasConflictAfterInsert` | apps/api/src/modules/bookings/bookings.service.ts:47-56 | after storing one more booking, the conflict query finds a blocker iff it found one before or the new booking itself is on the room, Active, not excluded and overlapping |
| `BookingsService.SecondOfTwoFailsIffOverlap` | apps/api/src/modules/bookings/bookings.service.ts:47-60 | on any ledger, of two requests for one room that each pass every check on their own, the second fails with RoomUnavailable iff the two stays overlap and succeeds iff they do not, and whether both succeed does not depend on which is made first |
| `BookingsService.CreateThenFindOne` | apps/api/src/modules/bookings/bookings.service.ts:19-100 | a booking just created reads back Active with the request's room, client, dates and notes, priced at nights times the nightly rate, with the client's VIP flag |
| `BookingsService.RemoveThenFindOne` | apps/api/src/modules/bookings/bookings.service.ts:89-180 | after a delete the booking reads as BookingNotFound and every other booking reads as before |
| `BookingsService.CancelTwiceRefused` | apps/api/src/modules/bookings/bookings.service.ts:167-169 | cancelling a booking that was just cancelled fails with AlreadyCancelled |
| `BookingsService.CreateIgnoresRoomActivity` | apps/api/src/modules/bookings/bookings.service.ts:36-37 | the outcome of a booking request does not depend on whether its room is active |
| `RoomsService.FindAll` | apps/api/src/modules/rooms/rooms.service.ts:20-25 | the listing holds a stored room iff it is active, unchanged |
| `RoomsService.FindOne` | apps/api/src/modules/rooms/rooms.service.ts:27-38 | succeeds iff the room is stored and active; otherwise RoomNotFound |
| `RoomsService.Update` | apps/api/src/modules/rooms/rooms.service.ts:64-68 | fails with RoomNotFound iff the room is missing or inactive; otherwise each sent field replaces the stored one, the room stays active unless the patch says otherwise, and other rooms are unchanged |
| `RoomsService.Remove` | apps/api/src/modules/rooms/rooms.service.ts:70-74 | fails with RoomNotFound iff the room is missing or already inactive; otherwise the room is kept with only its active flag cleared |
| `RoomsService.RemoveHidesRoom` | apps/api/src/modules/rooms/rooms.service.ts:20-74 | after a soft delete the room is still stored, findOne fails with RoomNotFound, findAll lists exactly the previously listed rooms minus it, and a second delete fails |
| `RoomsService.UpdateCanDuplicateNumber` | apps/api/src/modules/rooms/rooms.service.ts:64-68 | an update giving a room another room's number succeeds and leaves two rooms with one number |
| `RoomsService.UpdateCannotReviveRemoved` | apps/api/src/modules/rooms/rooms.service.ts:64-74 | after a soft delete, updating the room fails with RoomNotFound whatever the patch, since update looks it up through the active-only read |
| `RoomsService.UpdateThenFindOne` | apps/api/src/modules/rooms/rooms.service.ts:27-68 | after an update the room still reads iff the patch did not clear its active flag, and it then reads with the patched nightly rate |
| `RoomsService.RemovedRoomStillBookable` | apps/api/src/modules/bookings/bookings.service.ts:36 | booking a soft-deleted room behaves exactly as before the delete |
| `RoomsService.LeftJoin` | apps/api/src/modules/rooms/rooms.service.ts:43-44 | the join has a row for every room and each of its bookings, a null-booking row exactly for rooms with no bookings, and no other rows |
| `RoomsService.BookingPasses` | apps/api/src/modules/rooms/rooms.service.ts:47-49 | the per-booking test is exactly "not (Active and overlapping)", with the overlap test the booking service uses |
| `RoomsService.FindAvailable` | apps/api/src/modules/rooms/rooms.service.ts:40-62 | every room returned is stored, active and of the requested type when one is given |
| `RoomsService.FindAvailableExactly` | apps/api/src/modules/rooms/rooms.service.ts:43-61 | a room is returned iff it is active, matches the type filter, and has no bookings or at least one booking passing the per-booking test |
| `RoomsService.UnbookedRoomFound` | apps/api/src/modules/rooms/rooms.service.ts:44-47 | an active room with no bookings is always returned when it matches the type filter |
| `RoomsService.ConflictFreeRoomFound` | apps/api/src/modules/rooms/rooms.service.ts:43-61 | an active room of the requested type with no Active booking overlapping the dates is returned |
| `RoomsService.FoundRoomCanBeUnavailable` | apps/api/src/modules/rooms/rooms.service.ts:47-49 | a room holding one overlapping Active booking and one Cancelled booking is returned, though booking it for those dates fails with RoomUnavailable |
| `RoomsService.FindAvailableStrict` | apps/api/src/modules/rooms/rooms.service.ts:43-61 | the intended search returns a subset of what the written search returns |
| `RoomsService.StrictSearchMatchesBooking` | apps/api/src/modules/rooms/rooms.service.ts:43-61 | for valid future dates and a known client, an active room of the type is in the intended search's result iff booking it succeeds, and outside it iff booking it fails with RoomUnavailable |
| `VipCheck.Includes` | apps/api/src/modules/clients/vip-check.service.ts:44 | the substring search is true iff the pattern occurs at some position of the string (case-sensitive) |
| `VipCheck.EndsWith` | apps/api/src/modules/clients/vip-check.service.ts:44 | the suffix search is true iff the string's last characters are exactly the suffix |
| `VipCheck.MockVipCheck` | apps/api/src/modules/clients/vip-check.service.ts:42-51 | VIP iff the email contains "vip" anywhere or ends with "@premium.com" or "@gold.com"; a tier is present iff VIP and is Gold exactly on the heads draw, otherwise Silver; benefits are present iff VIP and are then the fixed three-item list |
| `VipCheck.CheckVipStatus` | apps/api/src/modules/clients/vip-check.service.ts:15-40 | any failed remote call yields the heuristic's answer; an answer yields VIP iff its flag is true (a missing flag reads as false) and passes tier and benefits through |
| `VipCheck.MockVipExamples` | apps/api/src/modules/clients/vip-check.service.ts:44 | "vip" inside the local part and both premium domains classify as VIP |
| `VipCheck.MockIsCaseSensitive` | apps/api/src/modules/clients/vip-check.service.ts:44 | an upper-case "VIP" does not classify as VIP |
| `VipCheck.MockDomainMustEnd` | apps/api/src/modules/clients/vip-check.service.ts:44 | a premium domain followed by more text does not classify as VIP |
| `ClientsService.Create` | apps/api/src/modules/clients/clients.service.ts:16-36 | fails with DuplicateEmail (a Conflict) iff a stored client has the email, leaving the registry as it was; otherwise adds exactly the new client with the request's fields, the classifier's VIP flag, and a check date set iff VIP, equal to now |
| `ClientsService.FindOne` | apps/api/src/modules/clients/clients.service.ts:44-55 | succeeds iff the id is stored and returns that client; otherwise ClientNotFound |
| `ClientsService.Update` | apps/api/src/modules/clients/clients.service.ts:65-79 | ClientNotFound iff unknown; otherwise the sent name, email and phone replace the stored ones; the VIP flag is re-derived only for a sent non-empty email that differs from the stored one, with the check date stamped only on a VIP answer; without a re-check flag and date are unchanged; other clients are unchanged |
| `ClientsService.CreateThenFindOne` | apps/api/src/modules/clients/clients.service.ts:16-55 | a client just registered reads back with the request's names, email and phone, the classifier's VIP flag, and a check date of now iff VIP |
| `ClientsService.Remove` | apps/api/src/modules/clients/clients.service.ts:81-86 | fails with ClientNotFound iff the id is absent; otherwise exactly that client disappears |
| `ClientsService.RemoveThenFindOne` | apps/api/src/modules/clients/clients.service.ts:44-86 | after a delete the client reads as ClientNotFound and every other client reads as before |
| `ClientsService.RefreshVipStatus` | apps/api/src/modules/clients/clients.service.ts:88-96 | ClientNotFound iff unknown; otherwise re-classifies the stored email and stamps the check date whatever the answer, changing nothing else |
| `ClientsService.CreatePreservesUniqueEmails` | apps/api/src/modules/clients/clients.service.ts:18-24 | a successful registration keeps emails unique across clients |
| `ClientsService.RefreshPreservesUniqueEmails` | apps/api/src/modules/clients/clients.service.ts:88-96 | a refresh keeps emails unique |
| `ClientsService.RemovePreservesUniqueEmails` | apps/api/src/modules/clients/clients.service.ts:81-86 | a delete keeps emails unique |
| `ClientsService.UpdateCanDuplicateEmail` | apps/api/src/modules/clients/clients.service.ts:65-79 | an update to another client's email succeeds and leaves two clients with one email |
| `ClientsService.RefreshStampsNonVip` | apps/api/src/modules/clients/clients.service.ts:29-93 | a non-VIP registered client has no check date, and a non-VIP refresh then stamps one |

## Findings

| source | as written | input that shows it | evidently intended | confidence | as-written member | corrected member |
|---|---|---|---|---|---|---|
| apps/api/src/modules/rooms/rooms.service.ts:43-55 | the search filters left-join rows, so a room is returned when any one of its bookings passes the test | room r with an Active booking on days 10-12 and a Cancelled booking on the same days, searched for days 10-12: r is returned, yet booking r for those days fails with a conflict | a room is returned only when none of its Active bookings overlaps the dates, the same rule booking creation enforces | high; found by proof, not executed | `RoomsService.FoundRoomCanBeUnavailable` | `RoomsService.StrictSearchMatchesBooking` |

`RoomsService.FindAvailable` models the search as written. `RoomsService.FindAvailableStrict`
is the corrected search. `RoomsService.ConflictFreeRoomFound` shows that the
written search is only too generous, never too strict.

## Left out

- Transactions, the pessimistic write lock in create, and the missing lock in update (apps/api/src/modules/bookings/bookings.service.ts:20,41-45): each operation is atomic and calls run one after another, so races between concurrent requests are not modelled.
- Date parsing, time zones, and the truncation of instants to the date-only columns: a stay is taken as stored exactly as requested, so only day-aligned requests match the columns exactly.
- Floating-point price arithmetic (`parseFloat`, `Math.ceil` on a float quotient): prices are integer cents and nights an integer ceiling.
- The remote VIP call itself (URL, token, timeout, headers, logging): its outcome is the `RemoteReply` parameter, and `Math.random` is the `heads` parameter.
- VipCheck.CheckVipStatus: a remote flag that is truthy but not a boolean (the source would pass it through as is) is not modelled; the flag is an optional boolean.
- Booking listings `findAll`, `findByClient` and `findByRoom`: plain reads ordered by creation time, and creation timestamps are not modelled.
- Client listings `findAll` and `findByEmail`, and room `create`: plain reads and inserts with no rule of the core in them.
- `createdAt` and `updatedAt` on every entity: timestamps the store sets.
- The column defaults for a booking's status (Active) and `clientWasVip` (false): create always sets both explicitly, so the defaults never apply. The three-state status enum and the integer-day and cent models come from the entity types directly.
- Patches are limited to the declared body fields. An update body carrying other keys, or explicit nulls, is not modelled.
- RoomsService.FindAvailable: returns the ids of the matching rooms, not the room records with the joined bookings that passed the filter.
- ClientsService.Remove: the store refusing to delete a client that bookings still reference (a foreign-key rule) is not modelled.
- RoomsService.Update: the store's unique room-number column (apps/api/src/database/entities/room.entity.ts:16) refuses a duplicate number on save; the model shows what the service alone allows, so an update to another room's number returns `Ok` (`RoomsService.UpdateCanDuplicateNumber`).
- ClientsService.Update: the store's unique email column would refuse a duplicate on save; the model shows what the service alone allows.
- BookingsService.Update requires the booking's room to be on file, which the foreign key from booking to room guarantees.
- The range of the price columns: `pricePerNight` and `totalPrice` are `decimal(10,2)` (apps/api/src/database/entities/room.entity.ts:26, apps/api/src/database/entities/booking.entity.ts:36), so the store refuses an amount of 100,000,000.00 or more. `Cents` is unbounded, and `BookingsService.Create` and `BookingsService.Update` succeed for any price, where the store would make the save fail.
- The id format: ids are generated `uuid` columns (apps/api/src/database/entities/booking.entity.ts:13, apps/api/src/database/entities/room.entity.ts:13, apps/api/src/database/entities/client.entity.ts:6). A path id that is not a UUID makes the store's query fail rather than raise NotFound. The model takes ids as plain strings and answers the matching NotFound failure for every absent id.
- Controllers, modules, validation decorators and the mapping of exceptions to HTTP status codes: outside the core. DTO constraints appear as types, for example a nightly rate of at least zero as `Cents = nat`.
