# BookMe booking engine, modelled in Dafny

BookMe is a room-reservation API. Users book rooms for whole-hour ranges
`[startHour, endHour)` on a calendar date. This project models its booking
engine:

- **Overlap check.** The reservation repository's filters, `create`,
  `get_by_id` and `check_overlap`. Two ranges `[A, B)` and `[C, D)` of the same
  room and date clash when `A < D` and `C < B`.
- **Reservation admission.** `create_reservation` runs a fixed, fail-fast chain
  of checks: hour order, the 0..23 range, the user exists, the room exists, the
  room is active, no overlap. On success it stores the booking and drops the
  cache entry `availability:<room>:<date>`.
- **Rooms.** Field validation for create and update, the lookup, and deletion.
  A room cannot be deleted while any of its reservations is dated today or
  later.
- **Availability.** The free hours of the window `[8, 20)` for a room and date,
  in ascending order. The answer is cached for an hour and served from the
  cache without re-checking the room.
- **TTL cache.** The in-memory cache with lazy expiry and its key builder.
- **Users.** The `create_user` validation chain and the lookup.

Every service call is a pure function of a `State` (the database and the one
shared cache). Every call that can change the state returns an `Outcome`: the
new state together with either the result or one of the service's errors. The
four lookups (`get_reservation_by_id`, `get_reservations_by_room`,
`get_room_by_id`, `get_user_by_id`) return a bare `Result` and leave the state
alone. A failing call returns the state
unchanged, with one exception: a failing `get_availability` has already
evicted the expired cache entry it missed on. Each contract says which.

The central results are in `Invariants`:

- The initial state (empty store, empty cache) is `Valid`
  (`Invariants.InitialValid`), and every operation preserves `Valid`. `Valid`
  combines four invariants:
  - a well-formed store;
  - no double booking in any room on any date;
  - unique emails;
  - a fresh availability cache: every cached answer equals the one recomputed
    from the current reservations.
- As a consequence, when calls run one at a time, an availability answer never
  misses a booking. The proof
  needs the cache invalidation in `create_reservation`. It also needs the cache
  key to be injective: two different (room, date) pairs never share a key. That
  follows from a proved round trip between the key and the room and date it
  encodes.

Files:

- `wrappers.dfy`: `Option` and `Result`.
- `text.dfy`: the Python string built-ins the services use (`strip`, `split`,
  `join`, `str(int)`).
- `cache_service.dfy`: the TTL cache.
- `models.dfy`: the records, errors, database, dates and cache key.
- `reservation_repository.dfy`: filters, lookup, insertion and the overlap check.
- `reservation_service.dfy`: admission and the two read operations.
- `room_service.dfy`: room management and availability.
- `user_service.dfy`: user registration and lookup.
- `invariants.dfy`: the system-wide invariants and their preservation.

## Model

| member | source | states |
|---|---|---|
| Text.BlankIffAllSpace | src/modules/rooms/room_service.py:47 | the emptiness test `not s or s.strip() == ""` holds exactly when every character of `s` is whitespace |
| Text.SplitJoin | src/shared/cache/cache_service.py:89 | splitting a key joined from separator-free parts gives back exactly those parts |
| Text.JoinSplit | src/shared/cache/cache_service.py:89 | joining the pieces of a split with the same separator rebuilds the text |
| Text.LastSegment | src/modules/users/user_service.py:53 | the last piece of `s.split(sep)` is the text after the last separator, or all of `s` when there is no separator |
| Text.IntToStringRoundTrip | src/modules/reservations/reservation_service.py:151 | `str(room_id)` reads back as the same integer, negative ids included |
| CacheService.EffectiveTtl | src/shared/cache/cache_service.py:32 | a missing ttl and a ttl of 0 both mean the 3600-second default; any other ttl is used as given |
| CacheService.Set | src/shared/cache/cache_service.py:23-33 | the key then maps to the value, expiring at now + ttl; every other entry is untouched |
| CacheService.Get | src/shared/cache/cache_service.py:45-55 | absent key gives None; an entry strictly past its expiration gives None and is evicted; otherwise the stored value, with the map unchanged |
| CacheService.Delete | src/shared/cache/cache_service.py:67-70 | reports a removal exactly when the key was present; afterwards only that key is gone |
| CacheService.Clear | src/shared/cache/cache_service.py:72-74 | no key is left |
| CacheService.CacheKeyRoundTrip | src/shared/cache/cache_service.py:76-89 | a key joined from colon-free parts splits back into those parts |
| CacheService.SetThenGet | src/shared/cache/cache_service.py:32-55 | a value written at `now` is read back at every instant up to its expiration |
| CacheService.DefaultTtlBoundary | src/shared/cache/cache_service.py:21 | with the default ttl an entry is still served 3600 seconds later and evicted one second after that |
| CacheService.DeleteIdempotent | src/shared/cache/cache_service.py:57-70 | a second delete of the same key reports no removal, and a get then finds nothing |
| CacheService.HitLeavesCache | src/shared/cache/cache_service.py:45-55 | a get that answers a value leaves the map unchanged, and the entry had not expired |
| CacheService.GetAfterClear | src/shared/cache/cache_service.py:72-74 | after clear every get answers None |
| CacheService.CacheKeyExample | src/shared/cache/cache_service.py:86-87 | the documented key `availability:5:2025-02-19` is built from its three parts |
| Models.IsoRoundTrip | src/modules/reservations/reservation_service.py:151 | `str(date)` (zero-padded `YYYY-MM-DD`) parses back to the same date |
| Models.AvailabilityKeyRoundTrip | src/modules/rooms/room_service.py:178-180 | the availability key parses back to the room id and date it was built from |
| Models.AvailabilityKeyInjective | src/modules/reservations/reservation_service.py:151 | two (room, date) pairs share a cache key only if they are the same pair, so invalidation never drops another room's or date's entry |
| Models.AvailabilityKeyExample | src/shared/cache/cache_service.py:14 | room 5 on 2025-02-19 is cached under `availability:5:2025-02-19` |
| ReservationRepository.Select | src/modules/reservations/reservation_repository.py:83-86 | a filter returns every matching stored reservation with its multiplicity, and nothing that does not match |
| ReservationRepository.SelectNonEmpty | src/modules/reservations/reservation_repository.py:83-86 | a filter's answer is non-empty exactly when some stored reservation matches |
| ReservationRepository.SelectAppend | src/modules/reservations/reservation_repository.py:70 | after an insertion a filter answers what it answered before, plus the new reservation if it matches |
| ReservationRepository.GetByRoom | src/modules/reservations/reservation_repository.py:60-70 | exactly the room's reservations, as a multiset of the store |
| ReservationRepository.GetByRoomAndDate | src/modules/reservations/reservation_repository.py:72-86 | exactly the room's reservations on that date, as a multiset of the store |
| ReservationRepository.CountFrom | src/modules/rooms/room_service.py:149-153 | the count is the number of stored reservations of the room dated today or later, so it is positive exactly when one exists |
| ReservationRepository.SelectCount | src/modules/rooms/room_service.py:149-153 | a filter's answer has one entry per matching stored row, so `.count()` counts the matching rows |
| ReservationRepository.GetById | src/modules/reservations/reservation_repository.py:48-58 | a stored reservation with that id when there is one; None exactly when no stored reservation has it |
| ReservationRepository.Create | src/modules/reservations/reservation_repository.py:21-46 | stores the given fields under the next id, appends, touches nothing else, and keeps the store well formed |
| ReservationRepository.CreateThenGetById | src/modules/reservations/reservation_repository.py:43-58 | the id assigned on insertion finds the inserted reservation |
| ReservationRepository.CheckOverlap | src/modules/reservations/reservation_repository.py:88-112 | the loop answers true exactly when some stored reservation of the same room and date overlaps `[start, end)` |
| ReservationRepository.OverlapSymmetric | src/modules/reservations/reservation_repository.py:107-109 | the overlap test does not depend on which range is the stored one |
| ReservationRepository.TouchingRangesDoNotOverlap | src/modules/reservations/reservation_repository.py:107-109 | back-to-back ranges `[s, m)` and `[m, e)` do not overlap |
| ReservationRepository.ConflictsOnlyWithinRoomDay | src/modules/reservations/reservation_repository.py:103 | a conflict is always with a reservation of the same room and date |
| ReservationRepository.NoConflictOnFreeDay | src/modules/reservations/reservation_repository.py:103-112 | with no reservation of the room on that date, nothing conflicts |
| ReservationRepository.ConflictsAppend | src/modules/reservations/reservation_repository.py:103-112 | after an insertion a range conflicts exactly when it conflicted before or meets the inserted reservation on its room and date |
| ReservationRepository.OtherRoomDayNeverConflicts | src/modules/reservations/reservation_repository.py:103 | inserting into another room or date changes no conflict |
| ReservationRepository.AppendKeepsNoDoubleBooking | src/modules/reservations/reservation_repository.py:88-112 | appending to a store without double bookings keeps it so exactly when the overlap check passes |
| ReservationService.InvalidateAvailabilityCache | src/modules/reservations/reservation_service.py:143-152 | the room and date's availability entry is gone and every other entry is untouched |
| ReservationService.CreateReservation | src/modules/reservations/reservation_service.py:55-103 | the first failing check decides the error, in source order; success happens exactly when all checks pass; it appends exactly the requested booking and drops exactly that room and date's cache entry; the new reservation takes the next reservation id, and the users, rooms and their id counters are untouched; a failure changes nothing |
| ReservationService.GetReservationById | src/modules/reservations/reservation_service.py:118-121 | the reservation with that id, or ReservationNotFound exactly when none is stored |
| ReservationService.GetReservationsByRoom | src/modules/reservations/reservation_service.py:136-141 | RoomNotFound exactly when the room is absent; otherwise all of the room's reservations |
| ReservationService.CreateReservationKeepsNoDoubleBooking | src/modules/reservations/reservation_service.py:77-98 | admission never creates two overlapping bookings of one room on one date |
| ReservationService.CreateReservationThenGet | src/modules/reservations/reservation_service.py:91-103 | admission keeps the store well formed and the returned reservation is found by its id |
| ReservationService.OtherRoomDayBookingIrrelevant | src/modules/reservations/reservation_service.py:78-89 | a booking of another room or date does not change whether a request is admitted |
| ReservationService.BookingOrderSymmetric | src/modules/reservations/reservation_service.py:78-89 | for two admissible requests on one room and date, the second is refused as an overlap exactly when the ranges overlap, in either order; back-to-back ranges are both admitted |
| RoomService.FreeFromSpec | src/modules/rooms/room_service.py:205-206 | the ascending scan lists exactly the hours from `from` up to 20 that are missing from the occupied set, strictly ascending |
| RoomService.FreeFromAgree | src/modules/rooms/room_service.py:205-206 | the listing depends only on which hours of the window are occupied |
| RoomService.FreeSlotsSpec | src/modules/rooms/room_service.py:198-206 | the free slots are exactly the hours of `[8, 20)` no reservation covers, strictly ascending and so without repeats |
| RoomService.CollectOccupied | src/modules/rooms/room_service.py:198-202 | the set holds exactly the hours some reservation covers |
| RoomService.ListFree | src/modules/rooms/room_service.py:205-206 | the loop from a start hour up to 20, keeping the hours missing from the occupied set, produces the scan `FreeFrom`, which `FreeFromSpec` ties to the ascending listing of `all_hours - occupied_hours` |
| RoomService.ComputeFreeSlots | src/modules/rooms/room_service.py:198-206 | the service's set-based computation yields exactly the window's hours no reservation covers, strictly ascending |
| RoomService.AvailabilityOf | src/modules/rooms/room_service.py:191-209 | the answer names the room and the ISO date; an hour is free exactly when it is in the window and no reservation of that room and date covers it; the hours are strictly ascending |
| RoomService.SameDayOccupied | src/modules/rooms/room_service.py:191-202 | an hour is covered by the fetched reservations of the room and date exactly when some stored reservation of that room and date covers it |
| RoomService.CheckRoomFields | src/modules/rooms/room_service.py:46-56 | the first failing field check decides the error (blank name, capacity below 1, blank location); None exactly when all pass |
| RoomService.CreateRoom | src/modules/rooms/room_service.py:46-60 | fails exactly when a field check fails, changing nothing; otherwise stores an active room under the next room id, leaving users, reservations, their id counters and the cache untouched |
| RoomService.GetRoomById | src/modules/rooms/room_service.py:75-78 | the stored room, or RoomNotFound exactly when it is absent |
| RoomService.UpdateRoom | src/modules/rooms/room_service.py:109-127 | RoomNotFound first, then the field checks; on success the new state is the old one with only that room's record replaced |
| RoomService.DeleteRoom | src/modules/rooms/room_service.py:146-160 | an absent room gives RoomNotFound; the call succeeds exactly when the room exists and has no reservation dated today or later; when the room exists but has such a reservation, the error carries their number, which is positive; on success the new state is the old one with only the room record removed, so its reservations stay |
| RoomService.GetAvailability | src/modules/rooms/room_service.py:177-214 | a live cached answer is returned without the room check; on a miss the expired entry is evicted, and stays evicted when the call then fails; the room must exist and be active, and the computed answer is cached for 3600 seconds; every other cache entry and the database are untouched |
| RoomService.FreeFromIdle | src/modules/rooms/room_service.py:205-206 | with no occupied hour from `from` on, the listing is every remaining hour of the window, in order |
| RoomService.EmptyDayAllFree | src/modules/rooms/room_service.py:204-206 | a day with no reservations has free slots `[8, 9, …, 19]` |
| RoomService.BookedMorningExample | src/modules/rooms/room_service.py:198-206 | a day with one booking `[10, 12)` has free slots `[8, 9, 12, …, 19]` |
| UserService.CreateUser | src/modules/users/user_service.py:44-61 | the first failing check decides the error (blank name, blank email, malformed email, taken email); success happens exactly when all pass; it stores the user as given under the next user id, leaving rooms, reservations, their id counters and the cache untouched |
| UserService.GetUserById | src/modules/users/user_service.py:76-79 | the stored user, or UserNotFound exactly when it is absent |
| UserService.WellShapedIffDotAfterLastAt | src/modules/users/user_service.py:53 | the split-based email test holds exactly when some `@` with no later `@` is followed by a `.` |
| UserService.WellShapedByWitness | src/modules/users/user_service.py:53 | a `.` after the last `@` makes an email pass the shape test |
| UserService.MalformedWithoutDot | src/modules/users/user_service.py:53 | no `.` after the last `@` makes an email fail the shape test |
| UserService.AcceptedEmailExample | src/modules/users/user_service.py:53 | `ana@example.com` passes the shape test |
| UserService.NoDotAfterAtExample | src/modules/users/user_service.py:53 | `ana.lopez@example` fails: its only dot is before the `@` |
| UserService.MalformedWithoutAt | src/modules/users/user_service.py:53 | an email without any `@` fails the shape test |
| UserService.DotBeforeLastAtExample | src/modules/users/user_service.py:53 | `a@b.c@d` fails: only the text after the last `@` is searched for a dot |
| UserService.CreateUserKeepsUniqueEmails | src/modules/users/user_service.py:56-59 | registration never gives two users the same email |
| UserService.CreateUserThenGet | src/modules/users/user_service.py:56-61 | a registered user is found under the returned id, and registering the same email again fails as a duplicate |
| Invariants.InitialValid | src/shared/cache/cache_service.py:18-21 | the starting system, an empty store and the empty cache the service is constructed with, satisfies all four invariants |
| Invariants.AppendOtherKeepsAvailability | src/modules/rooms/room_service.py:192-196 | a reservation of another room or date does not change an availability answer |
| Invariants.CreateReservationPreservesValid | src/modules/reservations/reservation_service.py:91-101 | admission preserves the store's well-formedness, no double booking, unique emails and cache freshness |
| Invariants.CreateUserPreservesValid | src/modules/users/user_service.py:56-61 | registration preserves all four invariants |
| Invariants.CreateRoomPreservesValid | src/modules/rooms/room_service.py:58-60 | room creation preserves all four invariants |
| Invariants.UpdateRoomPreservesValid | src/modules/rooms/room_service.py:121-127 | room update preserves all four invariants |
| Invariants.DeleteRoomPreservesValid | src/modules/rooms/room_service.py:146-160 | room deletion preserves all four invariants |
| Invariants.GetAvailabilityPreservesValid | src/modules/rooms/room_service.py:177-214 | the availability query, including its eviction and caching, preserves all four invariants |
| Invariants.AvailabilityNeverStale | src/modules/rooms/room_service.py:181-184 | in a valid state any availability answer, cached or computed, equals the one the current reservations give |
| Invariants.CachedAnswerOutlivesDeactivation | src/modules/rooms/room_service.py:181-189 | after a room is deactivated, a live cached answer is still served, while every stored user's booking of a valid range fails with RoomInactive |
| Invariants.BookedHoursLeaveAvailability | src/modules/reservations/reservation_service.py:100-101 | right after a successful booking, availability for that room and date is answered and lists none of the booked hours |
| Invariants.CacheScenario | src/modules/reservations/reservation_service.py:100-101 | an empty day first shows `8..19` free; after booking `[10, 12)` availability excludes 10 and 11 and includes 12, even though the first answer was cached |
| Invariants.EmptyDayAvailability | src/modules/rooms/room_service.py:177-214 | for an active room with no reservations on the date, availability answers the whole window `8..19` and leaves the database alone |
| Invariants.BookingOnEmptyDay | src/modules/reservations/reservation_service.py:78-101 | on a room's empty day, booking `[10, 12)` is admitted and the next availability answer excludes 10 and 11 and includes 12 |
| Invariants.OnlyBookingOfDay | src/modules/rooms/room_service.py:198-206 | when `[10, 12)` is the only booking of the room and date, 10 and 11 are not free and 12 is |

## Left out

- HTTP routes, controllers, request schemas and status codes are not modelled. Neither is the SQLAlchemy session (commit, refresh, rollback). The database is an abstract store.
- Error messages are not modelled. `Error` has one constructor per kind of failure. Different messages for the same kind share it: the room lookups of the reservation and room services both give `RoomNotFound`, for example.
- Concurrency is not modelled. Every call runs alone, although the routes are synchronous handlers that run in a thread pool. Two races are therefore not represented:
  - check-then-act: two concurrent bookings could both pass the overlap check before either is stored;
  - stale caching: an availability miss reads the reservations, a booking then commits and deletes the key (not yet present), and the miss caches its stale answer for up to an hour.
  `Invariants.AvailabilityNeverStale` holds only for calls run one at a time.
- Time is whole seconds passed in as `now`, where the source reads `datetime.now()` at microsecond resolution. `get_availability`'s cache read and its write use the same `now`. The source reads the clock separately for each.
- `date.today()` in room deletion is the parameter `today`.
- The process-wide cache singleton (`get_cache`) is the single `cache` field of `State`.
- `get_all_rooms` and `get_all_users` are not modelled. They are unfiltered reads. The room repository's create, lookup, update and delete are modelled through the `rooms` map.
- Ids come from counters that are never reused. SQLite may hand out the largest deleted id again; that is not modelled.
- Ids are unbounded integers. The store's 64-bit id width is not modelled: a lookup with an id of 2^63 or more raises `OverflowError` in the SQLite driver, where the model answers a not-found error (`UserNotFound`, `RoomNotFound`, …).
- CacheService.Set: the model's clock is unbounded, so an entry is always stored. In the source, a ttl that moves the expiration outside the range of `datetime` (beyond year 9999, about 2.5·10^11 seconds ahead, or far enough into the negative) raises `OverflowError` and stores nothing. The services only ever use the default ttl of 3600 seconds.
- Names, emails and locations have no length limit. The 100-character name and email limits and the 200-character location limit are not modelled.
- Text.IsSpace: this is the character class Python's `str.strip()` removes. Case folding and Unicode normalisation are not modelled; the email lookup compares text exactly.
- RoomService.GetAvailability: any live cached value counts as a hit. The source tests the value's truthiness (`if cached_data:`), and every value it caches, an availability dict, is truthy. `CacheService.Get` itself matches the source as written: it returns any live value. A cache hit is served without checking whether the room still exists or is active. This is the source's behaviour, and the model keeps it (see `Invariants.CachedAnswerOutlivesDeactivation`). Cache freshness covers reservations only.
