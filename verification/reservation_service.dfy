/** Reservation admission: the fixed, fail-fast sequence of checks a booking
    must pass, the write, and the invalidation of the availability cache entry
    of the booked room and date; plus the two read operations. */
module ReservationService {
  import opened Wrappers
  import opened Models
  import CacheService
  import opened ReservationRepository

  /** `_invalidate_availability_cache`: drops the room and date's availability
      entry, and only that entry. */
  function InvalidateAvailabilityCache(cache: AvailabilityCache, roomId: int, date: Date): (c': AvailabilityCache)
    ensures AvailabilityKey(roomId, date) !in c'
    ensures c'.Keys == cache.Keys - {AvailabilityKey(roomId, date)}
    ensures forall k :: k in c' ==> c'[k] == cache[k]
  {
    CacheService.Delete(cache, AvailabilityKey(roomId, date)).cache
  }

  /** Every admission check passes. */
  predicate Admissible(db: Db, userId: int, roomId: int, date: Date, startHour: int, endHour: int) {
    && ValidHours(startHour, endHour)
    && userId in db.users
    && roomId in db.rooms
    && db.rooms[roomId].active
    && !Conflicts(db.reservations, roomId, date, startHour, endHour)
  }

  /** `create_reservation`. The first failing check decides the error: hour
      order, then the 0..23 range, then the user, then the room's existence,
      then its active flag, then overlap. A failure changes nothing; a success
      appends exactly the new reservation and drops exactly the room and
      date's availability cache entry. */
  function CreateReservation(st: State, userId: int, roomId: int, date: Date, startHour: int, endHour: int)
    : (out: Outcome<Reservation>)
    ensures startHour >= endHour ==> out.result == Err(InvertedHours)
    ensures startHour < endHour && !ValidHours(startHour, endHour) ==> out.result == Err(HourOutOfRange)
    ensures ValidHours(startHour, endHour) && userId !in st.db.users ==> out.result == Err(UserNotFound)
    ensures ValidHours(startHour, endHour) && userId in st.db.users && roomId !in st.db.rooms ==>
      out.result == Err(RoomNotFound)
    ensures (ValidHours(startHour, endHour) && userId in st.db.users && roomId in st.db.rooms
             && !st.db.rooms[roomId].active) ==> out.result == Err(RoomInactive)
    ensures (ValidHours(startHour, endHour) && userId in st.db.users && roomId in st.db.rooms
             && st.db.rooms[roomId].active && Conflicts(st.db.reservations, roomId, date, startHour, endHour)) ==>
      out.result == Err(Overlap)
    ensures out.result.Err? ==> out.sys == st
    ensures out.result.Ok? <==> Admissible(st.db, userId, roomId, date, startHour, endHour)
    ensures out.result.Ok? ==> var r := out.result.value;
      && r.userId == userId && r.roomId == roomId && r.date == date
      && r.startHour == startHour && r.endHour == endHour
      && r.id == st.db.nextReservationId
      && out.sys.db.reservations == st.db.reservations + [r]
      && out.sys.db.users == st.db.users
      && out.sys.db.rooms == st.db.rooms
      && out.sys.db.nextUserId == st.db.nextUserId
      && out.sys.db.nextRoomId == st.db.nextRoomId
      && out.sys.db.nextReservationId > r.id
      && AvailabilityKey(roomId, date) !in out.sys.cache
      && out.sys.cache.Keys == st.cache.Keys - {AvailabilityKey(roomId, date)}
      && (forall k :: k in out.sys.cache ==> out.sys.cache[k] == st.cache[k])
  {
    if startHour >= endHour then Outcome(st, Err(InvertedHours))
    else if !(0 <= startHour <= 23) || !(0 <= endHour <= 23) then Outcome(st, Err(HourOutOfRange))
    else if userId !in st.db.users then Outcome(st, Err(UserNotFound))
    else if roomId !in st.db.rooms then Outcome(st, Err(RoomNotFound))
    else if !st.db.rooms[roomId].active then Outcome(st, Err(RoomInactive))
    else if Conflicts(st.db.reservations, roomId, date, startHour, endHour) then Outcome(st, Err(Overlap))
    else
      var (db', r) := Create(st.db, userId, roomId, date, startHour, endHour);
      Outcome(State(db', InvalidateAvailabilityCache(st.cache, roomId, date)), Ok(r))
  }

  /** `get_reservation_by_id` */
  function GetReservationById(st: State, id: int): (r: Result<Reservation, Error>)
    ensures r.Err? <==> forall i :: 0 <= i < |st.db.reservations| ==> st.db.reservations[i].id != id
    ensures r.Err? ==> r.error == ReservationNotFound
    ensures r.Ok? ==> r.value in st.db.reservations && r.value.id == id
  {
    match GetById(st.db.reservations, id)
    case None => Err(ReservationNotFound)
    case Some(res) => Ok(res)
  }

  /** `get_reservations_by_room`: the room must exist; then all its reservations. */
  function GetReservationsByRoom(st: State, roomId: int): (r: Result<seq<Reservation>, Error>)
    ensures r.Err? <==> roomId !in st.db.rooms
    ensures r.Err? ==> r.error == RoomNotFound
    ensures r.Ok? ==> forall x ::
      multiset(r.value)[x] == (if x.roomId == roomId then multiset(st.db.reservations)[x] else 0)
  {
    if roomId !in st.db.rooms then Err(RoomNotFound) else Ok(GetByRoom(st.db.reservations, roomId))
  }

  // ---------------------------------------------------------------- properties

  /** Admission keeps every room's day free of double bookings. */
  lemma CreateReservationKeepsNoDoubleBooking(st: State, userId: int, roomId: int, date: Date, startHour: int, endHour: int)
    requires NoDoubleBooking(st.db.reservations)
    ensures NoDoubleBooking(CreateReservation(st, userId, roomId, date, startHour, endHour).sys.db.reservations)
  {
    var out := CreateReservation(st, userId, roomId, date, startHour, endHour);
    if out.result.Ok? {
      AppendKeepsNoDoubleBooking(st.db.reservations, out.result.value);
    }
  }

  /** Admission keeps the store well formed and issues a fresh id that a
      lookup then finds. */
  lemma CreateReservationThenGet(st: State, userId: int, roomId: int, date: Date, startHour: int, endHour: int)
    requires WellFormed(st.db)
    ensures var out := CreateReservation(st, userId, roomId, date, startHour, endHour);
      && WellFormed(out.sys.db)
      && (out.result.Ok? ==> GetReservationById(out.sys, out.result.value.id) == Ok(out.result.value))
  {
    var out := CreateReservation(st, userId, roomId, date, startHour, endHour);
    if out.result.Ok? {
      CreateThenGetById(st.db, userId, roomId, date, startHour, endHour);
    }
  }

  /** A candidate the store admits is admitted for a room and date whose
      other bookings it does not touch, even right after another booking of a
      different room or date. */
  lemma OtherRoomDayBookingIrrelevant(st: State, first: Reservation, userId: int, roomId: int, date: Date, startHour: int, endHour: int)
    requires first.roomId != roomId || first.date != date
    requires Admissible(st.db, first.userId, first.roomId, first.date, first.startHour, first.endHour)
    ensures var st1 := CreateReservation(st, first.userId, first.roomId, first.date, first.startHour, first.endHour).sys;
      (CreateReservation(st1, userId, roomId, date, startHour, endHour).result.Ok?
       <==> Admissible(st.db, userId, roomId, date, startHour, endHour))
  {
    var out := CreateReservation(st, first.userId, first.roomId, first.date, first.startHour, first.endHour);
    OtherRoomDayNeverConflicts(st.db.reservations, out.result.value, roomId, date, startHour, endHour);
  }

  /** Booking order does not matter for conflicts: with two admissible
      requests for one room and date, booking A then B is refused as an
      overlap exactly when booking B then A is, exactly when the two ranges
      overlap; back-to-back ranges are both admitted in either order. */
  lemma BookingOrderSymmetric(st: State, userA: int, userB: int, roomId: int, date: Date, sA: int, eA: int, sB: int, eB: int)
    requires Admissible(st.db, userA, roomId, date, sA, eA)
    requires Admissible(st.db, userB, roomId, date, sB, eB)
    ensures var afterA := CreateReservation(st, userA, roomId, date, sA, eA).sys;
      var afterB := CreateReservation(st, userB, roomId, date, sB, eB).sys;
      && (CreateReservation(afterA, userB, roomId, date, sB, eB).result == Err(Overlap) <==> Overlaps(sA, eA, sB, eB))
      && (CreateReservation(afterB, userA, roomId, date, sA, eA).result == Err(Overlap) <==> Overlaps(sA, eA, sB, eB))
      && (!Overlaps(sA, eA, sB, eB) ==>
            CreateReservation(afterA, userB, roomId, date, sB, eB).result.Ok?
            && CreateReservation(afterB, userA, roomId, date, sA, eA).result.Ok?)
  {
    var outA := CreateReservation(st, userA, roomId, date, sA, eA);
    var outB := CreateReservation(st, userB, roomId, date, sB, eB);
    ConflictsAppend(st.db.reservations, outA.result.value, roomId, date, sB, eB);
    ConflictsAppend(st.db.reservations, outB.result.value, roomId, date, sA, eA);
  }
}
