/** The system-wide invariants every service operation preserves: a well
    formed store, no double booking, unique emails, and an availability cache
    whose every entry agrees with the store. The last one is what the
    invalidation in reservation creation buys: an availability answer is never
    stale with respect to reservations. */
module Invariants {
  import opened Wrappers
  import opened Models
  import opened ReservationRepository
  import opened RoomService
  import opened ReservationService
  import opened UserService

  /** Every cached availability answer is the one the store gives now. */
  ghost predicate CacheFresh(st: State) {
    forall roomId: int, date: Date :: AvailabilityKey(roomId, date) in st.cache ==>
      st.cache[AvailabilityKey(roomId, date)].value == AvailabilityOf(st.db.reservations, roomId, date)
  }

  ghost predicate Valid(st: State) {
    && WellFormed(st.db)
    && NoDoubleBooking(st.db.reservations)
    && UniqueEmails(st.db)
    && CacheFresh(st)
  }

  const Initial: State := State(EmptyDb, map[])

  lemma InitialValid()
    ensures Valid(Initial)
  {
  }

  /** A reservation of another room or date leaves an availability answer as it was. */
  lemma AppendOtherKeepsAvailability(rs: seq<Reservation>, x: Reservation, roomId: int, date: Date)
    requires x.roomId != roomId || x.date != date
    ensures AvailabilityOf(rs + [x], roomId, date) == AvailabilityOf(rs, roomId, date)
  {
    SelectAppend(rs, x, OfRoomOn(roomId, date));
  }

  /** Operations that leave the reservations and the cache alone keep the cache fresh. */
  lemma SameReservationsSameCache(st: State, st': State)
    requires CacheFresh(st)
    requires st'.db.reservations == st.db.reservations && st'.cache == st.cache
    ensures CacheFresh(st')
  {
  }

  lemma CreateReservationPreservesValid(st: State, userId: int, roomId: int, date: Date, startHour: int, endHour: int)
    requires Valid(st)
    ensures Valid(CreateReservation(st, userId, roomId, date, startHour, endHour).sys)
  {
    var out := CreateReservation(st, userId, roomId, date, startHour, endHour);
    CreateReservationKeepsNoDoubleBooking(st, userId, roomId, date, startHour, endHour);
    CreateReservationThenGet(st, userId, roomId, date, startHour, endHour);
    if out.result.Ok? {
      var x := out.result.value;
      forall r: int, d: Date | AvailabilityKey(r, d) in out.sys.cache
        ensures out.sys.cache[AvailabilityKey(r, d)].value == AvailabilityOf(out.sys.db.reservations, r, d)
      {
        assert r != roomId || d != date;
        AppendOtherKeepsAvailability(st.db.reservations, x, r, d);
      }
    }
  }

  lemma CreateUserPreservesValid(st: State, name: string, email: string)
    requires Valid(st)
    ensures Valid(CreateUser(st, name, email).sys)
  {
    CreateUserKeepsUniqueEmails(st, name, email);
    SameReservationsSameCache(st, CreateUser(st, name, email).sys);
  }

  lemma CreateRoomPreservesValid(st: State, name: string, capacity: int, location: string)
    requires Valid(st)
    ensures Valid(CreateRoom(st, name, capacity, location).sys)
  {
    SameReservationsSameCache(st, CreateRoom(st, name, capacity, location).sys);
  }

  lemma UpdateRoomPreservesValid(st: State, roomId: int, name: string, capacity: int, location: string, active: bool)
    requires Valid(st)
    ensures Valid(UpdateRoom(st, roomId, name, capacity, location, active).sys)
  {
    SameReservationsSameCache(st, UpdateRoom(st, roomId, name, capacity, location, active).sys);
  }

  lemma DeleteRoomPreservesValid(st: State, roomId: int, today: Date)
    requires Valid(st)
    ensures Valid(DeleteRoom(st, roomId, today).sys)
  {
    SameReservationsSameCache(st, DeleteRoom(st, roomId, today).sys);
  }

  lemma GetAvailabilityPreservesValid(st: State, roomId: int, date: Date, now: int)
    requires Valid(st)
    ensures Valid(GetAvailability(st, roomId, date, now).sys)
  {
    var out := GetAvailability(st, roomId, date, now);
    forall r: int, d: Date | AvailabilityKey(r, d) in out.sys.cache
      ensures out.sys.cache[AvailabilityKey(r, d)].value == AvailabilityOf(out.sys.db.reservations, r, d)
    {
      if AvailabilityKey(r, d) == AvailabilityKey(roomId, date) {
        AvailabilityKeyInjective(r, d, roomId, date);
      }
    }
  }

  /** In a valid state an availability answer, whether served from the cache
      or computed, is the one the current reservations give: no booking made
      since the answer was cached is ever missing from it. */
  lemma AvailabilityNeverStale(st: State, roomId: int, date: Date, now: int)
    requires Valid(st)
    requires GetAvailability(st, roomId, date, now).result.Ok?
    ensures GetAvailability(st, roomId, date, now).result.value == AvailabilityOf(st.db.reservations, roomId, date)
  {
  }

  /** What availability serves as it is, without the room check: a live cached
      answer for a room that has since been deactivated is still returned. */
  lemma CachedAnswerOutlivesDeactivation(st: State, roomId: int, date: Date, now: int,
                                         name: string, capacity: int, location: string)
    requires Valid(st)
    requires AvailabilityKey(roomId, date) in st.cache && now <= st.cache[AvailabilityKey(roomId, date)].expiration
    requires UpdateRoom(st, roomId, name, capacity, location, false).result.Ok?
    ensures var st' := UpdateRoom(st, roomId, name, capacity, location, false).sys;
      && !st'.db.rooms[roomId].active
      && GetAvailability(st', roomId, date, now).result == Ok(AvailabilityOf(st.db.reservations, roomId, date))
      && (forall u, s, e :: u in st.db.users && ValidHours(s, e) ==>
            CreateReservation(st', u, roomId, date, s, e).result == Err(RoomInactive))
  {
  }

  /** After a successful booking, an availability query for the same room and
      date lists none of the booked hours, even if an answer was cached before. */
  lemma BookedHoursLeaveAvailability(st: State, userId: int, roomId: int, date: Date, startHour: int, endHour: int, now: int)
    requires Valid(st)
    requires CreateReservation(st, userId, roomId, date, startHour, endHour).result.Ok?
    ensures var st1 := CreateReservation(st, userId, roomId, date, startHour, endHour).sys;
      var answer := GetAvailability(st1, roomId, date, now).result;
      && answer.Ok?
      && forall h :: startHour <= h < endHour ==> h !in answer.value.freeSlots
  {
    var out := CreateReservation(st, userId, roomId, date, startHour, endHour);
    var st1 := out.sys;
    var x := out.result.value;
    CreateReservationPreservesValid(st, userId, roomId, date, startHour, endHour);
    AvailabilityNeverStale(st1, roomId, date, now);
    var answer := GetAvailability(st1, roomId, date, now).result.value;
    var rs := st1.db.reservations;
    assert rs[|rs| - 1] == x;
    forall h | startHour <= h < endHour ensures h !in answer.freeSlots {
      assert Covers(rs[|rs| - 1], h);
    }
  }

  /** The cache scenario: a room and date without reservations shows the whole
      window `8..19` free; after booking `[10, 12)` the availability excludes 10
      and 11 but includes 12. */
  lemma CacheScenario(st: State, userId: int, roomId: int, date: Date, now: int)
    requires Valid(st)
    requires userId in st.db.users && roomId in st.db.rooms && st.db.rooms[roomId].active
    requires forall i :: 0 <= i < |st.db.reservations| ==>
      st.db.reservations[i].roomId != roomId || st.db.reservations[i].date != date
    ensures var first := GetAvailability(st, roomId, date, now);
      && first.result == Ok(Availability(roomId, IsoFormat(date), [8, 9, 10, 11, 12, 13, 14, 15, 16, 17, 18, 19]))
      && var booked := CreateReservation(first.sys, userId, roomId, date, 10, 12);
      && booked.result.Ok?
      && var second := GetAvailability(booked.sys, roomId, date, now).result;
      && second.Ok?
      && 10 !in second.value.freeSlots && 11 !in second.value.freeSlots && 12 in second.value.freeSlots
  {
    var first := GetAvailability(st, roomId, date, now);
    EmptyDayAvailability(st, roomId, date, now);
    GetAvailabilityPreservesValid(st, roomId, date, now);
    BookingOnEmptyDay(first.sys, userId, roomId, date, now);
  }

  lemma EmptyDayAvailability(st: State, roomId: int, date: Date, now: int)
    requires Valid(st)
    requires roomId in st.db.rooms && st.db.rooms[roomId].active
    requires forall i :: 0 <= i < |st.db.reservations| ==>
      st.db.reservations[i].roomId != roomId || st.db.reservations[i].date != date
    ensures var first := GetAvailability(st, roomId, date, now);
      && first.result == Ok(Availability(roomId, IsoFormat(date), [8, 9, 10, 11, 12, 13, 14, 15, 16, 17, 18, 19]))
      && first.sys.db == st.db
  {
    AvailabilityNeverStale(st, roomId, date, now);
    assert GetByRoomAndDate(st.db.reservations, roomId, date) == [];
    EmptyDayAllFree([]);
  }

  lemma BookingOnEmptyDay(st: State, userId: int, roomId: int, date: Date, now: int)
    requires Valid(st)
    requires userId in st.db.users && roomId in st.db.rooms && st.db.rooms[roomId].active
    requires forall i :: 0 <= i < |st.db.reservations| ==>
      st.db.reservations[i].roomId != roomId || st.db.reservations[i].date != date
    ensures var booked := CreateReservation(st, userId, roomId, date, 10, 12);
      && booked.result.Ok?
      && var second := GetAvailability(booked.sys, roomId, date, now).result;
      && second.Ok?
      && 10 !in second.value.freeSlots && 11 !in second.value.freeSlots && 12 in second.value.freeSlots
  {
    var rs := st.db.reservations;
    assert !Conflicts(rs, roomId, date, 10, 12);
    var booked := CreateReservation(st, userId, roomId, date, 10, 12);
    CreateReservationPreservesValid(st, userId, roomId, date, 10, 12);
    AvailabilityNeverStale(booked.sys, roomId, date, now);
    OnlyBookingOfDay(rs, booked.result.value, roomId, date);
  }

  lemma OnlyBookingOfDay(rs: seq<Reservation>, x: Reservation, roomId: int, date: Date)
    requires forall i :: 0 <= i < |rs| ==> rs[i].roomId != roomId || rs[i].date != date
    requires x.roomId == roomId && x.date == date && x.startHour == 10 && x.endHour == 12
    ensures var a := AvailabilityOf(rs + [x], roomId, date);
      10 !in a.freeSlots && 11 !in a.freeSlots && 12 in a.freeSlots
  {
    var rs2 := rs + [x];
    assert rs2[|rs|] == x;
    assert forall i :: 0 <= i < |rs| ==> rs2[i] == rs[i];
  }
}
