/** Room management (create, read, update, delete with the future-reservation
    guard) and the availability query: the bookable window `[8, 20)` minus the
    hours the day's reservations cover, memoised in the shared cache under the
    room and date's availability key. */
module RoomService {
  import opened Wrappers
  import opened Text
  import opened Models
  import CacheService
  import ReservationRepository

  /** The bookable window is `[OpenHour, CloseHour)`. */
  const OpenHour: int := 8
  const CloseHour: int := 20

  // ---------------------------------------------------------------- availability

  /** The reservation's range `[startHour, endHour)` includes hour `h`. */
  predicate Covers(r: Reservation, h: int) {
    r.startHour <= h < r.endHour
  }

  predicate Occupied(rs: seq<Reservation>, h: int) {
    exists i :: 0 <= i < |rs| && Covers(rs[i], h)
  }

  /** The hours of `[from, CloseHour)` missing from `taken`, scanned upwards. */
  function FreeFrom(taken: set<int>, from: int): seq<int>
    decreases CloseHour - from
  {
    if from >= CloseHour then []
    else if from in taken then FreeFrom(taken, from + 1)
    else [from] + FreeFrom(taken, from + 1)
  }

  /** The window's hours some reservation covers. */
  function OccupiedInWindow(rs: seq<Reservation>): set<int> {
    set h | OpenHour <= h < CloseHour && Occupied(rs, h)
  }

  /** The free slots of a day: the window's hours no reservation covers, in
      ascending order. The service's computation is held to this definition. */
  function FreeSlots(rs: seq<Reservation>): seq<int> {
    FreeFrom(OccupiedInWindow(rs), OpenHour)
  }

  /** The scan lists exactly the hours from `from` up to the close of the
      window that are not taken, each once, in strictly ascending order. */
  lemma {:induction false} FreeFromSpec(taken: set<int>, from: int)
    ensures var slots := FreeFrom(taken, from);
      && (forall h :: h in slots <==> from <= h < CloseHour && h !in taken)
      && (forall i :: 0 <= i < |slots| ==> from <= slots[i] < CloseHour)
      && (forall i, j :: 0 <= i < j < |slots| ==> slots[i] < slots[j])
    decreases CloseHour - from
  {
    if from < CloseHour {
      FreeFromSpec(taken, from + 1);
      var tail := FreeFrom(taken, from + 1);
      if from !in taken {
        var slots := [from] + tail;
        assert forall i :: 0 < i < |slots| ==> slots[i] == tail[i - 1];
      }
    }
  }

  /** The scan only looks at the window's hours from `from` on. */
  lemma {:induction false} FreeFromAgree(a: set<int>, b: set<int>, from: int)
    requires forall h :: from <= h < CloseHour ==> (h in a <==> h in b)
    ensures FreeFrom(a, from) == FreeFrom(b, from)
    decreases CloseHour - from
  {
    if from < CloseHour {
      FreeFromAgree(a, b, from + 1);
    }
  }

  /** The free slots are exactly the window's unoccupied hours, strictly
      ascending and so without repeats. */
  lemma FreeSlotsSpec(rs: seq<Reservation>)
    ensures var slots := FreeSlots(rs);
      && (forall h :: h in slots <==> OpenHour <= h < CloseHour && !Occupied(rs, h))
      && (forall i, j :: 0 <= i < j < |slots| ==> slots[i] < slots[j])
  {
    FreeFromSpec(OccupiedInWindow(rs), OpenHour);
  }

  /** Every hour some reservation covers, collected into a set one
      reservation and one hour at a time. */
  method CollectOccupied(rs: seq<Reservation>) returns (occupied: set<int>)
    ensures forall h :: h in occupied <==> Occupied(rs, h)
  {
    occupied := {};
    for k := 0 to |rs|
      invariant forall h :: h in occupied <==> exists m :: 0 <= m < k && Covers(rs[m], h)
    {
      var r := rs[k];
      var hour := r.startHour;
      while hour < r.endHour
        invariant r.startHour <= hour
        invariant hour <= r.endHour || hour == r.startHour
        invariant forall h :: h in occupied <==>
          (exists m :: 0 <= m < k && Covers(rs[m], h)) || r.startHour <= h < hour
        decreases r.endHour - hour
      {
        occupied := occupied + {hour};
        hour := hour + 1;
      }
    }
  }

  /** One step of the scan: hour `h` is listed unless taken, then the rest follows. */
  lemma FreeFromUnfold(taken: set<int>, h: int)
    requires h < CloseHour
    ensures FreeFrom(taken, h) == (if h in taken then [] else [h]) + FreeFrom(taken, h + 1)
  {
  }

  /** The hours of `[from, CloseHour)` missing from `occupied`, listed in
      ascending order; the service lists from the opening hour. */
  method ListFree(occupied: set<int>, from: int) returns (slots: seq<int>)
    ensures slots == FreeFrom(occupied, from)
  {
    slots := [];
    var h := from;
    while h < CloseHour
      invariant from <= h && (h <= CloseHour || h == from)
      invariant slots + FreeFrom(occupied, h) == FreeFrom(occupied, from)
      decreases CloseHour - h
    {
      FreeFromUnfold(occupied, h);
      if h !in occupied {
        assert slots + FreeFrom(occupied, h) == (slots + [h]) + FreeFrom(occupied, h + 1);
        slots := slots + [h];
      }
      h := h + 1;
    }
    assert slots + FreeFrom(occupied, h) == slots;
  }

  /** The free-slot computation as the service performs it: collect every hour
      each reservation covers into a set, then list the window's hours missing
      from that set in ascending order. The result is exactly the window's
      unoccupied hours, strictly ascending. */
  method ComputeFreeSlots(rs: seq<Reservation>) returns (slots: seq<int>)
    ensures slots == FreeSlots(rs)
    ensures forall h :: h in slots <==> OpenHour <= h < CloseHour && !Occupied(rs, h)
    ensures forall i, j :: 0 <= i < j < |slots| ==> slots[i] < slots[j]
  {
    var occupied := CollectOccupied(rs);
    slots := ListFree(occupied, OpenHour);
    FreeFromAgree(occupied, OccupiedInWindow(rs), OpenHour);
    FreeSlotsSpec(rs);
  }

  /** The availability answer for a room and date, computed from the store. */
  function AvailabilityOf(rs: seq<Reservation>, roomId: int, date: Date): (a: Availability)
    ensures a.roomId == roomId && a.date == IsoFormat(date)
    ensures forall h :: h in a.freeSlots <==>
      OpenHour <= h < CloseHour
      && forall i :: 0 <= i < |rs| && rs[i].roomId == roomId && rs[i].date == date ==> !Covers(rs[i], h)
    ensures forall i, j :: 0 <= i < j < |a.freeSlots| ==> a.freeSlots[i] < a.freeSlots[j]
  {
    var sameDay := ReservationRepository.GetByRoomAndDate(rs, roomId, date);
    SameDayOccupied(rs, roomId, date);
    FreeSlotsSpec(sameDay);
    Availability(roomId, IsoFormat(date), FreeSlots(sameDay))
  }

  lemma SameDayOccupied(rs: seq<Reservation>, roomId: int, date: Date)
    ensures forall h :: Occupied(ReservationRepository.GetByRoomAndDate(rs, roomId, date), h) <==>
      exists i :: 0 <= i < |rs| && rs[i].roomId == roomId && rs[i].date == date && Covers(rs[i], h)
  {
    var sameDay := ReservationRepository.GetByRoomAndDate(rs, roomId, date);
    forall h ensures Occupied(sameDay, h) <==>
      exists i :: 0 <= i < |rs| && rs[i].roomId == roomId && rs[i].date == date && Covers(rs[i], h)
    {
      if Occupied(sameDay, h) {
        var k :| 0 <= k < |sameDay| && Covers(sameDay[k], h);
        assert multiset(sameDay)[sameDay[k]] > 0;
        assert sameDay[k] in rs;
      }
      if exists i :: 0 <= i < |rs| && rs[i].roomId == roomId && rs[i].date == date && Covers(rs[i], h) {
        var i :| 0 <= i < |rs| && rs[i].roomId == roomId && rs[i].date == date && Covers(rs[i], h);
        assert multiset(sameDay)[rs[i]] > 0;
        assert rs[i] in sameDay;
      }
    }
  }

  // ---------------------------------------------------------------- room records

  /** The field checks create and update run, in order: the name must not be
      empty or whitespace only, then the capacity must be at least 1, then the
      location must not be empty or whitespace only. */
  function CheckRoomFields(name: string, capacity: int, location: string): (err: Option<Error>)
    ensures err == Some(EmptyName) <==> AllSpace(name)
    ensures err == Some(CapacityTooSmall) <==> !AllSpace(name) && capacity < 1
    ensures err == Some(EmptyLocation) <==> !AllSpace(name) && capacity >= 1 && AllSpace(location)
    ensures err == None <==> !AllSpace(name) && capacity >= 1 && !AllSpace(location)
  {
    BlankIffAllSpace(name);
    BlankIffAllSpace(location);
    if Blank(name) then Some(EmptyName)
    else if capacity < 1 then Some(CapacityTooSmall)
    else if Blank(location) then Some(EmptyLocation)
    else None
  }

  /** `create_room`: validates the fields, then stores an active room under the next id. */
  function CreateRoom(st: State, name: string, capacity: int, location: string): (out: Outcome<int>)
    ensures out.result.Err? <==> CheckRoomFields(name, capacity, location).Some?
    ensures out.result.Err? ==> out.sys == st && out.result.error == CheckRoomFields(name, capacity, location).value
    ensures out.result.Ok? ==> var id := out.result.value;
      && id == st.db.nextRoomId
      && out.sys.db.rooms == st.db.rooms[id := Room(name, capacity, location, true)]
      && out.sys.db.nextRoomId > id
      && out.sys.db.users == st.db.users
      && out.sys.db.reservations == st.db.reservations
      && out.sys.db.nextUserId == st.db.nextUserId
      && out.sys.db.nextReservationId == st.db.nextReservationId
      && out.sys.cache == st.cache
    ensures WellFormed(st.db) && out.result.Ok? ==> out.result.value !in st.db.rooms && WellFormed(out.sys.db)
  {
    match CheckRoomFields(name, capacity, location)
    case Some(e) => Outcome(st, Err(e))
    case None =>
      var id := st.db.nextRoomId;
      var db := st.db.(rooms := st.db.rooms[id := Room(name, capacity, location, true)], nextRoomId := id + 1);
      Outcome(st.(db := db), Ok(id))
  }

  /** `get_room_by_id` */
  function GetRoomById(st: State, roomId: int): (r: Result<Room, Error>)
    ensures r.Err? <==> roomId !in st.db.rooms
    ensures r.Err? ==> r.error == RoomNotFound
    ensures r.Ok? ==> r.value == st.db.rooms[roomId]
  {
    if roomId in st.db.rooms then Ok(st.db.rooms[roomId]) else Err(RoomNotFound)
  }

  /** `update_room`: the room must exist, the fields pass the create checks,
      and then that room's four fields are replaced; nothing else changes. */
  function UpdateRoom(st: State, roomId: int, name: string, capacity: int, location: string, active: bool): (out: Outcome<Room>)
    ensures roomId !in st.db.rooms ==> out.result == Err(RoomNotFound)
    ensures roomId in st.db.rooms && CheckRoomFields(name, capacity, location).Some? ==>
      out.result == Err(CheckRoomFields(name, capacity, location).value)
    ensures out.result.Err? ==> out.sys == st
    ensures out.result.Ok? <==> roomId in st.db.rooms && CheckRoomFields(name, capacity, location) == None
    ensures out.result.Ok? ==>
      && out.result.value == Room(name, capacity, location, active)
      && out.sys.db.rooms.Keys == st.db.rooms.Keys
      && out.sys == st.(db := st.db.(rooms := st.db.rooms[roomId := out.result.value]))
  {
    match GetRoomById(st, roomId)
    case Err(e) => Outcome(st, Err(e))
    case Ok(_) =>
      match CheckRoomFields(name, capacity, location)
      case Some(e) => Outcome(st, Err(e))
      case None =>
        var room := Room(name, capacity, location, active);
        Outcome(st.(db := st.db.(rooms := st.db.rooms[roomId := room])), Ok(room))
  }

  /** `delete_room`: refused while any reservation of the room is dated today
      or later (the error carries how many); otherwise only the room record
      goes. Reservations already past stay in the store. */
  function DeleteRoom(st: State, roomId: int, today: Date): (out: Outcome<()>)
    ensures roomId !in st.db.rooms ==> out.result == Err(RoomNotFound)
    ensures out.result.Err? ==> out.sys == st
    ensures roomId in st.db.rooms && out.result.Err? ==>
      var future := ReservationRepository.MatchingPositions(st.db.reservations, ReservationRepository.OfRoomFrom(roomId, today));
      |future| >= 1 && out.result.error == FutureReservations(|future|)
    ensures out.result.Ok? <==> (roomId in st.db.rooms &&
      forall i :: 0 <= i < |st.db.reservations| && st.db.reservations[i].roomId == roomId ==>
        !OnOrAfter(st.db.reservations[i].date, today))
    ensures out.result.Ok? ==> out.sys == st.(db := st.db.(rooms := st.db.rooms - {roomId}))
  {
    match GetRoomById(st, roomId)
    case Err(e) => Outcome(st, Err(e))
    case Ok(_) =>
      var future := ReservationRepository.CountFrom(st.db.reservations, roomId, today);
      if future > 0 then Outcome(st, Err(FutureReservations(future)))
      else Outcome(st.(db := st.db.(rooms := st.db.rooms - {roomId})), Ok(()))
  }

  /** `get_availability`: a live cache entry is returned as is, without looking
      at the room; on a miss (which evicts an expired entry) the room must exist
      and be active, and the computed answer is cached with the default ttl. */
  function GetAvailability(st: State, roomId: int, date: Date, now: int): (out: Outcome<Availability>)
    ensures out.sys.db == st.db
    ensures var key := AvailabilityKey(roomId, date);
      key in st.cache && now <= st.cache[key].expiration ==>
        out.result == Ok(st.cache[key].value) && out.sys.cache == st.cache
    ensures var key := AvailabilityKey(roomId, date);
      !(key in st.cache && now <= st.cache[key].expiration) ==>
        && (roomId !in st.db.rooms ==> out.result == Err(RoomNotFound))
        && (roomId in st.db.rooms && !st.db.rooms[roomId].active ==> out.result == Err(RoomInactive))
        && (roomId in st.db.rooms && st.db.rooms[roomId].active ==>
              && out.result == Ok(AvailabilityOf(st.db.reservations, roomId, date))
              && key in out.sys.cache
              && out.sys.cache[key] == CacheService.Entry(out.result.value, now + CacheService.DefaultTtl))
    ensures forall k :: k != AvailabilityKey(roomId, date) ==>
      (k in out.sys.cache <==> k in st.cache) && (k in st.cache ==> out.sys.cache[k] == st.cache[k])
    ensures out.result.Err? ==> AvailabilityKey(roomId, date) !in out.sys.cache
  {
    var key := AvailabilityKey(roomId, date);
    var hit := CacheService.Get(st.cache, key, now);
    match hit.value
    case Some(cached) => Outcome(st, Ok(cached))
    case None =>
      var missed := st.(cache := hit.cache);
      match GetRoomById(st, roomId)
      case Err(e) => Outcome(missed, Err(e))
      case Ok(room) =>
        if !room.active then Outcome(missed, Err(RoomInactive))
        else
          var answer := AvailabilityOf(st.db.reservations, roomId, date);
          Outcome(missed.(cache := CacheService.Set(hit.cache, key, answer, None, now)), Ok(answer))
  }

  // ---------------------------------------------------------------- examples

  /** The hours `[from, to)` in ascending order. */
  function HoursBetween(from: int, to: int): seq<int>
    decreases to - from
  {
    if from >= to then [] else [from] + HoursBetween(from + 1, to)
  }

  /** Where no hour from `from` on is taken, the free slots from there are
      every remaining hour of the window. */
  lemma {:induction false} FreeFromIdle(taken: set<int>, from: int)
    requires forall h :: from <= h < CloseHour ==> h !in taken
    ensures FreeFrom(taken, from) == HoursBetween(from, CloseHour)
    decreases CloseHour - from
  {
    if from < CloseHour {
      FreeFromIdle(taken, from + 1);
    }
  }

  /** A day with no reservations is free from 8 to 19. */
  lemma EmptyDayAllFree(rs: seq<Reservation>)
    requires |rs| == 0
    ensures FreeSlots(rs) == [8, 9, 10, 11, 12, 13, 14, 15, 16, 17, 18, 19]
  {
    FreeFromIdle(OccupiedInWindow(rs), OpenHour);
    WindowHours();
  }

  lemma WindowHours()
    ensures HoursBetween(OpenHour, CloseHour) == [8, 9, 10, 11, 12, 13, 14, 15, 16, 17, 18, 19]
  {
  }

  /** Booking `[10, 12)` takes 10 and 11 out of the free slots and leaves 12 in. */
  lemma BookedMorningExample(r: Reservation)
    requires r.startHour == 10 && r.endHour == 12
    ensures FreeSlots([r]) == [8, 9, 12, 13, 14, 15, 16, 17, 18, 19]
  {
    forall h ensures Occupied([r], h) <==> 10 <= h < 12 {
      if 10 <= h < 12 { assert Covers([r][0], h); }
    }
    MorningBooked(OccupiedInWindow([r]));
  }

  lemma MorningBooked(taken: set<int>)
    requires forall h :: h in taken <==> 10 <= h < 12
    ensures FreeFrom(taken, OpenHour) == [8, 9, 12, 13, 14, 15, 16, 17, 18, 19]
  {
    KeepTwo(taken, 8);
    SkipTwo(taken, 10);
    FreeFromIdle(taken, 12);
    AfternoonHours();
  }

  lemma AfternoonHours()
    ensures [8, 9] + HoursBetween(12, CloseHour) == [8, 9, 12, 13, 14, 15, 16, 17, 18, 19]
  {
  }

  lemma KeepTwo(taken: set<int>, from: int)
    requires from + 1 < CloseHour && from !in taken && from + 1 !in taken
    ensures FreeFrom(taken, from) == [from, from + 1] + FreeFrom(taken, from + 2)
  {
    var rest := FreeFrom(taken, from + 2);
    assert FreeFrom(taken, from + 1) == [from + 1] + rest;
    assert [from] + ([from + 1] + rest) == [from, from + 1] + rest;
  }

  lemma SkipTwo(taken: set<int>, from: int)
    requires from + 1 < CloseHour && from in taken && from + 1 in taken
    ensures FreeFrom(taken, from) == FreeFrom(taken, from + 2)
  {
    assert FreeFrom(taken, from + 1) == FreeFrom(taken, from + 2);
  }
}
