/** Data access for reservations: the filters the services run against the
    reservations table, lookup by id, insertion, and the overlap check that
    guards every booking. */
module ReservationRepository {
  import opened Wrappers
  import opened Models

  /** The half-open hour ranges `[s1, e1)` and `[s2, e2)` share an hour. */
  predicate Overlaps(s1: int, e1: int, s2: int, e2: int) {
    s1 < e2 && s2 < e1
  }

  /** The filters run against the reservations table. */
  datatype Query =
    | OfRoom(roomId: int)                   // a room's reservations
    | OfRoomOn(roomId: int, date: Date)     // a room's reservations on one date
    | OfRoomFrom(roomId: int, today: Date)  // a room's reservations dated today or later

  predicate Matches(q: Query, r: Reservation) {
    match q
    case OfRoom(room) => r.roomId == room
    case OfRoomOn(room, date) => r.roomId == room && r.date == date
    case OfRoomFrom(room, today) => r.roomId == room && OnOrAfter(r.date, today)
  }

  /** The stored reservations a query matches, in storage order, each as often
      as it is stored. */
  function Select(rs: seq<Reservation>, q: Query): (out: seq<Reservation>)
    ensures forall x :: multiset(out)[x] == if Matches(q, x) then multiset(rs)[x] else 0
    ensures forall i :: 0 <= i < |out| ==> Matches(q, out[i])
    ensures |out| <= |rs|
  {
    if |rs| == 0 then []
    else
      var rest := Select(rs[..|rs| - 1], q);
      var x := rs[|rs| - 1];
      assert rs == rs[..|rs| - 1] + [x];
      if Matches(q, x) then rest + [x] else rest
  }

  /** A query selects something exactly when some stored reservation matches it. */
  lemma SelectNonEmpty(rs: seq<Reservation>, q: Query)
    ensures |Select(rs, q)| > 0 <==> exists i :: 0 <= i < |rs| && Matches(q, rs[i])
  {
    var out := Select(rs, q);
    if exists i :: 0 <= i < |rs| && Matches(q, rs[i]) {
      var i :| 0 <= i < |rs| && Matches(q, rs[i]);
      assert multiset(out)[rs[i]] > 0;
    }
    if |out| > 0 {
      assert multiset(out)[out[0]] > 0;
      assert out[0] in rs;
    }
  }

  /** The positions in the store of the reservations a query matches. */
  function MatchingPositions(rs: seq<Reservation>, q: Query): set<int> {
    set i | 0 <= i < |rs| && Matches(q, rs[i])
  }

  /** A query selects one reservation per matching position, so counting the
      selection counts the matching rows. */
  lemma {:induction false} SelectCount(rs: seq<Reservation>, q: Query)
    ensures |Select(rs, q)| == |MatchingPositions(rs, q)|
  {
    if |rs| > 0 {
      var n := |rs| - 1;
      SelectCount(rs[..n], q);
      assert rs == rs[..n] + [rs[n]];
      SelectAppend(rs[..n], rs[n], q);
      PositionsOfLast(rs, q);
    }
  }

  /** The last row adds its position exactly when it matches. */
  lemma PositionsOfLast(rs: seq<Reservation>, q: Query)
    requires |rs| > 0
    ensures var n := |rs| - 1;
      |MatchingPositions(rs, q)| == |MatchingPositions(rs[..n], q)| + (if Matches(q, rs[n]) then 1 else 0)
  {
    var n := |rs| - 1;
    var pre := rs[..n];
    var m := Matches(q, rs[n]);
    PositionsSplit(MatchingPositions(rs, q), MatchingPositions(pre, q), n, m);
  }

  /** Adding position `n`, beyond every position in `before`, grows the set by one. */
  lemma PositionsSplit(all: set<int>, before: set<int>, n: int, m: bool)
    requires forall i :: i in before ==> i < n
    requires forall i :: i in all ==> i in before || (i == n && m)
    requires forall i :: i in before ==> i in all
    requires m ==> n in all
    ensures |all| == |before| + (if m then 1 else 0)
  {
    assert n !in before;
    if m {
      assert forall i :: i in all <==> i in before + {n};
      assert all == before + {n};
    } else {
      assert forall i :: i in all <==> i in before;
      assert all == before;
    }
  }

  lemma SelectAppend(rs: seq<Reservation>, x: Reservation, q: Query)
    ensures Select(rs + [x], q) == Select(rs, q) + (if Matches(q, x) then [x] else [])
  {
    assert (rs + [x])[..|rs|] == rs;
  }

  /** `get_by_room`: exactly the stored reservations of the room. */
  function GetByRoom(rs: seq<Reservation>, roomId: int): (out: seq<Reservation>)
    ensures forall x :: multiset(out)[x] == if x.roomId == roomId then multiset(rs)[x] else 0
  {
    Select(rs, OfRoom(roomId))
  }

  /** `get_by_room_and_date`: exactly the stored reservations of the room on the date. */
  function GetByRoomAndDate(rs: seq<Reservation>, roomId: int, date: Date): (out: seq<Reservation>)
    ensures forall x :: multiset(out)[x] == if x.roomId == roomId && x.date == date then multiset(rs)[x] else 0
  {
    Select(rs, OfRoomOn(roomId, date))
  }

  /** The count query of room deletion: reservations of the room dated today or later. */
  function CountFrom(rs: seq<Reservation>, roomId: int, today: Date): (n: nat)
    ensures n <= |rs|
    ensures n > 0 <==> exists i :: 0 <= i < |rs| && rs[i].roomId == roomId && OnOrAfter(rs[i].date, today)
    ensures n == |MatchingPositions(rs, OfRoomFrom(roomId, today))|
  {
    var future := Select(rs, OfRoomFrom(roomId, today));
    SelectNonEmpty(rs, OfRoomFrom(roomId, today));
    SelectCount(rs, OfRoomFrom(roomId, today));
    |future|
  }

  /** `get_by_id`: the first stored reservation with that id, if any. */
  function GetById(rs: seq<Reservation>, id: int): (out: Option<Reservation>)
    ensures out.Some? ==> out.value in rs && out.value.id == id
    ensures out.None? <==> forall i :: 0 <= i < |rs| ==> rs[i].id != id
  {
    if |rs| == 0 then None
    else if rs[0].id == id then Some(rs[0])
    else
      var out := GetById(rs[1..], id);
      assert forall i :: 1 <= i < |rs| ==> rs[i] == rs[1..][i - 1];
      out
  }

  /** `create`: stores a reservation with the given fields under the next id,
      touching nothing else. */
  function Create(db: Db, userId: int, roomId: int, date: Date, startHour: int, endHour: int): (out: (Db, Reservation))
    ensures var (db', r) := out;
      && r.id == db.nextReservationId
      && r.userId == userId && r.roomId == roomId && r.date == date
      && r.startHour == startHour && r.endHour == endHour
      && db'.reservations == db.reservations + [r]
      && db'.users == db.users && db'.rooms == db.rooms
      && db'.nextUserId == db.nextUserId && db'.nextRoomId == db.nextRoomId
      && db'.nextReservationId > r.id
    ensures WellFormed(db) && ValidHours(startHour, endHour) ==> WellFormed(out.0)
  {
    var r := Reservation(db.nextReservationId, userId, roomId, date, startHour, endHour);
    (db.(reservations := db.reservations + [r], nextReservationId := db.nextReservationId + 1), r)
  }

  /** Looking up the id `create` assigned finds the new reservation. */
  lemma CreateThenGetById(db: Db, userId: int, roomId: int, date: Date, startHour: int, endHour: int)
    requires WellFormed(db)
    ensures var (db', r) := Create(db, userId, roomId, date, startHour, endHour);
      GetById(db'.reservations, r.id) == Some(r)
  {
    var (db', r) := Create(db, userId, roomId, date, startHour, endHour);
    var rs := db'.reservations;
    assert rs[|rs| - 1] == r;
    GetByIdOfLast(rs, r.id);
  }

  lemma {:induction false} GetByIdOfLast(rs: seq<Reservation>, id: int)
    requires |rs| > 0 && rs[|rs| - 1].id == id
    requires forall i :: 0 <= i < |rs| - 1 ==> rs[i].id != id
    ensures GetById(rs, id) == Some(rs[|rs| - 1])
    decreases |rs|
  {
    if |rs| > 1 {
      GetByIdOfLast(rs[1..], id);
    }
  }

  // ---------------------------------------------------------------- overlap

  /** Some stored reservation of the room on the date shares an hour with `[start, end)`. */
  predicate Conflicts(rs: seq<Reservation>, roomId: int, date: Date, start: int, end: int) {
    exists i :: 0 <= i < |rs| && rs[i].roomId == roomId && rs[i].date == date
      && Overlaps(start, end, rs[i].startHour, rs[i].endHour)
  }

  /** `check_overlap`: scans the room's reservations on the date and stops at
      the first one that overlaps the candidate. */
  method CheckOverlap(rs: seq<Reservation>, roomId: int, date: Date, start: int, end: int) returns (found: bool)
    ensures found <==> Conflicts(rs, roomId, date, start, end)
  {
    var sameDay := GetByRoomAndDate(rs, roomId, date);
    for i := 0 to |sameDay|
      invariant forall k :: 0 <= k < i ==> !Overlaps(start, end, sameDay[k].startHour, sameDay[k].endHour)
    {
      var res := sameDay[i];
      if start < res.endHour && res.startHour < end {
        assert multiset(sameDay)[res] > 0;
        assert res in rs;
        return true;
      }
    }
    forall i | 0 <= i < |rs| && rs[i].roomId == roomId && rs[i].date == date
      ensures !Overlaps(start, end, rs[i].startHour, rs[i].endHour)
    {
      assert multiset(sameDay)[rs[i]] > 0;
      assert rs[i] in sameDay;
    }
    return false;
  }

  /** Whether two ranges overlap does not depend on which one is the candidate. */
  lemma OverlapSymmetric(s1: int, e1: int, s2: int, e2: int)
    ensures Overlaps(s1, e1, s2, e2) <==> Overlaps(s2, e2, s1, e1)
  {
  }

  /** Back-to-back ranges do not overlap: one ends exactly where the other starts. */
  lemma TouchingRangesDoNotOverlap(s1: int, e1: int, s2: int, e2: int)
    requires e1 == s2 || s1 == e2
    ensures !Overlaps(s1, e1, s2, e2)
  {
  }

  /** Only reservations of the same room and date can conflict: the check over
      the whole store agrees with the check over that room's day. */
  lemma ConflictsOnlyWithinRoomDay(rs: seq<Reservation>, roomId: int, date: Date, start: int, end: int)
    ensures Conflicts(rs, roomId, date, start, end)
      <==> Conflicts(GetByRoomAndDate(rs, roomId, date), roomId, date, start, end)
  {
    var sameDay := GetByRoomAndDate(rs, roomId, date);
    if Conflicts(rs, roomId, date, start, end) {
      var i :| 0 <= i < |rs| && rs[i].roomId == roomId && rs[i].date == date
        && Overlaps(start, end, rs[i].startHour, rs[i].endHour);
      assert multiset(sameDay)[rs[i]] > 0;
      assert rs[i] in sameDay;
    }
    if Conflicts(sameDay, roomId, date, start, end) {
      var k :| 0 <= k < |sameDay| && Overlaps(start, end, sameDay[k].startHour, sameDay[k].endHour);
      assert multiset(sameDay)[sameDay[k]] > 0;
      assert sameDay[k] in rs;
    }
  }

  /** With nothing booked for that room and date, no candidate conflicts. */
  lemma NoConflictOnFreeDay(rs: seq<Reservation>, roomId: int, date: Date, start: int, end: int)
    requires GetByRoomAndDate(rs, roomId, date) == []
    ensures !Conflicts(rs, roomId, date, start, end)
  {
    ConflictsOnlyWithinRoomDay(rs, roomId, date, start, end);
  }

  /** Storing one more reservation adds exactly the conflicts that reservation causes. */
  lemma ConflictsAppend(rs: seq<Reservation>, x: Reservation, roomId: int, date: Date, start: int, end: int)
    ensures Conflicts(rs + [x], roomId, date, start, end)
      <==> (Conflicts(rs, roomId, date, start, end)
        || (x.roomId == roomId && x.date == date && Overlaps(start, end, x.startHour, x.endHour)))
  {
    var rs' := rs + [x];
    if Conflicts(rs', roomId, date, start, end) {
      var i :| 0 <= i < |rs'| && rs'[i].roomId == roomId && rs'[i].date == date
        && Overlaps(start, end, rs'[i].startHour, rs'[i].endHour);
      if i < |rs| {
        assert rs'[i] == rs[i];
      }
    }
    if Conflicts(rs, roomId, date, start, end) {
      var i :| 0 <= i < |rs| && rs[i].roomId == roomId && rs[i].date == date
        && Overlaps(start, end, rs[i].startHour, rs[i].endHour);
      assert rs'[i] == rs[i];
    }
    assert rs'[|rs|] == x;
  }

  /** A reservation for another room or another date changes no conflict answer. */
  lemma OtherRoomDayNeverConflicts(rs: seq<Reservation>, x: Reservation, roomId: int, date: Date, start: int, end: int)
    requires x.roomId != roomId || x.date != date
    ensures Conflicts(rs + [x], roomId, date, start, end) <==> Conflicts(rs, roomId, date, start, end)
  {
    ConflictsAppend(rs, x, roomId, date, start, end);
  }

  // ---------------------------------------------------------------- no double booking

  /** No two stored reservations of the same room and date share an hour. */
  predicate NoDoubleBooking(rs: seq<Reservation>) {
    forall i, j :: 0 <= i < j < |rs| && rs[i].roomId == rs[j].roomId && rs[i].date == rs[j].date ==>
      !Overlaps(rs[i].startHour, rs[i].endHour, rs[j].startHour, rs[j].endHour)
  }

  /** Appending a reservation keeps the store free of double bookings exactly
      when the overlap check would have let it through. */
  lemma AppendKeepsNoDoubleBooking(rs: seq<Reservation>, x: Reservation)
    requires NoDoubleBooking(rs)
    ensures NoDoubleBooking(rs + [x]) <==> !Conflicts(rs, x.roomId, x.date, x.startHour, x.endHour)
  {
    var rs' := rs + [x];
    if Conflicts(rs, x.roomId, x.date, x.startHour, x.endHour) {
      var i :| 0 <= i < |rs| && rs[i].roomId == x.roomId && rs[i].date == x.date
        && Overlaps(x.startHour, x.endHour, rs[i].startHour, rs[i].endHour);
      assert rs'[i] == rs[i] && rs'[|rs|] == x;
      assert Overlaps(rs'[i].startHour, rs'[i].endHour, rs'[|rs|].startHour, rs'[|rs|].endHour);
    } else {
      forall i, j | 0 <= i < j < |rs'| && rs'[i].roomId == rs'[j].roomId && rs'[i].date == rs'[j].date
        ensures !Overlaps(rs'[i].startHour, rs'[i].endHour, rs'[j].startHour, rs'[j].endHour)
      {
        if j == |rs| {
          assert rs'[i] == rs[i] && rs'[j] == x;
        } else {
          assert rs'[i] == rs[i] && rs'[j] == rs[j];
        }
      }
    }
  }
}
