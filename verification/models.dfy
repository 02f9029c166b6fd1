/** The records the services work on (the ORM models of users, rooms and
    reservations), the error kinds the services raise, the database as an
    abstract store, and the availability cache key shared by the room and
    reservation services. */
module Models {
  import opened Wrappers
  import opened Text
  import CacheService

  // ---------------------------------------------------------------- dates

  /** A calendar date (`datetime.date`). */
  datatype Date = Date(year: nat, month: nat, day: nat)

  /** `a >= b` on dates: chronological order, which on (year, month, day) is
      the lexicographic order. */
  predicate OnOrAfter(a: Date, b: Date) {
    || a.year > b.year
    || (a.year == b.year && a.month > b.month)
    || (a.year == b.year && a.month == b.month && a.day >= b.day)
  }

  const DateSeparator: char := '-'

  function IsoParts(d: Date): seq<string> {
    [ZeroPad(NatToString(d.year), 4), ZeroPad(NatToString(d.month), 2), ZeroPad(NatToString(d.day), 2)]
  }

  /** `str(d)`: the ISO form `YYYY-MM-DD`, each field zero padded. */
  function IsoFormat(d: Date): string {
    Join(IsoParts(d), DateSeparator)
  }

  /** Reads back an ISO date: three dash-separated, non-empty digit fields. */
  function ParseIsoDate(s: string): Option<Date> {
    var parts := Split(s, DateSeparator);
    if |parts| == 3 && (forall i :: 0 <= i < 3 ==> |parts[i]| > 0 && Digits(parts[i])) then
      Some(Date(DecimalValue(parts[0]), DecimalValue(parts[1]), DecimalValue(parts[2])))
    else None
  }

  lemma DigitsHaveNo(s: string, c: char)
    requires Digits(s) && !IsDigit(c)
    ensures c !in s
  {
  }

  lemma IsoRoundTrip(d: Date)
    ensures ParseIsoDate(IsoFormat(d)) == Some(d)
  {
    var parts := IsoParts(d);
    forall i | 0 <= i < 3 ensures DateSeparator !in parts[i] {
      DigitsHaveNo(parts[i], DateSeparator);
    }
    SplitJoin(parts, DateSeparator);
    ZeroPadValue(NatToString(d.year), 4);
    ZeroPadValue(NatToString(d.month), 2);
    ZeroPadValue(NatToString(d.day), 2);
    NatToStringValue(d.year);
    NatToStringValue(d.month);
    NatToStringValue(d.day);
  }

  // ---------------------------------------------------------------- records

  /** One booked half-open hour range `[startHour, endHour)` of a room on a date. */
  datatype Reservation = Reservation(id: int, userId: int, roomId: int, date: Date, startHour: int, endHour: int)

  datatype Room = Room(name: string, capacity: int, location: string, active: bool)

  datatype User = User(name: string, email: string)

  /** The availability answer `{roomId, date, freeSlots}`; `date` is `str(date)`. */
  datatype Availability = Availability(roomId: int, date: string, freeSlots: seq<int>)

  /** The `ValueError`s the services raise, one constructor per kind of failure. */
  datatype Error =
    | InvertedHours           // start hour not before end hour
    | HourOutOfRange          // an hour outside 0..23
    | UserNotFound
    | RoomNotFound
    | RoomInactive
    | Overlap                 // the requested range meets a stored reservation
    | ReservationNotFound
    | EmptyName
    | CapacityTooSmall
    | EmptyLocation
    | EmptyEmail
    | MalformedEmail
    | DuplicateEmail
    | FutureReservations(count: nat)

  // ---------------------------------------------------------------- store

  /** The database: users and rooms keyed by id, reservations in insertion
      order, and the next id each table will assign. */
  datatype Db = Db(
    users: map<int, User>,
    rooms: map<int, Room>,
    reservations: seq<Reservation>,
    nextUserId: int,
    nextRoomId: int,
    nextReservationId: int)

  const EmptyDb: Db := Db(map[], map[], [], 1, 1, 1)

  /** A booking the reservation service would admit: ordered hours within 0..23. */
  predicate ValidHours(startHour: int, endHour: int) {
    0 <= startHour < endHour <= 23
  }

  /** Every stored id was issued before the counter, reservation ids are
      distinct, and every stored reservation has valid hours. */
  predicate WellFormed(db: Db) {
    && (forall id :: id in db.users ==> id < db.nextUserId)
    && (forall id :: id in db.rooms ==> id < db.nextRoomId)
    && (forall i :: 0 <= i < |db.reservations| ==> db.reservations[i].id < db.nextReservationId)
    && (forall i, j :: 0 <= i < j < |db.reservations| ==> db.reservations[i].id != db.reservations[j].id)
    && (forall i :: 0 <= i < |db.reservations| ==>
          ValidHours(db.reservations[i].startHour, db.reservations[i].endHour))
  }

  // ---------------------------------------------------------------- whole system

  type AvailabilityCache = CacheService.Store<Availability>

  /** Everything the services read and write: the database and the one cache
      instance they share. */
  datatype State = State(db: Db, cache: AvailabilityCache)

  /** A service call's answer together with the state it leaves behind. */
  datatype Outcome<T> = Outcome(sys: State, result: Result<T, Error>)

  // ---------------------------------------------------------------- cache key

  const AvailabilityTag: string := "availability"

  function AvailabilityKeyParts(roomId: int, date: Date): seq<string> {
    [AvailabilityTag, IntToString(roomId), IsoFormat(date)]
  }

  /** `get_cache_key("availability", str(room_id), str(date))` */
  function AvailabilityKey(roomId: int, date: Date): string {
    CacheService.GetCacheKey(AvailabilityKeyParts(roomId, date))
  }

  /** Reads back the room and date an availability key was built from. */
  function ParseAvailabilityKey(key: string): Option<(int, Date)> {
    var parts := Split(key, CacheService.KeySeparator);
    if |parts| != 3 || parts[0] != AvailabilityTag then None
    else
      match (ParseInt(parts[1]), ParseIsoDate(parts[2]))
      case (Some(roomId), Some(date)) => Some((roomId, date))
      case _ => None
  }

  lemma NoSeparatorInKeyParts(roomId: int, date: Date)
    ensures SeparatorFree(AvailabilityKeyParts(roomId, date), CacheService.KeySeparator)
  {
    var sep := CacheService.KeySeparator;
    var parts := AvailabilityKeyParts(roomId, date);
    assert sep !in parts[0] by {
      forall i | 0 <= i < |AvailabilityTag| ensures AvailabilityTag[i] != sep {
      }
    }
    assert sep !in parts[1] by {
      if roomId < 0 {
        assert parts[1] == "-" + NatToString(-roomId);
        DigitsHaveNo(NatToString(-roomId), sep);
      } else {
        DigitsHaveNo(NatToString(roomId), sep);
      }
    }
    assert sep !in parts[2] by {
      var iso := IsoParts(date);
      forall i | 0 <= i < 3 ensures sep !in iso[i] {
        DigitsHaveNo(iso[i], sep);
      }
      JoinKeepsOut(iso, DateSeparator, sep);
    }
  }

  /** The availability key names its room and date: parsing it gives both back. */
  lemma AvailabilityKeyRoundTrip(roomId: int, date: Date)
    ensures ParseAvailabilityKey(AvailabilityKey(roomId, date)) == Some((roomId, date))
  {
    NoSeparatorInKeyParts(roomId, date);
    CacheService.CacheKeyRoundTrip(AvailabilityKeyParts(roomId, date));
    IntToStringRoundTrip(roomId);
    IsoRoundTrip(date);
  }

  /** Distinct (room, date) pairs never share a cache entry. */
  lemma AvailabilityKeyInjective(r1: int, d1: Date, r2: int, d2: Date)
    requires AvailabilityKey(r1, d1) == AvailabilityKey(r2, d2)
    ensures r1 == r2 && d1 == d2
  {
    AvailabilityKeyRoundTrip(r1, d1);
    AvailabilityKeyRoundTrip(r2, d2);
  }

  lemma AvailabilityKeyExample()
    ensures AvailabilityKey(5, Date(2025, 2, 19)) == "availability:5:2025-02-19"
  {
    assert IntToString(5) == "5";
    IsoExample();
  }

  lemma IsoExample()
    ensures IsoFormat(Date(2025, 2, 19)) == "2025-02-19"
  {
    YearDigits();
    assert ZeroPad("2", 2) == "02";
    assert NatToString(19) == "19";
  }

  lemma YearDigits()
    ensures NatToString(2025) == "2025"
  {
    assert NatToString(2) == "2";
    assert NatToString(20) == "20";
    assert NatToString(202) == "202";
  }
}
