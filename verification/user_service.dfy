/** User registration: the validation chain a new user passes (name, email,
    email shape, email uniqueness) and the lookup by id. */
module UserService {
  import opened Wrappers
  import opened Text
  import opened Models

  const At: char := '@'
  const Dot: char := '.'

  /** The service's email shape test: an `@` somewhere, and a `.` in the text
      after the last `@` (`email.split("@")[-1]`). */
  predicate WellShapedEmail(email: string) {
    At in email && Dot in Last(Split(email, At))
  }

  /** The same test stated without splitting: some `@` with no `@` after it
      is followed, later, by a `.`. */
  predicate DotAfterLastAt(email: string) {
    exists i, j :: 0 <= i < j < |email| && email[i] == At && email[j] == Dot && NoAtAfter(email, i)
  }

  predicate NoAtAfter(email: string, i: int) {
    forall m :: 0 <= m < |email| && m > i ==> email[m] != At
  }

  /** A stored user already has exactly this email (the lookup compares the
      text as is). */
  predicate EmailTaken(db: Db, email: string) {
    exists id :: id in db.users && db.users[id].email == email
  }

  /** No two stored users share an email (the column's unique constraint). */
  predicate UniqueEmails(db: Db) {
    forall a, b :: a in db.users && b in db.users && a != b ==> db.users[a].email != db.users[b].email
  }

  /** `create_user`. The first failing check decides the error: an empty or
      whitespace-only name, then an empty or whitespace-only email, then an
      email without the `@ ... .` shape, then an email already registered.
      The name and email are stored as given, not stripped. */
  function CreateUser(st: State, name: string, email: string): (out: Outcome<int>)
    ensures AllSpace(name) ==> out.result == Err(EmptyName)
    ensures !AllSpace(name) && AllSpace(email) ==> out.result == Err(EmptyEmail)
    ensures (!AllSpace(name) && !AllSpace(email) && !DotAfterLastAt(email)) ==> out.result == Err(MalformedEmail)
    ensures (!AllSpace(name) && DotAfterLastAt(email) && EmailTaken(st.db, email)) ==> out.result == Err(DuplicateEmail)
    ensures out.result.Err? ==> out.sys == st
    ensures out.result.Ok? <==> !AllSpace(name) && DotAfterLastAt(email) && !EmailTaken(st.db, email)
    ensures out.result.Ok? ==> var id := out.result.value;
      && id == st.db.nextUserId
      && out.sys.db.users == st.db.users[id := User(name, email)]
      && out.sys.db.nextUserId > id
      && out.sys.db.rooms == st.db.rooms
      && out.sys.db.reservations == st.db.reservations
      && out.sys.db.nextRoomId == st.db.nextRoomId
      && out.sys.db.nextReservationId == st.db.nextReservationId
      && out.sys.cache == st.cache
    ensures WellFormed(st.db) && out.result.Ok? ==> out.result.value !in st.db.users && WellFormed(out.sys.db)
  {
    BlankIffAllSpace(name);
    BlankIffAllSpace(email);
    WellShapedIffDotAfterLastAt(email);
    if Blank(name) then Outcome(st, Err(EmptyName))
    else if Blank(email) then Outcome(st, Err(EmptyEmail))
    else if !WellShapedEmail(email) then Outcome(st, Err(MalformedEmail))
    else if EmailTaken(st.db, email) then Outcome(st, Err(DuplicateEmail))
    else
      var id := st.db.nextUserId;
      var db := st.db.(users := st.db.users[id := User(name, email)], nextUserId := id + 1);
      Outcome(st.(db := db), Ok(id))
  }

  /** `get_user_by_id` */
  function GetUserById(st: State, userId: int): (r: Result<User, Error>)
    ensures r.Err? <==> userId !in st.db.users
    ensures r.Err? ==> r.error == UserNotFound
    ensures r.Ok? ==> r.value == st.db.users[userId]
  {
    if userId in st.db.users then Ok(st.db.users[userId]) else Err(UserNotFound)
  }

  // ---------------------------------------------------------------- properties

  /** Splitting on `@` and checking the last piece for a `.` is the same as
      asking for a `.` after the last `@`. */
  lemma WellShapedIffDotAfterLastAt(email: string)
    ensures WellShapedEmail(email) <==> DotAfterLastAt(email)
  {
    var k := LastIndex(email, At);
    LastSegment(email, At);
    var tail := email[k + 1..];
    if k < 0 {
      assert At !in email;
      assert !DotAfterLastAt(email);
    } else {
      assert At in email;
      assert NoAtAfter(email, k);
      if Dot in tail {
        var t :| 0 <= t < |tail| && tail[t] == Dot;
        assert email[k + 1 + t] == Dot;
        assert DotAfterLastAt(email);
      }
      if DotAfterLastAt(email) {
        var i, j :| 0 <= i < j < |email| && email[i] == At && email[j] == Dot && NoAtAfter(email, i);
        assert i == k;
        assert tail[j - k - 1] == Dot;
      }
    }
  }

  /** Registration keeps emails unique: a second user with a taken email is
      always refused. */
  lemma CreateUserKeepsUniqueEmails(st: State, name: string, email: string)
    requires UniqueEmails(st.db) && WellFormed(st.db)
    ensures UniqueEmails(CreateUser(st, name, email).sys.db)
  {
  }

  /** A registered user is found under the id the registration returned, and
      registering the same email again is refused as a duplicate. */
  lemma CreateUserThenGet(st: State, name: string, email: string, otherName: string)
    requires WellFormed(st.db)
    requires !AllSpace(otherName)
    ensures var out := CreateUser(st, name, email);
      out.result.Ok? ==>
        && GetUserById(out.sys, out.result.value) == Ok(User(name, email))
        && CreateUser(out.sys, otherName, email).result == Err(DuplicateEmail)
  {
    var out := CreateUser(st, name, email);
    if out.result.Ok? {
      assert out.sys.db.users[out.result.value].email == email;
    }
  }

  /** An `@` with no later `@`, followed by a `.`, makes an email well shaped. */
  lemma WellShapedByWitness(email: string, i: int, j: int)
    requires 0 <= i < j < |email| && email[i] == At && email[j] == Dot && NoAtAfter(email, i)
    ensures WellShapedEmail(email)
  {
    WellShapedIffDotAfterLastAt(email);
  }

  /** Without a `.` after the last `@`, an email is refused. */
  lemma MalformedWithoutDot(email: string, i: int)
    requires 0 <= i < |email| && email[i] == At && NoAtAfter(email, i)
    requires forall j :: i < j < |email| ==> email[j] != Dot
    ensures !WellShapedEmail(email)
  {
    WellShapedIffDotAfterLastAt(email);
  }

  lemma AcceptedEmailExample()
    ensures WellShapedEmail("ana@example.com")
  {
    WellShapedByWitness("ana@example.com", 3, 11);
  }

  lemma NoDotAfterAtExample()
    ensures !WellShapedEmail("ana.lopez@example")
  {
    MalformedWithoutDot("ana.lopez@example", 9);
  }

  /** Without any `@`, an email is refused. */
  lemma MalformedWithoutAt(email: string)
    requires forall i :: 0 <= i < |email| ==> email[i] != At
    ensures !WellShapedEmail(email)
  {
  }

  lemma DotBeforeLastAtExample()
    ensures !WellShapedEmail("a@b.c@d")
  {
    MalformedWithoutDot("a@b.c@d", 5);
  }
}
