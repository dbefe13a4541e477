/** The queries of `UserRepository`: e-mail uniqueness tests, the name
    search, and the users with a booking in progress. */
module UserRepository {
  import opened Common
  import opened Seqs
  import opened Text
  import opened Entities
  import BookingRepository

  /** The users whose e-mail is exactly `email`. */
  function EmailMatches(db: Db, email: string): (r: seq<User>)
    ensures forall u :: u in r <==> u in db.users && u.email == email
  {
    Filter(db.users, (u: User) => u.email == email)
  }

  /** `findByEmail`: a derived query returning `Optional`, compared exactly;
      several users with the address are an error. */
  function FindByEmail(db: Db, email: string): (r: Result<Option<User>>)
    ensures r == Ok(None) <==> forall u :: u in db.users ==> u.email != email
    ensures r.Ok? && r.value.Some? ==> r.value.value in db.users && r.value.value.email == email
    ensures r.Err? <==> |EmailMatches(db, email)| > 1
  {
    var rows := EmailMatches(db, email);
    assert rows != [] ==> rows[0] in rows;
    SingleResult(rows)
  }

  /** Whether `findByEmail` finds anybody: a user, or several of them. */
  predicate EmailInUse(db: Db, email: string) {
    FindByEmail(db, email) != Ok(None)
  }

  /** `existsByEmailAndIdNot`: someone other than `userId` uses exactly
      this e-mail. */
  function ExistsByEmailAndIdNot(db: Db, email: string, userId: int): (r: bool)
    ensures r <==> exists u :: u in db.users && u.email == email && u.id != userId
  {
    exists u | u in db.users :: u.email == email && u.id != userId
  }

  /** An e-mail is taken iff another user holds it or the user itself does:
      keeping one's own address is never reported as a clash. */
  lemma EmailTakenByOtherOrSelf(db: Db, email: string, userId: int)
    ensures EmailInUse(db, email) <==>
              ExistsByEmailAndIdNot(db, email, userId) || exists u :: u in db.users && u.id == userId && u.email == email
  {
  }

  /** A user whose address nobody else holds may keep it. */
  lemma OwnEmailIsNoClash(db: Db, me: User)
    requires me in db.users
    requires forall u :: u in db.users && u.email == me.email ==> u.id == me.id
    ensures !ExistsByEmailAndIdNot(db, me.email, me.id)
    ensures EmailInUse(db, me.email)
  {
  }

  /** `existsByEmailIgnoreCase`. */
  function ExistsByEmailIgnoreCase(db: Db, email: string): (r: bool)
    ensures r <==> exists u :: u in db.users && EqualsIgnoreCase(u.email, email)
  {
    exists u | u in db.users :: EqualsIgnoreCase(u.email, email)
  }

  lemma LowerIdempotent(s: string)
    ensures Lower(Lower(s)) == Lower(s)
  {
  }

  /** The case-insensitive test does not depend on the case of the
      argument, and it finds every exact match. */
  lemma IgnoreCaseProperties(db: Db, email: string)
    ensures ExistsByEmailIgnoreCase(db, Lower(email)) == ExistsByEmailIgnoreCase(db, email)
    ensures EmailInUse(db, email) ==> ExistsByEmailIgnoreCase(db, email)
  {
    LowerIdempotent(email);
  }

  /** Two addresses differing only in case: the exact lookup finds nobody
      where the case-insensitive test finds the user. */
  lemma CaseOnlyDifference()
    ensures var db := Db([User(1, "Ann", "ann@x.org")], [], [], [], [], 1, 1, 1, 1);
            ExistsByEmailIgnoreCase(db, "Ann@x.org") && FindByEmail(db, "Ann@x.org") == Ok(None)
  {
    var db := Db([User(1, "Ann", "ann@x.org")], [], [], [], [], 1, 1, 1, 1);
    assert db.users[0] in db.users;
    assert Lower("Ann@x.org") == Lower("ann@x.org");
    assert "ann@x.org" != "Ann@x.org" by {
      assert "ann@x.org"[0] != "Ann@x.org"[0];
    }
  }

  /** `findByNameContainingIgnoreCase`: the derived `Containing` escapes
      the argument, so this is plain case-insensitive substring search. */
  function FindByNameContainingIgnoreCase(db: Db, text: string): (r: seq<User>)
    ensures forall u :: u in r <==> u in db.users && Contains(Lower(u.name), Lower(text))
  {
    Filter(db.users, (u: User) => Contains(Lower(u.name), Lower(text)))
  }

  /** The empty text finds every user. */
  lemma EmptyNameFindsEveryone(db: Db)
    ensures forall u :: u in db.users ==> u in FindByNameContainingIgnoreCase(db, "")
  {
    forall u | u in db.users
      ensures u in FindByNameContainingIgnoreCase(db, "")
    {
      assert OccursAt(Lower(u.name), Lower(""), 0);
    }
  }

  // ---------------------------------------------------------------------
  // Users with a booking in progress
  // ---------------------------------------------------------------------

  /** A booking not yet decided or approved whose interval contains `now`,
      both ends included. */
  predicate IsActive(b: Booking, now: int) {
    (b.status == WAITING || b.status == APPROVED) && b.start <= now && now <= b.end
  }

  predicate HasActiveBooking(db: Db, userId: int, now: int) {
    exists b :: b in db.bookings && b.bookerId == userId && IsActive(b, now)
  }

  /** `findUsersWithActiveBookings` at time `now` (`CURRENT_TIMESTAMP`):
      every user at most once. */
  function FindUsersWithActiveBookings(db: Db, now: int): (r: seq<User>)
    ensures forall u :: u in r <==> u in db.users && HasActiveBooking(db, u.id, now)
    ensures KeysUnique(db.users, UserIdOf) ==> KeysUnique(r, UserIdOf)
  {
    var p := (u: User) => exists b | b in db.bookings :: b.bookerId == u.id && IsActive(b, now);
    assert KeysUnique(db.users, UserIdOf) ==> KeysUnique(Filter(db.users, p), UserIdOf) by {
      if KeysUnique(db.users, UserIdOf) {
        FilterKeysUnique(db.users, p, UserIdOf);
      }
    }
    Filter(db.users, p)
  }

  function UserIdOf(u: User): int { u.id }

  /** "Active" is wider than the booking listing's CURRENT window: it
      includes both ends and WAITING bookings, and leaves out REJECTED and
      CANCELED ones. */
  lemma ActiveVersusCurrent(b: Booking, now: int)
    ensures BookingRepository.IsCurrent(b, now) && (b.status == WAITING || b.status == APPROVED) ==> IsActive(b, now)
    ensures b.start == now <= b.end && b.status == APPROVED ==> IsActive(b, now) && !BookingRepository.IsCurrent(b, now)
  {
  }
}
