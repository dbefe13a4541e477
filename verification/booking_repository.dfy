/** The queries of `BookingRepository`: which bookings count as current, past
    and future, the overlap test, the last and next approved booking of an
    item (single and batch), comment eligibility, and the owner's current
    booking. Each query is a pure function of the database and of `now`. */
module BookingRepository {
  import opened Common
  import opened Seqs
  import opened Entities

  // ---------------------------------------------------------------------
  // Listing queries: a scope (whose bookings) and a window (which ones)
  // ---------------------------------------------------------------------

  /** Whose bookings a listing query returns: those made by a booker, or
      those on the items of an owner (`b.item.owner.id`, an inner join). */
  datatype Scope = ByBooker(bookerId: int) | ByOwner(ownerId: int)

  /** Which of them: all, those of a time window, or those with a status. */
  datatype Window = AnyTime | Current | Past | Future | WithStatus(status: BookingStatus)

  /** Both bounds strict, for the booker and the owner query alike. */
  predicate IsCurrent(b: Booking, now: int) {
    b.start < now && b.end > now
  }

  predicate IsPast(b: Booking, now: int) {
    b.end < now
  }

  predicate IsFuture(b: Booking, now: int) {
    b.start > now
  }

  predicate InScope(db: Db, b: Booking, scope: Scope) {
    match scope
    case ByBooker(u) => b.bookerId == u
    case ByOwner(u) => OwnsItem(db, u, b.itemId)
  }

  predicate InWindow(b: Booking, window: Window, now: int) {
    match window
    case AnyTime => true
    case Current => IsCurrent(b, now)
    case Past => IsPast(b, now)
    case Future => IsFuture(b, now)
    case WithStatus(s) => b.status == s
  }

  /** The rows of one listing query (`findByBookerId`,
      `findCurrentBookingsByOwner`, ...), before ordering and paging. */
  function Select(db: Db, scope: Scope, window: Window, now: int): (r: seq<Booking>)
    ensures forall b :: b in r <==> b in db.bookings && InScope(db, b, scope) && InWindow(b, window, now)
    ensures forall b :: InScope(db, b, scope) && InWindow(b, window, now) ==>
              multiset(r)[b] == multiset(db.bookings)[b]
    ensures multiset(r) <= multiset(db.bookings)
  {
    var p := (b: Booking) => InScope(db, b, scope) && InWindow(b, window, now);
    assert forall b :: p(b) ==> multiset(Filter(db.bookings, p))[b] == multiset(db.bookings)[b] by {
      forall b | p(b)
        ensures multiset(Filter(db.bookings, p))[b] == multiset(db.bookings)[b]
      {
        FilterCount(db.bookings, p, b);
      }
    }
    Filter(db.bookings, p)
  }

  /** The three time windows never overlap. */
  lemma WindowsDisjoint(b: Booking, now: int)
    ensures !(IsCurrent(b, now) && IsPast(b, now))
    ensures !(IsCurrent(b, now) && IsFuture(b, now))
    ensures !(IsPast(b, now) && IsFuture(b, now)) || b.end < b.start
  {
  }

  /** For a well-formed booking the three windows leave out exactly two
      instants: `now == start` (neither current nor future) and
      `now == end` (neither current nor past). */
  lemma WindowsCoverAllButBounds(b: Booking, now: int)
    requires b.start < b.end
    ensures IsCurrent(b, now) || IsPast(b, now) || IsFuture(b, now) <==> now != b.start && now != b.end
  {
  }

  /** A booking that starts exactly now is listed under neither CURRENT nor
      FUTURE nor PAST. */
  lemma StartingNowIsInNoWindow(db: Db, scope: Scope, b: Booking, now: int)
    requires b in db.bookings && InScope(db, b, scope)
    requires b.start == now < b.end
    ensures b !in Select(db, scope, Current, now)
    ensures b !in Select(db, scope, Future, now)
    ensures b !in Select(db, scope, Past, now)
    ensures b in Select(db, scope, AnyTime, now)
  {
    assert !InWindow(b, Current, now) && !InWindow(b, Future, now) && !InWindow(b, Past, now);
    assert InWindow(b, AnyTime, now);
  }

  /** `findByItemIdOrderByStartDesc` before ordering: the bookings of one item. */
  function ForItem(db: Db, itemId: int): (r: seq<Booking>)
    ensures forall b :: b in r <==> b in db.bookings && b.itemId == itemId
  {
    Filter(db.bookings, (b: Booking) => b.itemId == itemId)
  }

  // ---------------------------------------------------------------------
  // Overlap
  // ---------------------------------------------------------------------

  /** The three disjuncts of `existsOverlappingBooking`, for one row. */
  predicate OverlapDisjuncts(b: Booking, start: int, end: int) {
    || (b.start <= start && b.end >= start)
    || (b.start <= end && b.end >= end)
    || (b.start >= start && b.end <= end)
  }

  /** For well-formed intervals the disjuncts are the closed-interval
      intersection test; touching intervals (`b.end == start`) overlap. */
  lemma OverlapIsClosedIntersection(b: Booking, start: int, end: int)
    requires start <= end && b.start <= b.end
    ensures OverlapDisjuncts(b, start, end) <==> b.start <= end && b.end >= start
  {
  }

  /** `existsOverlappingBooking(itemId, start, end)`: some APPROVED booking
      of that item meets the closed interval `[start, end]`. */
  function ExistsOverlappingBooking(db: Db, itemId: int, start: int, end: int): (r: bool)
    ensures r ==> exists b :: b in db.bookings && b.itemId == itemId && b.status == APPROVED
    ensures start <= end && (forall b :: b in db.bookings ==> b.start <= b.end) ==>
              (r <==> exists b :: b in db.bookings && b.itemId == itemId && b.status == APPROVED
                                   && b.start <= end && b.end >= start)
  {
    var hit := exists b | b in db.bookings :: b.itemId == itemId && b.status == APPROVED && OverlapDisjuncts(b, start, end);
    assert start <= end && (forall b :: b in db.bookings ==> b.start <= b.end) ==>
             forall b :: b in db.bookings ==> (OverlapDisjuncts(b, start, end) <==> b.start <= end && b.end >= start) by {
      if start <= end && (forall b :: b in db.bookings ==> b.start <= b.end) {
        forall b | b in db.bookings
          ensures OverlapDisjuncts(b, start, end) <==> b.start <= end && b.end >= start
        {
          OverlapIsClosedIntersection(b, start, end);
        }
      }
    }
    hit
  }

  /** Bookings that are not APPROVED never make an interval overlap. */
  lemma OverlapIgnoresUnapproved(db: Db, extra: Booking, itemId: int, start: int, end: int)
    requires extra.status != APPROVED
    ensures ExistsOverlappingBooking(db.(bookings := db.bookings + [extra]), itemId, start, end)
            == ExistsOverlappingBooking(db, itemId, start, end)
  {
    var db' := db.(bookings := db.bookings + [extra]);
    if ExistsOverlappingBooking(db', itemId, start, end) {
      var b :| b in db'.bookings && b.itemId == itemId && b.status == APPROVED && OverlapDisjuncts(b, start, end);
      assert b in db.bookings;
    }
    if ExistsOverlappingBooking(db, itemId, start, end) {
      var b :| b in db.bookings && b.itemId == itemId && b.status == APPROVED && OverlapDisjuncts(b, start, end);
      assert b in db'.bookings;
    }
  }

  // ---------------------------------------------------------------------
  // Single-result queries
  // ---------------------------------------------------------------------

  predicate IsLastCandidate(b: Booking, itemId: int, now: int) {
    b.itemId == itemId && b.end < now && b.status == APPROVED
  }

  predicate IsNextCandidate(b: Booking, itemId: int, now: int) {
    b.itemId == itemId && b.start > now && b.status == APPROVED
  }

  function LastCandidates(db: Db, itemId: int, now: int): (r: seq<Booking>)
    ensures forall b :: b in r <==> b in db.bookings && IsLastCandidate(b, itemId, now)
  {
    Filter(db.bookings, (b: Booking) => IsLastCandidate(b, itemId, now))
  }

  function NextCandidates(db: Db, itemId: int, now: int): (r: seq<Booking>)
    ensures forall b :: b in r <==> b in db.bookings && IsNextCandidate(b, itemId, now)
  {
    Filter(db.bookings, (b: Booking) => IsNextCandidate(b, itemId, now))
  }

  /** `findFirstByItemIdAndEndBeforeOrderByEndDesc` as written: the `@Query`
      replaces the derived query, so "First" does not limit the rows, and a
      second past APPROVED booking of the item is an error. */
  function FindLastBookingAsWritten(db: Db, itemId: int, now: int): (r: Result<Option<Booking>>)
    ensures r == Ok(None) <==> forall b :: b in db.bookings ==> !IsLastCandidate(b, itemId, now)
    ensures r.Ok? && r.value.Some? ==> r.value.value in db.bookings && IsLastCandidate(r.value.value, itemId, now)
    ensures r.Err? <==> |LastCandidates(db, itemId, now)| > 1
  {
    var rows := LastCandidates(db, itemId, now);
    assert rows != [] ==> rows[0] in rows;
    SingleResult(rows)
  }

  /** `findFirstByItemIdAndStartAfterOrderByStartAsc` as written. */
  function FindNextBookingAsWritten(db: Db, itemId: int, now: int): (r: Result<Option<Booking>>)
    ensures r == Ok(None) <==> forall b :: b in db.bookings ==> !IsNextCandidate(b, itemId, now)
    ensures r.Ok? && r.value.Some? ==> r.value.value in db.bookings && IsNextCandidate(r.value.value, itemId, now)
    ensures r.Err? <==> |NextCandidates(db, itemId, now)| > 1
  {
    var rows := NextCandidates(db, itemId, now);
    assert rows != [] ==> rows[0] in rows;
    SingleResult(rows)
  }

  /** The last booking of an item: the APPROVED booking that ended before
      `now` with the latest end (the first row of `ORDER BY b.end DESC`). */
  function LastBooking(db: Db, itemId: int, now: int): (r: Option<Booking>)
    ensures r.None? <==> forall b :: b in db.bookings ==> !IsLastCandidate(b, itemId, now)
    ensures r.Some? ==> r.value in db.bookings && IsLastCandidate(r.value, itemId, now)
    ensures r.Some? ==> forall b :: b in db.bookings && IsLastCandidate(b, itemId, now) ==> b.end <= r.value.end
  {
    var rows := LastCandidates(db, itemId, now);
    assert rows != [] ==> rows[0] in rows;
    ArgMax(rows, EndOf)
  }

  /** The next booking of an item: the APPROVED booking that starts after
      `now` with the earliest start (the first row of `ORDER BY b.start ASC`). */
  function NextBooking(db: Db, itemId: int, now: int): (r: Option<Booking>)
    ensures r.None? <==> forall b :: b in db.bookings ==> !IsNextCandidate(b, itemId, now)
    ensures r.Some? ==> r.value in db.bookings && IsNextCandidate(r.value, itemId, now)
    ensures r.Some? ==> forall b :: b in db.bookings && IsNextCandidate(b, itemId, now) ==> r.value.start <= b.start
  {
    var rows := NextCandidates(db, itemId, now);
    assert rows != [] ==> rows[0] in rows;
    ArgMin(rows, StartOf)
  }

  /** Where the query as written returns a row, it is the intended one. */
  lemma LastAsWrittenAgreesWhenUnique(db: Db, itemId: int, now: int)
    requires FindLastBookingAsWritten(db, itemId, now).Ok?
    ensures FindLastBookingAsWritten(db, itemId, now) == Ok(LastBooking(db, itemId, now))
  {
    var rows := LastCandidates(db, itemId, now);
    if |rows| == 1 {
      var r := LastBooking(db, itemId, now);
      assert r.value in rows;
      assert rows == [rows[0]];
    }
  }

  lemma NextAsWrittenAgreesWhenUnique(db: Db, itemId: int, now: int)
    requires FindNextBookingAsWritten(db, itemId, now).Ok?
    ensures FindNextBookingAsWritten(db, itemId, now) == Ok(NextBooking(db, itemId, now))
  {
    var rows := NextCandidates(db, itemId, now);
    if |rows| == 1 {
      var r := NextBooking(db, itemId, now);
      assert r.value in rows;
      assert rows == [rows[0]];
    }
  }

  /** Two APPROVED bookings of item 1, both over at time 100. */
  function TwoPastRentals(): Db {
    Db([], [], [Booking(1, 10, 50, 1, 7, APPROVED), Booking(2, 5, 20, 1, 7, APPROVED)],
       [], [], 3, 1, 2, 1)
  }

  /** An item rented twice in the past: the query as written fails where the
      latest rental (ended at 50) is the evident answer. */
  lemma LastAsWrittenFailsOnTwoRentals()
    ensures FindLastBookingAsWritten(TwoPastRentals(), 1, 100) == Err(NonUniqueResult)
    ensures LastBooking(TwoPastRentals(), 1, 100) == Some(Booking(1, 10, 50, 1, 7, APPROVED))
  {
    var db := TwoPastRentals();
    var rows := LastCandidates(db, 1, 100);
    assert db.bookings[0] in rows && db.bookings[1] in rows;
    TwoMembers(rows, db.bookings[0], db.bookings[1]);
    LatestOfTwoPastRentals();
  }

  /** Of the two past rentals, the one that ended last is the last booking. */
  lemma LatestOfTwoPastRentals()
    ensures LastBooking(TwoPastRentals(), 1, 100) == Some(Booking(1, 10, 50, 1, 7, APPROVED))
  {
    var db := TwoPastRentals();
    var r := LastBooking(db, 1, 100);
    assert IsLastCandidate(db.bookings[0], 1, 100);
    assert r.Some? && r.value in db.bookings && r.value.end >= 50;
  }

  /** The example databases keep their keys unique and below the counters. */
  lemma ExampleDatabasesAreValid()
    ensures Valid(TwoPastRentals()) && Valid(TwoFutureRentals())
  {
    var p := TwoPastRentals().bookings;
    var f := TwoFutureRentals().bookings;
    assert |p| == 2 && p[0].id == 1 && p[1].id == 2;
    assert |f| == 2 && f[0].id == 1 && f[1].id == 2;
  }

  /** Two APPROVED bookings of item 1, both still ahead at time 0. */
  function TwoFutureRentals(): Db {
    Db([], [], [Booking(1, 30, 40, 1, 7, APPROVED), Booking(2, 10, 20, 1, 8, APPROVED)],
       [], [], 3, 1, 2, 1)
  }

  lemma NextAsWrittenFailsOnTwoRentals()
    ensures FindNextBookingAsWritten(TwoFutureRentals(), 1, 0) == Err(NonUniqueResult)
    ensures NextBooking(TwoFutureRentals(), 1, 0) == Some(Booking(2, 10, 20, 1, 8, APPROVED))
  {
    var db := TwoFutureRentals();
    var rows := NextCandidates(db, 1, 0);
    assert db.bookings[0] in rows && db.bookings[1] in rows;
    TwoMembers(rows, db.bookings[0], db.bookings[1]);
    EarliestOfTwoFutureRentals();
  }

  /** Of the two future rentals, the one that starts first is the next booking. */
  lemma EarliestOfTwoFutureRentals()
    ensures NextBooking(TwoFutureRentals(), 1, 0) == Some(Booking(2, 10, 20, 1, 8, APPROVED))
  {
    var db := TwoFutureRentals();
    var r := NextBooking(db, 1, 0);
    assert IsNextCandidate(db.bookings[1], 1, 0);
    assert r.Some? && r.value in db.bookings && r.value.start <= 10;
  }

  // ---------------------------------------------------------------------
  // Batch last / next: one row per item, chosen by booking id
  // ---------------------------------------------------------------------

  predicate IsLastBatchCandidate(b: Booking, itemIds: seq<int>, now: int) {
    b.itemId in itemIds && b.end < now && b.status == APPROVED
  }

  predicate IsNextBatchCandidate(b: Booking, itemIds: seq<int>, now: int) {
    b.itemId in itemIds && b.start > now && b.status == APPROVED
  }

  /** The sub-query `SELECT MAX(b2.id) ... GROUP BY b2.item.id`. */
  function MaxIdPerItem(db: Db, itemIds: seq<int>, now: int): set<int> {
    set b | b in db.bookings && IsLastBatchCandidate(b, itemIds, now)
              && (forall c | c in db.bookings :: IsLastBatchCandidate(c, itemIds, now) && c.itemId == b.itemId ==> c.id <= b.id)
          :: b.id
  }

  /** The sub-query `SELECT MIN(b2.id) ... GROUP BY b2.item.id`. */
  function MinIdPerItem(db: Db, itemIds: seq<int>, now: int): set<int> {
    set b | b in db.bookings && IsNextBatchCandidate(b, itemIds, now)
              && (forall c | c in db.bookings :: IsNextBatchCandidate(c, itemIds, now) && c.itemId == b.itemId ==> b.id <= c.id)
          :: b.id
  }

  /** `findLastBookingsForItems`: per item, the qualifying booking with the
      greatest id (not the latest end). */
  function FindLastBookingsForItems(db: Db, itemIds: seq<int>, now: int): (r: seq<Booking>)
    ensures forall b :: b in r <==> b in db.bookings && IsLastBatchCandidate(b, itemIds, now) && b.id in MaxIdPerItem(db, itemIds, now)
  {
    Filter(db.bookings, (b: Booking) => IsLastBatchCandidate(b, itemIds, now) && b.id in MaxIdPerItem(db, itemIds, now))
  }

  lemma LastBatchPicksGreatestId(db: Db, itemIds: seq<int>, now: int)
    requires Valid(db)
    ensures forall b, c :: b in FindLastBookingsForItems(db, itemIds, now) && c in db.bookings && IsLastBatchCandidate(c, itemIds, now) && c.itemId == b.itemId ==> c.id <= b.id
  {
    var r := FindLastBookingsForItems(db, itemIds, now);
    forall b, c | b in r && c in db.bookings && IsLastBatchCandidate(c, itemIds, now) && c.itemId == b.itemId
      ensures c.id <= b.id
    {
      var w :| w in db.bookings && IsLastBatchCandidate(w, itemIds, now)
               && (forall c | c in db.bookings :: IsLastBatchCandidate(c, itemIds, now) && c.itemId == w.itemId ==> c.id <= w.id)
               && w.id == b.id;
      SameIdSameBooking(db, w, b);
    }
  }

  lemma LastBatchOnePerItem(db: Db, itemIds: seq<int>, now: int)
    requires Valid(db)
    ensures var r := FindLastBookingsForItems(db, itemIds, now);
            forall i, j :: 0 <= i < j < |r| ==> r[i].itemId != r[j].itemId
  {
    var r := FindLastBookingsForItems(db, itemIds, now);
    assert KeysUnique(db.bookings, BookingIdOf);
    FilterKeysUnique(db.bookings, (b: Booking) => IsLastBatchCandidate(b, itemIds, now) && b.id in MaxIdPerItem(db, itemIds, now), BookingIdOf);
    LastBatchPicksGreatestId(db, itemIds, now);
    forall i, j | 0 <= i < j < |r|
      ensures r[i].itemId != r[j].itemId
    {
      assert r[i] in r && r[j] in r;
      assert BookingIdOf(r[i]) != BookingIdOf(r[j]);
    }
  }

  /** `findNextBookingsForItems`: per item, the qualifying booking with the
      least id (not the earliest start). */
  function FindNextBookingsForItems(db: Db, itemIds: seq<int>, now: int): (r: seq<Booking>)
    ensures forall b :: b in r <==> b in db.bookings && IsNextBatchCandidate(b, itemIds, now) && b.id in MinIdPerItem(db, itemIds, now)
  {
    Filter(db.bookings, (b: Booking) => IsNextBatchCandidate(b, itemIds, now) && b.id in MinIdPerItem(db, itemIds, now))
  }

  lemma NextBatchPicksLeastId(db: Db, itemIds: seq<int>, now: int)
    requires Valid(db)
    ensures forall b, c :: b in FindNextBookingsForItems(db, itemIds, now) && c in db.bookings && IsNextBatchCandidate(c, itemIds, now) && c.itemId == b.itemId ==> b.id <= c.id
  {
    var r := FindNextBookingsForItems(db, itemIds, now);
    forall b, c | b in r && c in db.bookings && IsNextBatchCandidate(c, itemIds, now) && c.itemId == b.itemId
      ensures b.id <= c.id
    {
      var w :| w in db.bookings && IsNextBatchCandidate(w, itemIds, now)
               && (forall c | c in db.bookings :: IsNextBatchCandidate(c, itemIds, now) && c.itemId == w.itemId ==> w.id <= c.id)
               && w.id == b.id;
      SameIdSameBooking(db, w, b);
    }
  }

  lemma NextBatchOnePerItem(db: Db, itemIds: seq<int>, now: int)
    requires Valid(db)
    ensures var r := FindNextBookingsForItems(db, itemIds, now);
            forall i, j :: 0 <= i < j < |r| ==> r[i].itemId != r[j].itemId
  {
    var r := FindNextBookingsForItems(db, itemIds, now);
    assert KeysUnique(db.bookings, BookingIdOf);
    FilterKeysUnique(db.bookings, (b: Booking) => IsNextBatchCandidate(b, itemIds, now) && b.id in MinIdPerItem(db, itemIds, now), BookingIdOf);
    NextBatchPicksLeastId(db, itemIds, now);
    forall i, j | 0 <= i < j < |r|
      ensures r[i].itemId != r[j].itemId
    {
      assert r[i] in r && r[j] in r;
      assert BookingIdOf(r[i]) != BookingIdOf(r[j]);
    }
  }

  /** Booking ids are primary keys. */
  lemma SameIdSameBooking(db: Db, a: Booking, b: Booking)
    requires Valid(db) && a in db.bookings && b in db.bookings && a.id == b.id
    ensures a == b
  {
    var i :| 0 <= i < |db.bookings| && db.bookings[i] == a;
    var j :| 0 <= j < |db.bookings| && db.bookings[j] == b;
    assert !(i < j);
    assert !(j < i);
  }

  /** Every requested item that has a qualifying booking gets a row. */
  lemma LastBatchCoversItems(db: Db, itemIds: seq<int>, now: int, b: Booking)
    requires Valid(db)
    requires b in db.bookings && IsLastBatchCandidate(b, itemIds, now)
    ensures exists c :: c in FindLastBookingsForItems(db, itemIds, now) && c.itemId == b.itemId
  {
    var group := Filter(db.bookings, (c: Booking) => IsLastBatchCandidate(c, itemIds, now) && c.itemId == b.itemId);
    assert b in group;
    var m := ArgMax(group, BookingIdOf).value;
    assert m.id in MaxIdPerItem(db, itemIds, now);
    assert m in FindLastBookingsForItems(db, itemIds, now);
  }

  lemma NextBatchCoversItems(db: Db, itemIds: seq<int>, now: int, b: Booking)
    requires Valid(db)
    requires b in db.bookings && IsNextBatchCandidate(b, itemIds, now)
    ensures exists c :: c in FindNextBookingsForItems(db, itemIds, now) && c.itemId == b.itemId
  {
    var group := Filter(db.bookings, (c: Booking) => IsNextBatchCandidate(c, itemIds, now) && c.itemId == b.itemId);
    assert b in group;
    var m := ArgMin(group, BookingIdOf).value;
    assert m.id in MinIdPerItem(db, itemIds, now);
    assert m in FindNextBookingsForItems(db, itemIds, now);
  }

  /** The batch query picks by id, so it can disagree with the single-item
      query: booking 2 was created later but ended earlier, and the batch
      returns it where `LastBooking` returns booking 1
      (`LastAsWrittenFailsOnTwoRentals`). */
  lemma BatchLastMayDifferFromLast()
    ensures Booking(2, 5, 20, 1, 7, APPROVED) in FindLastBookingsForItems(TwoPastRentals(), [1], 100)
    ensures Booking(1, 10, 50, 1, 7, APPROVED) !in FindLastBookingsForItems(TwoPastRentals(), [1], 100)
  {
    MaxIdOfTwoPastRentals();
  }

  lemma MaxIdOfTwoPastRentals()
    ensures 2 in MaxIdPerItem(TwoPastRentals(), [1], 100)
    ensures 1 !in MaxIdPerItem(TwoPastRentals(), [1], 100)
  {
    var db := TwoPastRentals();
    var b1 := db.bookings[0];
    var b2 := db.bookings[1];
    assert b2.id in MaxIdPerItem(db, [1], 100);
    assert b1.id !in MaxIdPerItem(db, [1], 100) by {
      assert IsLastBatchCandidate(b2, [1], 100) && b2.itemId == b1.itemId && !(b2.id <= b1.id);
    }
  }

  // ---------------------------------------------------------------------
  // Comments and the owner's current booking
  // ---------------------------------------------------------------------

  /** `findByItemIdAndBookerIdAndStatusAndEndBefore`. */
  function FindFinishedRentals(db: Db, itemId: int, bookerId: int, status: BookingStatus, end: int): (r: seq<Booking>)
    ensures forall b :: b in r <==> b in db.bookings && b.itemId == itemId && b.bookerId == bookerId
                                    && b.status == status && b.end < end
  {
    Filter(db.bookings, (b: Booking) => b.itemId == itemId && b.bookerId == bookerId && b.status == status && b.end < end)
  }

  /** `existsByItemIdAndBookerIdAndEndBefore`: the user has an APPROVED
      booking of the item that ended before `now`. */
  function CanComment(db: Db, itemId: int, userId: int, now: int): (r: bool)
    ensures r <==> exists b :: b in db.bookings && b.itemId == itemId && b.bookerId == userId
                              && b.status == APPROVED && b.end < now
  {
    exists b | b in db.bookings :: b.itemId == itemId && b.bookerId == userId && b.status == APPROVED && b.end < now
  }

  /** The count query and the list query agree on who may comment. */
  lemma CanCommentIffFinishedRental(db: Db, itemId: int, userId: int, now: int)
    ensures CanComment(db, itemId, userId, now) <==> FindFinishedRentals(db, itemId, userId, APPROVED, now) != []
  {
    var rows := FindFinishedRentals(db, itemId, userId, APPROVED, now);
    if rows != [] {
      assert rows[0] in rows;
    }
  }

  /** Both bounds inclusive, APPROVED only, and the item must be the owner's. */
  predicate IsOwnersCurrent(db: Db, b: Booking, ownerId: int, itemId: int, now: int) {
    && OwnsItem(db, ownerId, b.itemId)
    && b.itemId == itemId
    && b.status == APPROVED
    && b.start <= now
    && b.end >= now
  }

  /** `findCurrentBookingForItemByOwner`: an `Optional` result, so several
      matching rows are an error. */
  function FindCurrentBookingForItemByOwner(db: Db, ownerId: int, itemId: int, now: int): (r: Result<Option<Booking>>)
    ensures r == Ok(None) <==> forall b :: b in db.bookings ==> !IsOwnersCurrent(db, b, ownerId, itemId, now)
    ensures r.Ok? && r.value.Some? ==> r.value.value in db.bookings && IsOwnersCurrent(db, r.value.value, ownerId, itemId, now)
    ensures r.Ok? && r.value.Some? ==> r.value.value.start <= now <= r.value.value.end
    ensures OwnerOf(db, itemId) != Some(ownerId) ==> r == Ok(None)
    ensures r.Err? <==> |OwnersCurrentCandidates(db, ownerId, itemId, now)| > 1
  {
    var rows := OwnersCurrentCandidates(db, ownerId, itemId, now);
    assert rows != [] ==> rows[0] in rows;
    SingleResult(rows)
  }

  /** The rows `findCurrentBookingForItemByOwner` selects. */
  function OwnersCurrentCandidates(db: Db, ownerId: int, itemId: int, now: int): (r: seq<Booking>)
    ensures forall b :: b in r <==> b in db.bookings && IsOwnersCurrent(db, b, ownerId, itemId, now)
  {
    Filter(db.bookings, (b: Booking) => IsOwnersCurrent(db, b, ownerId, itemId, now))
  }

  /** For the item's owner and well-formed bookings, the owner's current
      booking exists iff the overlap query reports a booking meeting the
      one-instant interval [now, now]. */
  lemma {:induction false} OwnersCurrentIsOverlapAtNow(db: Db, ownerId: int, itemId: int, now: int)
    requires OwnerOf(db, itemId) == Some(ownerId)
    requires forall b :: b in db.bookings ==> b.start <= b.end
    ensures FindCurrentBookingForItemByOwner(db, ownerId, itemId, now) != Ok(None)
            <==> ExistsOverlappingBooking(db, itemId, now, now)
  {
    if ExistsOverlappingBooking(db, itemId, now, now) {
      var b :| b in db.bookings && b.itemId == itemId && b.status == APPROVED && b.start <= now && b.end >= now;
      assert IsOwnersCurrent(db, b, ownerId, itemId, now);
    }
  }
}
