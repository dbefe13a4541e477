/** `BookingServiceImpl`: creating a booking, approving or rejecting it,
    reading one booking and listing the bookings of a booker or of an
    owner. Every operation is a function of the database (and of `now`)
    returning the new database or the error the first failing check
    raises; a failed operation writes nothing. */
module BookingService {
  import opened Common
  import opened Seqs
  import opened Entities
  import opened BookingRepository
  import opened BookingRequests
  import opened Paging

  // ---------------------------------------------------------------------
  // Lookups that throw NotFound
  // ---------------------------------------------------------------------

  /** The position of the booking in the table, so that it can be saved back. */
  function GetBookingOrThrow(db: Db, bookingId: int): (r: Result<nat>)
    ensures r.Ok? <==> exists b :: b in db.bookings && b.id == bookingId
    ensures r.Ok? ==> r.value < |db.bookings| && db.bookings[r.value].id == bookingId
    ensures r.Err? ==> r.error == NotFound(NoSuchBooking)
  {
    match FindBookingIndex(db, bookingId)
    case None => Err(NotFound(NoSuchBooking))
    case Some(i) => assert db.bookings[i] in db.bookings; Ok(i)
  }

  // ---------------------------------------------------------------------
  // create
  // ---------------------------------------------------------------------

  /** `validateBookingCreation`: availability, then self-booking (reported
      as NotFound), then the order of the two instants. The overlap query
      is not consulted. */
  function ValidateBookingCreation(booker: User, item: Item, start: int, end: int): (r: Outcome)
    ensures r == Pass <==> item.available && booker.id != item.ownerId && start < end
    ensures !item.available ==> r == Fail(BadRequest(ItemUnavailable))
    ensures item.available && booker.id == item.ownerId ==> r == Fail(NotFound(OwnItem))
    ensures item.available && booker.id != item.ownerId && end < start ==> r == Fail(BadRequest(EndBeforeStart))
    ensures item.available && booker.id != item.ownerId && end == start ==> r == Fail(BadRequest(EndEqualsStart))
  {
    if !item.available then Fail(BadRequest(ItemUnavailable))
    else if booker.id == item.ownerId then Fail(NotFound(OwnItem))
    else if end < start then Fail(BadRequest(EndBeforeStart))
    else if end == start then Fail(BadRequest(EndEqualsStart))
    else Pass
  }

  /** `db'` is `db` with the one row `b` appended to the bookings and the
      booking key counter advanced past it; no other table changes. */
  predicate AppendsBooking(db: Db, db': Db, b: Booking) {
    && |db'.bookings| == |db.bookings| + 1
    && db'.bookings[..|db.bookings|] == db.bookings
    && db'.bookings[|db.bookings|] == b
    && db'.nextBookingId == db.nextBookingId + 1
    && db'.users == db.users && db'.items == db.items
    && db'.comments == db.comments && db'.requests == db.requests
    && db'.nextCommentId == db.nextCommentId && db'.nextItemId == db.nextItemId
    && db'.nextRequestId == db.nextRequestId
  }

  /** `create` for a body that passed bean validation: user, then item,
      then `validateBookingCreation`; on success one WAITING booking with a
      fresh id is saved. */
  function Create(db: Db, userId: int, itemId: int, start: int, end: int): (r: Result<(Db, Booking)>)
    ensures !UserExists(db, userId) ==> r == Err(NotFound(NoSuchUser))
    ensures UserExists(db, userId) && FindItem(db, itemId).None? ==> r == Err(NotFound(NoSuchItem))
    ensures UserExists(db, userId) && FindItem(db, itemId).Some? ==>
              var v := ValidateBookingCreation(FindUser(db, userId).value, FindItem(db, itemId).value, start, end);
              v.Fail? ==> r == Err(v.error)
    ensures r.Ok? <==> UserExists(db, userId) && FindItem(db, itemId).Some?
                       && FindItem(db, itemId).value.available
                       && FindItem(db, itemId).value.ownerId != userId
                       && start < end
    ensures r.Ok? ==> var (db', b) := r.value;
                      && AppendsBooking(db, db', b)
                      && b.id == db.nextBookingId && b.status == WAITING
                      && b.start == start && b.end == end && b.itemId == itemId && b.bookerId == userId
  {
    var booker :- GetUserOrThrow(db, userId);
    var item :- GetItemOrThrow(db, itemId);
    match ValidateBookingCreation(booker, item, start, end)
    case Fail(e) => Err(e)
    case Pass =>
      var b := Booking(db.nextBookingId, start, end, item.id, booker.id, WAITING);
      var db' := db.(bookings := db.bookings + [b], nextBookingId := db.nextBookingId + 1);
      assert db'.bookings[..|db.bookings|] == db.bookings;
      Ok((db', b))
  }

  /** The HTTP entry point: bean validation of the body, then `create`. */
  function Submit(db: Db, userId: int, dto: BookingDto, now: int): (r: Result<(Db, Booking)>)
    ensures Violations(dto, now) != {} ==> r == Err(Validation(InvalidBookingRequest))
    ensures Violations(dto, now) == {} ==> r == Create(db, userId, dto.itemId.value, dto.start.value, dto.end.value)
  {
    ValidIff(dto, now);
    if Violations(dto, now) != {} then Err(Validation(InvalidBookingRequest))
    else Create(db, userId, dto.itemId.value, dto.start.value, dto.end.value)
  }

  /** A booking accepted through the HTTP entry point starts no earlier than
      `now` and ends strictly after its start. */
  lemma SubmittedBookingIsWellFormed(db: Db, userId: int, dto: BookingDto, now: int)
    requires Submit(db, userId, dto, now).Ok?
    ensures var b := Submit(db, userId, dto, now).value.1;
            now <= b.start < b.end && b.status == WAITING
  {
    ValidIff(dto, now);
  }

  /** Creating a booking keeps every key unique and below its counter. */
  lemma CreatePreservesValid(db: Db, userId: int, itemId: int, start: int, end: int)
    requires Valid(db)
    requires Create(db, userId, itemId, start, end).Ok?
    ensures Valid(Create(db, userId, itemId, start, end).value.0)
  {
    var (db', b) := Create(db, userId, itemId, start, end).value;
    assert db'.bookings == db.bookings + [b];
    AppendFreshKey(db.bookings, b, BookingIdOf, db.nextBookingId);
  }

  /** Whether `create` succeeds does not depend on the bookings already in
      the table: no overlap check gates it. */
  lemma CreateIgnoresExistingBookings(db: Db, others: seq<Booking>, userId: int, itemId: int, start: int, end: int)
    ensures Create(db.(bookings := others), userId, itemId, start, end).Ok?
            == Create(db, userId, itemId, start, end).Ok?
  {
    var db2 := db.(bookings := others);
    assert FindUser(db2, userId) == FindUser(db, userId);
    assert FindItem(db2, itemId) == FindItem(db, itemId);
  }

  /** Item 1 of user 1 is approved to user 2 for `[10, 20]`; user 3 may
      still book it for `[15, 25]`, which the overlap query reports. */
  function OverlapScenario(): Db {
    Db([User(1, "o", "o@x"), User(2, "a", "a@x"), User(3, "b", "b@x")],
       [Item(1, "drill", "a drill", true, 1, None)],
       [Booking(1, 10, 20, 1, 2, APPROVED)],
       [], [], 2, 1, 2, 1)
  }

  lemma CreateAcceptsOverlappingBooking()
    ensures ExistsOverlappingBooking(OverlapScenario(), 1, 15, 25)
    ensures Create(OverlapScenario(), 3, 1, 15, 25).Ok?
  {
    var db := OverlapScenario();
    assert db.bookings[0] in db.bookings;
    assert FindUser(db, 3).Some? by { assert db.users[2] in db.users; }
    assert FindItem(db, 1).Some? by { assert db.items[0] in db.items; }
  }

  // ---------------------------------------------------------------------
  // updateStatus
  // ---------------------------------------------------------------------

  /** The status an owner's decision sets. */
  function Decision(approved: bool): BookingStatus {
    if approved then APPROVED else REJECTED
  }

  /** `updateStatus`: booking, then ownership (Forbidden), then the status
      must still be WAITING; the owner's decision is saved in place. */
  function UpdateStatus(db: Db, userId: int, bookingId: int, approved: bool): (r: Result<(Db, Booking)>)
    ensures FindBookingIndex(db, bookingId).None? ==> r == Err(NotFound(NoSuchBooking))
    ensures FindBookingIndex(db, bookingId).Some? ==>
              var i := FindBookingIndex(db, bookingId).value;
              var b := db.bookings[i];
              && (!OwnsItem(db, userId, b.itemId) ==> r == Err(Forbidden))
              && (OwnsItem(db, userId, b.itemId) && b.status != WAITING ==> r == Err(BadRequest(StatusAlreadySet)))
              && (r.Ok? <==> OwnsItem(db, userId, b.itemId) && b.status == WAITING)
    ensures r.Ok? ==> var (db', b') := r.value;
                      && b'.status == (if approved then APPROVED else REJECTED)
                      && b'.id == bookingId
                      && b'.(status := WAITING) in db.bookings
  {
    var i :- GetBookingOrThrow(db, bookingId);
    var b := db.bookings[i];
    if !OwnsItem(db, userId, b.itemId) then Err(Forbidden)
    else if b.status != WAITING then Err(BadRequest(StatusAlreadySet))
    else
      var b' := b.(status := Decision(approved));
      assert b'.(status := WAITING) == b;
      Ok((db.(bookings := db.bookings[i := b']), b'))
  }

  /** A successful decision rewrites one row, and only its status: every
      other row and every other table stays as it was. */
  lemma UpdateStatusChangesOnlyThatStatus(db: Db, userId: int, bookingId: int, approved: bool)
    requires UpdateStatus(db, userId, bookingId, approved).Ok?
    ensures var (db', b') := UpdateStatus(db, userId, bookingId, approved).value;
            var i := FindBookingIndex(db, bookingId).value;
            && |db'.bookings| == |db.bookings|
            && db'.bookings[i] == b'
            && db.bookings[i] == b'.(status := WAITING)
            && (forall j :: 0 <= j < |db.bookings| && j != i ==> db'.bookings[j] == db.bookings[j])
            && db' == db.(bookings := db'.bookings)
  {
  }

  /** Keys do not change, so integrity is kept. */
  lemma UpdateStatusPreservesValid(db: Db, userId: int, bookingId: int, approved: bool)
    requires Valid(db)
    requires UpdateStatus(db, userId, bookingId, approved).Ok?
    ensures Valid(UpdateStatus(db, userId, bookingId, approved).value.0)
  {
    var db' := UpdateStatus(db, userId, bookingId, approved).value.0;
    UpdateStatusChangesOnlyThatStatus(db, userId, bookingId, approved);
    assert forall j :: 0 <= j < |db.bookings| ==> BookingIdOf(db'.bookings[j]) == BookingIdOf(db.bookings[j]);
    SameKeysKeyed(db.bookings, db'.bookings, BookingIdOf, db.nextBookingId);
  }

  /** APPROVED and REJECTED are terminal: once decided, a booking can be
      decided again by nobody; its owner is told the status is set. */
  lemma {:induction false} DecisionIsFinal(db: Db, owner: int, bookingId: int, approved: bool, anyone: int, again: bool)
    requires UpdateStatus(db, owner, bookingId, approved).Ok?
    ensures var db' := UpdateStatus(db, owner, bookingId, approved).value.0;
            && UpdateStatus(db', anyone, bookingId, again).Err?
            && UpdateStatus(db', owner, bookingId, again) == Err(BadRequest(StatusAlreadySet))
  {
    var (db', b') := UpdateStatus(db, owner, bookingId, approved).value;
    var i := FindBookingIndex(db, bookingId).value;
    UpdateStatusChangesOnlyThatStatus(db, owner, bookingId, approved);
    assert forall j :: 0 <= j < i ==> db'.bookings[j].id != bookingId by {
      forall j | 0 <= j < i
        ensures db'.bookings[j].id != bookingId
      {
        assert db'.bookings[j] == db.bookings[j];
      }
    }
    var k := FindBookingIndex(db', bookingId);
    assert k.Some?;
    assert !(k.value < i);
    assert !(i < k.value);
    assert db'.items == db.items;
  }

  // ---------------------------------------------------------------------
  // getById
  // ---------------------------------------------------------------------

  /** The booker and the item's owner may see a booking; anybody else is
      told it does not exist. */
  predicate MaySee(db: Db, userId: int, b: Booking) {
    b.bookerId == userId || OwnsItem(db, userId, b.itemId)
  }

  function GetById(db: Db, userId: int, bookingId: int): (r: Result<Booking>)
    ensures FindBookingIndex(db, bookingId).None? ==> r == Err(NotFound(NoSuchBooking))
    ensures r.Ok? ==> r.value in db.bookings && r.value.id == bookingId && MaySee(db, userId, r.value)
    ensures FindBookingIndex(db, bookingId).Some? ==>
              var b := db.bookings[FindBookingIndex(db, bookingId).value];
              if MaySee(db, userId, b) then r == Ok(b) else r == Err(NotFound(NotParticipant))
  {
    var i :- GetBookingOrThrow(db, bookingId);
    var b := db.bookings[i];
    if !MaySee(db, userId, b) then Err(NotFound(NotParticipant)) else Ok(b)
  }

  /** With unique keys, visibility is exactly "booker or owner": the caller
      gets the booking iff they took part in it. */
  lemma GetByIdVisibility(db: Db, userId: int, b: Booking)
    requires Valid(db) && b in db.bookings
    ensures GetById(db, userId, b.id).Ok? <==> b.bookerId == userId || OwnsItem(db, userId, b.itemId)
    ensures GetById(db, userId, b.id).Ok? ==> GetById(db, userId, b.id).value == b
    ensures GetById(db, userId, b.id).Err? ==> GetById(db, userId, b.id).error == NotFound(NotParticipant)
  {
    var i := FindBookingIndex(db, b.id).value;
    SameIdSameBooking(db, db.bookings[i], b);
  }

  // ---------------------------------------------------------------------
  // Listing
  // ---------------------------------------------------------------------

  /** The `state` request parameter. */
  datatype BookingState = ALL | CURRENT | PAST | FUTURE | WAITING_STATE | REJECTED_STATE

  /** The `switch` over the state: a time window, a status, or everything. */
  function WindowOf(state: BookingState): (w: Window)
    ensures state == WAITING_STATE <==> w == WithStatus(WAITING)
    ensures state == REJECTED_STATE <==> w == WithStatus(REJECTED)
    ensures state == ALL <==> w == AnyTime
    ensures state == CURRENT <==> w == Current
    ensures state == PAST <==> w == Past
    ensures state == FUTURE <==> w == Future
  {
    match state
    case CURRENT => Current
    case PAST => Past
    case FUTURE => Future
    case WAITING_STATE => WithStatus(WAITING)
    case REJECTED_STATE => WithStatus(REJECTED)
    case ALL => AnyTime
  }

  function ScopeUser(scope: Scope): int {
    match scope
    case ByBooker(u) => u
    case ByOwner(u) => u
  }

  /** Every listed booking, in the order the pages cut: by start, latest first. */
  function Listing(db: Db, scope: Scope, state: BookingState, now: int): (r: seq<Booking>)
    ensures SortedDesc(r, StartOf)
    ensures forall b :: b in r <==> b in db.bookings && InScope(db, b, scope) && InWindow(b, WindowOf(state), now)
    ensures multiset(r) == multiset(Select(db, scope, WindowOf(state), now))
  {
    var rows := Select(db, scope, WindowOf(state), now);
    SortDescMembers(rows, StartOf);
    SortDesc(rows, StartOf)
  }

  /** What each state lists, in terms of the booking's own fields. */
  lemma StateListings(db: Db, scope: Scope, b: Booking, now: int)
    requires b in db.bookings && InScope(db, b, scope)
    ensures b in Listing(db, scope, CURRENT, now) <==> b.start < now < b.end
    ensures b in Listing(db, scope, PAST, now) <==> b.end < now
    ensures b in Listing(db, scope, FUTURE, now) <==> b.start > now
    ensures b in Listing(db, scope, WAITING_STATE, now) <==> b.status == WAITING
    ensures b in Listing(db, scope, REJECTED_STATE, now) <==> b.status == REJECTED
    ensures b in Listing(db, scope, ALL, now)
  {
    ListedIffInWindow(db, scope, CURRENT, b, now);
    ListedIffInWindow(db, scope, PAST, b, now);
    ListedIffInWindow(db, scope, FUTURE, b, now);
    ListedIffInWindow(db, scope, WAITING_STATE, b, now);
    ListedIffInWindow(db, scope, REJECTED_STATE, b, now);
    ListedIffInWindow(db, scope, ALL, b, now);
  }

  lemma ListedIffInWindow(db: Db, scope: Scope, state: BookingState, b: Booking, now: int)
    requires b in db.bookings && InScope(db, b, scope)
    ensures b in Listing(db, scope, state, now) <==> InWindow(b, WindowOf(state), now)
  {
  }

  /** `getAllByBooker` / `getAllByOwner`: the user must exist, then page
      `from / size` of length `size` of the listing. The controller
      guarantees `from >= 0` and `size > 0`. */
  function ListBookings(db: Db, scope: Scope, state: BookingState, from: int, size: int, now: int): (r: Result<seq<Booking>>)
    requires from >= 0 && size > 0
    ensures r.Err? <==> !UserExists(db, ScopeUser(scope))
    ensures r.Err? ==> r.error == NotFound(NoSuchUser)
    ensures r.Ok? ==> |r.value| <= size
    ensures r.Ok? ==> SortedDesc(r.value, StartOf)
    ensures r.Ok? ==> forall b :: b in r.value ==> b in db.bookings && InScope(db, b, scope) && InWindow(b, WindowOf(state), now)
    ensures r.Ok? ==> IsPage(r.value, Listing(db, scope, state, now), PageContaining(from, size).page, size)
  {
    var _ :- GetUserOrThrow(db, ScopeUser(scope));
    var all := Listing(db, scope, state, now);
    var k := PageContaining(from, size).page;
    PageOfSorted(all, k, size, StartOf);
    Ok(Page(all, k, size))
  }

  function GetAllByBooker(db: Db, userId: int, state: BookingState, from: int, size: int, now: int): (r: Result<seq<Booking>>)
    requires from >= 0 && size > 0
    ensures r.Err? <==> !UserExists(db, userId)
    ensures r.Ok? ==> forall b :: b in r.value ==> b in db.bookings && b.bookerId == userId && InWindow(b, WindowOf(state), now)
  {
    ListBookings(db, ByBooker(userId), state, from, size, now)
  }

  function GetAllByOwner(db: Db, userId: int, state: BookingState, from: int, size: int, now: int): (r: Result<seq<Booking>>)
    requires from >= 0 && size > 0
    ensures r.Err? <==> !UserExists(db, userId)
    ensures r.Ok? ==> forall b :: b in r.value ==> b in db.bookings && OwnsItem(db, userId, b.itemId) && InWindow(b, WindowOf(state), now)
  {
    ListBookings(db, ByOwner(userId), state, from, size, now)
  }

  /** The pages `0 .. count - 1` of a listing, as a client would fetch them
      with `from = k * size`, laid end to end. */
  function FetchedPages(db: Db, scope: Scope, state: BookingState, size: int, count: nat, now: int): seq<Booking>
    requires size > 0 && UserExists(db, ScopeUser(scope))
  {
    Concat(seq(count, k requires 0 <= k < count => PageAt(db, scope, state, size, k, now)))
  }

  /** What a client receives when it asks for `from = k * size`. */
  function PageAt(db: Db, scope: Scope, state: BookingState, size: int, k: nat, now: int): seq<Booking>
    requires size > 0 && UserExists(db, ScopeUser(scope))
  {
    ListBookings(db, scope, state, k * size, size, now).value
  }

  /** Walking the pages with `from = 0, size, 2 * size, ...` returns the
      listing in order, with no row twice and none skipped. */
  lemma PagesTileListing(db: Db, scope: Scope, state: BookingState, size: int, count: nat, now: int)
    requires size > 0 && UserExists(db, ScopeUser(scope))
    ensures FetchedPages(db, scope, state, size, count, now) == Take(Listing(db, scope, state, now), count * size)
  {
    var all := Listing(db, scope, state, now);
    var pages := seq(count, k requires 0 <= k < count => PageAt(db, scope, state, size, k, now));
    forall k | 0 <= k < count
      ensures pages[k] == Page(all, k, size)
    {
      FetchedPageIsPage(db, scope, state, size, k, now);
    }
    ConcatOfPages(pages, all, size);
    PagesTile(all, size, count);
  }

  /** Asking for `from = k * size` returns page `k` of the listing. */
  lemma FetchedPageIsPage(db: Db, scope: Scope, state: BookingState, size: int, k: nat, now: int)
    requires size > 0 && UserExists(db, ScopeUser(scope))
    ensures PageAt(db, scope, state, size, k, now) == Page(Listing(db, scope, state, now), k, size)
  {
    OffsetOfPage(k, size);
    var from := k * size;
    var all := Listing(db, scope, state, now);
    IsPageUnique(ListBookings(db, scope, state, from, size, now).value, Page(all, k, size), all, k, size);
  }

  /** `getBookingsForItem`: all bookings of the item, latest start first;
      neither the item nor a user is checked. */
  function GetBookingsForItem(db: Db, itemId: int): (r: seq<Booking>)
    ensures SortedDesc(r, StartOf)
    ensures forall b :: b in r <==> b in db.bookings && b.itemId == itemId
    ensures multiset(r) == multiset(ForItem(db, itemId))
  {
    var rows := ForItem(db, itemId);
    SortDescMembers(rows, StartOf);
    SortDesc(rows, StartOf)
  }
}
