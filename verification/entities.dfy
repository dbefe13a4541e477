/** The persistent entities of ShareIt and the database that holds them.

    Each JPA table is a sequence of rows in insertion order; an IDENTITY key
    is drawn from a counter kept next to the table. Timestamps
    (`LocalDateTime`) are integers on one time line. */
module Entities {
  import opened Common
  import opened Seqs

  datatype BookingStatus = WAITING | APPROVED | REJECTED | CANCELED

  datatype Booking = Booking(
    id: int,
    start: int,
    end: int,
    itemId: int,
    bookerId: int,
    status: BookingStatus)

  datatype User = User(id: int, name: string, email: string)

  datatype Item = Item(
    id: int,
    name: string,
    description: string,
    available: bool,
    ownerId: int,
    requestId: Option<int>)

  datatype Comment = Comment(id: int, text: string, itemId: int, authorId: int, created: int)

  datatype ItemRequest = ItemRequest(id: int, description: string, requesterId: int, created: int)

  datatype Db = Db(
    users: seq<User>,
    items: seq<Item>,
    bookings: seq<Booking>,
    comments: seq<Comment>,
    requests: seq<ItemRequest>,
    nextBookingId: int,
    nextCommentId: int,
    nextItemId: int,
    nextRequestId: int)

  /** Sort keys. */
  function StartOf(b: Booking): int { b.start }
  function EndOf(b: Booking): int { b.end }
  function BookingIdOf(b: Booking): int { b.id }
  function CreatedOf(r: ItemRequest): int { r.created }
  function CommentCreatedOf(c: Comment): int { c.created }

  // ---------------------------------------------------------------------
  // Primary-key lookups (`findById`)
  // ---------------------------------------------------------------------

  function FindUser(db: Db, id: int): (r: Option<User>)
    ensures r.None? <==> forall u :: u in db.users ==> u.id != id
    ensures r.Some? ==> r.value in db.users && r.value.id == id
  {
    Find(db.users, (u: User) => u.id == id)
  }

  function FindItem(db: Db, id: int): (r: Option<Item>)
    ensures r.None? <==> forall it :: it in db.items ==> it.id != id
    ensures r.Some? ==> r.value in db.items && r.value.id == id
  {
    Find(db.items, (it: Item) => it.id == id)
  }

  function FindBookingIndex(db: Db, id: int): (r: Option<nat>)
    ensures r.None? <==> forall i :: 0 <= i < |db.bookings| ==> db.bookings[i].id != id
    ensures r.Some? ==> r.value < |db.bookings| && db.bookings[r.value].id == id
  {
    IndexOf(db.bookings, (b: Booking) => b.id == id)
  }

  function FindItemIndex(db: Db, id: int): (r: Option<nat>)
    ensures r.None? <==> forall i :: 0 <= i < |db.items| ==> db.items[i].id != id
    ensures r.Some? ==> r.value < |db.items| && db.items[r.value].id == id
  {
    IndexOf(db.items, (it: Item) => it.id == id)
  }

  function FindRequest(db: Db, id: int): (r: Option<ItemRequest>)
    ensures r.None? <==> forall q :: q in db.requests ==> q.id != id
    ensures r.Some? ==> r.value in db.requests && r.value.id == id
  {
    Find(db.requests, (q: ItemRequest) => q.id == id)
  }

  predicate UserExists(db: Db, id: int) {
    FindUser(db, id).Some?
  }

  /** `findById(...).orElseThrow(...)` on the user table, as every service
      looks its callers up: NotFound when the id is unknown. */
  function GetUserOrThrow(db: Db, userId: int): (r: Result<User>)
    ensures r.Ok? <==> UserExists(db, userId)
    ensures r.Ok? ==> r.value in db.users && r.value.id == userId
    ensures r.Err? ==> r.error == NotFound(NoSuchUser)
  {
    match FindUser(db, userId)
    case None => Err(NotFound(NoSuchUser))
    case Some(u) => Ok(u)
  }

  /** The same lookup on the item table. */
  function GetItemOrThrow(db: Db, itemId: int): (r: Result<Item>)
    ensures r.Ok? <==> FindItem(db, itemId).Some?
    ensures r.Ok? ==> r.value in db.items && r.value.id == itemId
    ensures r.Err? ==> r.error == NotFound(NoSuchItem)
  {
    match FindItem(db, itemId)
    case None => Err(NotFound(NoSuchItem))
    case Some(it) => Ok(it)
  }

  /** `booking.item.owner.id`: the owner of the item with id `itemId`, when
      that item exists. */
  function OwnerOf(db: Db, itemId: int): Option<int> {
    match FindItem(db, itemId)
    case None => None
    case Some(it) => Some(it.ownerId)
  }

  predicate OwnsItem(db: Db, userId: int, itemId: int) {
    OwnerOf(db, itemId) == Some(userId)
  }

  // ---------------------------------------------------------------------
  // Integrity of the database
  // ---------------------------------------------------------------------

  function ItemIdOf(it: Item): int { it.id }
  function CommentIdOf(c: Comment): int { c.id }
  function RequestIdOf(q: ItemRequest): int { q.id }

  /** Every table is keyed by its id and its counter. */
  predicate Valid(db: Db) {
    && Keyed(db.bookings, BookingIdOf, db.nextBookingId)
    && Keyed(db.comments, CommentIdOf, db.nextCommentId)
    && Keyed(db.items, ItemIdOf, db.nextItemId)
    && Keyed(db.requests, RequestIdOf, db.nextRequestId)
  }
}
