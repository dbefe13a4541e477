/** `ItemServiceImpl`: creating and editing items, reading one item or an
    owner's items together with their booking summary and comments, the
    paged text search, and leaving a comment after a finished rental. The
    "last" and "next" booking are the repository's intended queries (the
    latest finished and the earliest upcoming APPROVED booking). */
module ItemService {
  import opened Common
  import opened Seqs
  import opened Text
  import opened Paging
  import opened Entities
  import opened BookingRepository
  import opened ItemRepository

  // ---------------------------------------------------------------------
  // createItem
  // ---------------------------------------------------------------------

  /** `createItem`: the owner must exist, then a request id, when given,
      must name an existing request; the item is saved with a fresh id. */
  function CreateItem(db: Db, ownerId: int, name: string, description: string, available: bool, requestId: Option<int>): (r: Result<(Db, Item)>)
    ensures !UserExists(db, ownerId) ==> r == Err(NotFound(NoSuchUser))
    ensures UserExists(db, ownerId) && requestId.Some? && FindRequest(db, requestId.value).None? ==>
              r == Err(NotFound(NoSuchRequest))
    ensures r.Ok? <==> UserExists(db, ownerId) && (requestId.None? || FindRequest(db, requestId.value).Some?)
    ensures r.Ok? ==> var (db', it) := r.value;
                      && db'.items == db.items + [it]
                      && db' == db.(items := db'.items, nextItemId := db.nextItemId + 1)
                      && it.id == db.nextItemId && it.ownerId == ownerId && it.requestId == requestId
                      && it.name == name && it.description == description && it.available == available
  {
    var owner :- GetUserOrThrow(db, ownerId);
    if requestId.Some? && FindRequest(db, requestId.value).None? then Err(NotFound(NoSuchRequest))
    else
      var it := Item(db.nextItemId, name, description, available, owner.id, requestId);
      Ok((db.(items := db.items + [it], nextItemId := db.nextItemId + 1), it))
  }

  lemma CreateItemPreservesValid(db: Db, ownerId: int, name: string, description: string, available: bool, requestId: Option<int>)
    requires Valid(db)
    requires CreateItem(db, ownerId, name, description, available, requestId).Ok?
    ensures Valid(CreateItem(db, ownerId, name, description, available, requestId).value.0)
  {
    var (db', it) := CreateItem(db, ownerId, name, description, available, requestId).value;
    AppendFreshKey(db.items, it, ItemIdOf, db.nextItemId);
  }

  // ---------------------------------------------------------------------
  // updateItem
  // ---------------------------------------------------------------------

  /** The fields of an update body; an absent field keeps its value. */
  datatype ItemPatch = ItemPatch(name: Option<string>, description: Option<string>, available: Option<bool>)

  function ApplyPatch(it: Item, patch: ItemPatch): (r: Item)
    ensures r.id == it.id && r.ownerId == it.ownerId && r.requestId == it.requestId
    ensures patch.name.None? ==> r.name == it.name
    ensures patch.description.None? ==> r.description == it.description
    ensures patch.available.None? ==> r.available == it.available
    ensures patch.name.Some? ==> r.name == patch.name.value
    ensures patch.description.Some? ==> r.description == patch.description.value
    ensures patch.available.Some? ==> r.available == patch.available.value
  {
    it.(name := patch.name.GetOr(it.name),
        description := patch.description.GetOr(it.description),
        available := patch.available.GetOr(it.available))
  }

  /** `updateItem`: the item must exist, and only its owner may change it
      (AccessDenied otherwise; the caller is not looked up as a user). */
  function UpdateItem(db: Db, itemId: int, patch: ItemPatch, ownerId: int): (r: Result<(Db, Item)>)
    ensures FindItemIndex(db, itemId).None? ==> r == Err(NotFound(NoSuchItem))
    ensures FindItemIndex(db, itemId).Some? && db.items[FindItemIndex(db, itemId).value].ownerId != ownerId ==>
              r == Err(AccessDenied)
    ensures r.Ok? <==> FindItemIndex(db, itemId).Some? && db.items[FindItemIndex(db, itemId).value].ownerId == ownerId
    ensures r.Ok? ==> var (db', it') := r.value;
                      var i := FindItemIndex(db, itemId).value;
                      && |db'.items| == |db.items|
                      && db'.items[i] == it'
                      && it' == ApplyPatch(db.items[i], patch)
                      && (forall j :: 0 <= j < |db.items| && j != i ==> db'.items[j] == db.items[j])
                      && db' == db.(items := db'.items)
  {
    match FindItemIndex(db, itemId)
    case None => Err(NotFound(NoSuchItem))
    case Some(i) =>
      var it := db.items[i];
      if it.ownerId != ownerId then Err(AccessDenied)
      else
        var it' := ApplyPatch(it, patch);
        Ok((db.(items := db.items[i := it']), it'))
  }

  /** Sending the same update twice changes nothing the second time. */
  lemma UpdateItemIdempotent(db: Db, itemId: int, patch: ItemPatch, ownerId: int)
    requires UpdateItem(db, itemId, patch, ownerId).Ok?
    ensures var db' := UpdateItem(db, itemId, patch, ownerId).value.0;
            UpdateItem(db', itemId, patch, ownerId) == UpdateItem(db, itemId, patch, ownerId)
  {
    var (db', it') := UpdateItem(db, itemId, patch, ownerId).value;
    var i := FindItemIndex(db, itemId).value;
    forall j | 0 <= j < i
      ensures db'.items[j].id != itemId
    {
      assert db'.items[j] == db.items[j];
    }
    var k := FindItemIndex(db', itemId).value;
    assert !(k < i) && !(i < k);
    assert ApplyPatch(it', patch) == it';
    assert db'.items[i := it'] == db'.items;
  }

  /** An update keeps every id, so integrity is kept. */
  lemma UpdateItemPreservesValid(db: Db, itemId: int, patch: ItemPatch, ownerId: int)
    requires Valid(db)
    requires UpdateItem(db, itemId, patch, ownerId).Ok?
    ensures Valid(UpdateItem(db, itemId, patch, ownerId).value.0)
  {
    var db' := UpdateItem(db, itemId, patch, ownerId).value.0;
    assert forall j :: 0 <= j < |db.items| ==> ItemIdOf(db'.items[j]) == ItemIdOf(db.items[j]);
    SameKeysKeyed(db.items, db'.items, ItemIdOf, db.nextItemId);
  }

  // ---------------------------------------------------------------------
  // getItemById and getOwnerItems
  // ---------------------------------------------------------------------

  /** An item as shown to a user: the booking summary is present only for
      the owner. */
  datatype ItemView = ItemView(item: Item, lastBooking: Option<Booking>, nextBooking: Option<Booking>, comments: seq<Comment>)

  /** The view of `it` for `userId` at time `now`. */
  function ViewFor(db: Db, it: Item, userId: int, now: int): (v: ItemView)
    ensures v.item == it
    ensures SortedDesc(v.comments, CommentCreatedOf)
    ensures forall c :: c in v.comments <==> c in db.comments && c.itemId == it.id
    ensures multiset(v.comments) == multiset(Filter(db.comments, (c: Comment) => IsItemComment(c, it.id)))
    ensures it.ownerId != userId ==> v.lastBooking.None? && v.nextBooking.None?
    ensures v.lastBooking.Some? ==> v.lastBooking.value in db.bookings && IsLastCandidate(v.lastBooking.value, it.id, now)
    ensures v.nextBooking.Some? ==> v.nextBooking.value in db.bookings && IsNextCandidate(v.nextBooking.value, it.id, now)
    ensures it.ownerId == userId ==>
              (v.lastBooking.None? <==> forall b :: b in db.bookings ==> !IsLastCandidate(b, it.id, now))
    ensures it.ownerId == userId ==>
              (v.nextBooking.None? <==> forall b :: b in db.bookings ==> !IsNextCandidate(b, it.id, now))
    ensures v.lastBooking.Some? ==>
              forall b :: b in db.bookings && IsLastCandidate(b, it.id, now) ==> b.end <= v.lastBooking.value.end
    ensures v.nextBooking.Some? ==>
              forall b :: b in db.bookings && IsNextCandidate(b, it.id, now) ==> v.nextBooking.value.start <= b.start
  {
    var comments := CommentsForItem(db, it.id);
    if it.ownerId == userId then ItemView(it, LastBooking(db, it.id, now), NextBooking(db, it.id, now), comments)
    else ItemView(it, None, None, comments)
  }

  /** `getItemById`: any user may read an item; only its owner sees the
      last and next booking. */
  function GetItemById(db: Db, itemId: int, userId: int, now: int): (r: Result<ItemView>)
    ensures r.Err? <==> FindItem(db, itemId).None?
    ensures r.Err? ==> r.error == NotFound(NoSuchItem)
    ensures r.Ok? ==> r.value.item == FindItem(db, itemId).value
    ensures r.Ok? && r.value.item.ownerId != userId ==> r.value.lastBooking.None? && r.value.nextBooking.None?
    ensures r.Ok? && r.value.item.ownerId == userId ==>
              r.value.lastBooking == LastBooking(db, itemId, now) && r.value.nextBooking == NextBooking(db, itemId, now)
    ensures r.Ok? ==> SortedDesc(r.value.comments, CommentCreatedOf)
    ensures r.Ok? ==> multiset(r.value.comments) == multiset(Filter(db.comments, (c: Comment) => IsItemComment(c, itemId)))
  {
    var it :- GetItemOrThrow(db, itemId);
    Ok(ViewFor(db, it, userId, now))
  }

  /** The owner and any other user see the same item and comments; they
      differ at most in the booking summary. */
  lemma OwnerAndVisitorSeeSameItem(db: Db, itemId: int, visitor: int, now: int)
    requires GetItemById(db, itemId, visitor, now).Ok?
    ensures var owner := GetItemById(db, itemId, visitor, now).value.item.ownerId;
            var mine := GetItemById(db, itemId, owner, now).value;
            var theirs := GetItemById(db, itemId, visitor, now).value;
            mine.item == theirs.item && mine.comments == theirs.comments
  {
  }

  /** The items the views show, in order. */
  function ItemsOf(views: seq<ItemView>): (r: seq<Item>)
    ensures |r| == |views|
    ensures forall i :: 0 <= i < |r| ==> r[i] == views[i].item
  {
    seq(|views|, i requires 0 <= i < |views| => views[i].item)
  }

  /** The owner's views of `items`, position by position. */
  function OwnerViews(db: Db, items: seq<Item>, ownerId: int, now: int): (r: seq<ItemView>)
    ensures |r| == |items|
    ensures ItemsOf(r) == items
    ensures forall i :: 0 <= i < |r| ==>
              && r[i].item == items[i]
              && (r[i].item.ownerId == ownerId ==>
                    && r[i].lastBooking == LastBooking(db, r[i].item.id, now)
                    && r[i].nextBooking == NextBooking(db, r[i].item.id, now))
    ensures forall i :: 0 <= i < |r| ==>
              && SortedDesc(r[i].comments, CommentCreatedOf)
              && multiset(r[i].comments) == multiset(Filter(db.comments, (c: Comment) => IsItemComment(c, items[i].id)))
  {
    var r := seq(|items|, i requires 0 <= i < |items| => ViewFor(db, items[i], ownerId, now));
    assert ItemsOf(r) == items;
    r
  }

  /** Page `page` of length `size` of the owner's items by ascending id,
      each with the owner's view. */
  function OwnerItemsPage(db: Db, ownerId: int, page: nat, size: nat, now: int): (r: seq<ItemView>)
    ensures |r| <= size
    ensures IsPage(ItemsOf(r), SortDesc(FindByOwnerId(db, ownerId), ItemIdAscKey), page, size)
    ensures SortedById(ItemsOf(r))
    ensures forall i :: 0 <= i < |r| ==>
              && r[i].item in db.items && r[i].item.ownerId == ownerId
              && r[i].lastBooking == LastBooking(db, r[i].item.id, now)
              && r[i].nextBooking == NextBooking(db, r[i].item.id, now)
              && SortedDesc(r[i].comments, CommentCreatedOf)
              && multiset(r[i].comments) == multiset(Filter(db.comments, (c: Comment) => IsItemComment(c, r[i].item.id)))
  {
    var items := FindByOwnerIdPaged(db, ownerId, page, size);
    var r := OwnerViews(db, items, ownerId, now);
    assert forall i :: 0 <= i < |r| ==> r[i].item in db.items && r[i].item.ownerId == ownerId by {
      forall i | 0 <= i < |r|
        ensures r[i].item in db.items && r[i].item.ownerId == ownerId
      {
        assert r[i].item == items[i] && items[i] in items;
      }
    }
    r
  }

  /** `getOwnerItems`: the owner must exist, then paging is validated, then
      a page of the owner's items by ascending id, each with its view. */
  function GetOwnerItems(db: Db, ownerId: int, from: Option<int>, size: Option<int>, now: int): (r: Result<seq<ItemView>>)
    ensures !UserExists(db, ownerId) ==> r == Err(NotFound(NoSuchUser))
    ensures UserExists(db, ownerId) && CreatePageable(from, size).Err? ==> r == Err(CreatePageable(from, size).error)
    ensures r.Ok? <==> UserExists(db, ownerId) && CreatePageable(from, size).Ok?
    ensures r.Ok? ==> var pr := CreatePageable(from, size).value;
              && |r.value| <= pr.size
              && IsPage(ItemsOf(r.value), SortDesc(FindByOwnerId(db, ownerId), ItemIdAscKey), pr.page, pr.size)
    ensures r.Ok? ==> SortedById(ItemsOf(r.value))
    ensures r.Ok? ==> forall i :: 0 <= i < |r.value| ==>
              && r.value[i].item in db.items && r.value[i].item.ownerId == ownerId
              && r.value[i].lastBooking == LastBooking(db, r.value[i].item.id, now)
              && r.value[i].nextBooking == NextBooking(db, r.value[i].item.id, now)
              && SortedDesc(r.value[i].comments, CommentCreatedOf)
              && multiset(r.value[i].comments) == multiset(Filter(db.comments, (c: Comment) => IsItemComment(c, r.value[i].item.id)))
  {
    if !UserExists(db, ownerId) then Err(NotFound(NoSuchUser))
    else match CreatePageable(from, size)
      case Err(e) => Err(e)
      case Ok(pr) => Ok(OwnerItemsPage(db, ownerId, pr.page, pr.size, now))
  }

  // ---------------------------------------------------------------------
  // searchAvailableItems
  // ---------------------------------------------------------------------

  /** `searchAvailableItems`: a missing or blank text yields no items
      before paging is looked at; otherwise paging is validated and the
      trimmed text is searched. */
  function SearchItems(db: Db, text: Option<string>, from: Option<int>, size: Option<int>): (r: Result<seq<Item>>)
    ensures text.None? || IsBlank(text.value) ==> r == Ok([])
    ensures text.Some? && !IsBlank(text.value) && CreatePageable(from, size).Err? ==>
              r == Err(CreatePageable(from, size).error)
    ensures r.Ok? <==> text.None? || IsBlank(text.value) || CreatePageable(from, size).Ok?
    ensures r.Ok? && text.Some? && !IsBlank(text.value) ==>
              IsPage(r.value, SearchAvailableItems(db, Trim(text.value)),
                     CreatePageable(from, size).value.page, CreatePageable(from, size).value.size)
    ensures r.Ok? ==> forall it :: it in r.value ==> it in db.items && it.available
  {
    if text.None? || IsBlank(text.value) then Ok([])
    else
      var pr :- CreatePageable(from, size);
      var rows := SearchAvailableItems(db, Trim(text.value));
      var page := Page(rows, pr.page, pr.size);
      assert forall it :: it in page ==> it in rows;
      Ok(page)
  }

  /** Blank text wins over bad paging parameters. */
  lemma BlankSearchIgnoresPaging(db: Db, from: Option<int>, size: Option<int>)
    ensures SearchItems(db, Some(" \t"), from, size) == Ok([])
  {
    assert IsBlank(" \t") by {
      assert forall i :: 0 <= i < 2 ==> IsJavaWhitespace(" \t"[i]);
    }
  }

  /** `isBlank` and `trim` disagree on control characters: a text of one
      U+0001 is not blank, trims to the empty string, and so matches every
      available item. */
  lemma ControlCharacterMatchesEverything(db: Db, it: Item)
    requires it in db.items && it.available
    ensures !IsBlank("\U{1}")
    ensures Trim("\U{1}") == ""
    ensures it in SearchAvailableItems(db, Trim("\U{1}"))
  {
    assert !IsJavaWhitespace("\U{1}"[0]);
    TrimAllTrimmable("\U{1}");
    EmptyTextMatchesAllAvailable(db, it);
  }

  // ---------------------------------------------------------------------
  // addComment
  // ---------------------------------------------------------------------

  /** `addComment`: author, then item, then the author must have finished
      an APPROVED rental of the item; the comment is stamped with `now`. */
  function AddComment(db: Db, itemId: int, text: string, userId: int, now: int): (r: Result<(Db, Comment)>)
    ensures !UserExists(db, userId) ==> r == Err(NotFound(NoSuchUser))
    ensures UserExists(db, userId) && FindItem(db, itemId).None? ==> r == Err(NotFound(NoSuchItem))
    ensures UserExists(db, userId) && FindItem(db, itemId).Some? && !CanComment(db, itemId, userId, now) ==>
              r == Err(Validation(NotARenter))
    ensures r.Ok? <==> UserExists(db, userId) && FindItem(db, itemId).Some? && CanComment(db, itemId, userId, now)
    ensures r.Ok? ==> var (db', c) := r.value;
                      && db'.comments == db.comments + [c]
                      && db' == db.(comments := db'.comments, nextCommentId := db.nextCommentId + 1)
                      && c == Comment(db.nextCommentId, text, itemId, userId, now)
  {
    var author :- GetUserOrThrow(db, userId);
    var item :- GetItemOrThrow(db, itemId);
    if !CanComment(db, itemId, userId, now) then Err(Validation(NotARenter))
    else
      var c := Comment(db.nextCommentId, text, item.id, author.id, now);
      Ok((db.(comments := db.comments + [c], nextCommentId := db.nextCommentId + 1), c))
  }

  /** Every saved comment's author has a finished APPROVED booking of the
      item that ended before the comment was written. */
  lemma CommentAuthorRentedItem(db: Db, itemId: int, text: string, userId: int, now: int)
    requires AddComment(db, itemId, text, userId, now).Ok?
    ensures var c := AddComment(db, itemId, text, userId, now).value.1;
            exists b :: b in db.bookings && b.itemId == c.itemId && b.bookerId == c.authorId
                        && b.status == APPROVED && b.end < c.created
  {
  }

  lemma AddCommentPreservesValid(db: Db, itemId: int, text: string, userId: int, now: int)
    requires Valid(db)
    requires AddComment(db, itemId, text, userId, now).Ok?
    ensures Valid(AddComment(db, itemId, text, userId, now).value.0)
  {
    var (db', c) := AddComment(db, itemId, text, userId, now).value;
    AppendFreshKey(db.comments, c, CommentIdOf, db.nextCommentId);
  }

  /** `getItemsByRequestId`: the items offered for a request. */
  function GetItemsByRequestId(db: Db, requestId: int): (r: seq<Item>)
    ensures forall it :: it in r <==> it in db.items && it.requestId == Some(requestId)
  {
    FindByRequestId(db, requestId)
  }
}
