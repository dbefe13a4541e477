/** The queries of `ItemRepository` and of the comment table it is read
    with: the text search over available items, the owner and request
    filters, and the ownership test. */
module ItemRepository {
  import opened Common
  import opened Seqs
  import opened Text
  import opened Entities

  // ---------------------------------------------------------------------
  // Text search
  // ---------------------------------------------------------------------

  /** The pattern `LOWER(CONCAT('%', :text, '%'))`. */
  function SearchPattern(text: string): (p: string)
    ensures p == "%" + Lower(text) + "%"
    ensures |p| == |text| + 2
  {
    Lower("%" + text + "%")
  }

  /** The `WHERE` clause of `searchAvailableItems` for one row. */
  predicate MatchesSearch(it: Item, text: string) {
    && it.available
    && (Like(Lower(it.name), SearchPattern(text)) || Like(Lower(it.description), SearchPattern(text)))
  }

  /** `searchAvailableItems` before paging (the query is unsorted, so rows
      come in table order). */
  function SearchAvailableItems(db: Db, text: string): (r: seq<Item>)
    ensures forall it :: it in r <==> it in db.items && MatchesSearch(it, text)
    ensures forall it :: it in r ==> it.available
  {
    Filter(db.items, (it: Item) => MatchesSearch(it, text))
  }

  /** Lower-casing does not create wildcards. */
  lemma LowerKeepsNoWildcards(text: string)
    requires NoWildcards(text)
    ensures NoWildcards(Lower(text))
  {
  }

  /** For a search text without `%` or `_`, an available item matches iff
      the lower-cased text occurs in its lower-cased name or description. */
  lemma SearchIsSubstring(db: Db, text: string, it: Item)
    requires NoWildcards(text)
    ensures it in SearchAvailableItems(db, text) <==>
              && it in db.items && it.available
              && (Contains(Lower(it.name), Lower(text)) || Contains(Lower(it.description), Lower(text)))
  {
    LowerKeepsNoWildcards(text);
    LikeIsContains(Lower(it.name), Lower(text));
    LikeIsContains(Lower(it.description), Lower(text));
  }

  /** The empty text matches every available item. */
  lemma EmptyTextMatchesAllAvailable(db: Db, it: Item)
    requires it in db.items && it.available
    ensures it in SearchAvailableItems(db, "")
  {
    assert SearchPattern("") == "%%";
    LikeIsContains(Lower(it.name), "");
    assert OccursAt(Lower(it.name), "", 0);
  }

  // ---------------------------------------------------------------------
  // Filters by owner and by request
  // ---------------------------------------------------------------------

  /** `findByOwnerId` without paging. */
  function FindByOwnerId(db: Db, ownerId: int): (r: seq<Item>)
    ensures forall it :: it in r <==> it in db.items && it.ownerId == ownerId
  {
    Filter(db.items, (it: Item) => it.ownerId == ownerId)
  }

  /** The sort key that puts smaller ids first in a descending sort. */
  function ItemIdAscKey(it: Item): int { -it.id }

  predicate SortedById(items: seq<Item>) {
    forall i, j :: 0 <= i < j < |items| ==> items[i].id <= items[j].id
  }

  /** `findByOwnerId(ownerId, pageable)` with `Sort.by("id").ascending()`:
      the owner's items by ascending id, page `page` of length `size`. */
  function FindByOwnerIdPaged(db: Db, ownerId: int, page: nat, size: nat): (r: seq<Item>)
    ensures IsPage(r, SortDesc(FindByOwnerId(db, ownerId), ItemIdAscKey), page, size)
    ensures |r| <= size
    ensures SortedById(r)
    ensures forall it :: it in r ==> it in db.items && it.ownerId == ownerId
  {
    var rows := FindByOwnerId(db, ownerId);
    var sorted := SortDesc(rows, ItemIdAscKey);
    SortDescMembers(rows, ItemIdAscKey);
    PageOfSorted(sorted, page, size, ItemIdAscKey);
    Page(sorted, page, size)
  }

  /** `findByRequestId`: the items offered in answer to one request. */
  function FindByRequestId(db: Db, requestId: int): (r: seq<Item>)
    ensures forall it :: it in r <==> it in db.items && it.requestId == Some(requestId)
  {
    Filter(db.items, (it: Item) => it.requestId == Some(requestId))
  }

  /** `findByRequestIdIn`: the items offered in answer to any of the requests. */
  function FindByRequestIdIn(db: Db, requestIds: seq<int>): (r: seq<Item>)
    ensures forall it :: it in r <==> it in db.items && it.requestId.Some? && it.requestId.value in requestIds
  {
    Filter(db.items, (it: Item) => it.requestId.Some? && it.requestId.value in requestIds)
  }

  /** `existsByIdAndOwnerId`. */
  function ExistsByIdAndOwnerId(db: Db, itemId: int, ownerId: int): (r: bool)
    ensures r <==> exists it :: it in db.items && it.id == itemId && it.ownerId == ownerId
  {
    exists it | it in db.items :: it.id == itemId && it.ownerId == ownerId
  }

  /** With unique item ids the existence query and the owner lookup agree. */
  lemma ExistsByIdAndOwnerIdIsOwnership(db: Db, itemId: int, ownerId: int)
    requires Valid(db)
    ensures ExistsByIdAndOwnerId(db, itemId, ownerId) <==> OwnsItem(db, ownerId, itemId)
  {
    if ExistsByIdAndOwnerId(db, itemId, ownerId) {
      var it :| it in db.items && it.id == itemId && it.ownerId == ownerId;
      var found := FindItem(db, itemId).value;
      SameIdSameItem(db, it, found);
    }
  }

  /** Item ids are primary keys. */
  lemma SameIdSameItem(db: Db, a: Item, b: Item)
    requires Valid(db) && a in db.items && b in db.items && a.id == b.id
    ensures a == b
  {
    var i :| 0 <= i < |db.items| && db.items[i] == a;
    var j :| 0 <= j < |db.items| && db.items[j] == b;
    assert !(i < j);
    assert !(j < i);
  }

  // ---------------------------------------------------------------------
  // Comments of an item
  // ---------------------------------------------------------------------

  predicate IsItemComment(c: Comment, itemId: int) {
    c.itemId == itemId
  }

  /** `findByItemIdWithAuthor`: the item's comments, each as often as it is
      stored, newest first. */
  function CommentsForItem(db: Db, itemId: int): (r: seq<Comment>)
    ensures SortedDesc(r, CommentCreatedOf)
    ensures forall c :: c in r <==> c in db.comments && c.itemId == itemId
    ensures multiset(r) == multiset(Filter(db.comments, (c: Comment) => IsItemComment(c, itemId)))
  {
    var rows := Filter(db.comments, (c: Comment) => IsItemComment(c, itemId));
    SortDescMembers(rows, CommentCreatedOf);
    SortDesc(rows, CommentCreatedOf)
  }
}
