/** The queries of `ItemRequestRepository`: a user's own requests, the
    requests of everybody else, and the lookups by id. The `LEFT JOIN FETCH
    ir.items` of the queries is the set of items whose request id is the
    request's id. */
module ItemRequestRepository {
  import opened Common
  import opened Seqs
  import opened Entities

  /** `ORDER BY ir.created DESC`. */
  function NewestFirst(rows: seq<ItemRequest>): (r: seq<ItemRequest>)
    ensures SortedDesc(r, CreatedOf)
    ensures multiset(r) == multiset(rows)
    ensures forall q :: q in r <==> q in rows
  {
    SortDescMembers(rows, CreatedOf);
    SortDesc(rows, CreatedOf)
  }

  predicate IsOwnRequest(q: ItemRequest, requesterId: int) {
    q.requesterId == requesterId
  }

  predicate IsOthersRequest(q: ItemRequest, requesterId: int) {
    q.requesterId != requesterId
  }

  /** `findByRequesterIdWithItems` (and `findByRequesterIdOrderByCreatedDesc`):
      the user's own requests, newest first. */
  function FindByRequesterIdWithItems(db: Db, requesterId: int): (r: seq<ItemRequest>)
    ensures SortedDesc(r, CreatedOf)
    ensures forall q :: q in r <==> q in db.requests && q.requesterId == requesterId
    ensures multiset(r) == multiset(Filter(db.requests, (q: ItemRequest) => IsOwnRequest(q, requesterId)))
  {
    NewestFirst(Filter(db.requests, (q: ItemRequest) => IsOwnRequest(q, requesterId)))
  }

  /** `findAllByRequesterIdNot`: every other user's requests, newest first. */
  function FindAllByRequesterIdNot(db: Db, requesterId: int): (r: seq<ItemRequest>)
    ensures SortedDesc(r, CreatedOf)
    ensures forall q :: q in r <==> q in db.requests && q.requesterId != requesterId
    ensures multiset(r) == multiset(Filter(db.requests, (q: ItemRequest) => IsOthersRequest(q, requesterId)))
  {
    NewestFirst(Filter(db.requests, (q: ItemRequest) => IsOthersRequest(q, requesterId)))
  }

  /** A user's own requests and everybody else's split the table: every
      request is in exactly one of the two, as often as it is stored. */
  lemma OwnAndOthersPartition(db: Db, requesterId: int)
    ensures multiset(FindByRequesterIdWithItems(db, requesterId)) + multiset(FindAllByRequesterIdNot(db, requesterId))
            == multiset(db.requests)
    ensures forall q :: !(q in FindByRequesterIdWithItems(db, requesterId) && q in FindAllByRequesterIdNot(db, requesterId))
  {
    FilterPartition(db.requests, (q: ItemRequest) => IsOwnRequest(q, requesterId), (q: ItemRequest) => IsOthersRequest(q, requesterId));
  }

  /** `findByIdWithItems`: the request with that id, if any. */
  function FindByIdWithItems(db: Db, requestId: int): (r: Option<ItemRequest>)
    ensures r.None? <==> forall q :: q in db.requests ==> q.id != requestId
    ensures r.Some? ==> r.value in db.requests && r.value.id == requestId
  {
    FindRequest(db, requestId)
  }

  /** With unique keys there is only one request the lookup can return. */
  lemma FindByIdWithItemsIsUnique(db: Db, requestId: int, q: ItemRequest)
    requires Valid(db)
    requires q in db.requests && q.id == requestId
    ensures FindByIdWithItems(db, requestId) == Some(q)
  {
    var found := FindByIdWithItems(db, requestId).value;
    var i :| 0 <= i < |db.requests| && db.requests[i] == q;
    var j :| 0 <= j < |db.requests| && db.requests[j] == found;
    assert !(i < j);
    assert !(j < i);
  }

  /** `existsByIdAndRequesterId`. */
  function ExistsByIdAndRequesterId(db: Db, requestId: int, requesterId: int): (r: bool)
    ensures r <==> exists q :: q in db.requests && q.id == requestId && q.requesterId == requesterId
  {
    exists q | q in db.requests :: q.id == requestId && q.requesterId == requesterId
  }

  /** With unique keys, the existence test agrees with the lookup. */
  lemma ExistsByIdAndRequesterIdIsLookup(db: Db, requestId: int, requesterId: int)
    requires Valid(db)
    ensures ExistsByIdAndRequesterId(db, requestId, requesterId) <==>
              FindByIdWithItems(db, requestId).Some? && FindByIdWithItems(db, requestId).value.requesterId == requesterId
  {
    if ExistsByIdAndRequesterId(db, requestId, requesterId) {
      var q :| q in db.requests && q.id == requestId && q.requesterId == requesterId;
      FindByIdWithItemsIsUnique(db, requestId, q);
    }
  }
}
