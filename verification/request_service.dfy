/** `ItemRequestServiceImpl`: posting an "I need X" request, and reading
    one's own requests, one request, or a page of everybody else's, each
    with the items offered for it. */
module ItemRequestService {
  import opened Common
  import opened Seqs
  import opened Text
  import opened Paging
  import opened Entities
  import opened ItemRepository
  import opened ItemRequestRepository

  /** The longest description accepted, in UTF-16 code units after trimming. */
  const MaxDescriptionLength := 2000

  /** `validateDescription`: missing or empty after trimming, then longer
      than the limit after trimming. */
  function ValidateDescription(description: Option<string>): (r: Outcome)
    ensures r == Pass <==> description.Some? && 0 < Utf16Length(Trim(description.value)) <= MaxDescriptionLength
    ensures description.None? || Trim(description.value) == [] ==> r == Fail(Validation(BlankDescription))
    ensures description.Some? && Trim(description.value) != [] && Utf16Length(Trim(description.value)) > MaxDescriptionLength ==>
              r == Fail(Validation(DescriptionTooLong))
  {
    if description.None? || Trim(description.value) == [] then Fail(Validation(BlankDescription))
    else if Utf16Length(Trim(description.value)) > MaxDescriptionLength then Fail(Validation(DescriptionTooLong))
    else Pass
  }

  /** A description made only of characters up to U+0020 (spaces, tabs,
      line breaks, other controls) is rejected as blank. */
  lemma TrimmableOnlyIsBlank(d: string)
    requires AllTrimmable(d)
    ensures ValidateDescription(Some(d)) == Fail(Validation(BlankDescription))
  {
    TrimAllTrimmable(d);
  }

  /** `trim` strips only characters up to U+0020, so a description of one
      em space (U+2003), which Java counts as whitespace, is accepted. */
  lemma UnicodeSpaceIsNotBlank()
    ensures IsBlank("\U{2003}")
    ensures ValidateDescription(Some("\U{2003}")) == Pass
  {
    assert [] + "\U{2003}" + [] == "\U{2003}";
    TrimPadded([], "\U{2003}", []);
  }

  /** The limit is inclusive and applies after trimming: surrounding
      spaces do not count. */
  lemma LengthLimitAfterTrim(core: string)
    requires |core| > 0 && !IsTrimmable(core[0]) && !IsTrimmable(core[|core| - 1])
    ensures ValidateDescription(Some(" " + core + " ")).Pass? <==> Utf16Length(core) <= MaxDescriptionLength
  {
    TrimPadded(" ", core, " ");
  }

  /** The limit counts UTF-16 code units: 1001 emoji (each a surrogate pair)
      are 2002 units and too long, although they are only 1001 characters. */
  lemma SurrogatePairsCountTwice()
    ensures var d := seq(1001, _ => '\U{1F642}');
            |d| <= MaxDescriptionLength
            && ValidateDescription(Some(d)) == Fail(Validation(DescriptionTooLong))
  {
    var d := seq(1001, _ => '\U{1F642}');
    assert d + [] == d && [] + d == d;
    assert [] + d + [] == d;
    TrimPadded([], d, []);
    Utf16LengthOfAstral(d);
  }

  // ---------------------------------------------------------------------
  // Views
  // ---------------------------------------------------------------------

  /** `ItemRequestDto.ItemDto`: an offered item, with its request id or none. */
  datatype ItemSummary = ItemSummary(id: int, name: string, description: string, available: bool, requestId: Option<int>)

  function Summary(it: Item): (s: ItemSummary)
    ensures s.id == it.id && s.name == it.name && s.description == it.description
    ensures s.available == it.available && s.requestId == it.requestId
  {
    ItemSummary(it.id, it.name, it.description, it.available, it.requestId)
  }

  /** `mapItems`: a missing or empty list gives no summaries; otherwise one
      summary per item, in order. */
  function MapItems(items: Option<seq<Item>>): (r: seq<ItemSummary>)
    ensures items.None? ==> r == []
    ensures items.Some? ==> |r| == |items.value|
    ensures items.Some? ==> forall i :: 0 <= i < |r| ==>
              r[i].id == items.value[i].id && r[i].requestId == items.value[i].requestId
              && r[i].name == items.value[i].name && r[i].description == items.value[i].description
              && r[i].available == items.value[i].available
  {
    if items.None? || items.value == [] then []
    else seq(|items.value|, i requires 0 <= i < |items.value| => Summary(items.value[i]))
  }

  /** `ItemRequestDto`: the request with the items offered for it. */
  datatype RequestView = RequestView(request: ItemRequest, items: seq<ItemSummary>)

  function ViewCreatedOf(v: RequestView): int { v.request.created }

  /** A request as shown: its answers are the items that name it. */
  function ViewOf(db: Db, q: ItemRequest): (v: RequestView)
    ensures v.request == q
    ensures forall s :: s in v.items ==> s.requestId == Some(q.id)
    ensures forall it :: it in db.items && it.requestId == Some(q.id) ==> Summary(it) in v.items
    ensures forall s :: s in v.items ==> exists it :: it in db.items && it.requestId == Some(q.id) && s == Summary(it)
    ensures |v.items| == |FindByRequestId(db, q.id)|
  {
    var items := FindByRequestId(db, q.id);
    var v := RequestView(q, MapItems(Some(items)));
    assert forall s :: s in v.items ==> exists it :: it in items && s == Summary(it) by {
      forall s | s in v.items
        ensures exists it :: it in items && s == Summary(it)
      {
        var i :| 0 <= i < |v.items| && v.items[i] == s;
        assert items[i] in items && s == Summary(items[i]);
      }
    }
    assert forall it :: it in items ==> Summary(it) in v.items by {
      forall it | it in items
        ensures Summary(it) in v.items
      {
        var i :| 0 <= i < |items| && items[i] == it;
        assert v.items[i] == Summary(it);
      }
    }
    v
  }

  /** The view of each row, in row order. */
  function ViewsOf(db: Db, rows: seq<ItemRequest>): (r: seq<RequestView>)
    ensures |r| == |rows|
    ensures forall i :: 0 <= i < |r| ==> r[i] == ViewOf(db, rows[i])
  {
    seq(|rows|, i requires 0 <= i < |rows| => ViewOf(db, rows[i]))
  }

  /** The views are exactly the views of the rows. */
  lemma ViewsOfMembers(db: Db, rows: seq<ItemRequest>)
    ensures forall v :: v in ViewsOf(db, rows) ==> v.request in rows && v == ViewOf(db, v.request)
    ensures forall q :: q in rows ==> ViewOf(db, q) in ViewsOf(db, rows)
  {
    var r := ViewsOf(db, rows);
    forall v | v in r
      ensures v.request in rows && v == ViewOf(db, v.request)
    {
      var i :| 0 <= i < |r| && r[i] == v;
      assert v.request == rows[i];
    }
    forall q | q in rows
      ensures ViewOf(db, q) in r
    {
      var i :| 0 <= i < |rows| && rows[i] == q;
      assert r[i] == ViewOf(db, q);
    }
  }

  /** Viewing keeps the rows' order by creation time. */
  lemma ViewsOfSorted(db: Db, rows: seq<ItemRequest>)
    requires SortedDesc(rows, CreatedOf)
    ensures SortedDesc(ViewsOf(db, rows), ViewCreatedOf)
  {
    var r := ViewsOf(db, rows);
    forall i, j | 0 <= i < j < |r|
      ensures ViewCreatedOf(r[i]) >= ViewCreatedOf(r[j])
    {
      assert CreatedOf(rows[i]) >= CreatedOf(rows[j]);
    }
  }

  // ---------------------------------------------------------------------
  // Operations
  // ---------------------------------------------------------------------

  /** `createRequest`: user, then description; the request is saved with
      the description as sent (untrimmed), stamped `now`, with no items. */
  function CreateRequest(db: Db, requesterId: int, description: Option<string>, now: int): (r: Result<(Db, RequestView)>)
    ensures !UserExists(db, requesterId) ==> r == Err(NotFound(NoSuchUser))
    ensures UserExists(db, requesterId) && ValidateDescription(description).Fail? ==>
              r == Err(ValidateDescription(description).error)
    ensures r.Ok? <==> UserExists(db, requesterId) && ValidateDescription(description) == Pass
    ensures r.Ok? ==> var (db', v) := r.value;
                      && db'.requests == db.requests + [v.request]
                      && db' == db.(requests := db'.requests, nextRequestId := db.nextRequestId + 1)
                      && v.request == ItemRequest(db.nextRequestId, description.value, requesterId, now)
                      && v.items == []
  {
    var requester :- GetUserOrThrow(db, requesterId);
    match ValidateDescription(description)
    case Fail(e) => Err(e)
    case Pass =>
      var q := ItemRequest(db.nextRequestId, description.value, requesterId, now);
      Ok((db.(requests := db.requests + [q], nextRequestId := db.nextRequestId + 1), RequestView(q, [])))
  }

  lemma CreateRequestPreservesValid(db: Db, requesterId: int, description: Option<string>, now: int)
    requires Valid(db)
    requires CreateRequest(db, requesterId, description, now).Ok?
    ensures Valid(CreateRequest(db, requesterId, description, now).value.0)
  {
    var (db', v) := CreateRequest(db, requesterId, description, now).value;
    AppendFreshKey(db.requests, v.request, RequestIdOf, db.nextRequestId);
  }

  /** `getUserRequests`: the user's own requests, newest first. */
  function GetUserRequests(db: Db, requesterId: int): (r: Result<seq<RequestView>>)
    ensures r.Err? <==> !UserExists(db, requesterId)
    ensures r.Err? ==> r.error == NotFound(NoSuchUser)
    ensures r.Ok? ==> SortedDesc(r.value, ViewCreatedOf)
    ensures r.Ok? ==> forall v :: v in r.value ==> v.request in db.requests && v.request.requesterId == requesterId && v == ViewOf(db, v.request)
    ensures r.Ok? ==> forall q :: q in db.requests && q.requesterId == requesterId ==> ViewOf(db, q) in r.value
    ensures r.Ok? ==> multiset(r.value) == multiset(ViewsOf(db, FindByRequesterIdWithItems(db, requesterId)))
    ensures r.Ok? ==> |r.value| == |FindByRequesterIdWithItems(db, requesterId)|
  {
    var _ :- GetUserOrThrow(db, requesterId);
    var views := ViewsOf(db, FindByRequesterIdWithItems(db, requesterId));
    ViewsOfMembers(db, FindByRequesterIdWithItems(db, requesterId));
    SortDescMembers(views, ViewCreatedOf);
    Ok(SortDesc(views, ViewCreatedOf))
  }

  /** `getRequestById`: user, then request; any existing user may read any
      request. */
  function GetRequestById(db: Db, requestId: int, userId: int): (r: Result<RequestView>)
    ensures !UserExists(db, userId) ==> r == Err(NotFound(NoSuchUser))
    ensures UserExists(db, userId) && (forall q :: q in db.requests ==> q.id != requestId) ==> r == Err(NotFound(NoSuchRequest))
    ensures r.Ok? <==> UserExists(db, userId) && exists q :: q in db.requests && q.id == requestId
    ensures r.Ok? ==> r.value.request in db.requests && r.value.request.id == requestId && r.value == ViewOf(db, r.value.request)
  {
    var _ :- GetUserOrThrow(db, userId);
    match FindByIdWithItems(db, requestId)
    case None => Err(NotFound(NoSuchRequest))
    case Some(q) => Ok(ViewOf(db, q))
  }

  /** `getAllRequests(userId, from, size)`: user, then paging, then a page
      of everybody else's requests, newest first. */
  function GetAllRequests(db: Db, userId: int, from: Option<int>, size: Option<int>): (r: Result<seq<RequestView>>)
    ensures !UserExists(db, userId) ==> r == Err(NotFound(NoSuchUser))
    ensures UserExists(db, userId) && CreatePageable(from, size).Err? ==> r == Err(CreatePageable(from, size).error)
    ensures r.Ok? <==> UserExists(db, userId) && CreatePageable(from, size).Ok?
    ensures r.Ok? ==> |r.value| <= CreatePageable(from, size).value.size
    ensures r.Ok? ==> SortedDesc(r.value, ViewCreatedOf)
    ensures r.Ok? ==> forall v :: v in r.value ==> v.request in db.requests && v.request.requesterId != userId
    ensures r.Ok? ==> IsPage(r.value, ViewsOf(db, FindAllByRequesterIdNot(db, userId)),
                             CreatePageable(from, size).value.page, CreatePageable(from, size).value.size)
  {
    var _ :- GetUserOrThrow(db, userId);
    var pr :- CreatePageable(from, size);
    var views := ViewsOf(db, FindAllByRequesterIdNot(db, userId));
    ViewsOfSorted(db, FindAllByRequesterIdNot(db, userId));
    ViewsOfMembers(db, FindAllByRequesterIdNot(db, userId));
    PageOfSorted(views, pr.page, pr.size, ViewCreatedOf);
    Ok(Page(views, pr.page, pr.size))
  }

  /** The administrative `getAllRequests()`: every request, newest first. */
  function GetAllRequestsForAdmin(db: Db): (r: seq<RequestView>)
    ensures SortedDesc(r, ViewCreatedOf)
    ensures |r| == |db.requests|
    ensures forall q :: q in db.requests ==> ViewOf(db, q) in r
  {
    var views := ViewsOf(db, db.requests);
    ViewsOfMembers(db, db.requests);
    SortDescMembers(views, ViewCreatedOf);
    SortDesc(views, ViewCreatedOf)
  }
}
