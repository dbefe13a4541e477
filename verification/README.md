# ShareIt booking core in Dafny

ShareIt is a Spring Boot service. Users lend items to one another, book
them for a time span, and leave requests for things nobody offers yet.
This project models the service's decision logic as pure functions over an
immutable database value, and proves properties of it:

- the **booking lifecycle** of `BookingServiceImpl`: create, approve or
  reject, read one, and list by booker or by owner with a state filter and
  offset paging;
- the **time windows and lookups** of `BookingRepository`: current, past and
  future; the overlap test; last and next approved booking, single and
  batch; comment eligibility; the owner's current booking;
- the bean-validation rules of the booking request body `BookingDto`;
- `ItemServiceImpl`'s item creation, the owner-only update, reading an item
  (the booking summary is shown to the owner only), the owner's item list,
  the blank-aware text search and the comment gate;
- `ItemRequestServiceImpl`'s description check, paging, and its own, others'
  and all requests, together with the queries of `ItemRequestRepository`
  and `ItemRepository`;
- the e-mail, name and active-booking queries of `UserRepository`;
- the in-memory user directory of `UserServiceImpl`.

Timestamps are integers. The current instant `now` is a parameter. A
database (`Entities.Db`) holds one sequence per table and one id counter
per table; `Entities.Valid` says every table's keys are unique and below
its counter. Every operation returns either the new database or the error
the first failing check raises, so a failed operation writes nothing.

Modules, one per source unit:

| module | file | models |
|---|---|---|
| `Common` | common.dfy | `Option`, `Result`, the error kinds |
| `Seqs` | seqs.dfy | filtering, `ORDER BY ... DESC` as a stable sort, `PageRequest` slicing |
| `Text` | text.dfy | `String.isBlank`, `String.trim`, `LOWER`, JPQL `LIKE` |
| `Paging` | paging.dfy | `createPageable` and `validatePaginationParameters` |
| `Entities` | entities.dfy | the tables, the lookups by id, database integrity |
| `BookingRepository` | booking_repository.dfy | `BookingRepository` and its Finding |
| `BookingRequests` | booking_dto.dfy | `BookingDto` |
| `BookingService` | booking_service.dfy | `BookingServiceImpl` |
| `ItemRepository` | item_repository.dfy | `ItemRepository`, `CommentRepository.findByItemIdWithAuthor` |
| `ItemService` | item_service.dfy | `ItemServiceImpl` |
| `ItemRequestRepository` | request_repository.dfy | `ItemRequestRepository` |
| `ItemRequestService` | request_service.dfy | `ItemRequestServiceImpl` |
| `UserRepository` | user_repository.dfy | `UserRepository` |
| `UserService` | user_service.dfy | `UserServiceImpl` |

## Where the code and its design description disagree

The model follows the code in every case below.

- **No overlap check on create.** The design says `create` rejects a
  booking that overlaps a WAITING or APPROVED one. The code never consults
  the overlap query. `BookingService.CreateIgnoresExistingBookings` and
  `BookingService.CreateAcceptsOverlappingBooking` prove this.
- **Closed intervals, APPROVED only.** The design's overlap test is
  half-open and counts WAITING bookings. The query counts APPROVED bookings
  only, and its three disjuncts are the closed-interval test
  (`BookingRepository.OverlapIsClosedIntersection`), so touching intervals
  overlap.
- **Different error kinds.** The design names Conflict and Forbidden where
  the code raises these:
  - an unavailable item is BadRequest;
  - self-booking is NotFound;
  - a booking that was already decided is BadRequest;
  - a third party who reads a booking gets NotFound.
- **The in-memory user service does not match its interface.**
  `UserServiceImpl` declares `implements UserService` but defines `create`,
  `update`, `getById`, `getAll` and `delete`. The interface declares
  `createUser`, `updateUser`, `getUserById`, `getAllUsers`, `deleteUser`,
  `existsById` and `getUserByEmail`. It also calls static
  `UserMapper.toUser` and `UserMapper.toDto`, which the MapStruct interface
  `UserMapper` does not offer (it has instance methods `toEntity` and
  `toDto`). So the class does not compile as written. `UserService` models
  the behaviour of its method bodies and assumes the mappers only copy
  fields.

## Model

| member | source | states |
|---|---|---|
| Entities.GetUserOrThrow | src/main/java/ru/practicum/shareit/booking/service/BookingServiceImpl.java:178-181 | a user is returned iff one with that id exists; otherwise NotFound. The item and request services look users up the same way |
| Entities.GetItemOrThrow | src/main/java/ru/practicum/shareit/booking/service/BookingServiceImpl.java:183-186 | an item is returned iff one with that id exists; otherwise NotFound |
| BookingService.GetBookingOrThrow | src/main/java/ru/practicum/shareit/booking/service/BookingServiceImpl.java:188-191 | a booking position is returned iff a booking with that id exists, and the row there has that id; otherwise NotFound |
| BookingService.ValidateBookingCreation | src/main/java/ru/practicum/shareit/booking/service/BookingServiceImpl.java:193-209 | passes iff the item is available, the booker is not the owner and start < end. The first failing check names the error: unavailable (BadRequest), self-booking (NotFound), end before start, end equal to start |
| BookingService.Create | src/main/java/ru/practicum/shareit/booking/service/BookingServiceImpl.java:40-57 | user, then item, then validation, and the first failure decides the error. Success iff all pass. On success exactly one WAITING booking with the next id and the given start, end, item and booker is appended, and no other table or row changes |
| BookingService.Submit | src/main/java/ru/practicum/shareit/booking/dto/BookingDto.java:17-26 | a body with any constraint violation is rejected before the service runs; a valid body is handed to `create` unchanged |
| BookingService.SubmittedBookingIsWellFormed | src/main/java/ru/practicum/shareit/booking/service/BookingServiceImpl.java:202-208 | a booking accepted through the HTTP entry point satisfies now <= start < end and is WAITING |
| BookingService.CreatePreservesValid | src/main/java/ru/practicum/shareit/booking/service/BookingServiceImpl.java:46-53 | a successful create keeps every table's keys unique and below their counters |
| BookingService.CreateIgnoresExistingBookings | src/main/java/ru/practicum/shareit/booking/service/BookingServiceImpl.java:40-57 | whether create succeeds does not depend on the bookings already stored |
| BookingService.CreateAcceptsOverlappingBooking | src/main/java/ru/practicum/shareit/booking/service/BookingServiceImpl.java:193-209 | a request that the overlap query reports as overlapping an APPROVED booking is still accepted |
| BookingService.UpdateStatus | src/main/java/ru/practicum/shareit/booking/service/BookingServiceImpl.java:61-79 | missing booking gives NotFound, then a non-owner gets Forbidden, then a decided booking gets BadRequest. Success iff the caller owns the item and the booking is WAITING. The new status is APPROVED iff `approved`, else REJECTED |
| BookingService.UpdateStatusChangesOnlyThatStatus | src/main/java/ru/practicum/shareit/booking/service/BookingServiceImpl.java:72-73 | a decision rewrites only the status field of that one booking; every other row and table is unchanged |
| BookingService.UpdateStatusPreservesValid | src/main/java/ru/practicum/shareit/booking/service/BookingServiceImpl.java:72-73 | a decision keeps the database's key integrity |
| BookingService.DecisionIsFinal | src/main/java/ru/practicum/shareit/booking/service/BookingServiceImpl.java:68-70 | after a successful decision every further decision on that booking fails, whoever makes it; the owner is told the status is already set |
| BookingService.GetById | src/main/java/ru/practicum/shareit/booking/service/BookingServiceImpl.java:82-91 | missing booking gives NotFound. Otherwise the booking is returned iff the caller is its booker or its item's owner; anyone else gets NotFound |
| BookingService.GetByIdVisibility | src/main/java/ru/practicum/shareit/booking/service/BookingServiceImpl.java:85-88 | with unique keys, reading a stored booking succeeds iff the caller is its booker or its item's owner, and returns that very booking |
| BookingService.WindowOf | src/main/java/ru/practicum/shareit/booking/service/BookingServiceImpl.java:104-125 | WAITING and REJECTED map to status equality, ALL maps to no filter, and CURRENT, PAST and FUTURE map to the current, past and future windows, each state to a different filter |
| BookingService.StateListings | src/main/java/ru/practicum/shareit/booking/service/BookingServiceImpl.java:104-125 | for a stored booking in scope: CURRENT lists it iff start < now < end, PAST iff end < now, FUTURE iff start > now, WAITING and REJECTED iff it has that status, and ALL always |
| BookingService.Listing | src/main/java/ru/practicum/shareit/booking/service/BookingServiceImpl.java:98-99 | exactly the bookings in scope and in the window, each as often as it is stored (no extra copies), sorted by start, latest first |
| BookingService.ListBookings | src/main/java/ru/practicum/shareit/booking/service/BookingServiceImpl.java:94-130 | an unknown user gives NotFound before any query. Otherwise the result is page `from / size` of the sorted listing, at most `size` rows. It is sorted by start descending and holds only in-scope bookings in the window |
| BookingService.GetAllByBooker | src/main/java/ru/practicum/shareit/booking/service/BookingServiceImpl.java:94-130 | fails iff the user is unknown; every row returned was made by that booker and lies in the state's window |
| BookingService.GetAllByOwner | src/main/java/ru/practicum/shareit/booking/service/BookingServiceImpl.java:133-169 | fails iff the user is unknown; every row returned is on one of that owner's items and lies in the state's window |
| BookingService.PagesTileListing | src/main/java/ru/practicum/shareit/booking/service/BookingServiceImpl.java:98-99 | the pages fetched with from = 0, size, 2*size, ..., laid end to end, are exactly the first count*size rows of the listing: no gap, no repetition |
| BookingService.FetchedPageIsPage | src/main/java/ru/practicum/shareit/booking/service/BookingServiceImpl.java:98-99 | asking with from = k*size returns page k of the listing |
| BookingService.GetBookingsForItem | src/main/java/ru/practicum/shareit/booking/service/BookingServiceImpl.java:172-176 | exactly the item's bookings, each as often as stored, sorted by start, latest first |
| BookingRepository.Select | src/main/java/ru/practicum/shareit/booking/repository/BookingRepository.java:24-62 | a listing query returns exactly the stored bookings in scope and window, each as often as stored |
| BookingRepository.WindowsDisjoint | src/main/java/ru/practicum/shareit/booking/repository/BookingRepository.java:29-42 | no booking is both current and past, or both current and future; one that is both past and future has end < start |
| BookingRepository.WindowsCoverAllButBounds | src/main/java/ru/practicum/shareit/booking/repository/BookingRepository.java:29-42 | for start < end a booking is in some window iff now is neither its start nor its end |
| BookingRepository.StartingNowIsInNoWindow | src/main/java/ru/practicum/shareit/booking/repository/BookingRepository.java:29-42 | a booking starting exactly now is listed under ALL but under none of CURRENT, FUTURE, PAST |
| BookingRepository.ForItem | src/main/java/ru/practicum/shareit/booking/repository/BookingRepository.java:20 | exactly the bookings of that item |
| BookingRepository.OverlapIsClosedIntersection | src/main/java/ru/practicum/shareit/booking/repository/BookingRepository.java:144-146 | for well-formed intervals the three disjuncts hold iff b.start <= end and b.end >= start |
| BookingRepository.ExistsOverlappingBooking | src/main/java/ru/practicum/shareit/booking/repository/BookingRepository.java:141-149 | true only if the item has an APPROVED booking. For well-formed intervals it is true iff some APPROVED booking of the item meets [start, end] |
| BookingRepository.OverlapIgnoresUnapproved | src/main/java/ru/practicum/shareit/booking/repository/BookingRepository.java:143 | adding a booking that is not APPROVED never changes the overlap answer |
| Common.SingleResult | src/main/java/ru/practicum/shareit/booking/repository/BookingRepository.java:74-76 | an `Optional` query yields empty for no row, the row for one, and an error for several |
| BookingRepository.LastCandidates | src/main/java/ru/practicum/shareit/booking/repository/BookingRepository.java:69-73 | exactly the APPROVED bookings of the item that ended before now |
| BookingRepository.NextCandidates | src/main/java/ru/practicum/shareit/booking/repository/BookingRepository.java:79-83 | exactly the APPROVED bookings of the item that start after now |
| BookingRepository.FindLastBookingAsWritten | src/main/java/ru/practicum/shareit/booking/repository/BookingRepository.java:69-76 | empty iff no candidate; a returned row is a candidate; an error iff there are two or more candidates |
| BookingRepository.FindNextBookingAsWritten | src/main/java/ru/practicum/shareit/booking/repository/BookingRepository.java:79-86 | empty iff no candidate; a returned row is a candidate; an error iff there are two or more candidates |
| BookingRepository.LastBooking | src/main/java/ru/practicum/shareit/booking/repository/BookingRepository.java:69-73 | none iff no APPROVED booking of the item ended before now; otherwise such a booking whose end is the latest |
| BookingRepository.NextBooking | src/main/java/ru/practicum/shareit/booking/repository/BookingRepository.java:79-83 | none iff no APPROVED booking of the item starts after now; otherwise such a booking whose start is the earliest |
| BookingRepository.LastAsWrittenAgreesWhenUnique | src/main/java/ru/practicum/shareit/booking/repository/BookingRepository.java:69-76 | wherever the query as written returns, it returns the intended last booking |
| BookingRepository.NextAsWrittenAgreesWhenUnique | src/main/java/ru/practicum/shareit/booking/repository/BookingRepository.java:79-86 | wherever the query as written returns, it returns the intended next booking |
| BookingRepository.LastAsWrittenFailsOnTwoRentals | src/main/java/ru/practicum/shareit/booking/repository/BookingRepository.java:69-76 | with two past rentals of one item the query as written fails, while the intended answer is the rental that ended last |
| BookingRepository.LatestOfTwoPastRentals | src/main/java/ru/practicum/shareit/booking/repository/BookingRepository.java:69-73 | of two past rentals, the one ending at 50 is the last booking, not the one ending at 20 |
| BookingRepository.NextAsWrittenFailsOnTwoRentals | src/main/java/ru/practicum/shareit/booking/repository/BookingRepository.java:79-86 | with two future rentals of one item the query as written fails, while the intended answer is the rental that starts first |
| BookingRepository.EarliestOfTwoFutureRentals | src/main/java/ru/practicum/shareit/booking/repository/BookingRepository.java:79-83 | of two future rentals, the one starting at 10 is the next booking, not the one starting at 30 |
| BookingRepository.ExampleDatabasesAreValid | src/main/java/ru/practicum/shareit/booking/repository/BookingRepository.java:69-86 | the two example databases used in the counterexamples satisfy key integrity, so the failures are not artefacts of a broken table |
| BookingRepository.FindLastBookingsForItems | src/main/java/ru/practicum/shareit/booking/repository/BookingRepository.java:89-101 | exactly the qualifying bookings whose id is the greatest id among qualifying bookings of the same item |
| BookingRepository.FindNextBookingsForItems | src/main/java/ru/practicum/shareit/booking/repository/BookingRepository.java:104-116 | exactly the qualifying bookings whose id is the least id among qualifying bookings of the same item |
| BookingRepository.LastBatchPicksGreatestId | src/main/java/ru/practicum/shareit/booking/repository/BookingRepository.java:93-98 | no qualifying booking of the same item has a greater id than the one returned |
| BookingRepository.NextBatchPicksLeastId | src/main/java/ru/practicum/shareit/booking/repository/BookingRepository.java:108-113 | no qualifying booking of the same item has a smaller id than the one returned |
| BookingRepository.LastBatchOnePerItem | src/main/java/ru/practicum/shareit/booking/repository/BookingRepository.java:89-101 | with unique keys, the batch returns at most one booking per item |
| BookingRepository.NextBatchOnePerItem | src/main/java/ru/practicum/shareit/booking/repository/BookingRepository.java:104-116 | with unique keys, the batch returns at most one booking per item |
| BookingRepository.LastBatchCoversItems | src/main/java/ru/practicum/shareit/booking/repository/BookingRepository.java:89-101 | every requested item with a qualifying booking gets a row |
| BookingRepository.NextBatchCoversItems | src/main/java/ru/practicum/shareit/booking/repository/BookingRepository.java:104-116 | every requested item with a qualifying booking gets a row |
| BookingRepository.SameIdSameBooking | src/main/java/ru/practicum/shareit/booking/repository/BookingRepository.java:17 | booking ids are primary keys: two stored bookings with one id are the same booking |
| BookingRepository.BatchLastMayDifferFromLast | src/main/java/ru/practicum/shareit/booking/repository/BookingRepository.java:89-101 | the batch picks the later-created rental that ended earlier, and leaves out the one the single-item query intends |
| BookingRepository.MaxIdOfTwoPastRentals | src/main/java/ru/practicum/shareit/booking/repository/BookingRepository.java:94-98 | in the example, the sub-query yields id 2 and not id 1 |
| BookingRepository.FindFinishedRentals | src/main/java/ru/practicum/shareit/booking/repository/BookingRepository.java:65-66 | exactly the bookings of that item, booker and status that ended before the given instant |
| BookingRepository.CanComment | src/main/java/ru/practicum/shareit/booking/repository/BookingRepository.java:121-128 | true iff the user has an APPROVED booking of the item that ended before now |
| BookingRepository.CanCommentIffFinishedRental | src/main/java/ru/practicum/shareit/booking/repository/BookingRepository.java:65-66 | the count query and the list query agree on who may comment |
| BookingRepository.FindCurrentBookingForItemByOwner | src/main/java/ru/practicum/shareit/booking/repository/BookingRepository.java:130-138 | empty iff no APPROVED booking of that item contains now, both ends included. A row returned belongs to an item the owner owns. An item of another owner gives empty. The query fails iff two or more bookings match |
| BookingRepository.OwnersCurrentIsOverlapAtNow | src/main/java/ru/practicum/shareit/booking/repository/BookingRepository.java:130-149 | for the item's owner and bookings with start <= end, the owner's current booking exists iff the overlap query reports a booking meeting [now, now] |
| BookingRequests.Violations | src/main/java/ru/practicum/shareit/booking/dto/BookingDto.java:17-26 | only the five annotations can be violated; a missing time violates its `@NotNull` and not also its time constraint |
| BookingRequests.ValidIff | src/main/java/ru/practicum/shareit/booking/dto/BookingDto.java:17-26 | a body is valid iff all three fields are present, start >= now and end > now |
| BookingRequests.PresentStartAcceptedPresentEndRejected | src/main/java/ru/practicum/shareit/booking/dto/BookingDto.java:21-25 | start == now passes; end == now violates exactly the `@Future` constraint |
| BookingRequests.EndBeforeStartPassesValidation | src/main/java/ru/practicum/shareit/booking/dto/BookingDto.java:20-26 | the fields are checked one by one: an end before the start passes bean validation |
| Paging.ValidatePaginationParameters | src/main/java/ru/practicum/shareit/item/service/ItemServiceImpl.java:240-248 | passes iff from >= 0 and size > 0; a negative from is reported before a bad size |
| Paging.PageContaining | src/main/java/ru/practicum/shareit/item/service/ItemServiceImpl.java:237 | the page number is the one whose rows contain offset from: page*size <= from < (page+1)*size |
| Paging.CreatePageable | src/main/java/ru/practicum/shareit/item/service/ItemServiceImpl.java:231-238 | nulls default to 0 and 10. Success iff the effective from >= 0 and size > 0, with the error order above. The page contains offset from |
| Paging.DefaultPage | src/main/java/ru/practicum/shareit/item/service/ItemServiceImpl.java:232-233 | no parameters give page 0 of size 10 |
| Paging.PageAliasing | src/main/java/ru/practicum/shareit/request/ItemRequestServiceImpl.java:143 | every from in [k*size, (k+1)*size) selects page k |
| Paging.OffsetOfPage | src/main/java/ru/practicum/shareit/request/ItemRequestServiceImpl.java:143 | the first offset of page k selects page k |
| Seqs.Filter | src/main/java/ru/practicum/shareit/item/repository/ItemRepository.java:16-19 | a WHERE clause keeps exactly the rows satisfying it, never more often than stored, and no more rows than it was given |
| Seqs.FilterPartition | src/main/java/ru/practicum/shareit/request/ItemRequestRepository.java:20-44 | filtering by a predicate and by its negation splits the rows with neither overlap nor gap |
| Seqs.SortDesc | src/main/java/ru/practicum/shareit/booking/repository/BookingRepository.java:20 | `ORDER BY key DESC` is a permutation of the rows with non-increasing keys |
| Seqs.InsertDescSorted | src/main/java/ru/practicum/shareit/booking/repository/BookingRepository.java:20 | inserting a row into a sorted result keeps it sorted |
| Seqs.Page | src/main/java/ru/practicum/shareit/item/service/ItemServiceImpl.java:237 | `PageRequest.of(page, size)` selects the rows from offset page*size, at most size of them |
| Seqs.PagesTile | src/main/java/ru/practicum/shareit/request/ItemRequestServiceImpl.java:143 | the first count pages laid end to end are the first count*size rows |
| Text.Trim | src/main/java/ru/practicum/shareit/request/ItemRequestServiceImpl.java:128-132 | what trim leaves neither starts nor ends with a character up to U+0020 |
| Text.TrimIsInfix | src/main/java/ru/practicum/shareit/request/ItemRequestServiceImpl.java:128-132 | what trim leaves is an infix of the text, and every character cut off is at most U+0020 |
| Text.TrimPadded | src/main/java/ru/practicum/shareit/item/service/ItemServiceImpl.java:168 | trimming a padded text that neither starts nor ends with a trimmable character gives back that text |
| Text.LikeIsContains | src/main/java/ru/practicum/shareit/item/repository/ItemRepository.java:22-26 | `s LIKE '%' + n + '%'` with a wildcard-free n holds iff n occurs in s |
| ItemRepository.SearchAvailableItems | src/main/java/ru/practicum/shareit/item/repository/ItemRepository.java:22-26 | exactly the stored items that are available and match the pattern on name or description |
| ItemRepository.SearchIsSubstring | src/main/java/ru/practicum/shareit/item/repository/ItemRepository.java:22-26 | for a wildcard-free text, an item is found iff it is available and the lower-cased text occurs in its lower-cased name or description |
| ItemRepository.EmptyTextMatchesAllAvailable | src/main/java/ru/practicum/shareit/item/repository/ItemRepository.java:22-26 | the empty text finds every available item |
| ItemRepository.FindByOwnerId | src/main/java/ru/practicum/shareit/item/repository/ItemRepository.java:19 | exactly the items of that owner |
| ItemRepository.FindByOwnerIdPaged | src/main/java/ru/practicum/shareit/item/repository/ItemRepository.java:16 | page `page` of the owner's items by ascending id: at most size items, all the owner's, ids non-decreasing |
| ItemRepository.FindByRequestId | src/main/java/ru/practicum/shareit/item/repository/ItemRepository.java:29 | exactly the items offered for that request |
| ItemRepository.FindByRequestIdIn | src/main/java/ru/practicum/shareit/item/repository/ItemRepository.java:32 | exactly the items offered for one of those requests |
| ItemRepository.ExistsByIdAndOwnerId | src/main/java/ru/practicum/shareit/item/repository/ItemRepository.java:35 | true iff a stored item has that id and that owner |
| ItemRepository.ExistsByIdAndOwnerIdIsOwnership | src/main/java/ru/practicum/shareit/item/repository/ItemRepository.java:35 | with unique keys, the existence test agrees with the owner of the item found by id |
| ItemRepository.SameIdSameItem | src/main/java/ru/practicum/shareit/item/repository/ItemRepository.java:11 | item ids are primary keys |
| ItemRepository.CommentsForItem | src/main/java/ru/practicum/shareit/item/repository/CommentRepository.java:24-27 | exactly the item's comments, each as often as it is stored (no extra copies), newest first |
| ItemService.CreateItem | src/main/java/ru/practicum/shareit/item/service/ItemServiceImpl.java:45-65 | owner, then request id, checked in that order. On success one item with the next id and the given fields and owner is appended, and nothing else changes |
| ItemService.CreateItemPreservesValid | src/main/java/ru/practicum/shareit/item/service/ItemServiceImpl.java:61 | creating an item keeps key integrity |
| ItemService.ApplyPatch | src/main/java/ru/practicum/shareit/item/service/ItemServiceImpl.java:83 | a present field overwrites the old value and an absent field keeps it; id, owner and request never change |
| ItemService.UpdateItem | src/main/java/ru/practicum/shareit/item/service/ItemServiceImpl.java:69-90 | missing item gives NotFound, a non-owner gets AccessDenied and nothing changes. Success iff the caller owns the item, and then only that item is rewritten |
| ItemService.UpdateItemIdempotent | src/main/java/ru/practicum/shareit/item/service/ItemServiceImpl.java:83-86 | sending the same update twice gives the same database and item as sending it once |
| ItemService.UpdateItemPreservesValid | src/main/java/ru/practicum/shareit/item/service/ItemServiceImpl.java:83-86 | an update keeps key integrity |
| ItemService.ViewFor | src/main/java/ru/practicum/shareit/item/service/ItemServiceImpl.java:97-111 | the view shows every comment on the item, each as often as it is stored, newest first. A non-owner sees no bookings. For the owner the last booking is absent iff the item has no APPROVED booking that has ended, and otherwise is one with the greatest end; the next booking is absent iff none starts later, and otherwise is one with the least start |
| ItemService.GetItemById | src/main/java/ru/practicum/shareit/item/service/ItemServiceImpl.java:93-112 | NotFound iff the item is missing. The owner sees the last and next booking; everybody else sees neither. Everyone sees every comment on the item, each as often as it is stored, newest first |
| ItemService.OwnerAndVisitorSeeSameItem | src/main/java/ru/practicum/shareit/item/service/ItemServiceImpl.java:103-111 | owner and visitor see the same item and comments; they differ at most in the booking summary |
| ItemService.OwnerViews | src/main/java/ru/practicum/shareit/item/service/ItemServiceImpl.java:139-152 | one view per item, in order, carrying the owner's last and next booking of that item and every comment on that item, newest first, each once per stored row |
| ItemService.OwnerItemsPage | src/main/java/ru/practicum/shareit/item/service/ItemServiceImpl.java:122-152 | the items shown are page `page` of the owner's items by ascending id, each with its last and next booking and its comments newest first, each once per stored row |
| ItemService.GetOwnerItems | src/main/java/ru/practicum/shareit/item/service/ItemServiceImpl.java:115-153 | unknown owner gives NotFound before paging is validated. Success iff both pass. The result is a page of the owner's items by ascending id, each with its last and next booking and exactly its comments, newest first |
| ItemService.SearchItems | src/main/java/ru/practicum/shareit/item/service/ItemServiceImpl.java:156-174 | a missing or blank text yields no items without looking at paging. Otherwise it succeeds iff paging is valid, paging errors propagate, and the result is a page of the search for the trimmed text, holding available items only |
| ItemService.BlankSearchIgnoresPaging | src/main/java/ru/practicum/shareit/item/service/ItemServiceImpl.java:160-162 | blank text answers empty even with invalid paging parameters |
| ItemService.ControlCharacterMatchesEverything | src/main/java/ru/practicum/shareit/item/service/ItemServiceImpl.java:160-168 | a text of one U+0001 is not blank, trims to empty, and so matches every available item |
| ItemService.AddComment | src/main/java/ru/practicum/shareit/item/service/ItemServiceImpl.java:178-201 | author, then item, then eligibility; the first failure decides the error and nothing is saved. On success one comment with the next id, stamped now, is appended |
| ItemService.CommentAuthorRentedItem | src/main/java/ru/practicum/shareit/item/service/ItemServiceImpl.java:188-192 | the author of a saved comment has an APPROVED booking of the item that ended before the comment's time |
| ItemService.AddCommentPreservesValid | src/main/java/ru/practicum/shareit/item/service/ItemServiceImpl.java:197 | adding a comment keeps key integrity |
| ItemService.GetItemsByRequestId | src/main/java/ru/practicum/shareit/item/service/ItemServiceImpl.java:204-213 | exactly the items offered for that request |
| ItemRequestRepository.NewestFirst | src/main/java/ru/practicum/shareit/request/ItemRequestRepository.java:21 | `ORDER BY ir.created DESC`: same rows, same multiplicities, newest first |
| ItemRequestRepository.FindByRequesterIdWithItems | src/main/java/ru/practicum/shareit/request/ItemRequestRepository.java:42-46 | exactly the user's own requests, newest first |
| ItemRequestRepository.FindAllByRequesterIdNot | src/main/java/ru/practicum/shareit/request/ItemRequestRepository.java:19-22 | exactly the other users' requests, newest first |
| ItemRequestRepository.OwnAndOthersPartition | src/main/java/ru/practicum/shareit/request/ItemRequestRepository.java:20-44 | the two queries together hold every request as often as stored, and no request is in both |
| ItemRequestRepository.FindByIdWithItems | src/main/java/ru/practicum/shareit/request/ItemRequestRepository.java:31-34 | empty iff no request has that id; otherwise a stored request with that id |
| ItemRequestRepository.FindByIdWithItemsIsUnique | src/main/java/ru/practicum/shareit/request/ItemRequestRepository.java:31-34 | with unique keys the lookup returns the one request with that id |
| ItemRequestRepository.ExistsByIdAndRequesterId | src/main/java/ru/practicum/shareit/request/ItemRequestRepository.java:52 | true iff a stored request has that id and that requester |
| ItemRequestRepository.ExistsByIdAndRequesterIdIsLookup | src/main/java/ru/practicum/shareit/request/ItemRequestRepository.java:52 | with unique keys, the existence test agrees with the requester of the request found by id |
| ItemRequestService.ValidateDescription | src/main/java/ru/practicum/shareit/request/ItemRequestServiceImpl.java:127-135 | passes iff the description is present and its trimmed length in UTF-16 code units, as Java's `length()` counts, is between 1 and 2000. Missing or trimmed-empty is reported before too long |
| ItemRequestService.TrimmableOnlyIsBlank | src/main/java/ru/practicum/shareit/request/ItemRequestServiceImpl.java:128-130 | a description made only of characters up to U+0020 is rejected as blank |
| ItemRequestService.UnicodeSpaceIsNotBlank | src/main/java/ru/practicum/shareit/request/ItemRequestServiceImpl.java:128 | a lone em space counts as whitespace for Java, yet trim keeps it and the description is accepted |
| ItemRequestService.LengthLimitAfterTrim | src/main/java/ru/practicum/shareit/request/ItemRequestServiceImpl.java:132-134 | surrounding spaces do not count towards the limit: a padded description passes iff its core is at most 2000 UTF-16 code units |
| ItemRequestService.SurrogatePairsCountTwice | src/main/java/ru/practicum/shareit/request/ItemRequestServiceImpl.java:132-134 | 1001 characters above U+FFFF are 2002 code units and are rejected as too long |
| ItemRequestService.Summary | src/main/java/ru/practicum/shareit/request/ItemRequestServiceImpl.java:162-168 | the summary copies id, name, description, availability and request id |
| ItemRequestService.MapItems | src/main/java/ru/practicum/shareit/request/ItemRequestServiceImpl.java:156-170 | null gives no summaries; otherwise one summary per item, in order, with the item's fields and its request id or none |
| ItemRequestService.ViewOf | src/main/java/ru/practicum/shareit/request/ItemRequestServiceImpl.java:69 | a request is shown with exactly the items that name it: every such item's summary is there, every summary comes from such an item, and there is one summary per such item |
| ItemRequestService.ViewsOfMembers | src/main/java/ru/practicum/shareit/request/ItemRequestServiceImpl.java:103-105 | the views are exactly the views of the rows |
| ItemRequestService.ViewsOfSorted | src/main/java/ru/practicum/shareit/request/ItemRequestServiceImpl.java:103-105 | viewing keeps the rows' newest-first order |
| ItemRequestService.CreateRequest | src/main/java/ru/practicum/shareit/request/ItemRequestServiceImpl.java:35-55 | user, then description. On success the request is saved with the next id, the description as sent (untrimmed), stamp now and no items, and nothing else changes |
| ItemRequestService.CreateRequestPreservesValid | src/main/java/ru/practicum/shareit/request/ItemRequestServiceImpl.java:51 | creating a request keeps key integrity |
| ItemRequestService.GetUserRequests | src/main/java/ru/practicum/shareit/request/ItemRequestServiceImpl.java:58-72 | unknown user gives NotFound. Otherwise each of the user's requests is shown with its items, newest first, and nothing else; the views are those of the own-requests query row for row as a multiset, with the same count |
| ItemRequestService.GetRequestById | src/main/java/ru/practicum/shareit/request/ItemRequestServiceImpl.java:75-86 | user, then request. Any existing user may read any existing request, shown with its items |
| ItemRequestService.GetAllRequests | src/main/java/ru/practicum/shareit/request/ItemRequestServiceImpl.java:89-106 | user, then paging. The result is a page of the other users' requests, newest first, each with its items |
| ItemRequestService.GetAllRequestsForAdmin | src/main/java/ru/practicum/shareit/request/ItemRequestServiceImpl.java:109-118 | every request, shown with its items, newest first |
| UserRepository.FindByEmail | src/main/java/ru/practicum/shareit/user/UserRepository.java:18 | empty iff no user has exactly that e-mail; a user returned has it; an error iff two or more users have it |
| UserRepository.ExistsByEmailAndIdNot | src/main/java/ru/practicum/shareit/user/UserRepository.java:24-27 | true iff some user other than the given id has exactly that e-mail |
| UserRepository.EmailTakenByOtherOrSelf | src/main/java/ru/practicum/shareit/user/UserRepository.java:18-27 | `findByEmail` finds somebody iff another user holds the address or the user itself does |
| UserRepository.OwnEmailIsNoClash | src/main/java/ru/practicum/shareit/user/UserRepository.java:18-27 | a user's own address, held by nobody else, is no clash, though `findByEmail` finds it |
| UserRepository.ExistsByEmailIgnoreCase | src/main/java/ru/practicum/shareit/user/UserRepository.java:21 | true iff some user's e-mail equals the argument up to case |
| UserRepository.IgnoreCaseProperties | src/main/java/ru/practicum/shareit/user/UserRepository.java:18-21 | the answer does not depend on the argument's case, and every address `findByEmail` finds is found |
| UserRepository.CaseOnlyDifference | src/main/java/ru/practicum/shareit/user/UserRepository.java:18-21 | for addresses differing in case only, the exact lookup finds nobody where the case-insensitive test finds the user |
| UserRepository.FindByNameContainingIgnoreCase | src/main/java/ru/practicum/shareit/user/UserRepository.java:30 | exactly the users whose lower-cased name contains the lower-cased text |
| UserRepository.EmptyNameFindsEveryone | src/main/java/ru/practicum/shareit/user/UserRepository.java:30 | the empty text finds every user |
| UserRepository.FindUsersWithActiveBookings | src/main/java/ru/practicum/shareit/user/UserRepository.java:45-50 | exactly the users with a WAITING or APPROVED booking whose span contains now, both ends included; no user twice |
| UserRepository.ActiveVersusCurrent | src/main/java/ru/practicum/shareit/user/UserRepository.java:47-49 | "active" is wider than CURRENT: it includes both ends |
| UserService.Empty | src/main/java/ru/practicum/shareit/user/service/UserServiceImpl.java:14-15 | the store starts empty with counter 1 |
| UserService.EmptyIsValid | src/main/java/ru/practicum/shareit/user/service/UserServiceImpl.java:14-15 | the empty store is well formed |
| UserService.Create | src/main/java/ru/practicum/shareit/user/service/UserServiceImpl.java:18-23 | the user gets the counter's id whatever the body says, the counter advances, and the user is stored under that id, with nothing else changed |
| UserService.CreateIsFresh | src/main/java/ru/practicum/shareit/user/service/UserServiceImpl.java:18-23 | in a well-formed store the new id is unused, so the store grows by one and no user is overwritten |
| UserService.CreateIdsIncrease | src/main/java/ru/practicum/shareit/user/service/UserServiceImpl.java:20 | ids are issued in strictly increasing order |
| UserService.GetById | src/main/java/ru/practicum/shareit/user/service/UserServiceImpl.java:38-40 | the stored user iff the id is stored, otherwise none |
| UserService.GetAfterCreate | src/main/java/ru/practicum/shareit/user/service/UserServiceImpl.java:21-39 | a created user is read back under its id |
| UserService.Update | src/main/java/ru/practicum/shareit/user/service/UserServiceImpl.java:26-35 | none iff the id is not stored. Otherwise only the present fields change, the id and the other users stay, and the key set and counter are unchanged |
| UserService.UpdatePreservesValid | src/main/java/ru/practicum/shareit/user/service/UserServiceImpl.java:26-35 | an update keeps the store well formed |
| UserService.EmptyUpdateIsIdentity | src/main/java/ru/practicum/shareit/user/service/UserServiceImpl.java:28-33 | an update with no fields changes nothing |
| UserService.Delete | src/main/java/ru/practicum/shareit/user/service/UserServiceImpl.java:50-52 | only that key is removed, the other entries stay, and the counter is unchanged |
| UserService.DeletedIdNotReused | src/main/java/ru/practicum/shareit/user/service/UserServiceImpl.java:50-52 | after a delete the id is gone and is never issued again |
| UserService.ListedFrom | src/main/java/ru/practicum/shareit/user/service/UserServiceImpl.java:43-47 | the stored users with ids from lo on, each the user stored under its id, by ascending id, none missing |
| UserService.GetAll | src/main/java/ru/practicum/shareit/user/service/UserServiceImpl.java:43-47 | in a well-formed store, exactly the stored users, each once |

## Left out

- The HTTP layer is not modelled: controllers, the exception-to-status mapping and request parameter binding. Errors are the `Common.Error` datatype.
- Mappers and DTO classes other than `BookingDto` are not modelled: `convertToResponseDto`, the MapStruct mappers and the response DTOs only copy fields. `updateItemFromDto` is not part of this model; `ItemService.ApplyPatch` assumes it copies the non-null fields only.
- JPA plumbing is not modelled: entities, cascades, lazy loading and `@PrePersist`. Ids are issued by one counter per table.
- Transactions and concurrent requests are not modelled; every operation runs alone.
- Real time and logging are left out; `now` is a parameter and instants are integers.
- The real ordering of rows with equal sort keys is left out. The database does not fix it; the model keeps stored order among ties.
- Java's `long` overflow is left out; ids and instants are unbounded integers.
- Non-ASCII case folding is left out; `LOWER` and `IgnoreCase` fold ASCII letters only. `LIKE` has no escape character.
- Parsing the `state` parameter into `BookingState` is left out, and so is the error for an unknown state.
- `ItemServiceImpl.getAllItems`, `existsById`, `ItemRequestServiceImpl.existsById` and `getRequestEntityById` are left out: plain lookups outside the core.
- Repository methods that no modelled operation uses are left out:
  - `findByItemIdInOrderByStartDesc` and `findByItemIdAndStatus` of the booking repository;
  - `findByIdWithOwner` and `findAllWithOwners` of the item repository;
  - `findByEmailIgnoreCase` and the fetch joins of the user repository.
- The booking service's `getLastBookingForItem`, `getNextBookingForItem` and `canUserCommentItem` are left out, because the booking service interface declares none of them. The item service's views use `BookingRepository.LastBooking`, `BookingRepository.NextBooking` and `BookingRepository.CanComment` in their place.
- BookingService.ListBookings: requires from >= 0 and size > 0, because the booking controllers' `@PositiveOrZero` and `@Positive` rule out other values before the service runs; `GetAllByBooker`, `GetAllByOwner`, `FetchedPages` and `PageAt` inherit this.
- UserService.GetAll: lists users by ascending id, because the hash map's iteration order is unspecified; the contract states membership and that order, not the order Java would produce.
- UserService.Update: answers none for an id that is not stored, where the source throws a `NullPointerException`.
- ItemService.GetOwnerItems: every item's comments come from the per-item comment query, not the batch `findByItemIds` grouping; both give every comment on the item once per stored row, newest first, and may differ only in the order of comments with equal timestamps, which the contracts leave open.

## Findings

| source | as written | input that shows it | evidently intended | confidence | as-written member | corrected member |
|---|---|---|---|---|---|---|
| src/main/java/ru/practicum/shareit/booking/repository/BookingRepository.java:69-76 | an `@Query` method returning `Optional`. The `findFirst` prefix does not limit a hand-written query, so two or more matching rows raise a non-unique-result error | item 1 with two APPROVED bookings that ended at 50 and at 20, asked at time 100 | the APPROVED booking of the item that ended last before now | high, not executed | BookingRepository.FindLastBookingAsWritten, BookingRepository.LastAsWrittenFailsOnTwoRentals | BookingRepository.LastBooking |
| src/main/java/ru/practicum/shareit/booking/repository/BookingRepository.java:79-86 | the same for the next booking | item 1 with two APPROVED bookings starting at 30 and at 10, asked at time 0 | the APPROVED booking of the item that starts first after now | high, not executed | BookingRepository.FindNextBookingAsWritten, BookingRepository.NextAsWrittenFailsOnTwoRentals | BookingRepository.NextBooking |
