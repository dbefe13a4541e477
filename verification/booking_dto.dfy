/** The request body of "create a booking" and its bean-validation rules:
    every field present, a start that is not in the past and an end that is
    strictly in the future. The constraints are checked independently and
    all violations are reported together. */
module BookingRequests {
  import opened Common

  /** A field left out of the JSON body is `None` (Java `null`). */
  datatype BookingDto = BookingDto(itemId: Option<int>, start: Option<int>, end: Option<int>)

  /** One failed constraint annotation. `@FutureOrPresent` and `@Future`
      accept a null value, so a missing time raises only its `@NotNull`. */
  datatype Violation =
    | NullItemId       // @NotNull on itemId
    | NullStart        // @NotNull on start
    | StartInPast      // @FutureOrPresent on start
    | NullEnd          // @NotNull on end
    | EndNotInFuture   // @Future on end

  predicate IsFutureOrPresent(t: Option<int>, now: int) {
    t.None? || t.value >= now
  }

  predicate IsFuture(t: Option<int>, now: int) {
    t.None? || t.value > now
  }

  /** The set of constraints the body violates at time `now`. */
  function Violations(dto: BookingDto, now: int): (r: set<Violation>)
    ensures r <= {NullItemId, NullStart, StartInPast, NullEnd, EndNotInFuture}
    ensures NullStart in r ==> StartInPast !in r
    ensures NullEnd in r ==> EndNotInFuture !in r
  {
    (if dto.itemId.None? then {NullItemId} else {})
    + (if dto.start.None? then {NullStart} else {})
    + (if !IsFutureOrPresent(dto.start, now) then {StartInPast} else {})
    + (if dto.end.None? then {NullEnd} else {})
    + (if !IsFuture(dto.end, now) then {EndNotInFuture} else {})
  }

  /** A body passes validation exactly when all three fields are present,
      the start is at or after `now` and the end is after `now`. */
  lemma ValidIff(dto: BookingDto, now: int)
    ensures Violations(dto, now) == {} <==>
              && dto.itemId.Some? && dto.start.Some? && dto.end.Some?
              && dto.start.value >= now && dto.end.value > now
  {
    var r := Violations(dto, now);
    if dto.itemId.None? { assert NullItemId in r; }
    if dto.start.None? { assert NullStart in r; }
    if dto.end.None? { assert NullEnd in r; }
    if dto.start.Some? && dto.start.value < now { assert StartInPast in r; }
    if dto.end.Some? && dto.end.value <= now { assert EndNotInFuture in r; }
  }

  /** The two time constraints differ at the boundary: a start equal to
      `now` is accepted, an end equal to `now` is not. */
  lemma PresentStartAcceptedPresentEndRejected(itemId: int, now: int, later: int)
    requires later > now
    ensures Violations(BookingDto(Some(itemId), Some(now), Some(later)), now) == {}
    ensures Violations(BookingDto(Some(itemId), Some(now), Some(now)), now) == {EndNotInFuture}
  {
    ValidIff(BookingDto(Some(itemId), Some(now), Some(later)), now);
  }

  /** The fields are validated one by one: a body whose end precedes its
      start passes bean validation and is left to the service. */
  lemma EndBeforeStartPassesValidation(itemId: int, now: int)
    ensures Violations(BookingDto(Some(itemId), Some(now + 2), Some(now + 1)), now) == {}
  {
    ValidIff(BookingDto(Some(itemId), Some(now + 2), Some(now + 1)), now);
  }
}
