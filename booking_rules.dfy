/** What both BookingServiceImpl versions share, line for line: reading one
    booking, the owner's decision on a booking, and the table invariants the
    services keep. */
module BookingRules {
  import opened Wrappers
  import opened Errors
  import opened Entities
  import opened BookingQueries
  import opened Store

  // ------------------------------------------------------------- invariants

  /** What every row written by the services satisfies: a status among the
      three the services write, start not after end, and a booker who is not
      the item's owner. */
  predicate WellFormed(b: Booking) {
    Written(b.status) && b.start <= b.end && OwnerId(b.item) != b.booker.id
  }

  predicate AllWellFormed(bookings: seq<Booking>) {
    forall k :: 0 <= k < |bookings| ==> WellFormed(bookings[k])
  }

  // ---------------------------------------------------------------- filters

  /** The six state filters of the listings (an enum in server, a string in src). */
  datatype BookingState = ALL | CURRENT | PAST | FUTURE | REJECTED | WAITING

  /** BookingRequestDto with the booker taken from the request header. */
  datatype BookingRequest = BookingRequest(itemId: int, start: int, end: int, bookerId: int)

  /** What each state filter means for one booking at instant `time`. */
  predicate InState(state: BookingState, b: Booking, time: int) {
    match state
    case ALL => true
    case CURRENT => b.start <= time <= b.end
    case PAST => b.end < time
    case FUTURE => time < b.start
    case REJECTED => b.status == BookingStatus.REJECTED
    case WAITING => b.status == BookingStatus.WAITING
  }

  /** The repository query `getBookings` runs for a state. */
  function BookerQuery(state: BookingState, userId: int, time: int): Query {
    match state
    case ALL => AllByBooker(userId)
    case CURRENT => CurrentByBooker(userId, time)
    case PAST => PastByBooker(userId, time)
    case FUTURE => FutureByBooker(userId, time)
    case REJECTED => StatusByBooker(userId, BookingStatus.REJECTED)
    case WAITING => StatusByBooker(userId, BookingStatus.WAITING)
  }

  /** The repository query `getItemOwnerBookings` runs for a state. */
  function OwnerQuery(state: BookingState, userId: int, time: int): Query {
    match state
    case ALL => AllByOwner(userId)
    case CURRENT => CurrentByOwner(userId, time)
    case PAST => PastByOwner(userId, time)
    case FUTURE => FutureByOwner(userId, time)
    case REJECTED => StatusByOwner(userId, BookingStatus.REJECTED)
    case WAITING => StatusByOwner(userId, BookingStatus.WAITING)
  }

  // ------------------------------------------------------------------ reads

  /** getBooking / getById: the booking, if the caller owns its item or booked it. */
  function Get(bookings: seq<Booking>, userId: int, bookingId: int): (r: Result<Booking, Error>)
    ensures FindBooking(bookings, bookingId).None? ==> r == Failure(EntityNotFound(BookingEntity))
    ensures r.Success? <==>
      FindBooking(bookings, bookingId).Some? &&
      (OwnedBy(FindBooking(bookings, bookingId).value, userId) || BookedBy(FindBooking(bookings, bookingId).value, userId))
    ensures r.Success? ==> r.value in bookings && r.value.id == bookingId
    ensures r.Failure? && FindBooking(bookings, bookingId).Some? ==> r.error == NotItemOwner
  {
    // getReferenceById: a lazy proxy that fails on first access when the row is missing
    var found := FindBooking(bookings, bookingId);
    if found.None? then Failure(EntityNotFound(BookingEntity))
    else if OwnerId(found.value.item) != Some(userId) && found.value.booker.id != Some(userId) then Failure(NotItemOwner)
    else Success(found.value)
  }

  // --------------------------------------------------------------- decision

  function Verdict(approved: bool): BookingStatus {
    if approved then APPROVED else BookingStatus.REJECTED
  }

  /** updateBookingStatus / changeStatus: the row as it is saved, or the refusal. */
  function Decide(bookings: seq<Booking>, userId: int, bookingId: int, approved: bool): (r: Result<Booking, Error>)
    ensures FindBooking(bookings, bookingId).None? ==> r == Failure(EntityNotFound(BookingEntity))
    ensures r.Success? ==>
      && FindBooking(bookings, bookingId).Some?
      && r.value == FindBooking(bookings, bookingId).value.(status := Verdict(approved))
      && OwnedBy(r.value, userId)
      && !Decided(FindBooking(bookings, bookingId).value.status)
  {
    var found := FindBooking(bookings, bookingId);
    if found.None? then Failure(EntityNotFound(BookingEntity))
    else if OwnerId(found.value.item) != Some(userId) then Failure(NotItemOwner)
    else if found.value.status == APPROVED || found.value.status == BookingStatus.REJECTED then Failure(BadApproveStatus)
    else Success(found.value.(status := Verdict(approved)))
  }

  /** The table after a decision: the decided row replaces the old one, or nothing changes. */
  function AfterDecision(bookings: seq<Booking>, r: Result<Booking, Error>): seq<Booking>
    requires r.Success? ==> 1 <= r.value.id <= |bookings|
  {
    if r.Success? then bookings[r.value.id - 1 := r.value] else bookings
  }

  /** Both versions' decision method: load, check, set the status, save. */
  method DecideBooking(db: Database, userId: int, bookingId: int, approved: bool) returns (r: Result<Booking, Error>)
    requires db.Valid()
    modifies db
    ensures db.Valid()
    ensures r == Decide(old(db.bookings), userId, bookingId, approved)
    ensures r.Success? ==> 1 <= r.value.id <= |old(db.bookings)|
    ensures db.bookings == AfterDecision(old(db.bookings), r)
    ensures db.users == old(db.users) && db.nextUserId == old(db.nextUserId) && db.items == old(db.items)
    ensures db.requests == old(db.requests) && db.comments == old(db.comments)
  {
    var found := FindBooking(db.bookings, bookingId);
    if found.None? {
      return Failure(EntityNotFound(BookingEntity));
    }
    var booking := found.value;
    if OwnerId(booking.item) != Some(userId) {
      return Failure(NotItemOwner);
    }
    if booking.status == APPROVED || booking.status == BookingStatus.REJECTED {
      return Failure(BadApproveStatus);
    }
    if approved {
      booking := booking.(status := APPROVED);
    } else {
      booking := booking.(status := BookingStatus.REJECTED);
    }
    DenseMember(db.bookings, found.value);
    db.UpdateBooking(booking);
    return Success(booking);
  }

  // ----------------------------------------------------------------- lemmas

  /** Anyone but the item's owner is refused, and the booking keeps its status. */
  lemma {:induction false} NonOwnerCannotDecide(bookings: seq<Booking>, userId: int, bookingId: int, approved: bool)
    requires FindBooking(bookings, bookingId).Some?
    requires !OwnedBy(FindBooking(bookings, bookingId).value, userId)
    ensures Decide(bookings, userId, bookingId, approved) == Failure(NotItemOwner)
    ensures AfterDecision(bookings, Decide(bookings, userId, bookingId, approved)) == bookings
  {
  }

  /** APPROVED and REJECTED are terminal: the owner's further decisions fail. */
  lemma {:induction false} DecidedIsTerminal(bookings: seq<Booking>, userId: int, bookingId: int, approved: bool)
    requires FindBooking(bookings, bookingId).Some?
    requires OwnedBy(FindBooking(bookings, bookingId).value, userId)
    requires Decided(FindBooking(bookings, bookingId).value.status)
    ensures Decide(bookings, userId, bookingId, approved) == Failure(BadApproveStatus)
  {
  }

  /** A WAITING booking, and also a CANCELED one, is overwritten by the owner's verdict. */
  lemma {:induction false} UndecidedTakesVerdict(bookings: seq<Booking>, userId: int, bookingId: int, approved: bool)
    requires FindBooking(bookings, bookingId).Some?
    requires OwnedBy(FindBooking(bookings, bookingId).value, userId)
    requires FindBooking(bookings, bookingId).value.status in {BookingStatus.WAITING, CANCELED}
    ensures Decide(bookings, userId, bookingId, approved).Success?
    ensures Decide(bookings, userId, bookingId, approved).value.status == (if approved then APPROVED else BookingStatus.REJECTED)
  {
  }

  /** After one successful decision, a second decision on the same booking fails,
      whoever asks and whatever the verdict. */
  lemma {:induction false} SecondDecisionFails(bookings: seq<Booking>, userId: int, bookingId: int, approved: bool,
                                               userId2: int, approved2: bool)
    requires DenseBookings(bookings)
    requires Decide(bookings, userId, bookingId, approved).Success?
    ensures var after := AfterDecision(bookings, Decide(bookings, userId, bookingId, approved));
      Decide(after, userId2, bookingId, approved2).Failure?
  {
    var d := Decide(bookings, userId, bookingId, approved).value;
    DenseMember(bookings, FindBooking(bookings, bookingId).value);
    var after := bookings[d.id - 1 := d];
    assert DenseBookings(after);
    FindDenseBooking(after, d.id - 1);
  }

  /** A successful decision keeps the invariant of the table. */
  lemma {:induction false} DecisionKeepsWellFormed(bookings: seq<Booking>, userId: int, bookingId: int, approved: bool)
    requires DenseBookings(bookings) && AllWellFormed(bookings)
    ensures var r := Decide(bookings, userId, bookingId, approved);
      (r.Success? ==> 1 <= r.value.id <= |bookings|) && AllWellFormed(AfterDecision(bookings, r))
  {
    var r := Decide(bookings, userId, bookingId, approved);
    if r.Success? {
      DenseMember(bookings, FindBooking(bookings, bookingId).value);
    }
  }

  /** Each state runs the query that means that state, for the booker ... */
  lemma {:induction false} BookerQueryMeansState(table: seq<Booking>, state: BookingState, userId: int, time: int)
    ensures forall b :: Matches(table, BookerQuery(state, userId, time), b) <==> BookedBy(b, userId) && InState(state, b, time)
  {
  }

  /** ... and for the owner. */
  lemma {:induction false} OwnerQueryMeansState(table: seq<Booking>, state: BookingState, userId: int, time: int)
    ensures forall b :: Matches(table, OwnerQuery(state, userId, time), b) <==> OwnedBy(b, userId) && InState(state, b, time)
  {
  }
}
