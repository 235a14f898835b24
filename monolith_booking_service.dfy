/** src BookingServiceImpl: the older service, with the overlap guard before
    the self-booking guard, string state filters and unpaged listings. */
module MonolithBookingService {
  import opened Wrappers
  import opened Errors
  import opened Entities
  import opened BookingQueries
  import opened Store
  import opened BookingRules
  import ServerBookingService

  // -------------------------------------------------------------------- save

  /** The booking `save` persists, or the first guard that fails, in the order:
      date, item, booker, availability, approved overlap, self-booking. */
  function Book(items: seq<Item>, users: seq<User>, bookings: seq<Booking>, req: BookingRequest): (r: Result<Booking, Error>)
    ensures r.Success? ==>
      && FindItem(items, req.itemId).Some? && FindUser(users, req.bookerId).Some?
      && r.value == Booking(|bookings| + 1, req.start, req.end,
                            FindItem(items, req.itemId).value, FindUser(users, req.bookerId).value, BookingStatus.WAITING)
      && WellFormed(r.value)
      && IsAvailable(r.value.item)
      && (forall b :: b in bookings && OfItem(b, req.itemId) && b.status == APPROVED ==> !Overlaps(b, req.start, req.end))
  {
    if req.end < req.start then Failure(BadBookingDate)
    else
      var item := FindItem(items, req.itemId);
      var booker := FindUser(users, req.bookerId);
      if item.None? then Failure(NotFound(ItemEntity))
      else if booker.None? then Failure(NotFound(UserEntity))
      else if !IsAvailable(item.value) then Failure(NotItemAvailable(ItemSwitchedOff))
      else if Select(bookings, FreeInterval(req.itemId, req.start, req.end)) != [] then Failure(NotItemAvailable(DatesTaken))
      else if OwnerId(item.value) == booker.value.id then Failure(NotItemOwner)
      else Success(Booking(|bookings| + 1, req.start, req.end, item.value, booker.value, BookingStatus.WAITING))
  }

  method Save(db: Database, req: BookingRequest) returns (r: Result<Booking, Error>)
    requires db.Valid()
    modifies db
    ensures db.Valid()
    ensures r == Book(old(db.items), old(db.users), old(db.bookings), req)
    ensures db.bookings == if r.Success? then old(db.bookings) + [r.value] else old(db.bookings)
    ensures db.users == old(db.users) && db.nextUserId == old(db.nextUserId) && db.items == old(db.items)
    ensures db.requests == old(db.requests) && db.comments == old(db.comments)
  {
    if req.end < req.start {
      return Failure(BadBookingDate);
    }
    var item := FindItem(db.items, req.itemId);
    var booker := FindUser(db.users, req.bookerId);
    if item.None? {
      return Failure(NotFound(ItemEntity));
    }
    if booker.None? {
      return Failure(NotFound(UserEntity));
    }
    if !IsAvailable(item.value) {
      return Failure(NotItemAvailable(ItemSwitchedOff));
    }
    if Select(db.bookings, FreeInterval(req.itemId, req.start, req.end)) != [] {
      return Failure(NotItemAvailable(DatesTaken));
    }
    if OwnerId(item.value) == booker.value.id {
      return Failure(NotItemOwner);
    }
    var booking := Booking(0, req.start, req.end, item.value, booker.value, BookingStatus.WAITING);
    var saved := db.InsertBooking(booking);
    return Success(saved);
  }

  /** changeStatus: the shared decision. */
  method ChangeStatus(db: Database, userId: int, bookingId: int, approved: bool) returns (r: Result<Booking, Error>)
    requires db.Valid()
    modifies db
    ensures db.Valid()
    ensures r == Decide(old(db.bookings), userId, bookingId, approved)
    ensures r.Success? ==> 1 <= r.value.id <= |old(db.bookings)|
    ensures db.bookings == AfterDecision(old(db.bookings), r)
    ensures db.users == old(db.users) && db.items == old(db.items)
  {
    r := DecideBooking(db, userId, bookingId, approved);
  }

  // ---------------------------------------------------------------- listings

  /** The six strings the `switch` knows, and the filter each names. */
  function ParseState(state: string): (r: Option<BookingState>)
    ensures r.Some? <==> state in {"ALL", "CURRENT", "PAST", "FUTURE", "REJECTED", "WAITING"}
  {
    if state == "ALL" then Some(ALL)
    else if state == "CURRENT" then Some(CURRENT)
    else if state == "PAST" then Some(PAST)
    else if state == "FUTURE" then Some(FUTURE)
    else if state == "REJECTED" then Some(BookingState.REJECTED)
    else if state == "WAITING" then Some(BookingState.WAITING)
    else None
  }

  /** getAllByState: the user check, then the string dispatch; every query is
      sorted by start descending except CURRENT, which comes in table order. */
  function GetAllByState(users: seq<User>, bookings: seq<Booking>, userId: int, state: string, time: int)
    : (r: Result<seq<Booking>, Error>)
    ensures FindUser(users, userId).None? ==> r == Failure(EntityNotFound(UserEntity))
    ensures FindUser(users, userId).Some? && ParseState(state).None? ==> r == Failure(BadState(state))
    ensures r.Success? <==> FindUser(users, userId).Some? && ParseState(state).Some?
    ensures r.Success? ==> forall b :: b in r.value ==> b in bookings && BookedBy(b, userId) && InState(ParseState(state).value, b, time)
    ensures r.Success? && state != "CURRENT" ==> SortedByStartDesc(r.value)
  {
    var _ :- UserReference(users, userId);
    match ParseState(state)
    case None => Failure(BadState(state))
    case Some(s) =>
      var rows := Select(bookings, BookerQuery(s, userId, time));
      BookerQueryMeansState(bookings, s, userId, time);
      if s == CURRENT then Success(rows)
      else
        var sorted := OrderByStartDesc(rows);
        assert forall b :: b in sorted ==> b in multiset(rows);
        Success(sorted)
  }

  /** getAllByOwner: the same dispatch over the owner queries, none of them sorted. */
  function GetAllByOwner(users: seq<User>, bookings: seq<Booking>, userId: int, state: string, time: int)
    : (r: Result<seq<Booking>, Error>)
    ensures FindUser(users, userId).None? ==> r == Failure(EntityNotFound(UserEntity))
    ensures FindUser(users, userId).Some? && ParseState(state).None? ==> r == Failure(BadState(state))
    ensures r.Success? <==> FindUser(users, userId).Some? && ParseState(state).Some?
    ensures r.Success? ==> forall b :: b in r.value ==> b in bookings && OwnedBy(b, userId) && InState(ParseState(state).value, b, time)
  {
    var _ :- UserReference(users, userId);
    match ParseState(state)
    case None => Failure(BadState(state))
    case Some(s) =>
      OwnerQueryMeansState(bookings, s, userId, time);
      Success(Select(bookings, OwnerQuery(s, userId, time)))
  }

  // ------------------------------------------------------------------ lemmas

  /** The guards of `save` in order: the overlap guard runs before the
      self-booking guard. */
  lemma {:induction false} BookGuardOrder(items: seq<Item>, users: seq<User>, bookings: seq<Booking>, req: BookingRequest)
    ensures var r := Book(items, users, bookings, req);
      var item := FindItem(items, req.itemId);
      var booker := FindUser(users, req.bookerId);
      var taken := exists b :: b in bookings && OfItem(b, req.itemId) && b.status == APPROVED && Overlaps(b, req.start, req.end);
      && (r == Failure(BadBookingDate) <==> req.end < req.start)
      && (r == Failure(NotFound(ItemEntity)) <==> req.start <= req.end && item.None?)
      && (r == Failure(NotFound(UserEntity)) <==> req.start <= req.end && item.Some? && booker.None?)
      && (r == Failure(NotItemAvailable(ItemSwitchedOff)) <==>
            req.start <= req.end && item.Some? && booker.Some? && !IsAvailable(item.value))
      && (r == Failure(NotItemAvailable(DatesTaken)) <==>
            req.start <= req.end && item.Some? && booker.Some? && IsAvailable(item.value) && taken)
      && (r == Failure(NotItemOwner) <==>
            req.start <= req.end && item.Some? && booker.Some? && IsAvailable(item.value) && !taken
            && OwnerId(item.value) == booker.value.id)
  {
    var clash := Select(bookings, FreeInterval(req.itemId, req.start, req.end));
    if clash != [] {
      assert clash[0] in clash;
    }
  }

  /** Creating a booking keeps the table invariant. */
  lemma {:induction false} BookKeepsWellFormed(items: seq<Item>, users: seq<User>, bookings: seq<Booking>, req: BookingRequest)
    requires AllWellFormed(bookings)
    ensures var r := Book(items, users, bookings, req);
      AllWellFormed(if r.Success? then bookings + [r.value] else bookings)
  {
  }

  /** The owner booking their own item over an approved interval is told the
      dates are taken here and that they own the item in server; on every
      other request the two versions agree. */
  lemma {:induction false} GuardOrderDiffers(items: seq<Item>, users: seq<User>, bookings: seq<Booking>, req: BookingRequest)
    ensures var item := FindItem(items, req.itemId);
      var booker := FindUser(users, req.bookerId);
      var selfBooking := item.Some? && booker.Some? && OwnerId(item.value) == booker.value.id;
      var taken := Select(bookings, FreeInterval(req.itemId, req.start, req.end)) != [];
      var src := Book(items, users, bookings, req);
      var srv := ServerBookingService.Book(items, users, bookings, req);
      && (req.start <= req.end && item.Some? && booker.Some? && IsAvailable(item.value) && selfBooking && taken ==>
            src == Failure(NotItemAvailable(DatesTaken)) && srv == Failure(NotItemOwner))
      && (!(selfBooking && taken) ==> src == srv)
  {
  }

  /** An unknown user is reported before an unknown state. */
  lemma {:induction false} UserCheckedBeforeState(users: seq<User>, bookings: seq<Booking>, userId: int, state: string, time: int)
    requires FindUser(users, userId).None? && ParseState(state).None?
    ensures GetAllByState(users, bookings, userId, state, time) == Failure(EntityNotFound(UserEntity))
    ensures GetAllByOwner(users, bookings, userId, state, time) == Failure(EntityNotFound(UserEntity))
  {
  }

  /** Outside CURRENT the booker listing is exactly server's first page when
      the page holds everything; CURRENT differs only in order. */
  lemma {:induction false} AgreesWithServerListing(users: seq<User>, bookings: seq<Booking>, userId: int, state: string,
                                size: int, time: int)
    requires FindUser(users, userId).Some? && ParseState(state).Some?
    requires 1 <= size <= 0x7fff_ffff && size >= |bookings|
    ensures var src := GetAllByState(users, bookings, userId, state, time);
      var srv := ServerBookingService.GetBookings(users, bookings, userId, ParseState(state).value, 0, size, time);
      && src.Success? && srv.Success?
      && multiset(src.value) == multiset(srv.value)
      && (state != "CURRENT" ==> src.value == srv.value)
  {
    var st := ParseState(state).value;
    var rows := Select(bookings, BookerQuery(st, userId, time));
    ServerBookingService.FirstPageHoldsAll(users, bookings, userId, st, size, time);
    assert ServerBookingService.GetBookings(users, bookings, userId, st, 0, size, time) == Success(OrderByStartDesc(rows));
    if st == CURRENT {
      assert GetAllByState(users, bookings, userId, state, time) == Success(rows);
    } else {
      assert GetAllByState(users, bookings, userId, state, time) == Success(OrderByStartDesc(rows));
    }
  }

  /** The owner listing holds the same bookings as server's first page, in
      table order rather than latest start first. */
  lemma {:induction false} OwnerListingIsUnsorted(users: seq<User>, bookings: seq<Booking>, userId: int, state: string, time: int)
    requires FindUser(users, userId).Some? && ParseState(state).Some?
    ensures GetAllByOwner(users, bookings, userId, state, time)
         == Success(Select(bookings, OwnerQuery(ParseState(state).value, userId, time)))
  {
  }
}
