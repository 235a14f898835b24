/** server BookingServiceImpl: booking creation with its ordered guards, the
    owner's decision, and the paged listings dispatched on BookingState. */
module ServerBookingService {
  import opened Wrappers
  import opened Errors
  import opened Entities
  import opened BookingQueries
  import opened Pageable
  import opened Store
  import opened BookingRules

  // ---------------------------------------------------------------- bookItem

  /** The booking `bookItem` saves, or the first guard that fails, in the
      order: date, item, booker, availability, self-booking, approved overlap. */
  function Book(items: seq<Item>, users: seq<User>, bookings: seq<Booking>, req: BookingRequest): (r: Result<Booking, Error>)
    ensures r.Success? ==>
      && FindItem(items, req.itemId).Some? && FindUser(users, req.bookerId).Some?
      && r.value == Booking(|bookings| + 1, req.start, req.end,
                            FindItem(items, req.itemId).value, FindUser(users, req.bookerId).value, BookingStatus.WAITING)
      && WellFormed(r.value)
      && IsAvailable(r.value.item)
      && (forall b :: b in bookings && OfItem(b, req.itemId) && b.status == APPROVED ==> !Overlaps(b, req.start, req.end))
  {
    if req.end < req.start then Failure(BadBookingDate)
    else
      var item := FindItem(items, req.itemId);
      var booker := FindUser(users, req.bookerId);
      if item.None? then Failure(NotFound(ItemEntity))
      else if booker.None? then Failure(NotFound(UserEntity))
      else if !IsAvailable(item.value) then Failure(NotItemAvailable(ItemSwitchedOff))
      else if OwnerId(item.value) == booker.value.id then Failure(NotItemOwner)
      else if Select(bookings, FreeInterval(req.itemId, req.start, req.end)) != [] then Failure(NotItemAvailable(DatesTaken))
      else Success(Booking(|bookings| + 1, req.start, req.end, item.value, booker.value, BookingStatus.WAITING))
  }

  method BookItem(db: Database, req: BookingRequest) returns (r: Result<Booking, Error>)
    requires db.Valid()
    modifies db
    ensures db.Valid()
    ensures r == Book(old(db.items), old(db.users), old(db.bookings), req)
    ensures db.bookings == if r.Success? then old(db.bookings) + [r.value] else old(db.bookings)
    ensures db.users == old(db.users) && db.nextUserId == old(db.nextUserId) && db.items == old(db.items)
    ensures db.requests == old(db.requests) && db.comments == old(db.comments)
  {
    if req.end < req.start {
      return Failure(BadBookingDate);
    }
    // bookingMapper.toBooking resolves both references, null when absent
    var item := FindItem(db.items, req.itemId);
    var booker := FindUser(db.users, req.bookerId);
    if item.None? {
      return Failure(NotFound(ItemEntity));
    }
    if booker.None? {
      return Failure(NotFound(UserEntity));
    }
    if !IsAvailable(item.value) {
      return Failure(NotItemAvailable(ItemSwitchedOff));
    }
    if OwnerId(item.value) == booker.value.id {
      return Failure(NotItemOwner);
    }
    if Select(db.bookings, FreeInterval(req.itemId, req.start, req.end)) != [] {
      return Failure(NotItemAvailable(DatesTaken));
    }
    var booking := Booking(0, req.start, req.end, item.value, booker.value, BookingStatus.WAITING);
    var saved := db.InsertBooking(booking);
    return Success(saved);
  }

  /** updateBookingStatus: the shared decision. */
  method UpdateBookingStatus(db: Database, userId: int, bookingId: int, approved: bool) returns (r: Result<Booking, Error>)
    requires db.Valid()
    modifies db
    ensures db.Valid()
    ensures r == Decide(old(db.bookings), userId, bookingId, approved)
    ensures r.Success? ==> 1 <= r.value.id <= |old(db.bookings)|
    ensures db.bookings == AfterDecision(old(db.bookings), r)
    ensures db.users == old(db.users) && db.items == old(db.items)
  {
    r := DecideBooking(db, userId, bookingId, approved);
  }

  // ---------------------------------------------------------------- listings

  lemma {:induction false} PageOfSorted(rows: seq<Booking>, p: PageRequest)
    requires p.page >= 0 && p.size >= 1 && SortedByStartDesc(rows)
    ensures SortedByStartDesc(PageOf(rows, p))
  {
    var r := PageOf(rows, p);
    forall i, j | 0 <= i < j < |r| ensures r[i].start >= r[j].start {
      assert r[i] == rows[p.page * p.size + i] && r[j] == rows[p.page * p.size + j];
    }
  }

  /** The page of `query` sorted by start descending. */
  function SortedPage(bookings: seq<Booking>, query: Query, p: PageRequest): (r: seq<Booking>)
    requires p.page >= 0 && p.size >= 1
    ensures SortedByStartDesc(r)
    ensures |r| <= p.size
    ensures forall b :: b in r ==> b in bookings && Matches(bookings, query, b)
    ensures r == PageOf(OrderByStartDesc(Select(bookings, query)), p)
  {
    SortedPageRows(bookings, query, p);
    PageOf(OrderByStartDesc(Select(bookings, query)), p)
  }

  lemma {:induction false} SortedPageRows(bookings: seq<Booking>, query: Query, p: PageRequest)
    requires p.page >= 0 && p.size >= 1
    ensures var r := PageOf(OrderByStartDesc(Select(bookings, query)), p);
      && SortedByStartDesc(r)
      && forall b :: b in r ==> b in bookings && Matches(bookings, query, b)
  {
    var selected := Select(bookings, query);
    var sorted := OrderByStartDesc(selected);
    var r := PageOf(sorted, p);
    PageOfSorted(sorted, p);
    PageOfMembers(sorted, p);
    forall b | b in r ensures b in bookings && Matches(bookings, query, b) {
      assert b in multiset(sorted);
      assert b in selected;
    }
  }

  /** getBookings: the user check, then the pageable, then one query, latest start first. */
  function GetBookings(users: seq<User>, bookings: seq<Booking>, userId: int, state: BookingState,
                       from: Int32, size: Int32, time: int): (r: Result<seq<Booking>, Error>)
    ensures FindUser(users, userId).None? ==> r == Failure(EntityNotFound(UserEntity))
    ensures FindUser(users, userId).Some? ==> (r.Failure? <==> ServerGetPageable(from, size).Failure?)
    ensures r.Success? ==> SortedByStartDesc(r.value) && |r.value| <= size
    ensures r.Success? ==> forall b :: b in r.value ==> b in bookings && BookedBy(b, userId) && InState(state, b, time)
    ensures r.Success? ==>
      && ServerGetPageable(from, size).Success?
      && r.value == PageOf(OrderByStartDesc(Select(bookings, BookerQuery(state, userId, time))), ServerGetPageable(from, size).value)
  {
    var _ :- UserReference(users, userId);
    var p :- ServerGetPageable(from, size);
    BookerQueryMeansState(bookings, state, userId, time);
    Success(SortedPage(bookings, BookerQuery(state, userId, time), p))
  }

  /** getItemOwnerBookings: the same, over the bookings of the user's items. */
  function GetItemOwnerBookings(users: seq<User>, bookings: seq<Booking>, userId: int, state: BookingState,
                                from: Int32, size: Int32, time: int): (r: Result<seq<Booking>, Error>)
    ensures FindUser(users, userId).None? ==> r == Failure(EntityNotFound(UserEntity))
    ensures FindUser(users, userId).Some? ==> (r.Failure? <==> ServerGetPageable(from, size).Failure?)
    ensures r.Success? ==> SortedByStartDesc(r.value) && |r.value| <= size
    ensures r.Success? ==> forall b :: b in r.value ==> b in bookings && OwnedBy(b, userId) && InState(state, b, time)
    ensures r.Success? ==>
      && ServerGetPageable(from, size).Success?
      && r.value == PageOf(OrderByStartDesc(Select(bookings, OwnerQuery(state, userId, time))), ServerGetPageable(from, size).value)
  {
    var _ :- UserReference(users, userId);
    var p :- ServerGetPageable(from, size);
    OwnerQueryMeansState(bookings, state, userId, time);
    Success(SortedPage(bookings, OwnerQuery(state, userId, time), p))
  }

  // ------------------------------------------------------------------ lemmas

  /** The guards of `bookItem` in order: each error is reported exactly when
      every earlier guard passed and this one fails. End == start passes. */
  lemma {:induction false} BookGuardOrder(items: seq<Item>, users: seq<User>, bookings: seq<Booking>, req: BookingRequest)
    ensures var r := Book(items, users, bookings, req);
      var item := FindItem(items, req.itemId);
      var booker := FindUser(users, req.bookerId);
      && (r == Failure(BadBookingDate) <==> req.end < req.start)
      && (r == Failure(NotFound(ItemEntity)) <==> req.start <= req.end && item.None?)
      && (r == Failure(NotFound(UserEntity)) <==> req.start <= req.end && item.Some? && booker.None?)
      && (r == Failure(NotItemAvailable(ItemSwitchedOff)) <==>
            req.start <= req.end && item.Some? && booker.Some? && !IsAvailable(item.value))
      && (r == Failure(NotItemOwner) <==>
            req.start <= req.end && item.Some? && booker.Some? && IsAvailable(item.value)
            && OwnerId(item.value) == booker.value.id)
      && (r == Failure(NotItemAvailable(DatesTaken)) <==>
            req.start <= req.end && item.Some? && booker.Some? && IsAvailable(item.value)
            && OwnerId(item.value) != booker.value.id
            && exists b :: b in bookings && OfItem(b, req.itemId) && b.status == APPROVED && Overlaps(b, req.start, req.end))
  {
    var clash := Select(bookings, FreeInterval(req.itemId, req.start, req.end));
    if clash != [] {
      assert clash[0] in clash;
    }
  }

  /** Creating a booking keeps the table invariant. */
  lemma {:induction false} BookKeepsWellFormed(items: seq<Item>, users: seq<User>, bookings: seq<Booking>, req: BookingRequest)
    requires AllWellFormed(bookings)
    ensures var r := Book(items, users, bookings, req);
      AllWellFormed(if r.Success? then bookings + [r.value] else bookings)
  {
  }

  /** A booking just created is readable by its booker and by the item's owner. */
  lemma {:induction false} BookThenGet(items: seq<Item>, users: seq<User>, bookings: seq<Booking>, req: BookingRequest, ownerId: int)
    requires DenseBookings(bookings)
    requires Book(items, users, bookings, req).Success?
    requires OwnedBy(Book(items, users, bookings, req).value, ownerId)
    ensures var b := Book(items, users, bookings, req).value;
      && Get(bookings + [b], req.bookerId, b.id) == Success(b)
      && Get(bookings + [b], ownerId, b.id) == Success(b)
  {
    var b := Book(items, users, bookings, req).value;
    assert DenseBookings(bookings + [b]);
    FindDenseBooking(bookings + [b], |bookings|);
  }

  /** A booking just created can be approved by the owner, and is then terminal. */
  lemma {:induction false} BookThenApprove(items: seq<Item>, users: seq<User>, bookings: seq<Booking>, req: BookingRequest,
                         ownerId: int, approved: bool)
    requires DenseBookings(bookings)
    requires Book(items, users, bookings, req).Success?
    requires OwnedBy(Book(items, users, bookings, req).value, ownerId)
    ensures var b := Book(items, users, bookings, req).value;
      var d := Decide(bookings + [b], ownerId, b.id, approved);
      && d == Success(b.(status := Verdict(approved)))
      && Decide(AfterDecision(bookings + [b], d), ownerId, b.id, approved) == Failure(BadApproveStatus)
  {
    var b := Book(items, users, bookings, req).value;
    assert DenseBookings(bookings + [b]);
    FindDenseBooking(bookings + [b], |bookings|);
    var after := (bookings + [b])[|bookings| := b.(status := Verdict(approved))];
    assert DenseBookings(after);
    FindDenseBooking(after, |bookings|);
  }

  /** With `from = 0` and a page large enough, the listing is every booking of
      the booker in that state, latest start first. */
  lemma {:induction false} FirstPageHoldsAll(users: seq<User>, bookings: seq<Booking>, userId: int, state: BookingState,
                          size: Int32, time: int)
    requires FindUser(users, userId).Some?
    requires size >= 1 && size >= |bookings|
    ensures var r := GetBookings(users, bookings, userId, state, 0, size, time);
      r.Success? && r.value == OrderByStartDesc(Select(bookings, BookerQuery(state, userId, time)))
  {
    var selected := Select(bookings, BookerQuery(state, userId, time));
    var sorted := OrderByStartDesc(selected);
    assert |sorted| == |multiset(sorted)| == |multiset(selected)| == |selected|;
    ServerPageIndex(0, size);
    var page := PageOf(sorted, PageRequest(0, size));
    assert |page| == |sorted|;
    assert forall k :: 0 <= k < |page| ==> page[k] == sorted[k];
    assert page == sorted;
  }

  /** With `from = 0` and a page large enough, the owner's listing is every
      booking of the owner's items in that state, latest start first. */
  lemma {:induction false} OwnerFirstPageHoldsAll(users: seq<User>, bookings: seq<Booking>, userId: int,
                                                state: BookingState, size: Int32, time: int)
    requires FindUser(users, userId).Some?
    requires size >= 1 && size >= |bookings|
    ensures var r := GetItemOwnerBookings(users, bookings, userId, state, 0, size, time);
      r.Success? && r.value == OrderByStartDesc(Select(bookings, OwnerQuery(state, userId, time)))
  {
    var selected := Select(bookings, OwnerQuery(state, userId, time));
    var sorted := OrderByStartDesc(selected);
    assert |sorted| == |multiset(sorted)| == |multiset(selected)| == |selected|;
    ServerPageIndex(0, size);
    var page := PageOf(sorted, PageRequest(0, size));
    assert |page| == |sorted|;
    assert forall k :: 0 <= k < |page| ==> page[k] == sorted[k];
    assert page == sorted;
  }

  /** Approval does not re-run the overlap query: two overlapping WAITING
      bookings of one item can both be created and then both approved. */
  lemma {:induction false} ApprovalDoesNotRecheckOverlap()
    ensures exists items: seq<Item>, users: seq<User>, r1: BookingRequest, r2: BookingRequest ::
      && Book(items, users, [], r1).Success?
      && Book(items, users, [Book(items, users, [], r1).value], r2).Success?
      && var b1 := Book(items, users, [], r1).value;
         var b2 := Book(items, users, [b1], r2).value;
         var t1 := AfterDecision([b1, b2], Decide([b1, b2], 1, 1, true));
         var t2 := AfterDecision(t1, Decide(t1, 1, 2, true));
         && Decide([b1, b2], 1, 1, true).Success?
         && Decide(t1, 1, 2, true).Success?
         && t2[0].status == APPROVED && t2[1].status == APPROVED
         && OfItem(t2[0], r1.itemId) && OfItem(t2[1], r1.itemId)
         && Overlaps(t2[0], t2[1].start, t2[1].end)
  {
    var owner := User(Some(1), Some("owner"), Some("o@x"));
    var a := User(Some(2), Some("a"), Some("a@x"));
    var c := User(Some(3), Some("c"), Some("c@x"));
    var item := Item(Some(1), Some("drill"), Some("drill"), Some(true), Some(owner), None);
    var items, users := [item], [owner, a, c];
    var r1 := BookingRequest(1, 10, 20, 2);
    var r2 := BookingRequest(1, 15, 25, 3);
    var b1 := Booking(1, 10, 20, item, a, BookingStatus.WAITING);
    var b2 := Booking(2, 15, 25, item, c, BookingStatus.WAITING);
    assert FindItem(items, 1) == Some(item);
    assert FindUser(users, 2) == Some(a);
    assert FindUser(users, 3) == Some(c);
    assert Select([], FreeInterval(1, 10, 20)) == [];
    assert Book(items, users, [], r1) == Success(b1);
    assert Select([b1], FreeInterval(1, 15, 25)) == [];
    assert Book(items, users, [b1], r2) == Success(b2);
    assert FindBooking([b1, b2], 1) == Some(b1);
    var t1 := [b1, b2][0 := b1.(status := APPROVED)];
    assert Decide([b1, b2], 1, 1, true) == Success(b1.(status := APPROVED));
    assert FindBooking(t1, 2) == Some(b2);
    assert AfterDecision([b1, b2], Decide([b1, b2], 1, 1, true)) == t1;
    assert Decide(t1, 1, 2, true) == Success(b2.(status := APPROVED));
    var t2 := t1[1 := b2.(status := APPROVED)];
    assert AfterDecision(t1, Decide(t1, 1, 2, true)) == t2;
    assert t2[0].status == APPROVED && t2[1].status == APPROVED;
  }
}
