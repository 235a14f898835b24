/** src ItemServiceImpl: an item's view with its last and next booking and its
    comments, the owner's item list and the text search (both paged), creating
    and patching items, and leaving a comment. The MapStruct mappers it calls
    are field copies, written out here. */
module ItemService {
  import opened Wrappers
  import opened Errors
  import opened Entities
  import opened Text
  import opened BookingQueries
  import opened Store
  import opened Pageable
  import opened ItemQueries
  import UserMapper
  import opened ItemMapper

  // ------------------------------------------------------ MapStruct copies

  /** `itemMapper.toItemDto`: the entity's fields and its owner; bookings and
      comments are left null. */
  function View(i: Item): ItemResponseDto {
    ItemResponseDto(i.id, i.name, i.description, i.available, UserMapper.ToUserDto(i.owner), None, None, None)
  }

  /** `bookingMapper.toBookingBookerDto`. */
  function BookerDto(b: Booking): BookingBookerDto {
    BookingBookerDto(b.id, b.item.id, b.booker.id, b.start, b.end)
  }

  /** `commentMapper.toCommentDto`: `authorName` from `author.name`. */
  function CommentDto(c: Comment): CommentResponseDto {
    CommentResponseDto(c.id, c.text, c.author.name, c.created)
  }

  function CommentDtos(cs: seq<Comment>): seq<CommentResponseDto> {
    seq(|cs|, k requires 0 <= k < |cs| => CommentDto(cs[k]))
  }

  // ------------------------------------------------ last and next booking

  /** The last row that ended before `time`: in `getBookings` each such row
      overwrites `lastBooking`, so the last one stays. */
  function LastEnded(rows: seq<Booking>, time: int): (r: Option<Booking>)
    ensures r.Some? ==> r.value in rows && IsPast(r.value, time)
    ensures r.None? <==> forall b :: b in rows ==> !IsPast(b, time)
  {
    if rows == [] then None
    else
      var n := |rows| - 1;
      SplitLast(rows);
      if IsPast(rows[n], time) then Some(rows[n]) else LastEnded(rows[..n], time)
  }

  /** The last row that starts after `time`, which is what `nextBooking` ends up holding. */
  function LastStarting(rows: seq<Booking>, time: int): (r: Option<Booking>)
    ensures r.Some? ==> r.value in rows && IsFuture(r.value, time)
    ensures r.None? <==> forall b :: b in rows ==> !IsFuture(b, time)
  {
    if rows == [] then None
    else
      var n := |rows| - 1;
      SplitLast(rows);
      if IsFuture(rows[n], time) then Some(rows[n]) else LastStarting(rows[..n], time)
  }

  /** No row after the one `LastEnded` picks has ended. */
  lemma {:induction false} LastEndedIsLatest(rows: seq<Booking>, time: int)
    requires LastEnded(rows, time).Some?
    ensures exists k :: (0 <= k < |rows| && rows[k] == LastEnded(rows, time).value
                         && forall j :: k < j < |rows| ==> !IsPast(rows[j], time))
  {
    var n := |rows| - 1;
    if IsPast(rows[n], time) {
      assert rows[n] == LastEnded(rows, time).value;
    } else {
      var front := rows[..n];
      LastEndedIsLatest(front, time);
      var k :| 0 <= k < |front| && front[k] == LastEnded(front, time).value
        && forall j :: k < j < |front| ==> !IsPast(front[j], time);
      assert rows[k] == front[k];
      assert forall j :: k < j < |rows| ==> !IsPast(rows[j], time) by {
        forall j | k < j < |rows| ensures !IsPast(rows[j], time) {
          if j < n { assert rows[j] == front[j]; }
        }
      }
    }
  }

  /** No row after the one `LastStarting` picks starts after `time`. */
  lemma {:induction false} LastStartingIsLatest(rows: seq<Booking>, time: int)
    requires LastStarting(rows, time).Some?
    ensures exists k :: (0 <= k < |rows| && rows[k] == LastStarting(rows, time).value
                         && forall j :: k < j < |rows| ==> !IsFuture(rows[j], time))
  {
    var n := |rows| - 1;
    if IsFuture(rows[n], time) {
      assert rows[n] == LastStarting(rows, time).value;
    } else {
      var front := rows[..n];
      LastStartingIsLatest(front, time);
      var k :| 0 <= k < |front| && front[k] == LastStarting(front, time).value
        && forall j :: k < j < |front| ==> !IsFuture(front[j], time);
      assert rows[k] == front[k];
      assert forall j :: k < j < |rows| ==> !IsFuture(rows[j], time) by {
        forall j | k < j < |rows| ensures !IsFuture(rows[j], time) {
          if j < n { assert rows[j] == front[j]; }
        }
      }
    }
  }

  /** `view` once the forEach of `getBookings` has run over `rows`: a field is
      overwritten only when some row qualifies for it. */
  function WithBookings(view: ItemResponseDto, rows: seq<Booking>, time: int): ItemResponseDto {
    var last := LastEnded(rows, time);
    var next := LastStarting(rows, time);
    view.(lastBooking := if last.Some? then Some(BookerDto(last.value)) else view.lastBooking,
          nextBooking := if next.Some? then Some(BookerDto(next.value)) else view.nextBooking)
  }

  /** One more row: it overwrites whichever fields it qualifies for. */
  lemma {:induction false} WithBookingsSnoc(view: ItemResponseDto, rows: seq<Booking>, b: Booking, time: int)
    ensures var v := WithBookings(view, rows, time);
      WithBookings(view, rows + [b], time)
      == v.(nextBooking := if IsFuture(b, time) then Some(BookerDto(b)) else v.nextBooking,
            lastBooking := if IsPast(b, time) then Some(BookerDto(b)) else v.lastBooking)
  {
    assert (rows + [b])[..|rows|] == rows;
  }

  /** `getBookings`' forEach: a row starting after `time` becomes the next
      booking, a row ended before it the last booking. */
  method AttachBookings(view: ItemResponseDto, rows: seq<Booking>, time: int) returns (v: ItemResponseDto)
    ensures v == WithBookings(view, rows, time)
  {
    v := view;
    var k := 0;
    while k < |rows|
      invariant 0 <= k <= |rows|
      invariant v == WithBookings(view, rows[..k], time)
    {
      var b := rows[k];
      assert rows[..k + 1] == rows[..k] + [b];
      WithBookingsSnoc(view, rows[..k], b, time);
      if b.start > time {
        v := v.(nextBooking := Some(BookerDto(b)));
      }
      if b.end < time {
        v := v.(lastBooking := Some(BookerDto(b)));
      }
      k := k + 1;
    }
    assert rows[..k] == rows;
  }

  /** On a fresh view, `lastBooking` is set iff some row has ended and then
      holds an ended row, `nextBooking` likewise for rows still to start; so a
      booking running at `time` is never shown. The row kept is the last
      qualifying one. */
  lemma {:induction false} BookingsOnEitherSide(view: ItemResponseDto, rows: seq<Booking>, time: int)
    requires view.lastBooking.None? && view.nextBooking.None?
    ensures var v := WithBookings(view, rows, time);
      && (v.lastBooking.Some? <==> exists b :: b in rows && IsPast(b, time))
      && (v.nextBooking.Some? <==> exists b :: b in rows && IsFuture(b, time))
      && (v.lastBooking.Some? ==> v.lastBooking.value.end < time)
      && (v.nextBooking.Some? ==> v.nextBooking.value.start > time)
      && (forall b :: b in rows && IsCurrent(b, time) ==>
            v.lastBooking != Some(BookerDto(b)) && v.nextBooking != Some(BookerDto(b)))
      && (v.lastBooking.Some? ==>
            exists k :: (0 <= k < |rows| && v.lastBooking == Some(BookerDto(rows[k]))
                         && forall j :: k < j < |rows| ==> !IsPast(rows[j], time)))
      && (v.nextBooking.Some? ==>
            exists k :: (0 <= k < |rows| && v.nextBooking == Some(BookerDto(rows[k]))
                         && forall j :: k < j < |rows| ==> !IsFuture(rows[j], time)))
  {
    if LastEnded(rows, time).Some? {
      LastEndedIsLatest(rows, time);
    }
    if LastStarting(rows, time).Some? {
      LastStartingIsLatest(rows, time);
    }
  }

  // ------------------------------------------------------- grouped by item

  /** The rows whose `booking.getItem().getId()` equals `id` (never a null id), in order. */
  function BookingsOfItem(rows: seq<Booking>, id: Option<int>): seq<Booking> {
    if rows == [] then []
    else
      var n := |rows| - 1;
      BookingsOfItem(rows[..n], id) + (if rows[n].item.id.Some? && rows[n].item.id == id then [rows[n]] else [])
  }

  /** One item's pass of `getBookingsList`: only its own rows count. */
  method AttachItemBookings(view: ItemResponseDto, rows: seq<Booking>, time: int) returns (v: ItemResponseDto)
    ensures v == WithBookings(view, BookingsOfItem(rows, view.id), time)
  {
    v := view;
    var k := 0;
    while k < |rows|
      invariant 0 <= k <= |rows|
      invariant v == WithBookings(view, BookingsOfItem(rows[..k], view.id), time)
    {
      var b := rows[k];
      assert rows[..k + 1][..k] == rows[..k];
      var mine := BookingsOfItem(rows[..k], view.id);
      if b.item.id.Some? && b.item.id == view.id {
        assert BookingsOfItem(rows[..k + 1], view.id) == mine + [b];
        WithBookingsSnoc(view, BookingsOfItem(rows[..k], view.id), b, time);
        if b.start > time {
          v := v.(nextBooking := Some(BookerDto(b)));
        }
        if b.end < time {
          v := v.(lastBooking := Some(BookerDto(b)));
        }
      } else {
        assert BookingsOfItem(rows[..k + 1], view.id) == mine + [];
        assert mine + [] == mine;
      }
      k := k + 1;
    }
    assert rows[..k] == rows;
  }

  /** `getBookingsList`: every view gets the last and next booking among the
      rows of its own item. */
  method AttachBookingsList(views: seq<ItemResponseDto>, rows: seq<Booking>, time: int)
    returns (vs: seq<ItemResponseDto>)
    ensures |vs| == |views|
    ensures forall m :: 0 <= m < |views| ==> vs[m] == WithBookings(views[m], BookingsOfItem(rows, views[m].id), time)
  {
    vs := views;
    var i := 0;
    while i < |views|
      invariant 0 <= i <= |views| && |vs| == |views|
      invariant forall m :: 0 <= m < i ==> vs[m] == WithBookings(views[m], BookingsOfItem(rows, views[m].id), time)
      invariant forall m :: i <= m < |views| ==> vs[m] == views[m]
    {
      var v := AttachItemBookings(vs[i], rows, time);
      vs := vs[i := v];
      i := i + 1;
    }
  }

  lemma {:induction false} CommentDtosSnoc(cs: seq<Comment>, c: Comment)
    ensures CommentDtos(cs + [c]) == CommentDtos(cs) + [CommentDto(c)]
  {
    assert forall k :: 0 <= k < |cs| ==> (cs + [c])[k] == cs[k];
  }

  /** The comments whose `comment.getItem().getId()` equals `id`, in order. */
  function CommentsFor(comments: seq<Comment>, id: Option<int>): seq<Comment> {
    if comments == [] then []
    else
      var n := |comments| - 1;
      CommentsFor(comments[..n], id) + (if comments[n].item.id.Some? && comments[n].item.id == id then [comments[n]] else [])
  }

  /** Picking one item's comments out of any list is the single-id query on that list. */
  lemma {:induction false} CommentsForIsQuery(comments: seq<Comment>, itemId: int)
    ensures CommentsFor(comments, Some(itemId)) == CommentsByItemId(comments, itemId)
  {
    if comments == [] {
      assert CommentsByItemId(comments, itemId) == [];
    } else {
      var n := |comments| - 1;
      var init, last := comments[..n], comments[n];
      var tail := if last.item.id == Some(itemId) then [last] else [];
      assert CommentsFor(comments, Some(itemId)) == CommentsFor(init, Some(itemId)) + tail;
      CommentsForIsQuery(init, itemId);
      SplitLast(comments);
      CommentsByItemIdSnoc(init, last, itemId);
    }
  }

  /** One item's pass of `getCommentsList`: its own comments, in query order. */
  method CollectComments(comments: seq<Comment>, id: Option<int>) returns (list: seq<CommentResponseDto>)
    ensures list == CommentDtos(CommentsFor(comments, id))
  {
    list := [];
    var k := 0;
    assert comments[..k] == [];
    while k < |comments|
      invariant 0 <= k <= |comments|
      invariant list == CommentDtos(CommentsFor(comments[..k], id))
    {
      var c := comments[k];
      assert comments[..k + 1][..k] == comments[..k];
      if c.item.id.Some? && c.item.id == id {
        CommentDtosSnoc(CommentsFor(comments[..k], id), c);
        list := list + [CommentDto(c)];
      }
      k := k + 1;
    }
    assert comments[..k] == comments;
  }

  /** `getCommentsList`: every view gets the list of its own comments. */
  method AttachCommentsList(views: seq<ItemResponseDto>, comments: seq<Comment>)
    returns (vs: seq<ItemResponseDto>)
    ensures |vs| == |views|
    ensures forall m :: 0 <= m < |views| ==>
      vs[m] == views[m].(comments := Some(CommentDtos(CommentsFor(comments, views[m].id))))
  {
    vs := views;
    var i := 0;
    while i < |views|
      invariant 0 <= i <= |views| && |vs| == |views|
      invariant forall m :: 0 <= m < i ==>
        vs[m] == views[m].(comments := Some(CommentDtos(CommentsFor(comments, views[m].id))))
      invariant forall m :: i <= m < |views| ==> vs[m] == views[m]
    {
      var list := CollectComments(comments, vs[i].id);
      vs := vs[i := vs[i].(comments := Some(list))];
      i := i + 1;
    }
  }

  /** For a listed item, the rows of the list query that `getBookingsList`
      keeps are exactly the rows of the single-item query, in the same order. */
  lemma {:induction false} ListRowsRegroup(table: seq<Booking>, pool: seq<Booking>, itemIds: seq<int>, itemId: int, time: int)
    requires itemId in itemIds
    ensures BookingsOfItem(Scan(table, pool, LastAndNextByIdList(itemIds, time)), Some(itemId))
         == Scan(table, pool, LastAndNextById(itemId, time))
  {
    var list := LastAndNextByIdList(itemIds, time);
    var single := LastAndNextById(itemId, time);
    if pool == [] {
      assert Scan(table, pool, list) == [] && Scan(table, pool, single) == [];
    } else {
      var n := |pool| - 1;
      var b := pool[n];
      SplitLast(pool);
      ListRowsRegroup(table, pool[..n], itemIds, itemId, time);
      ScanSnoc(table, pool[..n], b, list);
      ScanSnoc(table, pool[..n], b, single);
      var xs := Scan(table, pool[..n], list);
      var ys := Scan(table, pool[..n], single);
      assert BookingsOfItem(xs, Some(itemId)) == ys;
      if Matches(table, list, b) {
        assert Scan(table, pool, list) == xs + [b];
        assert (xs + [b])[..|xs|] == xs;
        ListMatchesOne(table, itemIds, itemId, time, b);
        if b.item.id == Some(itemId) {
          assert BookingsOfItem(xs + [b], Some(itemId)) == ys + [b];
          assert Scan(table, pool, single) == ys + [b];
        } else {
          assert BookingsOfItem(xs + [b], Some(itemId)) == ys + [];
          assert Scan(table, pool, single) == ys + [];
        }
      } else {
        ListMatchesOne(table, itemIds, itemId, time, b);
        assert Scan(table, pool, list) == xs + [];
        assert Scan(table, pool, single) == ys + [];
        assert xs + [] == xs && ys + [] == ys;
      }
    }
  }

  // ------------------------------------------------------------- getById

  /** What `getById` returns: the item's view; its last and next booking only
      when the caller owns it; its comments always. */
  function Detail(items: seq<Item>, bookings: seq<Booking>, comments: seq<Comment>, itemId: int, userId: int, time: int)
    : (r: Result<ItemResponseDto, Error>)
    ensures r.Failure? <==> FindItem(items, itemId).None?
    ensures r.Failure? ==> r.error == EntityNotFound(ItemEntity)
    ensures r.Success? ==>
      var i := FindItem(items, itemId).value;
      && r.value.id == Some(itemId) && r.value.name == i.name && r.value.description == i.description
      && r.value.available == i.available && r.value.owner == UserMapper.ToUserDto(i.owner)
      && r.value.comments == Some(CommentDtos(CommentsByItemId(comments, itemId)))
      && (OwnerId(i) != Some(userId) ==> r.value.lastBooking.None? && r.value.nextBooking.None?)
  {
    var item :- ItemReference(items, itemId);
    var view := View(item);
    var shown := if OwnerId(item) == Some(userId)
      then WithBookings(view, Select(bookings, LastAndNextById(itemId, time)), time)
      else view;
    Success(shown.(comments := Some(CommentDtos(CommentsByItemId(comments, itemId)))))
  }

  /** `getById`. */
  method GetById(db: Database, itemId: int, userId: int, now: int) returns (r: Result<ItemResponseDto, Error>)
    ensures r == Detail(db.items, db.bookings, db.comments, itemId, userId, now)
  {
    var found := ItemReference(db.items, itemId);
    if found.Failure? {
      return Failure(found.error);
    }
    var view := View(found.value);
    if view.owner.Some? && view.owner.value.id == Some(userId) {
      view := AttachBookings(view, Select(db.bookings, LastAndNextById(itemId, now)), now);
    }
    r := Success(view.(comments := Some(CommentDtos(CommentsByItemId(db.comments, itemId)))));
  }

  /** The owner sees as last booking an ended booking that started at the item's
      latest start before `time`, and as next booking one that starts at its
      earliest start after `time`; the next booking is there exactly when some
      booking of the item starts after `time`. */
  lemma {:induction false} OwnerSeesAdjacentBookings(items: seq<Item>, bookings: seq<Booking>, comments: seq<Comment>,
                                  itemId: int, userId: int, time: int)
    requires WellFormedIntervals(bookings)
    requires FindItem(items, itemId).Some? && OwnerId(FindItem(items, itemId).value) == Some(userId)
    ensures Detail(items, bookings, comments, itemId, userId, time).Success?
    ensures var v := Detail(items, bookings, comments, itemId, userId, time).value;
      && (v.lastBooking.Some? ==>
            exists b :: b in bookings && OfItem(b, itemId) && IsPast(b, time)
              && Some(b.start) == MaxStartBefore(bookings, itemId, time) && v.lastBooking == Some(BookerDto(b)))
      && (v.nextBooking.Some? ==>
            exists b :: b in bookings && OfItem(b, itemId) && IsFuture(b, time)
              && Some(b.start) == MinStartAfter(bookings, itemId, time) && v.nextBooking == Some(BookerDto(b)))
      && (v.nextBooking.Some? <==> MinStartAfter(bookings, itemId, time).Some?)
  {
    var rows := Select(bookings, LastAndNextById(itemId, time));
    var last := LastEnded(rows, time);
    var next := LastStarting(rows, time);
    if last.Some? {
      var b := last.value;
      assert b in bookings && Matches(bookings, LastAndNextById(itemId, time), b);
      assert b.start <= b.end;
    }
    if next.Some? {
      assert next.value in bookings && Matches(bookings, LastAndNextById(itemId, time), next.value);
    }
    if MinStartAfter(bookings, itemId, time).Some? {
      MinStartAfterAttained(bookings, itemId, time);
      var b :| b in bookings && OfItem(b, itemId) && b.start == MinStartAfter(bookings, itemId, time).value;
      assert Matches(bookings, LastAndNextById(itemId, time), b);
      assert b in rows && IsFuture(b, time);
    }
  }

  // ----------------------------------------------------- listing and search

  /** The ids of the listed views, in order (a stored item always has one). */
  function IdsOf(rows: seq<Item>): (r: seq<int>)
    ensures forall i :: i in rows && i.id.Some? ==> i.id.value in r
  {
    if rows == [] then []
    else
      assert forall i :: i in rows ==> i == rows[0] || i in rows[1..];
      (if rows[0].id.Some? then [rows[0].id.value] else []) + IdsOf(rows[1..])
  }

  /** One entry of a listing: the last and next booking among the rows of the
      list query for its own item, and its own comments out of the list query. */
  function Listed(i: Item, bookings: seq<Booking>, comments: seq<Comment>, itemIds: seq<int>, time: int): ItemResponseDto {
    WithBookings(View(i), BookingsOfItem(Select(bookings, LastAndNextByIdList(itemIds, time)), i.id), time)
      .(comments := Some(CommentDtos(CommentsFor(CommentsByItemIds(comments, itemIds), i.id))))
  }

  function Listing(rows: seq<Item>, bookings: seq<Booking>, comments: seq<Comment>, time: int): seq<ItemResponseDto> {
    seq(|rows|, k requires 0 <= k < |rows| => Listed(rows[k], bookings, comments, IdsOf(rows), time))
  }

  /** The views of a page of items, then `getBookingsList` and `getCommentsList`. */
  method ListViews(rows: seq<Item>, bookings: seq<Booking>, comments: seq<Comment>, time: int)
    returns (vs: seq<ItemResponseDto>)
    ensures vs == Listing(rows, bookings, comments, time)
  {
    var views := seq(|rows|, k requires 0 <= k < |rows| => View(rows[k]));
    var ids := IdsOf(rows);
    vs := AttachBookingsList(views, Select(bookings, LastAndNextByIdList(ids, time)), time);
    vs := AttachCommentsList(vs, CommentsByItemIds(comments, ids));
  }

  /** What `getItems` returns: the owner's items, paged in id order. */
  function ItemsPage(items: seq<Item>, bookings: seq<Booking>, comments: seq<Comment>,
                     userId: int, from: Int32, size: Int32, time: int): Result<seq<ItemResponseDto>, Error>
  {
    var p :- MonolithGetPageable(from, size);
    Success(Listing(PageOf(ItemsByOwner(items, userId), p), bookings, comments, time))
  }

  /** What `getByText` returns: nothing for an empty text, whatever the paging;
      otherwise a page of the search for the lowered text. */
  function SearchPage(items: seq<Item>, bookings: seq<Booking>, comments: seq<Comment>,
                      text: string, from: Int32, size: Int32, time: int): Result<seq<ItemResponseDto>, Error>
  {
    if text == [] then Success([])
    else
      var p :- MonolithGetPageable(from, size);
      Success(Listing(PageOf(ByText(items, Lower(text)), p), bookings, comments, time))
  }

  /** `getItems`. */
  method GetItems(db: Database, userId: int, from: Int32, size: Int32, now: int)
    returns (r: Result<seq<ItemResponseDto>, Error>)
    ensures r == ItemsPage(db.items, db.bookings, db.comments, userId, from, size, now)
  {
    var p := MonolithGetPageable(from, size);
    if p.Failure? {
      return Failure(p.error);
    }
    var vs := ListViews(PageOf(ItemsByOwner(db.items, userId), p.value), db.bookings, db.comments, now);
    r := Success(vs);
  }

  /** `getByText`. */
  method GetByText(db: Database, text: string, from: Int32, size: Int32, now: int)
    returns (r: Result<seq<ItemResponseDto>, Error>)
    ensures r == SearchPage(db.items, db.bookings, db.comments, text, from, size, now)
  {
    if text == [] {
      return Success([]);
    }
    var p := MonolithGetPageable(from, size);
    if p.Failure? {
      return Failure(p.error);
    }
    var vs := ListViews(PageOf(ByText(db.items, Lower(text)), p.value), db.bookings, db.comments, now);
    r := Success(vs);
  }

  /** A listed item shows exactly what `getById` would show its owner at the
      same instant: the list queries regrouped by item are the single-item queries. */
  lemma {:induction false} ListedIsOwnerDetail(items: seq<Item>, bookings: seq<Booking>, comments: seq<Comment>,
                            rows: seq<Item>, k: int, time: int)
    requires DenseItems(items) && 0 <= k < |rows| && rows[k] in items && OwnerId(rows[k]).Some?
    ensures rows[k].id.Some?
    ensures Detail(items, bookings, comments, rows[k].id.value, OwnerId(rows[k]).value, time)
         == Success(Listing(rows, bookings, comments, time)[k])
  {
    var i := rows[k];
    DenseItemFound(items, i);
    var id := i.id.value;
    var ids := IdsOf(rows);
    assert i in rows;
    ListRowsRegroup(bookings, bookings, ids, id, time);
    CommentsForIsQuery(CommentsByItemIds(comments, ids), id);
    GroupedCommentsAgree(comments, ids, id);
  }

  /** `getItems` shows each of the owner's items as `getById` shows it to them. */
  lemma {:induction false} OwnerListingIsDetail(items: seq<Item>, bookings: seq<Booking>, comments: seq<Comment>,
                             userId: int, from: Int32, size: Int32, time: int, k: int)
    requires DenseItems(items)
    requires ItemsPage(items, bookings, comments, userId, from, size, time).Success?
    requires 0 <= k < |ItemsPage(items, bookings, comments, userId, from, size, time).value|
    ensures var row := PageOf(ItemsByOwner(items, userId), MonolithGetPageable(from, size).value)[k];
      && row.id.Some?
      && Detail(items, bookings, comments, row.id.value, userId, time)
         == Success(ItemsPage(items, bookings, comments, userId, from, size, time).value[k])
  {
    var p := MonolithGetPageable(from, size).value;
    var owned := ItemsByOwner(items, userId);
    var rows := PageOf(owned, p);
    ItemsPageIsListing(items, bookings, comments, userId, from, size, time);
    PageOfMembers(owned, p);
    assert rows[k] in rows;
    ListedIsOwnerDetail(items, bookings, comments, rows, k, time);
  }

  lemma {:induction false} ItemsPageIsListing(items: seq<Item>, bookings: seq<Booking>, comments: seq<Comment>,
                                              userId: int, from: Int32, size: Int32, time: int)
    requires MonolithGetPageable(from, size).Success?
    ensures ItemsPage(items, bookings, comments, userId, from, size, time)
         == Success(Listing(PageOf(ItemsByOwner(items, userId), MonolithGetPageable(from, size).value), bookings, comments, time))
  {
  }

  /** The search shows every caller the last and next bookings that only the
      owner sees through `getById`. */
  lemma {:induction false} SearchShowsOwnerDetail(items: seq<Item>, bookings: seq<Booking>, comments: seq<Comment>,
                               text: string, from: Int32, size: Int32, time: int, k: int)
    requires DenseItems(items) && forall j :: 0 <= j < |items| ==> StoredItem(items[j])
    requires SearchPage(items, bookings, comments, text, from, size, time).Success?
    requires 0 <= k < |SearchPage(items, bookings, comments, text, from, size, time).value|
    ensures text != []
    ensures var row := PageOf(ByText(items, Lower(text)), MonolithGetPageable(from, size).value)[k];
      && row.id.Some? && OwnerId(row).Some?
      && Detail(items, bookings, comments, row.id.value, OwnerId(row).value, time)
         == Success(SearchPage(items, bookings, comments, text, from, size, time).value[k])
  {
    assert text != [];
    var p := MonolithGetPageable(from, size).value;
    var found := ByText(items, Lower(text));
    var rows := PageOf(found, p);
    SearchPageIsListing(items, bookings, comments, text, from, size, time);
    PageOfMembers(found, p);
    assert rows[k] in rows;
    var j :| 0 <= j < |items| && items[j] == rows[k];
    assert StoredItem(items[j]);
    ListedIsOwnerDetail(items, bookings, comments, rows, k, time);
  }

  lemma {:induction false} SearchPageIsListing(items: seq<Item>, bookings: seq<Booking>, comments: seq<Comment>,
                                               text: string, from: Int32, size: Int32, time: int)
    requires SearchPage(items, bookings, comments, text, from, size, time).Success? && text != []
    ensures MonolithGetPageable(from, size).Success?
    ensures SearchPage(items, bookings, comments, text, from, size, time)
         == Success(Listing(PageOf(ByText(items, Lower(text)), MonolithGetPageable(from, size).value), bookings, comments, time))
  {
  }

  /** The search lowers its text first, so it ignores the case of ASCII letters. */
  lemma {:induction false} SearchIgnoresCase(items: seq<Item>, bookings: seq<Booking>, comments: seq<Comment>,
                          text: string, from: Int32, size: Int32, time: int)
    ensures SearchPage(items, bookings, comments, text, from, size, time)
         == SearchPage(items, bookings, comments, Lower(text), from, size, time)
  {
    LowerIdempotent(text);
  }

  /** An empty text gives an empty list even for paging the converter refuses. */
  lemma {:induction false} EmptySearchSkipsPaging(items: seq<Item>, bookings: seq<Booking>, comments: seq<Comment>,
                               from: Int32, size: Int32, time: int)
    requires MonolithGetPageable(from, size).Failure?
    ensures SearchPage(items, bookings, comments, "", from, size, time) == Success([])
    ensures SearchPage(items, bookings, comments, "a", from, size, time).Failure?
  {
  }

  // --------------------------------------------------------------- writes

  /** `save`: MapStruct's `toItem` looks the owner up by id (null when missing,
      and for a null id), then the row is inserted with the next id. */
  method Save(db: Database, dto: ItemRequestDto) returns (r: Result<ItemResponseDto, Error>)
    requires db.Valid() && dto.name.Some? && dto.description.Some? && dto.available.Some?
    modifies db
    ensures db.Valid()
    ensures r.Failure? <==> dto.ownerId.None? || FindUser(old(db.users), dto.ownerId.value).None?
    ensures r.Failure? ==> r.error == NotFound(UserEntity) && db.items == old(db.items)
    ensures r.Success? ==>
      var saved := Item(Some(|old(db.items)| + 1), dto.name, dto.description, dto.available,
                        FindUser(old(db.users), dto.ownerId.value), None);
      && db.items == old(db.items) + [saved]
      && r.value == View(saved)
    ensures db.users == old(db.users) && db.nextUserId == old(db.nextUserId) && db.bookings == old(db.bookings)
    ensures db.requests == old(db.requests) && db.comments == old(db.comments)
  {
    var owner := if dto.ownerId.Some? then FindUser(db.users, dto.ownerId.value) else None;
    if owner.None? {
      return Failure(NotFound(UserEntity));
    }
    var saved := db.InsertItem(Item(None, dto.name, dto.description, dto.available, owner, None));
    r := Success(View(saved));
  }

  /** `change`'s setters: a field the patch leaves null keeps its value; the
      patch's `request` is ignored. */
  function Patched(i: Item, patch: ItemPatchDto): (r: Item)
    ensures r.id == i.id && r.owner == i.owner && r.requestId == i.requestId
    ensures patch.name.Some? ==> r.name == patch.name
    ensures patch.name.None? ==> r.name == i.name
    ensures patch.description.Some? ==> r.description == patch.description
    ensures patch.description.None? ==> r.description == i.description
    ensures patch.available.Some? ==> r.available == patch.available
    ensures patch.available.None? ==> r.available == i.available
  {
    i.(name := if patch.name.Some? then patch.name else i.name,
       description := if patch.description.Some? then patch.description else i.description,
       available := if patch.available.Some? then patch.available else i.available)
  }

  /** Applying the same patch twice is applying it once. */
  lemma {:induction false} PatchIdempotent(i: Item, patch: ItemPatchDto)
    ensures Patched(Patched(i, patch), patch) == Patched(i, patch)
  {
  }

  /** The patched row: the item must exist, and the caller must own it. */
  function Changed(items: seq<Item>, userId: int, itemId: int, patch: ItemPatchDto): (r: Result<Item, Error>)
    ensures r.Failure? <==> FindItem(items, itemId).None? || OwnerId(FindItem(items, itemId).value) != Some(userId)
    ensures FindItem(items, itemId).None? ==> r == Failure(EntityNotFound(ItemEntity))
    ensures FindItem(items, itemId).Some? && OwnerId(FindItem(items, itemId).value) != Some(userId)
            ==> r == Failure(NotItemOwner)
    ensures r.Success? ==> r.value == Patched(FindItem(items, itemId).value, patch)
  {
    var i :- ItemReference(items, itemId);
    if OwnerId(i) != Some(userId) then Failure(NotItemOwner) else Success(Patched(i, patch))
  }

  /** `change`: check, patch and save the row, then return it with its last
      and next booking and its comments, which is what `getById` shows the
      owner afterwards. */
  method Change(db: Database, userId: int, itemId: int, patch: ItemPatchDto, now: int)
    returns (r: Result<ItemResponseDto, Error>)
    requires db.Valid()
    modifies db
    ensures db.Valid()
    ensures r.Failure? <==> Changed(old(db.items), userId, itemId, patch).Failure?
    ensures r.Failure? ==> r.error == Changed(old(db.items), userId, itemId, patch).error && db.items == old(db.items)
    ensures r.Success? ==>
      && 1 <= itemId <= |old(db.items)|
      && db.items == old(db.items)[itemId - 1 := Changed(old(db.items), userId, itemId, patch).value]
      && r == Detail(db.items, db.bookings, db.comments, itemId, userId, now)
    ensures r.Failure? ==> db.bookings == old(db.bookings) && db.comments == old(db.comments)
    ensures r.Success? ==>
      && db.bookings == BookingsReadingItem(old(db.bookings), Changed(old(db.items), userId, itemId, patch).value)
      && db.comments == CommentsReadingItem(old(db.comments), Changed(old(db.items), userId, itemId, patch).value)
    ensures db.users == old(db.users) && db.nextUserId == old(db.nextUserId) && db.requests == old(db.requests)
  {
    var found := ItemReference(db.items, itemId);
    if found.Failure? {
      return Failure(found.error);
    }
    var item := found.value;
    if OwnerId(item) != Some(userId) {
      return Failure(NotItemOwner);
    }
    ghost var k :| 0 <= k < |db.items| && db.items[k] == item;
    var changed := Patched(item, patch);
    db.UpdateItem(changed);
    assert db.items[k] == changed;
    DenseItemFound(db.items, changed);
    var view := AttachBookings(View(changed), Select(db.bookings, LastAndNextById(itemId, now)), now);
    r := Success(view.(comments := Some(CommentDtos(CommentsByItemId(db.comments, itemId)))));
  }

  /** Once a user row is saved, the views read it: a comment by that user
      shows the new name, and an item of that user shows the new owner. */
  lemma {:induction false} ViewsReadSavedUser(items: seq<Item>, comments: seq<Comment>, u: User)
    requires StoredUser(u)
    ensures forall k :: 0 <= k < |comments| && comments[k].author.id == u.id ==>
      CommentDtos(CommentsReadingUser(comments, u))[k].authorName == u.name
    ensures forall k :: 0 <= k < |items| && OwnerId(items[k]) == u.id ==>
      View(ItemsReadingUser(items, u)[k]).owner == UserMapper.ToUserDto(Some(u))
  {
  }

  /** The body of a `POST /items/{id}/comment`. */
  datatype CommentRequestDto = CommentRequestDto(text: string, itemId: Option<int>, authorId: Option<int>)

  /** The comment `saveComment` stores: the author, then the item, must exist
      (MapStruct's lookups give null otherwise), and the author's APPROVED,
      ended bookings of the item must come back as one row. */
  function CommentOutcome(users: seq<User>, items: seq<Item>, bookings: seq<Booking>,
                          dto: CommentRequestDto, time: int): (r: Result<Comment, Error>)
    ensures (dto.authorId.None? || FindUser(users, dto.authorId.value).None?) ==> r == Failure(NotFound(UserEntity))
    ensures (&& dto.authorId.Some? && FindUser(users, dto.authorId.value).Some?
             && (dto.itemId.None? || FindItem(items, dto.itemId.value).None?))
            ==> r == Failure(NotFound(ItemEntity))
    ensures r.Success? ==>
      && dto.authorId.Some? && dto.itemId.Some?
      && FindUser(users, dto.authorId.value) == Some(r.value.author)
      && FindItem(items, dto.itemId.value) == Some(r.value.item)
      && r.value.id.None? && r.value.text == dto.text && r.value.created == time
  {
    var author := if dto.authorId.Some? then FindUser(users, dto.authorId.value) else None;
    if author.None? then Failure(NotFound(UserEntity))
    else
      var item := if dto.itemId.Some? then FindItem(items, dto.itemId.value) else None;
      if item.None? then Failure(NotFound(ItemEntity))
      else
        var booked :- SingleResult(Select(bookings, ApprovedEnded(dto.itemId.value, dto.authorId.value, time)));
        if booked.None? then Failure(NotItemBooked)
        else Success(Comment(None, dto.text, item.value, author.value, time))
  }

  /** With author and item found, a comment is accepted exactly when the author
      has one APPROVED booking of the item that ended before `time`: none is
      NotItemBooked, two or more an IncorrectResultSize error. */
  lemma {:induction false} CommentNeedsExactlyOneEndedBooking(users: seq<User>, items: seq<Item>, bookings: seq<Booking>,
                                           dto: CommentRequestDto, time: int)
    requires dto.authorId.Some? && FindUser(users, dto.authorId.value).Some?
    requires dto.itemId.Some? && FindItem(items, dto.itemId.value).Some?
    ensures var rows := Select(bookings, ApprovedEnded(dto.itemId.value, dto.authorId.value, time));
      && (CommentOutcome(users, items, bookings, dto, time).Success? <==> |rows| == 1)
      && (rows == [] ==> CommentOutcome(users, items, bookings, dto, time) == Failure(NotItemBooked))
      && (|rows| > 1 ==> CommentOutcome(users, items, bookings, dto, time) == Failure(IncorrectResultSize))
  {
  }

  /** An author with two ended, APPROVED bookings of the item cannot comment on it. */
  lemma {:induction false} SecondEndedBookingRefusesComment(users: seq<User>, items: seq<Item>, bookings: seq<Booking>,
                                         dto: CommentRequestDto, time: int, b1: Booking, b2: Booking)
    requires dto.authorId.Some? && FindUser(users, dto.authorId.value).Some?
    requires dto.itemId.Some? && FindItem(items, dto.itemId.value).Some?
    requires b1 in bookings && b2 in bookings && b1 != b2
    requires forall b :: b == b1 || b == b2 ==>
      OfItem(b, dto.itemId.value) && BookedBy(b, dto.authorId.value) && b.end < time && b.status == APPROVED
    ensures CommentOutcome(users, items, bookings, dto, time) == Failure(IncorrectResultSize)
  {
    var rows := Select(bookings, ApprovedEnded(dto.itemId.value, dto.authorId.value, time));
    assert b1 in rows && b2 in rows;
    var i :| 0 <= i < |rows| && rows[i] == b1;
    var j :| 0 <= j < |rows| && rows[j] == b2;
    assert i != j;
    CommentNeedsExactlyOneEndedBooking(users, items, bookings, dto, time);
  }

  /** `saveComment`: store the comment with `created` set to `time`. */
  method SaveComment(db: Database, dto: CommentRequestDto, now: int) returns (r: Result<CommentResponseDto, Error>)
    requires db.Valid()
    modifies db
    ensures db.Valid()
    ensures r.Failure? <==> CommentOutcome(old(db.users), old(db.items), old(db.bookings), dto, now).Failure?
    ensures r.Failure? ==>
      r.error == CommentOutcome(old(db.users), old(db.items), old(db.bookings), dto, now).error
      && db.comments == old(db.comments)
    ensures r.Success? ==>
      var saved := CommentOutcome(old(db.users), old(db.items), old(db.bookings), dto, now).value
                     .(id := Some(|old(db.comments)| + 1));
      db.comments == old(db.comments) + [saved] && r.value == CommentDto(saved)
    ensures db.users == old(db.users) && db.nextUserId == old(db.nextUserId) && db.items == old(db.items)
    ensures db.bookings == old(db.bookings) && db.requests == old(db.requests)
  {
    var author := if dto.authorId.Some? then FindUser(db.users, dto.authorId.value) else None;
    if author.None? {
      return Failure(NotFound(UserEntity));
    }
    var item := if dto.itemId.Some? then FindItem(db.items, dto.itemId.value) else None;
    if item.None? {
      return Failure(NotFound(ItemEntity));
    }
    var booked := SingleResult(Select(db.bookings, ApprovedEnded(dto.itemId.value, dto.authorId.value, now)));
    if booked.Failure? {
      return Failure(booked.error);
    }
    if booked.value.None? {
      return Failure(NotItemBooked);
    }
    var saved := db.InsertComment(Comment(None, dto.text, item.value, author.value, now));
    r := Success(CommentDto(saved));
  }
}
