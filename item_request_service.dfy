/** src ItemRequestServiceImpl: creating a request, a user's own requests and
    everybody else's (paged, newest first), one request by id, each shown with
    the items that answer it. */
module ItemRequestService {
  import opened Wrappers
  import opened Errors
  import opened Entities
  import opened Store
  import opened Pageable
  import opened ItemQueries
  import UserService

  /** The body of `POST /requests`. */
  datatype ItemReqRequestDto = ItemReqRequestDto(description: string, requestorId: Option<int>)

  /** An item as listed under a request. */
  datatype ItemForRequestDto = ItemForRequestDto(
    id: Option<int>, name: Option<string>, description: Option<string>, available: Option<bool>,
    ownerId: Option<int>, requestId: Option<int>)

  /** A request with the items that answer it (an empty list until filled in). */
  datatype ItemReqResponseDto = ItemReqResponseDto(id: int, description: string, created: int, items: seq<ItemForRequestDto>)

  /** MapStruct `toItemForRequestDto`: `ownerId` from `owner.id`, `requestId` from `request.id`. */
  function ForRequest(i: Item): ItemForRequestDto {
    ItemForRequestDto(i.id, i.name, i.description, i.available, OwnerId(i), i.requestId)
  }

  function ForRequests(items: seq<Item>): seq<ItemForRequestDto> {
    seq(|items|, k requires 0 <= k < |items| => ForRequest(items[k]))
  }

  /** MapStruct `toItemReqDto`. */
  function ReqView(q: ItemRequest): ItemReqResponseDto {
    ItemReqResponseDto(q.id, q.description, q.created, [])
  }

  // ---------------------------------------------------------------- ordering

  predicate SortedByCreatedDesc(s: seq<ItemRequest>) {
    forall i, j :: 0 <= i < j < |s| ==> s[i].created >= s[j].created
  }

  function InsertByCreated(x: ItemRequest, s: seq<ItemRequest>): (r: seq<ItemRequest>)
    requires SortedByCreatedDesc(s)
    ensures |r| == |s| + 1
    ensures SortedByCreatedDesc(r)
    ensures multiset(r) == multiset(s) + multiset{x}
  {
    if s == [] then [x]
    else if x.created >= s[0].created then
      ConsSortedByCreated(x, s);
      [x] + s
    else
      var rest := InsertByCreated(x, s[1..]);
      InsertBehindByCreated(x, s, rest);
      [s[0]] + rest
  }

  /** The step of the insertion behind the first row. */
  lemma {:induction false} InsertBehindByCreated(x: ItemRequest, s: seq<ItemRequest>, rest: seq<ItemRequest>)
    requires s != [] && SortedByCreatedDesc(s) && x.created < s[0].created
    requires SortedByCreatedDesc(rest) && multiset(rest) == multiset(s[1..]) + multiset{x}
    ensures SortedByCreatedDesc([s[0]] + rest)
    ensures multiset([s[0]] + rest) == multiset(s) + multiset{x}
  {
    assert s == [s[0]] + s[1..];
    forall y | y in rest ensures y.created <= s[0].created {
      assert y in multiset(rest);
      if y != x {
        var k :| 0 <= k < |s[1..]| && s[1..][k] == y;
        assert s[k + 1] == y;
      }
    }
    ConsSortedByCreated(s[0], rest);
  }

  /** Putting a row in front of sorted rows that start no later keeps them sorted. */
  lemma {:induction false} ConsSortedByCreated(x: ItemRequest, rest: seq<ItemRequest>)
    requires SortedByCreatedDesc(rest)
    requires forall y :: y in rest ==> y.created <= x.created
    ensures SortedByCreatedDesc([x] + rest)
  {
    var r := [x] + rest;
    forall i, j | 0 <= i < j < |r| ensures r[i].created >= r[j].created {
      assert r[j] == rest[j - 1] && rest[j - 1] in rest;
      if i > 0 {
        assert r[i] == rest[i - 1];
      }
    }
  }

  /** `Sort.by(DESC, "created")`: the same rows, newest first (ties keep table order). */
  function OrderByCreatedDesc(s: seq<ItemRequest>): (r: seq<ItemRequest>)
    ensures SortedByCreatedDesc(r)
    ensures multiset(r) == multiset(s)
  {
    if s == [] then []
    else
      assert s == [s[0]] + s[1..];
      InsertByCreated(s[0], OrderByCreatedDesc(s[1..]))
  }

  // ------------------------------------------------------ items by request

  /** The items whose `item.getRequest().getId()` equals `requestId`, in order. */
  function ItemsFor(items: seq<Item>, requestId: int): seq<Item> {
    if items == [] then []
    else
      var n := |items| - 1;
      ItemsFor(items[..n], requestId) + (if items[n].requestId == Some(requestId) then [items[n]] else [])
  }

  /** Picking one request's items out of any list is the single-id query on that list. */
  lemma {:induction false} ItemsForIsQuery(items: seq<Item>, requestId: int)
    ensures ItemsFor(items, requestId) == ItemsByRequestId(items, requestId)
  {
    if items == [] {
      assert ItemsByRequestId(items, requestId) == [];
    } else {
      var n := |items| - 1;
      var init, last := items[..n], items[n];
      var tail := if last.requestId == Some(requestId) then [last] else [];
      assert ItemsFor(items, requestId) == ItemsFor(init, requestId) + tail;
      ItemsForIsQuery(init, requestId);
      SplitLast(items);
      ItemsByRequestIdSnoc(init, last, requestId);
    }
  }

  lemma {:induction false} ForRequestsSnoc(items: seq<Item>, i: Item)
    ensures ForRequests(items + [i]) == ForRequests(items) + [ForRequest(i)]
  {
    assert forall k :: 0 <= k < |items| ==> (items + [i])[k] == items[k];
  }

  /** One request's pass of `getItems`: its own items, in query order. */
  method CollectItems(items: seq<Item>, requestId: int) returns (list: seq<ItemForRequestDto>)
    ensures list == ForRequests(ItemsFor(items, requestId))
  {
    list := [];
    var k := 0;
    assert items[..k] == [];
    while k < |items|
      invariant 0 <= k <= |items|
      invariant list == ForRequests(ItemsFor(items[..k], requestId))
    {
      var i := items[k];
      assert items[..k + 1][..k] == items[..k];
      if i.requestId == Some(requestId) {
        ForRequestsSnoc(ItemsFor(items[..k], requestId), i);
        list := list + [ForRequest(i)];
      }
      k := k + 1;
    }
    assert items[..k] == items;
  }

  /** `getItems`' forEach: every request gets the list of its own items. */
  method AttachItems(views: seq<ItemReqResponseDto>, items: seq<Item>) returns (vs: seq<ItemReqResponseDto>)
    ensures |vs| == |views|
    ensures forall m :: 0 <= m < |views| ==> vs[m] == views[m].(items := ForRequests(ItemsFor(items, views[m].id)))
  {
    vs := views;
    var i := 0;
    while i < |views|
      invariant 0 <= i <= |views| && |vs| == |views|
      invariant forall m :: 0 <= m < i ==> vs[m] == views[m].(items := ForRequests(ItemsFor(items, views[m].id)))
      invariant forall m :: i <= m < |views| ==> vs[m] == views[m]
    {
      var list := CollectItems(items, vs[i].id);
      vs := vs[i := vs[i].(items := list)];
      i := i + 1;
    }
  }

  /** The ids of the listed requests. */
  function IdSet(rows: seq<ItemRequest>): (r: set<int>)
    ensures forall q :: q in rows ==> q.id in r
  {
    set q | q in rows :: q.id
  }

  /** A page of requests, each with its items regrouped out of the set query. */
  function Listing(rows: seq<ItemRequest>, items: seq<Item>): seq<ItemReqResponseDto> {
    seq(|rows|, k requires 0 <= k < |rows| =>
      ReqView(rows[k]).(items := ForRequests(ItemsFor(ItemsByRequestIds(items, IdSet(rows)), rows[k].id))))
  }

  /** The views of a page of requests, then `getItems`. */
  method ListViews(rows: seq<ItemRequest>, items: seq<Item>) returns (vs: seq<ItemReqResponseDto>)
    ensures vs == Listing(rows, items)
  {
    var views := seq(|rows|, k requires 0 <= k < |rows| => ReqView(rows[k]));
    vs := AttachItems(views, ItemsByRequestIds(items, IdSet(rows)));
  }

  // ------------------------------------------------------------ operations

  /** What `getItemRequests` returns: the user must exist; their requests,
      newest first, paged. */
  function OwnPage(users: seq<User>, requests: seq<ItemRequest>, items: seq<Item>,
                   userId: int, from: Int32, size: Int32): (r: Result<seq<ItemReqResponseDto>, Error>)
    ensures FindUser(users, userId).None? ==> r == Failure(EntityNotFound(UserEntity))
    ensures FindUser(users, userId).Some? ==> (r.Failure? <==> MonolithGetPageable(from, size).Failure?)
  {
    var _ :- UserService.GetById(users, userId);
    var p :- MonolithGetPageable(from, size);
    Success(Listing(PageOf(OrderByCreatedDesc(RequestsByRequestor(requests, userId)), p), items))
  }

  /** What `getAllByOtherRequestors` returns: no check on the caller; the
      requests of every other user, newest first, paged. */
  function OthersPage(requests: seq<ItemRequest>, items: seq<Item>, userId: int, from: Int32, size: Int32)
    : (r: Result<seq<ItemReqResponseDto>, Error>)
    ensures r.Failure? <==> MonolithGetPageable(from, size).Failure?
  {
    var p :- MonolithGetPageable(from, size);
    Success(Listing(PageOf(OrderByCreatedDesc(RequestsByOtherUsers(requests, userId)), p), items))
  }

  /** What `getById` returns: the user check, the lazy reference to the
      request, then the single-id item query. */
  function Detail(users: seq<User>, requests: seq<ItemRequest>, items: seq<Item>, requestId: int, userId: int)
    : (r: Result<ItemReqResponseDto, Error>)
    ensures FindUser(users, userId).None? ==> r == Failure(EntityNotFound(UserEntity))
    ensures FindUser(users, userId).Some? && FindRequest(requests, requestId).None?
            ==> r == Failure(EntityNotFound(RequestEntity))
    ensures r.Success? ==>
      var q := FindRequest(requests, requestId).value;
      && r.value.id == requestId && r.value.description == q.description && r.value.created == q.created
      && r.value.items == ForRequests(ItemsByRequestId(items, requestId))
  {
    var _ :- UserService.GetById(users, userId);
    var q :- RequestReference(requests, requestId);
    Success(ReqView(q).(items := ForRequests(ItemsByRequestId(items, q.id))))
  }

  /** `getItemRequests`. */
  method GetItemRequests(db: Database, userId: int, from: Int32, size: Int32)
    returns (r: Result<seq<ItemReqResponseDto>, Error>)
    ensures r == OwnPage(db.users, db.requests, db.items, userId, from, size)
  {
    var user := UserService.GetById(db.users, userId);
    if user.Failure? {
      return Failure(user.error);
    }
    var p := MonolithGetPageable(from, size);
    if p.Failure? {
      return Failure(p.error);
    }
    var vs := ListViews(PageOf(OrderByCreatedDesc(RequestsByRequestor(db.requests, userId)), p.value), db.items);
    r := Success(vs);
  }

  /** `getAllByOtherRequestors`. */
  method GetAllByOtherRequestors(db: Database, userId: int, from: Int32, size: Int32)
    returns (r: Result<seq<ItemReqResponseDto>, Error>)
    ensures r == OthersPage(db.requests, db.items, userId, from, size)
  {
    var p := MonolithGetPageable(from, size);
    if p.Failure? {
      return Failure(p.error);
    }
    var vs := ListViews(PageOf(OrderByCreatedDesc(RequestsByOtherUsers(db.requests, userId)), p.value), db.items);
    r := Success(vs);
  }

  /** `save`: MapStruct's `toItemRequest` looks the requestor up (null when
      missing); `created` is the current time; the saved request has no items yet. */
  method Save(db: Database, dto: ItemReqRequestDto, now: int) returns (r: Result<ItemReqResponseDto, Error>)
    requires db.Valid()
    modifies db
    ensures db.Valid()
    ensures r.Failure? <==> dto.requestorId.None? || FindUser(old(db.users), dto.requestorId.value).None?
    ensures r.Failure? ==> r.error == NotFound(UserEntity) && db.requests == old(db.requests)
    ensures r.Success? ==>
      var saved := ItemRequest(|old(db.requests)| + 1, dto.description,
                               FindUser(old(db.users), dto.requestorId.value).value, now);
      && db.requests == old(db.requests) + [saved]
      && r.value == ItemReqResponseDto(saved.id, dto.description, now, [])
    ensures db.users == old(db.users) && db.nextUserId == old(db.nextUserId) && db.items == old(db.items)
    ensures db.bookings == old(db.bookings) && db.comments == old(db.comments)
  {
    var requestor := if dto.requestorId.Some? then FindUser(db.users, dto.requestorId.value) else None;
    if requestor.None? {
      return Failure(NotFound(UserEntity));
    }
    var saved := db.InsertRequest(ItemRequest(0, dto.description, requestor.value, now));
    r := Success(ReqView(saved));
  }

  // ---------------------------------------------------------------- lemmas

  /** A request of a page lists exactly the items `getById` lists for it. */
  lemma {:induction false} ListedIsDetail(users: seq<User>, requests: seq<ItemRequest>, items: seq<Item>,
                       rows: seq<ItemRequest>, k: int, userId: int)
    requires DenseRequests(requests) && FindUser(users, userId).Some?
    requires 0 <= k < |rows| && rows[k] in requests
    ensures Detail(users, requests, items, rows[k].id, userId) == Success(Listing(rows, items)[k])
  {
    var q := rows[k];
    DenseRequestFound(requests, q);
    assert q in rows;
    ItemsForIsQuery(ItemsByRequestIds(items, IdSet(rows)), q.id);
    GroupedItemsAgree(items, IdSet(rows), q.id);
  }

  /** A page cut from rows sorted newest first is sorted newest first, and
      holds only rows of the whole. */
  lemma {:induction false} PageKeepsOrder(sorted: seq<ItemRequest>, p: PageRequest)
    requires p.page >= 0 && p.size >= 1 && SortedByCreatedDesc(sorted)
    ensures SortedByCreatedDesc(PageOf(sorted, p))
    ensures forall q :: q in PageOf(sorted, p) ==> q in sorted
  {
    var rows := PageOf(sorted, p);
    PageOfMembers(sorted, p);
    forall i, j | 0 <= i < j < |rows| ensures rows[i].created >= rows[j].created {
      assert rows[i] == sorted[p.page * p.size + i] && rows[j] == sorted[p.page * p.size + j];
    }
  }

  /** The listing keeps each row's id, description and creation time, in order. */
  lemma {:induction false} ListingKeepsRows(rows: seq<ItemRequest>, items: seq<Item>)
    ensures |Listing(rows, items)| == |rows|
    ensures forall k :: 0 <= k < |rows| ==>
      Listing(rows, items)[k].id == rows[k].id && Listing(rows, items)[k].created == rows[k].created
  {
  }

  /** The user's page holds their own requests, newest first, each with the
      items `getById` would show for it. */
  lemma {:induction false} OwnPageMeansOwnRequests(users: seq<User>, requests: seq<ItemRequest>, items: seq<Item>,
                                userId: int, from: Int32, size: Int32)
    requires DenseRequests(requests)
    requires OwnPage(users, requests, items, userId, from, size).Success?
    ensures var page := OwnPage(users, requests, items, userId, from, size).value;
      && (forall i, j :: 0 <= i < j < |page| ==> page[i].created >= page[j].created)
      && (forall k :: 0 <= k < |page| ==>
            && FindRequest(requests, page[k].id).Some?
            && FindRequest(requests, page[k].id).value.requestor.id == Some(userId)
            && Detail(users, requests, items, page[k].id, userId) == Success(page[k]))
  {
    var mine := RequestsByRequestor(requests, userId);
    var sorted := OrderByCreatedDesc(mine);
    var p := MonolithGetPageable(from, size).value;
    var rows := PageOf(sorted, p);
    var page := OwnPage(users, requests, items, userId, from, size).value;
    assert page == Listing(rows, items);
    PageKeepsOrder(sorted, p);
    ListingKeepsRows(rows, items);
    forall k | 0 <= k < |page|
      ensures && FindRequest(requests, page[k].id).Some?
              && FindRequest(requests, page[k].id).value.requestor.id == Some(userId)
              && Detail(users, requests, items, page[k].id, userId) == Success(page[k])
    {
      var q := rows[k];
      assert q in rows;
      assert q in multiset(sorted);
      assert q in mine;
      DenseRequestFound(requests, q);
      ListedIsDetail(users, requests, items, rows, k, userId);
    }
  }

  /** The other users' page never shows one of the caller's requests, nor one
      whose requestor has no id. */
  lemma {:induction false} OthersPageExcludesCaller(requests: seq<ItemRequest>, items: seq<Item>, userId: int, from: Int32, size: Int32)
    requires DenseRequests(requests)
    requires OthersPage(requests, items, userId, from, size).Success?
    ensures var page := OthersPage(requests, items, userId, from, size).value;
      && (forall i, j :: 0 <= i < j < |page| ==> page[i].created >= page[j].created)
      && (forall k :: 0 <= k < |page| ==>
            && FindRequest(requests, page[k].id).Some?
            && FindRequest(requests, page[k].id).value.requestor.id.Some?
            && FindRequest(requests, page[k].id).value.requestor.id != Some(userId))
  {
    var others := RequestsByOtherUsers(requests, userId);
    var sorted := OrderByCreatedDesc(others);
    var p := MonolithGetPageable(from, size).value;
    var rows := PageOf(sorted, p);
    var page := OthersPage(requests, items, userId, from, size).value;
    assert page == Listing(rows, items);
    PageKeepsOrder(sorted, p);
    ListingKeepsRows(rows, items);
    forall k | 0 <= k < |page|
      ensures && FindRequest(requests, page[k].id).Some?
              && FindRequest(requests, page[k].id).value.requestor.id.Some?
              && FindRequest(requests, page[k].id).value.requestor.id != Some(userId)
    {
      var q := rows[k];
      assert q in rows;
      assert q in multiset(sorted);
      assert q in others;
      DenseRequestFound(requests, q);
    }
  }
}
