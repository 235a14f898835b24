/** The relational store behind the JPA repositories: one table per entity,
    rows in insertion order, ids handed out by each table's IDENTITY column. */
module Store {
  import opened Wrappers
  import opened Errors
  import opened Entities

  /** The NOT NULL columns of `users`, and the id a saved row always has. */
  predicate StoredUser(u: User) {
    u.id.Some? && u.name.Some? && u.email.Some?
  }

  /** The NOT NULL columns of `items`; the owner is a saved user. */
  predicate StoredItem(i: Item) {
    && i.id.Some? && i.name.Some? && i.description.Some? && i.available.Some?
    && i.owner.Some? && i.owner.value.id.Some?
  }

  /** `findById` on the users table. */
  function FindUser(users: seq<User>, id: int): (r: Option<User>)
    ensures r.Some? ==> r.value in users && r.value.id == Some(id)
    ensures r.None? ==> forall u :: u in users ==> u.id != Some(id)
  {
    if users == [] then None
    else if users[0].id == Some(id) then Some(users[0])
    else FindUser(users[1..], id)
  }

  /** `findById` on the items table. */
  function FindItem(items: seq<Item>, id: int): (r: Option<Item>)
    ensures r.Some? ==> r.value in items && r.value.id == Some(id)
    ensures r.None? ==> forall i :: i in items ==> i.id != Some(id)
  {
    if items == [] then None
    else if items[0].id == Some(id) then Some(items[0])
    else FindItem(items[1..], id)
  }

  /** `findById` on the bookings table. */
  function FindBooking(bookings: seq<Booking>, id: int): (r: Option<Booking>)
    ensures r.Some? ==> r.value in bookings && r.value.id == id
    ensures r.None? ==> forall b :: b in bookings ==> b.id != id
  {
    if bookings == [] then None
    else if bookings[0].id == id then Some(bookings[0])
    else FindBooking(bookings[1..], id)
  }

  /** `findById` on the requests table. */
  function FindRequest(requests: seq<ItemRequest>, id: int): (r: Option<ItemRequest>)
    ensures r.Some? ==> r.value in requests && r.value.id == id
    ensures r.None? ==> forall q :: q in requests ==> q.id != id
  {
    if requests == [] then None
    else if requests[0].id == id then Some(requests[0])
    else FindRequest(requests[1..], id)
  }

  /** `getReferenceById` on the users table: a lazy proxy whose first use
      throws EntityNotFoundException when the row is missing. */
  function UserReference(users: seq<User>, id: int): (r: Result<User, Error>)
    ensures r.Success? <==> FindUser(users, id).Some?
    ensures r.Success? ==> r.value == FindUser(users, id).value
    ensures r.Failure? ==> r.error == EntityNotFound(UserEntity)
  {
    var u := FindUser(users, id);
    if u.None? then Failure(EntityNotFound(UserEntity)) else Success(u.value)
  }

  /** `getReferenceById` on the items table. */
  function ItemReference(items: seq<Item>, id: int): (r: Result<Item, Error>)
    ensures r.Success? <==> FindItem(items, id).Some?
    ensures r.Success? ==> r.value == FindItem(items, id).value
    ensures r.Failure? ==> r.error == EntityNotFound(ItemEntity)
  {
    var i := FindItem(items, id);
    if i.None? then Failure(EntityNotFound(ItemEntity)) else Success(i.value)
  }

  /** `getReferenceById` on the item requests table. */
  function RequestReference(requests: seq<ItemRequest>, id: int): (r: Result<ItemRequest, Error>)
    ensures r.Success? <==> FindRequest(requests, id).Some?
    ensures r.Success? ==> r.value == FindRequest(requests, id).value
    ensures r.Failure? ==> r.error == EntityNotFound(RequestEntity)
  {
    var q := FindRequest(requests, id);
    if q.None? then Failure(EntityNotFound(RequestEntity)) else Success(q.value)
  }

  /** Rows whose id is their position plus one (tables nothing is deleted from). */
  predicate DenseBookings(bookings: seq<Booking>) {
    forall k :: 0 <= k < |bookings| ==> bookings[k].id == k + 1
  }

  /** In a dense table `findById(k + 1)` is the row at position `k`. */
  lemma {:induction false} FindDenseBooking(bookings: seq<Booking>, k: int)
    requires DenseBookings(bookings) && 0 <= k < |bookings|
    ensures FindBooking(bookings, k + 1) == Some(bookings[k])
  {
    FindShiftedBooking(bookings, k, 0);
  }

  /** A row of a dense table sits at position `id - 1`. */
  lemma {:induction false} DenseMember(bookings: seq<Booking>, b: Booking)
    requires DenseBookings(bookings) && b in bookings
    ensures 1 <= b.id <= |bookings| && bookings[b.id - 1] == b
  {
    var k :| 0 <= k < |bookings| && bookings[k] == b;
  }

  lemma {:induction false} FindShiftedBooking(bookings: seq<Booking>, k: int, shift: int)
    requires forall j :: 0 <= j < |bookings| ==> bookings[j].id == j + 1 + shift
    requires 0 <= k < |bookings|
    ensures FindBooking(bookings, k + 1 + shift) == Some(bookings[k])
  {
    if k > 0 {
      FindShiftedBooking(bookings[1..], k - 1, shift + 1);
    }
  }

  /** Item rows whose id is their position plus one. */
  predicate DenseItems(items: seq<Item>) {
    forall k :: 0 <= k < |items| ==> items[k].id == Some(k + 1)
  }

  lemma {:induction false} FindShiftedItem(items: seq<Item>, k: int, shift: int)
    requires forall j :: 0 <= j < |items| ==> items[j].id == Some(j + 1 + shift)
    requires 0 <= k < |items|
    ensures FindItem(items, k + 1 + shift) == Some(items[k])
  {
    if k > 0 {
      FindShiftedItem(items[1..], k - 1, shift + 1);
    }
  }

  /** In a dense item table `findById` of a row's id finds that row. */
  lemma {:induction false} DenseItemFound(items: seq<Item>, i: Item)
    requires DenseItems(items) && i in items
    ensures i.id.Some? && FindItem(items, i.id.value) == Some(i)
  {
    var k :| 0 <= k < |items| && items[k] == i;
    FindShiftedItem(items, k, 0);
  }

  /** Request rows whose id is their position plus one. */
  predicate DenseRequests(requests: seq<ItemRequest>) {
    forall k :: 0 <= k < |requests| ==> requests[k].id == k + 1
  }

  lemma {:induction false} FindShiftedRequest(requests: seq<ItemRequest>, k: int, shift: int)
    requires forall j :: 0 <= j < |requests| ==> requests[j].id == j + 1 + shift
    requires 0 <= k < |requests|
    ensures FindRequest(requests, k + 1 + shift) == Some(requests[k])
  {
    if k > 0 {
      FindShiftedRequest(requests[1..], k - 1, shift + 1);
    }
  }

  /** In a dense request table `findById` of a row's id finds that row. */
  lemma {:induction false} DenseRequestFound(requests: seq<ItemRequest>, q: ItemRequest)
    requires DenseRequests(requests) && q in requests
    ensures FindRequest(requests, q.id) == Some(q)
  {
    var k :| 0 <= k < |requests| && requests[k] == q;
    FindShiftedRequest(requests, k, 0);
  }

  /** Saved users in IDENTITY order, with pairwise distinct emails. */
  predicate OrderedUsers(users: seq<User>) {
    && (forall k :: 0 <= k < |users| ==> users[k].id.Some?)
    && (forall j, k :: 0 <= j < k < |users| ==> users[j].id.value < users[k].id.value && users[j].email != users[k].email)
  }

  /** The UNIQUE constraint on `users.email` would reject writing `u`: another
      row (one with a different id) already has its email. */
  predicate EmailTaken(users: seq<User>, u: User) {
    exists v :: v in users && v.id != u.id && v.email == u.email
  }

  /** The table after `UPDATE users ... WHERE id = u.id`. */
  function ReplaceUser(users: seq<User>, u: User): (r: seq<User>)
    ensures |r| == |users|
    ensures forall k :: 0 <= k < |users| ==> r[k] == if users[k].id == u.id then u else users[k]
  {
    seq(|users|, k requires 0 <= k < |users| => if users[k].id == u.id then u else users[k])
  }

  /** Overwriting a stored row with a stored user of the same id and a free
      email keeps the ids ordered, the emails distinct and every id below `bound`. */
  lemma {:induction false} ReplaceKeepsOrder(users: seq<User>, u: User, bound: int)
    requires OrderedUsers(users) && StoredUser(u) && FindUser(users, u.id.value).Some? && !EmailTaken(users, u)
    requires forall k :: 0 <= k < |users| ==> StoredUser(users[k]) && users[k].id.value < bound
    ensures var r := ReplaceUser(users, u);
      && OrderedUsers(r)
      && forall k :: 0 <= k < |r| ==> StoredUser(r[k]) && r[k].id.value < bound
  {
    var r := ReplaceUser(users, u);
    var w := FindUser(users, u.id.value).value;
    forall j, k | 0 <= j < k < |r|
      ensures r[j].id.value < r[k].id.value && r[j].email != r[k].email
    {
      assert users[j] in users && users[k] in users;
    }
    forall k | 0 <= k < |r|
      ensures StoredUser(r[k]) && r[k].id.value < bound
    {
      assert w in users;
    }
  }

  /** The table after `DELETE FROM users WHERE id = id`. */
  function Without(users: seq<User>, id: int): (r: seq<User>)
    ensures forall v :: v in r <==> v in users && v.id != Some(id)
  {
    if users == [] then []
    else (if users[0].id == Some(id) then [] else [users[0]]) + Without(users[1..], id)
  }

  /** Deleting a row keeps the rest in order and their emails distinct. */
  lemma {:induction false} WithoutKeepsOrder(users: seq<User>, id: int)
    requires OrderedUsers(users)
    ensures OrderedUsers(Without(users, id))
  {
    if users != [] {
      var rest := users[1..];
      OrderedTail(users);
      WithoutKeepsOrder(rest, id);
      var w := Without(rest, id);
      if users[0].id != Some(id) {
        assert Without(users, id) == [users[0]] + w;
        HeadBeforeRest(users, w);
        OrderedCons(users[0], w);
      } else {
        assert Without(users, id) == w;
      }
    }
  }

  lemma {:induction false} HeadBeforeRest(users: seq<User>, w: seq<User>)
    requires OrderedUsers(users) && users != []
    requires forall x :: x in w ==> x in users[1..]
    ensures forall x :: x in w ==> users[0].id.value < x.id.value && users[0].email != x.email
  {
    forall x | x in w
      ensures users[0].id.value < x.id.value && users[0].email != x.email
    {
      var k :| 0 <= k < |users[1..]| && users[1..][k] == x;
      assert x == users[k + 1];
    }
  }

  lemma {:induction false} OrderedTail(users: seq<User>)
    requires OrderedUsers(users) && users != []
    ensures OrderedUsers(users[1..])
  {
    var rest := users[1..];
    forall j, k | 0 <= j < k < |rest|
      ensures rest[j].id.value < rest[k].id.value && rest[j].email != rest[k].email
    {
      assert rest[j] == users[j + 1] && rest[k] == users[k + 1];
    }
  }

  lemma {:induction false} OrderedCons(h: User, w: seq<User>)
    requires OrderedUsers(w) && h.id.Some?
    requires forall x :: x in w ==> h.id.value < x.id.value && h.email != x.email
    ensures OrderedUsers([h] + w)
  {
    var r := [h] + w;
    forall j, k | 0 <= j < k < |r|
      ensures r[j].id.value < r[k].id.value && r[j].email != r[k].email
    {
      if j == 0 {
        assert r[k] == w[k - 1] && w[k - 1] in w;
      } else {
        assert r[j] == w[j - 1] && r[k] == w[k - 1];
      }
    }
    forall k | 0 <= k < |r|
      ensures r[k].id.Some?
    {
      if k > 0 { assert r[k] == w[k - 1]; }
    }
  }

  /** The last row of a table whose ids are all different is what `findById` of its id finds. */
  lemma {:induction false} FindLastItem(items: seq<Item>)
    requires |items| > 0
    requires forall k :: 0 <= k < |items| - 1 ==> items[k].id != items[|items| - 1].id
    requires items[|items| - 1].id.Some?
    ensures FindItem(items, items[|items| - 1].id.value) == Some(items[|items| - 1])
  {
    if |items| > 1 {
      assert items[1..][|items[1..]| - 1] == items[|items| - 1];
      FindLastItem(items[1..]);
    }
  }

  lemma {:induction false} FindLastRequest(requests: seq<ItemRequest>)
    requires |requests| > 0
    requires forall k :: 0 <= k < |requests| - 1 ==> requests[k].id != requests[|requests| - 1].id
    ensures FindRequest(requests, requests[|requests| - 1].id) == Some(requests[|requests| - 1])
  {
    if |requests| > 1 {
      assert requests[1..][|requests[1..]| - 1] == requests[|requests| - 1];
      FindLastRequest(requests[1..]);
    }
  }

  // ------------------------------------------------ references read by id

  /** A `@ManyToOne` user reference reads the user's current row: once `u`
      is saved, a reference to `u`'s id reads `u` and any other is unchanged. */
  function ReadUser(v: User, u: User): User {
    if v.id == u.id then u else v
  }

  /** An item whose owner reference reads its current row. */
  function ItemReadingUser(i: Item, u: User): Item {
    if i.owner.Some? then i.(owner := Some(ReadUser(i.owner.value, u))) else i
  }

  /** A booking whose booker and whose item's owner read their current rows. */
  function BookingReadingUser(b: Booking, u: User): Booking {
    b.(item := ItemReadingUser(b.item, u), booker := ReadUser(b.booker, u))
  }

  /** A comment whose author and whose item's owner read their current rows. */
  function CommentReadingUser(c: Comment, u: User): Comment {
    c.(item := ItemReadingUser(c.item, u), author := ReadUser(c.author, u))
  }

  function ItemsReadingUser(items: seq<Item>, u: User): seq<Item> {
    seq(|items|, k requires 0 <= k < |items| => ItemReadingUser(items[k], u))
  }

  function BookingsReadingUser(bookings: seq<Booking>, u: User): seq<Booking> {
    seq(|bookings|, k requires 0 <= k < |bookings| => BookingReadingUser(bookings[k], u))
  }

  function CommentsReadingUser(comments: seq<Comment>, u: User): seq<Comment> {
    seq(|comments|, k requires 0 <= k < |comments| => CommentReadingUser(comments[k], u))
  }

  function RequestsReadingUser(requests: seq<ItemRequest>, u: User): seq<ItemRequest> {
    seq(|requests|, k requires 0 <= k < |requests| => requests[k].(requestor := ReadUser(requests[k].requestor, u)))
  }

  /** An item reference reads the item's current row once `i` is saved. */
  function ReadItem(j: Item, i: Item): Item {
    if j.id == i.id then i else j
  }

  function BookingsReadingItem(bookings: seq<Booking>, i: Item): seq<Booking> {
    seq(|bookings|, k requires 0 <= k < |bookings| => bookings[k].(item := ReadItem(bookings[k].item, i)))
  }

  function CommentsReadingItem(comments: seq<Comment>, i: Item): seq<Comment> {
    seq(|comments|, k requires 0 <= k < |comments| => comments[k].(item := ReadItem(comments[k].item, i)))
  }

  /** Once `u` is saved, every reference to its id, direct or through an
      item's owner, reads `u`; every other reference, and every other column,
      is what it was. */
  lemma {:induction false} SavedUserIsRead(items: seq<Item>, bookings: seq<Booking>, comments: seq<Comment>,
                                           requests: seq<ItemRequest>, u: User)
    requires StoredUser(u)
    ensures var items' := ItemsReadingUser(items, u);
      && |items'| == |items|
      && forall k :: 0 <= k < |items| ==>
           && items'[k] == items[k].(owner := items'[k].owner)
           && (OwnerId(items[k]) == u.id ==> items'[k].owner == Some(u))
           && (OwnerId(items[k]) != u.id ==> items'[k].owner == items[k].owner)
    ensures var bookings' := BookingsReadingUser(bookings, u);
      && |bookings'| == |bookings|
      && forall k :: 0 <= k < |bookings| ==>
           && bookings'[k] == bookings[k].(item := bookings'[k].item, booker := bookings'[k].booker)
           && (bookings[k].booker.id == u.id ==> bookings'[k].booker == u)
           && (bookings[k].booker.id != u.id ==> bookings'[k].booker == bookings[k].booker)
           && bookings'[k].item == ItemsReadingUser([bookings[k].item], u)[0]
    ensures var comments' := CommentsReadingUser(comments, u);
      && |comments'| == |comments|
      && forall k :: 0 <= k < |comments| ==>
           && comments'[k] == comments[k].(item := comments'[k].item, author := comments'[k].author)
           && (comments[k].author.id == u.id ==> comments'[k].author == u)
           && (comments[k].author.id != u.id ==> comments'[k].author == comments[k].author)
           && comments'[k].item == ItemsReadingUser([comments[k].item], u)[0]
    ensures var requests' := RequestsReadingUser(requests, u);
      && |requests'| == |requests|
      && forall k :: 0 <= k < |requests| ==>
           && requests'[k] == requests[k].(requestor := requests'[k].requestor)
           && (requests[k].requestor.id == u.id ==> requests'[k].requestor == u)
           && (requests[k].requestor.id != u.id ==> requests'[k].requestor == requests[k].requestor)
  {
  }

  /** Reading a saved user keeps every row's id and NOT NULL columns. */
  lemma {:induction false} ReadingUserKeepsRows(items: seq<Item>, bookings: seq<Booking>, comments: seq<Comment>,
                                                requests: seq<ItemRequest>, u: User)
    requires StoredUser(u)
    requires (forall k :: 0 <= k < |items| ==> StoredItem(items[k])) && DenseItems(items)
    requires DenseBookings(bookings) && DenseRequests(requests)
    requires forall k :: 0 <= k < |comments| ==> comments[k].id == Some(k + 1)
    ensures var items' := ItemsReadingUser(items, u);
      (forall k :: 0 <= k < |items'| ==> StoredItem(items'[k])) && DenseItems(items')
    ensures DenseBookings(BookingsReadingUser(bookings, u)) && DenseRequests(RequestsReadingUser(requests, u))
    ensures var comments' := CommentsReadingUser(comments, u);
      forall k :: 0 <= k < |comments'| ==> comments'[k].id == Some(k + 1)
  {
    var items' := ItemsReadingUser(items, u);
    forall k | 0 <= k < |items'| ensures StoredItem(items'[k]) && items'[k].id == Some(k + 1) {
      assert items'[k] == ItemReadingUser(items[k], u);
    }
  }

  /** Reading the same saved user a second time changes nothing more. */
  lemma {:induction false} ReadingUserTwice(items: seq<Item>, bookings: seq<Booking>, comments: seq<Comment>, u: User)
    ensures ItemsReadingUser(ItemsReadingUser(items, u), u) == ItemsReadingUser(items, u)
    ensures BookingsReadingUser(BookingsReadingUser(bookings, u), u) == BookingsReadingUser(bookings, u)
    ensures CommentsReadingUser(CommentsReadingUser(comments, u), u) == CommentsReadingUser(comments, u)
  {
  }

  /** Once `i` is saved, every booking and comment of its id reads `i`; the
      rest is what it was. */
  lemma {:induction false} SavedItemIsRead(bookings: seq<Booking>, comments: seq<Comment>, i: Item)
    ensures var bookings' := BookingsReadingItem(bookings, i);
      && |bookings'| == |bookings|
      && forall k :: 0 <= k < |bookings| ==>
           && bookings'[k] == bookings[k].(item := bookings'[k].item)
           && (bookings[k].item.id == i.id ==> bookings'[k].item == i)
           && (bookings[k].item.id != i.id ==> bookings'[k].item == bookings[k].item)
    ensures var comments' := CommentsReadingItem(comments, i);
      && |comments'| == |comments|
      && forall k :: 0 <= k < |comments| ==>
           && comments'[k] == comments[k].(item := comments'[k].item)
           && (comments[k].item.id == i.id ==> comments'[k].item == i)
           && (comments[k].item.id != i.id ==> comments'[k].item == comments[k].item)
  {
  }

  /** The invariant of the tables, on their contents. */
  ghost predicate ValidTables(users: seq<User>, nextUserId: int, items: seq<Item>, bookings: seq<Booking>,
                              requests: seq<ItemRequest>, comments: seq<Comment>) {
    && (forall k :: 0 <= k < |users| ==> StoredUser(users[k]) && users[k].id.value < nextUserId)
    && OrderedUsers(users)
    && (forall k :: 0 <= k < |items| ==> StoredItem(items[k]))
    && DenseItems(items)
    && DenseBookings(bookings)
    && DenseRequests(requests)
    && (forall k :: 0 <= k < |comments| ==> comments[k].id == Some(k + 1))
  }

  /** Saving a user whose e-mail no other row holds keeps the invariant. */
  lemma {:induction false} SavedUserKeepsTables(users: seq<User>, nextUserId: int, items: seq<Item>, bookings: seq<Booking>,
                                                requests: seq<ItemRequest>, comments: seq<Comment>, u: User)
    requires ValidTables(users, nextUserId, items, bookings, requests, comments)
    requires StoredUser(u) && FindUser(users, u.id.value).Some? && !EmailTaken(users, u)
    ensures ValidTables(ReplaceUser(users, u), nextUserId, ItemsReadingUser(items, u), BookingsReadingUser(bookings, u),
                        RequestsReadingUser(requests, u), CommentsReadingUser(comments, u))
  {
    ReplaceKeepsOrder(users, u, nextUserId);
    ReadingUserKeepsRows(items, bookings, comments, requests, u);
  }

  class Database {
    var users: seq<User>
    var nextUserId: int
    var items: seq<Item>
    var bookings: seq<Booking>
    var requests: seq<ItemRequest>
    var comments: seq<Comment>

    /** Every saved row has its NOT NULL columns; items, bookings, requests and
        comments are never deleted, so their ids are positions; user ids are
        strictly increasing and below the next IDENTITY value, and no two users
        share an email (the UNIQUE constraint). */
    ghost predicate Valid()
      reads this
    {
      ValidTables(users, nextUserId, items, bookings, requests, comments)
    }

    constructor ()
      ensures Valid()
      ensures users == [] && items == [] && bookings == [] && requests == [] && comments == []
      ensures nextUserId == 1
    {
      users, nextUserId, items, bookings, requests, comments := [], 1, [], [], [], [];
    }

    /** `bookingRepository.save` of a new row: the IDENTITY column gives it the next id. */
    method InsertBooking(b: Booking) returns (saved: Booking)
      requires Valid()
      modifies this
      ensures Valid()
      ensures saved == b.(id := |old(bookings)| + 1)
      ensures bookings == old(bookings) + [saved]
      ensures FindBooking(bookings, saved.id) == Some(saved)
      ensures users == old(users) && nextUserId == old(nextUserId) && items == old(items)
      ensures requests == old(requests) && comments == old(comments)
    {
      saved := b.(id := |bookings| + 1);
      bookings := bookings + [saved];
      FindDenseBooking(bookings, |bookings| - 1);
    }

    /** `bookingRepository.save` of a loaded row: overwrite it in place. */
    method UpdateBooking(b: Booking)
      requires Valid() && 1 <= b.id <= |bookings|
      modifies this
      ensures Valid()
      ensures bookings == old(bookings)[b.id - 1 := b]
      ensures users == old(users) && nextUserId == old(nextUserId) && items == old(items)
      ensures requests == old(requests) && comments == old(comments)
    {
      bookings := bookings[b.id - 1 := b];
    }

    /** `userRepository.save` of a new user: the UNIQUE constraint on email,
        then the next IDENTITY value as its id. */
    method InsertUser(u: User) returns (r: Result<User, Error>)
      requires Valid() && u.id.None? && u.name.Some? && u.email.Some?
      modifies this
      ensures Valid()
      ensures r.Failure? <==> EmailTaken(old(users), u)
      ensures r.Failure? ==> r.error == DuplicateEmail && users == old(users) && nextUserId == old(nextUserId)
      ensures r.Success? ==> && r.value == u.(id := Some(old(nextUserId)))
                             && users == old(users) + [r.value]
                             && nextUserId == old(nextUserId) + 1
      ensures items == old(items) && bookings == old(bookings)
      ensures requests == old(requests) && comments == old(comments)
    {
      if exists v :: v in users && v.id != u.id && v.email == u.email {
        return Failure(DuplicateEmail);
      }
      var saved := u.(id := Some(nextUserId));
      forall k | 0 <= k < |users|
        ensures users[k].id.value < saved.id.value && users[k].email != saved.email
      {
        assert users[k] in users;
      }
      users, nextUserId := users + [saved], nextUserId + 1;
      r := Success(saved);
    }

    /** `userRepository.save` of a loaded user: the UNIQUE constraint on email
        against the other rows, then the row is overwritten; the references
        to it in the other tables read the new row from then on. */
    method UpdateUser(u: User) returns (r: Result<User, Error>)
      requires Valid() && StoredUser(u) && FindUser(users, u.id.value).Some?
      modifies this
      ensures Valid()
      ensures r.Failure? <==> EmailTaken(old(users), u)
      ensures r.Failure? ==> r.error == DuplicateEmail && users == old(users)
      ensures r.Success? ==> r.value == u && users == ReplaceUser(old(users), u)
      ensures r.Failure? ==> items == old(items) && bookings == old(bookings)
                             && requests == old(requests) && comments == old(comments)
      ensures r.Success? ==> && items == ItemsReadingUser(old(items), u)
                             && bookings == BookingsReadingUser(old(bookings), u)
                             && requests == RequestsReadingUser(old(requests), u)
                             && comments == CommentsReadingUser(old(comments), u)
      ensures nextUserId == old(nextUserId)
    {
      if exists v :: v in users && v.id != u.id && v.email == u.email {
        return Failure(DuplicateEmail);
      }
      SavedUserKeepsTables(users, nextUserId, items, bookings, requests, comments, u);
      var users', items' := ReplaceUser(users, u), ItemsReadingUser(items, u);
      var bookings', requests', comments' :=
        BookingsReadingUser(bookings, u), RequestsReadingUser(requests, u), CommentsReadingUser(comments, u);
      users, items, bookings, requests, comments := users', items', bookings', requests', comments';
      r := Success(u);
    }

    /** `userRepository.deleteById`: a missing id is an
        EmptyResultDataAccessException; the IDENTITY counter is not rewound. */
    method DeleteUser(id: int) returns (r: Result<(), Error>)
      requires Valid()
      modifies this
      ensures Valid()
      ensures r.Failure? <==> FindUser(old(users), id).None?
      ensures r.Failure? ==> r.error == EmptyResult && users == old(users)
      ensures r.Success? ==> users == Without(old(users), id)
      ensures FindUser(users, id).None?
      ensures nextUserId == old(nextUserId) && items == old(items) && bookings == old(bookings)
      ensures requests == old(requests) && comments == old(comments)
    {
      if FindUser(users, id).None? {
        return Failure(EmptyResult);
      }
      WithoutKeepsOrder(users, id);
      users := Without(users, id);
      r := Success(());
    }

    /** `itemRepository.save` of a new item: the next IDENTITY value as its id. */
    method InsertItem(i: Item) returns (saved: Item)
      requires Valid() && StoredItem(i.(id := Some(|items| + 1)))
      modifies this
      ensures Valid()
      ensures saved == i.(id := Some(|old(items)| + 1))
      ensures items == old(items) + [saved]
      ensures FindItem(items, |old(items)| + 1) == Some(saved)
      ensures users == old(users) && nextUserId == old(nextUserId) && bookings == old(bookings)
      ensures requests == old(requests) && comments == old(comments)
    {
      saved := i.(id := Some(|items| + 1));
      assert forall k :: 0 <= k < |items| ==> items[k].id != saved.id;
      items := items + [saved];
      FindLastItem(items);
    }

    /** `itemRepository.save` of a loaded item: overwrite it in place; the
        bookings and comments that refer to it read the new row from then on. */
    method UpdateItem(i: Item)
      requires Valid() && StoredItem(i) && 1 <= i.id.value <= |items|
      modifies this
      ensures Valid()
      ensures items == old(items)[i.id.value - 1 := i]
      ensures bookings == BookingsReadingItem(old(bookings), i)
      ensures comments == CommentsReadingItem(old(comments), i)
      ensures users == old(users) && nextUserId == old(nextUserId) && requests == old(requests)
    {
      items := items[i.id.value - 1 := i];
      bookings := BookingsReadingItem(bookings, i);
      comments := CommentsReadingItem(comments, i);
    }

    /** `commentRepository.save` of a new comment. */
    method InsertComment(c: Comment) returns (saved: Comment)
      requires Valid()
      modifies this
      ensures Valid()
      ensures saved == c.(id := Some(|old(comments)| + 1))
      ensures comments == old(comments) + [saved]
      ensures users == old(users) && nextUserId == old(nextUserId) && items == old(items)
      ensures bookings == old(bookings) && requests == old(requests)
    {
      saved := c.(id := Some(|comments| + 1));
      comments := comments + [saved];
    }

    /** `itemRequestRepository.save` of a new request. */
    method InsertRequest(q: ItemRequest) returns (saved: ItemRequest)
      requires Valid()
      modifies this
      ensures Valid()
      ensures saved == q.(id := |old(requests)| + 1)
      ensures requests == old(requests) + [saved]
      ensures FindRequest(requests, saved.id) == Some(saved)
      ensures users == old(users) && nextUserId == old(nextUserId) && items == old(items)
      ensures bookings == old(bookings) && comments == old(comments)
    {
      saved := q.(id := |requests| + 1);
      assert forall k :: 0 <= k < |requests| ==> requests[k].id != saved.id;
      requests := requests + [saved];
      FindLastRequest(requests);
    }
  }
}
