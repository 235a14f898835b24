/** BookingRepository: every query is a filter over the booking table. Rows are
    returned in table order unless the caller asks for `start` descending, which
    OrderByStartDesc provides. */
module BookingQueries {
  import opened Wrappers
  import opened Errors
  import opened Entities
  import ItemQueries

  // ---------------------------------------------------------------- predicates

  /** CURRENT: `b.start <= :time and b.end >= :time` (both ends inclusive). */
  predicate IsCurrent(b: Booking, time: int) {
    b.start <= time && b.end >= time
  }

  /** PAST: `EndIsBefore(time)`. */
  predicate IsPast(b: Booking, time: int) {
    b.end < time
  }

  /** FUTURE: `StartAfter(time)`. */
  predicate IsFuture(b: Booking, time: int) {
    b.start > time
  }

  /** `b.item.id = :itemId` */
  predicate OfItem(b: Booking, itemId: int) {
    b.item.id == Some(itemId)
  }

  /** `:timeStart <= b.end and :timeEnd >= b.start`: closed intervals that meet. */
  predicate Overlaps(b: Booking, timeStart: int, timeEnd: int) {
    timeStart <= b.end && timeEnd >= b.start
  }

  // ------------------------------------------------------------------- queries

  datatype Query =
    | AllByBooker(userId: int)                            // findAllByBookerId
    | PastByBooker(userId: int, time: int)                // findBookingsByBookerIdAndEndIsBefore
    | FutureByBooker(userId: int, time: int)              // findBookingsByBookerIdAndStartAfter
    | StatusByBooker(userId: int, status: BookingStatus)  // findBookingsByBookerIdAndStatus
    | CurrentByBooker(userId: int, time: int)             // findCurrent
    | AllByOwner(userId: int)                             // findByOwnerId
    | CurrentByOwner(userId: int, time: int)              // findCurrentByOwnerId
    | PastByOwner(userId: int, time: int)                 // findPastByOwnerId
    | FutureByOwner(userId: int, time: int)               // findFutureByOwnerId
    | StatusByOwner(userId: int, status: BookingStatus)   // findByOwnerIdAndByStatus
    | LastAndNextById(itemId: int, time: int)             // findLastAndNextById
    | LastAndNextByIdList(itemIds: seq<int>, time: int)   // findLastAndNextByIdList
    | FreeInterval(itemId: int, timeStart: int, timeEnd: int)  // findFreeInterval
    | ApprovedEnded(itemId: int, userId: int, time: int)  // findByItemIdAndBookerIdAndStatusApproved

  /** The greatest start before `time` among the item's bookings
      (`select max(bk.start) ... where bk.start < :time`), null when there is none. */
  function MaxStartBefore(table: seq<Booking>, itemId: int, time: int): (r: Option<int>)
    ensures r.None? ==> forall b :: b in table && OfItem(b, itemId) ==> b.start >= time
    ensures r.Some? ==>
      && r.value < time
      && (forall b :: b in table && OfItem(b, itemId) && b.start < time ==> b.start <= r.value)
  {
    if table == [] then None
    else
      var rest := MaxStartBefore(table[1..], itemId, time);
      var b := table[0];
      assert forall x :: x in table ==> x == b || x in table[1..];
      if !(OfItem(b, itemId) && b.start < time) then rest
      else if rest.Some? && rest.value >= b.start then rest
      else Some(b.start)
  }

  /** The smallest start after `time` among the item's bookings. */
  function MinStartAfter(table: seq<Booking>, itemId: int, time: int): (r: Option<int>)
    ensures r.None? ==> forall b :: b in table && OfItem(b, itemId) ==> b.start <= time
    ensures r.Some? ==>
      && r.value > time
      && (forall b :: b in table && OfItem(b, itemId) && b.start > time ==> b.start >= r.value)
  {
    if table == [] then None
    else
      var rest := MinStartAfter(table[1..], itemId, time);
      var b := table[0];
      assert forall x :: x in table ==> x == b || x in table[1..];
      if !(OfItem(b, itemId) && b.start > time) then rest
      else if rest.Some? && rest.value <= b.start then rest
      else Some(b.start)
  }

  /** The maximum is attained: some booking of the item starts at it. */
  lemma {:induction false} MaxStartBeforeAttained(table: seq<Booking>, itemId: int, time: int)
    requires MaxStartBefore(table, itemId, time).Some?
    ensures exists b :: b in table && OfItem(b, itemId) && b.start == MaxStartBefore(table, itemId, time).value
  {
    var b := table[0];
    var rest := MaxStartBefore(table[1..], itemId, time);
    if MaxStartBefore(table, itemId, time) == rest {
      MaxStartBeforeAttained(table[1..], itemId, time);
      var x :| x in table[1..] && OfItem(x, itemId) && x.start == rest.value;
      assert x in table;
    } else {
      assert b in table;
    }
  }

  /** The minimum is attained: some booking of the item starts at it. */
  lemma {:induction false} MinStartAfterAttained(table: seq<Booking>, itemId: int, time: int)
    requires MinStartAfter(table, itemId, time).Some?
    ensures exists b :: b in table && OfItem(b, itemId) && b.start == MinStartAfter(table, itemId, time).value
  {
    var b := table[0];
    var rest := MinStartAfter(table[1..], itemId, time);
    if MinStartAfter(table, itemId, time) == rest {
      MinStartAfterAttained(table[1..], itemId, time);
      var x :| x in table[1..] && OfItem(x, itemId) && x.start == rest.value;
      assert x in table;
    } else {
      assert b in table;
    }
  }

  /** `b.start` is the last start before `time` or the first start after it,
      the subqueries being correlated on `b.item.id`. */
  predicate Adjacent(table: seq<Booking>, b: Booking, time: int) {
    b.item.id.Some? &&
    (Some(b.start) == MaxStartBefore(table, b.item.id.value, time) ||
     Some(b.start) == MinStartAfter(table, b.item.id.value, time))
  }

  /** The WHERE clause of each query; `table` is what the subqueries read. */
  predicate Matches(table: seq<Booking>, q: Query, b: Booking) {
    match q
    case AllByBooker(u) => BookedBy(b, u)
    case PastByBooker(u, t) => BookedBy(b, u) && IsPast(b, t)
    case FutureByBooker(u, t) => BookedBy(b, u) && IsFuture(b, t)
    case StatusByBooker(u, s) => BookedBy(b, u) && b.status == s
    case CurrentByBooker(u, t) => BookedBy(b, u) && IsCurrent(b, t)
    case AllByOwner(u) => OwnedBy(b, u)
    case CurrentByOwner(u, t) => OwnedBy(b, u) && IsCurrent(b, t)
    case PastByOwner(u, t) => OwnedBy(b, u) && IsPast(b, t)
    case FutureByOwner(u, t) => OwnedBy(b, u) && IsFuture(b, t)
    case StatusByOwner(u, s) => OwnedBy(b, u) && b.status == s
    case LastAndNextById(i, t) => OfItem(b, i) && Adjacent(table, b, t)
    case LastAndNextByIdList(ids, t) => b.item.id.Some? && b.item.id.value in ids && Adjacent(table, b, t)
    case FreeInterval(i, s, e) => OfItem(b, i) && Overlaps(b, s, e) && b.status == APPROVED
    case ApprovedEnded(i, u, t) => OfItem(b, i) && BookedBy(b, u) && IsPast(b, t) && b.status == APPROVED
  }

  /** The rows of `pool`, in order, that satisfy `q`. */
  function Scan(table: seq<Booking>, pool: seq<Booking>, q: Query): (r: seq<Booking>)
    ensures |r| <= |pool|
    ensures forall b :: b in r <==> b in pool && Matches(table, q, b)
  {
    if pool == [] then []
    else
      assert pool == [pool[0]] + pool[1..];
      (if Matches(table, q, pool[0]) then [pool[0]] else []) + Scan(table, pool[1..], q)
  }

  /** A matching row comes back as often as it occurs in the pool; any other never. */
  lemma {:induction false} ScanCount(table: seq<Booking>, pool: seq<Booking>, q: Query, b: Booking)
    ensures multiset(Scan(table, pool, q))[b] == if Matches(table, q, b) then multiset(pool)[b] else 0
  {
    if pool != [] {
      ScanCount(table, pool[1..], q, b);
      assert pool == [pool[0]] + pool[1..];
      assert multiset(pool) == multiset{pool[0]} + multiset(pool[1..]);
    }
  }

  lemma {:induction false} ScanCons(table: seq<Booking>, pool: seq<Booking>, q: Query)
    requires pool != []
    ensures Scan(table, pool, q) == (if Matches(table, q, pool[0]) then [pool[0]] else []) + Scan(table, pool[1..], q)
  {
  }

  /** Scanning one more row appends it when it matches. */
  lemma {:induction false} ScanSnoc(table: seq<Booking>, pool: seq<Booking>, b: Booking, q: Query)
    ensures Scan(table, pool + [b], q) == Scan(table, pool, q) + (if Matches(table, q, b) then [b] else [])
  {
    var tail := if Matches(table, q, b) then [b] else [];
    if pool == [] {
      assert pool + [b] == [b];
      assert Scan(table, [b], q) == tail + Scan(table, [], q);
    } else {
      var longer := pool + [b];
      var head := if Matches(table, q, pool[0]) then [pool[0]] else [];
      ScanCons(table, longer, q);
      assert longer[0] == pool[0];
      assert longer[1..] == pool[1..] + [b];
      ScanSnoc(table, pool[1..], b, q);
      ScanCons(table, pool, q);
      ItemQueries.Associative(head, Scan(table, pool[1..], q), tail);
    }
  }

  /** Run `q` over the whole table. */
  function Select(table: seq<Booking>, q: Query): seq<Booking> {
    Scan(table, table, q)
  }

  /** Spring Data's single-entity result: null for no row, the row for one,
      IncorrectResultSizeDataAccessException for more. */
  function SingleResult(rows: seq<Booking>): (r: Result<Option<Booking>, Error>)
    ensures r == Success(None) <==> rows == []
    ensures r.Success? && r.value.Some? <==> |rows| == 1
    ensures r.Success? && r.value.Some? ==> r.value.value == rows[0]
    ensures r.Failure? ==> r.error == IncorrectResultSize
  {
    if rows == [] then Success(None)
    else if |rows| == 1 then Success(Some(rows[0]))
    else Failure(IncorrectResultSize)
  }

  // ------------------------------------------------------------------ ordering

  predicate SortedByStartDesc(s: seq<Booking>) {
    forall i, j :: 0 <= i < j < |s| ==> s[i].start >= s[j].start
  }

  function InsertByStart(x: Booking, s: seq<Booking>): (r: seq<Booking>)
    requires SortedByStartDesc(s)
    ensures |r| == |s| + 1
    ensures SortedByStartDesc(r)
    ensures multiset(r) == multiset(s) + multiset{x}
  {
    if s == [] then [x]
    else if x.start >= s[0].start then
      ConsSortedByStart(x, s);
      [x] + s
    else
      var rest := InsertByStart(x, s[1..]);
      InsertBehindByStart(x, s, rest);
      [s[0]] + rest
  }

  /** The step of the insertion behind the first row. */
  lemma {:induction false} InsertBehindByStart(x: Booking, s: seq<Booking>, rest: seq<Booking>)
    requires s != [] && SortedByStartDesc(s) && x.start < s[0].start
    requires SortedByStartDesc(rest) && multiset(rest) == multiset(s[1..]) + multiset{x}
    ensures SortedByStartDesc([s[0]] + rest)
    ensures multiset([s[0]] + rest) == multiset(s) + multiset{x}
  {
    assert s == [s[0]] + s[1..];
    forall y | y in rest ensures y.start <= s[0].start {
      assert y in multiset(rest);
      if y != x {
        var k :| 0 <= k < |s[1..]| && s[1..][k] == y;
        assert s[k + 1] == y;
      }
    }
    ConsSortedByStart(s[0], rest);
  }

  /** Putting a row in front of sorted rows that start no later keeps them sorted. */
  lemma {:induction false} ConsSortedByStart(x: Booking, rest: seq<Booking>)
    requires SortedByStartDesc(rest)
    requires forall y :: y in rest ==> y.start <= x.start
    ensures SortedByStartDesc([x] + rest)
  {
    var r := [x] + rest;
    forall i, j | 0 <= i < j < |r| ensures r[i].start >= r[j].start {
      assert r[j] == rest[j - 1] && rest[j - 1] in rest;
      if i > 0 {
        assert r[i] == rest[i - 1];
      }
    }
  }

  /** `Sort.by(desc("start"))`: the same rows, latest start first (ties keep table order). */
  function OrderByStartDesc(s: seq<Booking>): (r: seq<Booking>)
    ensures SortedByStartDesc(r)
    ensures multiset(r) == multiset(s)
  {
    if s == [] then []
    else
      assert s == [s[0]] + s[1..];
      InsertByStart(s[0], OrderByStartDesc(s[1..]))
  }

  // ------------------------------------------------------------------ lemmas

  /** For a booking with start <= end, exactly one of CURRENT, PAST and FUTURE holds. */
  lemma {:induction false} TimePartition(b: Booking, time: int)
    requires b.start <= b.end
    ensures IsCurrent(b, time) || IsPast(b, time) || IsFuture(b, time)
    ensures !(IsCurrent(b, time) && IsPast(b, time))
    ensures !(IsCurrent(b, time) && IsFuture(b, time))
    ensures !(IsPast(b, time) && IsFuture(b, time))
  {
  }

  predicate WellFormedIntervals(table: seq<Booking>) {
    forall b :: b in table ==> b.start <= b.end
  }

  /** `q1`, `q2` and `q3` are mutually exclusive on `b` and together mean `q`. */
  predicate SplitsAt(table: seq<Booking>, q: Query, q1: Query, q2: Query, q3: Query, b: Booking) {
    && (Matches(table, q, b) <==> Matches(table, q1, b) || Matches(table, q2, b) || Matches(table, q3, b))
    && !(Matches(table, q1, b) && Matches(table, q2, b))
    && !(Matches(table, q1, b) && Matches(table, q3, b))
    && !(Matches(table, q2, b) && Matches(table, q3, b))
  }

  /** How often `b` comes back from the three queries adds up to how often `q` returns it. */
  lemma {:induction false} ScanSplitsAt(table: seq<Booking>, pool: seq<Booking>, q: Query, q1: Query, q2: Query, q3: Query, b: Booking)
    requires b in pool ==> SplitsAt(table, q, q1, q2, q3, b)
    ensures (multiset(Scan(table, pool, q1)) + multiset(Scan(table, pool, q2)) + multiset(Scan(table, pool, q3)))[b]
         == multiset(Scan(table, pool, q))[b]
  {
    ScanCount(table, pool, q, b);
    ScanCount(table, pool, q1, b);
    ScanCount(table, pool, q2, b);
    ScanCount(table, pool, q3, b);
  }

  /** Scanning with three queries that split `q` on every row splits the rows `q` returns. */
  lemma {:induction false} ScanSplits(table: seq<Booking>, pool: seq<Booking>, q: Query, q1: Query, q2: Query, q3: Query)
    requires forall b :: b in pool ==> SplitsAt(table, q, q1, q2, q3, b)
    ensures multiset(Scan(table, pool, q1)) + multiset(Scan(table, pool, q2)) + multiset(Scan(table, pool, q3))
         == multiset(Scan(table, pool, q))
  {
    var parts := multiset(Scan(table, pool, q1)) + multiset(Scan(table, pool, q2)) + multiset(Scan(table, pool, q3));
    var whole := multiset(Scan(table, pool, q));
    forall b
      ensures parts[b] == whole[b]
    {
      ScanSplitsAt(table, pool, q, q1, q2, q3, b);
    }
    assert parts == whole;
  }

  /** The CURRENT, PAST and FUTURE queries of a booker split ALL of their bookings. */
  lemma {:induction false} BookerStatesPartition(table: seq<Booking>, userId: int, time: int)
    requires WellFormedIntervals(table)
    ensures multiset(Select(table, CurrentByBooker(userId, time)))
          + multiset(Select(table, PastByBooker(userId, time)))
          + multiset(Select(table, FutureByBooker(userId, time)))
         == multiset(Select(table, AllByBooker(userId)))
  {
    forall b | b in table {
      TimePartition(b, time);
    }
    ScanSplits(table, table, AllByBooker(userId),
      CurrentByBooker(userId, time), PastByBooker(userId, time), FutureByBooker(userId, time));
  }

  /** The same split holds for the owner variants. */
  lemma {:induction false} OwnerStatesPartition(table: seq<Booking>, userId: int, time: int)
    requires WellFormedIntervals(table)
    ensures multiset(Select(table, CurrentByOwner(userId, time)))
          + multiset(Select(table, PastByOwner(userId, time)))
          + multiset(Select(table, FutureByOwner(userId, time)))
         == multiset(Select(table, AllByOwner(userId)))
  {
    forall b | b in table {
      TimePartition(b, time);
    }
    ScanSplits(table, table, AllByOwner(userId),
      CurrentByOwner(userId, time), PastByOwner(userId, time), FutureByOwner(userId, time));
  }

  /** CURRENT is inclusive at both ends of the booking. */
  lemma {:induction false} CurrentIncludesEndpoints(table: seq<Booking>, b: Booking, userId: int)
    requires b in table && BookedBy(b, userId) && b.start <= b.end
    ensures b in Select(table, CurrentByBooker(userId, b.start))
    ensures b in Select(table, CurrentByBooker(userId, b.end))
    ensures b !in Select(table, PastByBooker(userId, b.end))
    ensures b !in Select(table, FutureByBooker(userId, b.start))
  {
  }

  /** Only APPROVED bookings of the item that meet [timeStart, timeEnd] conflict. */
  lemma {:induction false} FreeIntervalIsApprovedOverlap(table: seq<Booking>, itemId: int, timeStart: int, timeEnd: int, b: Booking)
    ensures b in Select(table, FreeInterval(itemId, timeStart, timeEnd)) <==>
      b in table && OfItem(b, itemId) && b.status == APPROVED
      && timeStart <= b.end && timeEnd >= b.start
  {
  }

  /** Touching endpoints conflict: a request starting when an approved booking
      ends, or ending when it starts, is refused. */
  lemma {:induction false} TouchingIntervalsConflict(table: seq<Booking>, b: Booking, itemId: int, timeStart: int, timeEnd: int)
    requires b in table && OfItem(b, itemId) && b.status == APPROVED && b.start <= b.end
    requires timeStart == b.end || timeEnd == b.start
    requires timeStart <= timeEnd
    ensures Select(table, FreeInterval(itemId, timeStart, timeEnd)) != []
  {
    assert b in Select(table, FreeInterval(itemId, timeStart, timeEnd));
  }

  /** A booking starting at exactly `time` is neither the last nor the next one. */
  lemma {:induction false} LastAndNextSkipsTime(table: seq<Booking>, itemId: int, time: int, b: Booking)
    requires b in Select(table, LastAndNextById(itemId, time))
    ensures b in table && OfItem(b, itemId)
    ensures b.start != time
    ensures b.start < time ==>
      forall x :: x in table && OfItem(x, itemId) && x.start < time ==> x.start <= b.start
    ensures b.start > time ==>
      forall x :: x in table && OfItem(x, itemId) && x.start > time ==> x.start >= b.start
  {
  }

  /** A booking of the item that starts at the latest start before `time` is
      returned whatever its status. */
  lemma {:induction false} LastAndNextIgnoresStatus(table: seq<Booking>, itemId: int, time: int, b: Booking)
    requires b in table && OfItem(b, itemId) && b.start < time
    requires forall x :: x in table && OfItem(x, itemId) && x.start < time ==> x.start <= b.start
    ensures b in Select(table, LastAndNextById(itemId, time))
  {
    var m := MaxStartBefore(table, itemId, time);
    assert m.Some?;
    MaxStartBeforeAttained(table, itemId, time);
    assert m == Some(b.start);
    assert Matches(table, LastAndNextById(itemId, time), b);
  }

  lemma {:induction false} ScanAgrees(table: seq<Booking>, pool: seq<Booking>, q1: Query, q2: Query)
    requires forall b :: b in pool ==> (Matches(table, q1, b) <==> Matches(table, q2, b))
    ensures Scan(table, pool, q1) == Scan(table, pool, q2)
  {
    if pool != [] {
      assert pool[0] in pool;
      ScanAgrees(table, pool[1..], q1, q2);
    }
  }

  /** The list query returns a booking iff the single-item query of one of the
      listed ids does. */
  lemma {:induction false} LastAndNextListIsUnion(table: seq<Booking>, itemIds: seq<int>, time: int, b: Booking)
    ensures b in Select(table, LastAndNextByIdList(itemIds, time)) <==>
      exists id :: id in itemIds && b in Select(table, LastAndNextById(id, time))
  {
    if b in Select(table, LastAndNextByIdList(itemIds, time)) {
      var id := b.item.id.value;
      ListMatchesOne(table, itemIds, id, time, b);
      assert id in itemIds && b in Select(table, LastAndNextById(id, time));
    }
    if exists id :: id in itemIds && b in Select(table, LastAndNextById(id, time)) {
      var id :| id in itemIds && b in Select(table, LastAndNextById(id, time));
      ListMatchesOne(table, itemIds, id, time, b);
    }
  }

  /** A row of the list query belongs to the single-item query of its own item. */
  lemma {:induction false} ListMatchesOne(table: seq<Booking>, itemIds: seq<int>, itemId: int, time: int, b: Booking)
    requires itemId in itemIds
    ensures Matches(table, LastAndNextById(itemId, time), b)
        <==> Matches(table, LastAndNextByIdList(itemIds, time), b) && b.item.id == Some(itemId)
  {
    var adjacent := Adjacent(table, b, time);
    assert Matches(table, LastAndNextById(itemId, time), b) == (OfItem(b, itemId) && adjacent);
    assert Matches(table, LastAndNextByIdList(itemIds, time), b)
        == (b.item.id.Some? && b.item.id.value in itemIds && adjacent);
  }

  /** On a one-element list the two queries give the same rows in the same order. */
  lemma {:induction false} LastAndNextSingletonList(table: seq<Booking>, itemId: int, time: int)
    ensures Select(table, LastAndNextByIdList([itemId], time)) == Select(table, LastAndNextById(itemId, time))
  {
    forall b | b in table
      ensures Matches(table, LastAndNextByIdList([itemId], time), b) <==> Matches(table, LastAndNextById(itemId, time), b)
    {
      ListMatchesOne(table, [itemId], itemId, time, b);
    }
    ScanAgrees(table, table, LastAndNextByIdList([itemId], time), LastAndNextById(itemId, time));
  }

  /** The comment check only sees APPROVED, ended bookings of that item and booker. */
  lemma {:induction false} ApprovedEndedOnly(table: seq<Booking>, itemId: int, userId: int, time: int, b: Booking)
    ensures b in Select(table, ApprovedEnded(itemId, userId, time)) <==>
      b in table && OfItem(b, itemId) && BookedBy(b, userId) && b.end < time && b.status == APPROVED
  {
  }
}
