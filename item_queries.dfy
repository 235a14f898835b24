/** The item, item request and comment queries of the JPA repositories, as
    filters over their tables that keep table order. */
module ItemQueries {
  import opened Wrappers
  import opened Entities
  import opened Text

  /** The rows of `s` that satisfy `p`, in their order. */
  function Filter<T(==,!new)>(s: seq<T>, p: T -> bool): (r: seq<T>)
    ensures |r| <= |s|
    ensures forall x :: x in r <==> x in s && p(x)
  {
    if s == [] then []
    else
      assert s == [s[0]] + s[1..];
      (if p(s[0]) then [s[0]] else []) + Filter(s[1..], p)
  }

  /** No row passes: nothing comes back. */
  lemma {:induction false} FilterNone<T(!new)>(s: seq<T>, p: T -> bool)
    requires forall x :: x in s ==> !p(x)
    ensures Filter(s, p) == []
  {
    if s != [] {
      assert s[0] in s;
      assert forall x :: x in s[1..] ==> x in s;
      FilterNone(s[1..], p);
    }
  }

  /** A row that passes comes back as often as it occurs; any other never. */
  lemma {:induction false} FilterCount<T(!new)>(s: seq<T>, p: T -> bool, x: T)
    ensures multiset(Filter(s, p))[x] == if p(x) then multiset(s)[x] else 0
  {
    if s != [] {
      FilterCount(s[1..], p, x);
      assert s == [s[0]] + s[1..];
      assert multiset(s) == multiset{s[0]} + multiset(s[1..]);
    }
  }

  lemma {:induction false} FilterCounts<T(!new)>(s: seq<T>, p: T -> bool)
    ensures forall x :: multiset(Filter(s, p))[x] == if p(x) then multiset(s)[x] else 0
  {
    forall x ensures multiset(Filter(s, p))[x] == if p(x) then multiset(s)[x] else 0 {
      FilterCount(s, p, x);
    }
  }

  /** Two conditions that agree on every row select the same rows. */
  lemma {:induction false} FilterAgrees<T(!new)>(s: seq<T>, p: T -> bool, q: T -> bool)
    requires forall x :: x in s ==> p(x) == q(x)
    ensures Filter(s, p) == Filter(s, q)
  {
    if s != [] {
      assert forall x :: x in s[1..] ==> x in s;
      FilterAgrees(s[1..], p, q);
    }
  }

  /** Filtering a longer sequence adds the new row at the end, if it passes. */
  lemma {:induction false} FilterSnoc<T(!new)>(s: seq<T>, x: T, p: T -> bool)
    ensures Filter(s + [x], p) == Filter(s, p) + (if p(x) then [x] else [])
  {
    if s == [] {
      assert s + [x] == [x];
    } else {
      var head := if p(s[0]) then [s[0]] else [];
      var tail := if p(x) then [x] else [];
      assert (s + [x])[0] == s[0];
      assert (s + [x])[1..] == s[1..] + [x];
      assert Filter(s + [x], p) == head + Filter(s[1..] + [x], p);
      FilterSnoc(s[1..], x, p);
      var rest := Filter(s[1..], p);
      assert Filter(s, p) == head + rest;
      Associative(head, rest, tail);
    }
  }

  /** A non-empty sequence is its front followed by its last element. */
  lemma {:induction false} SplitLast<T>(s: seq<T>)
    requires s != []
    ensures s == s[..|s| - 1] + [s[|s| - 1]]
  {
  }

  lemma {:induction false} Associative<T>(a: seq<T>, b: seq<T>, c: seq<T>)
    ensures a + (b + c) == (a + b) + c
  {
  }

  /** Filtering a filtered sequence by a stricter condition is filtering the
      original by the stricter one. */
  lemma {:induction false} FilterNarrows<T(!new)>(s: seq<T>, p: T -> bool, q: T -> bool)
    requires forall x :: x in s && q(x) ==> p(x)
    ensures Filter(Filter(s, p), q) == Filter(s, q)
  {
    if s != [] {
      assert forall x :: x in s[1..] ==> x in s;
      FilterNarrows(s[1..], p, q);
      var rest := Filter(s[1..], p);
      if p(s[0]) {
        assert Filter(s, p) == [s[0]] + rest;
        assert ([s[0]] + rest)[0] == s[0];
        assert ([s[0]] + rest)[1..] == rest;
      } else {
        assert Filter(s, p) == rest;
      }
    }
  }

  // ------------------------------------------------------------------ items

  /** `getItemsByOwnerId`: the derived query on `owner.id`. */
  function ItemsByOwner(items: seq<Item>, userId: int): (r: seq<Item>)
    ensures forall i :: i in r <==> i in items && OwnerId(i) == Some(userId)
    ensures forall i :: i in items && OwnerId(i) == Some(userId) ==> multiset(r)[i] == multiset(items)[i]
  {
    FilterCounts(items, (i: Item) => OwnerId(i) == Some(userId));
    Filter(items, (i: Item) => OwnerId(i) == Some(userId))
  }

  /** `lower(column) like '%' || text || '%'` on a column that may be null
      (null never matches). The characters `%` and `_` in `text` are taken
      literally. */
  predicate LikeLower(column: Option<string>, text: string) {
    column.Some? && Contains(Lower(column.value), text)
  }

  predicate TextMatch(i: Item, text: string) {
    IsAvailable(i) && (LikeLower(i.name, text) || LikeLower(i.description, text))
  }

  /** `getByText`: available items whose lowered name or lowered description
      contains `text`. */
  function ByText(items: seq<Item>, text: string): (r: seq<Item>)
    ensures forall i :: i in r ==> IsAvailable(i)
    ensures forall i :: i in r <==> i in items && IsAvailable(i) && (LikeLower(i.name, text) || LikeLower(i.description, text))
  {
    Filter(items, (i: Item) => TextMatch(i, text))
  }

  /** A lowered column holds no capital letter, so a text with one finds
      nothing: the query is case-blind only for a text that is already lowered. */
  lemma {:induction false} CapitalTextFindsNothing(items: seq<Item>, text: string, k: int)
    requires 0 <= k < |text| && 'A' <= text[k] <= 'Z'
    ensures ByText(items, text) == []
  {
    forall i | i in items
      ensures !TextMatch(i, text)
    {
      if i.name.Some? { LoweredHasNoCapital(i.name.value, text, k); }
      if i.description.Some? { LoweredHasNoCapital(i.description.value, text, k); }
    }
    FilterNone(items, (i: Item) => TextMatch(i, text));
  }

  lemma {:induction false} LoweredHasNoCapital(s: string, text: string, k: int)
    requires 0 <= k < |text| && 'A' <= text[k] <= 'Z'
    ensures !Contains(Lower(s), text)
  {
    forall j | 0 <= j <= |s| - |text|
      ensures !OccursAt(Lower(s), text, j)
    {
      assert Lower(s)[j..j + |text|][k] == LowerChar(s[j + k]);
    }
  }

  /** The empty text matches every available item. */
  lemma {:induction false} EmptyTextFindsAllAvailable(items: seq<Item>)
    requires forall i :: i in items ==> i.name.Some?
    ensures ByText(items, "") == Filter(items, IsAvailable)
  {
    forall i | i in items
      ensures TextMatch(i, "") == IsAvailable(i)
    {
      EmptyTextMatchesEverything(Lower(i.name.value));
    }
    FilterAgrees(items, (i: Item) => TextMatch(i, ""), IsAvailable);
  }

  /** server `findItemsByRequestId`: items answering any request in `ids`. */
  function ItemsByRequestIds(items: seq<Item>, ids: set<int>): (r: seq<Item>)
    ensures forall i :: i in r <==> i in items && i.requestId.Some? && i.requestId.value in ids
  {
    Filter(items, (i: Item) => i.requestId.Some? && i.requestId.value in ids)
  }

  /** server `getItemsByRequestId`: the items answering one request. */
  function ItemsByRequestId(items: seq<Item>, requestId: int): (r: seq<Item>)
    ensures forall i :: i in r <==> i in items && i.requestId == Some(requestId)
  {
    Filter(items, (i: Item) => i.requestId == Some(requestId))
  }

  /** The set query on one id is the single-id query, row for row. */
  lemma {:induction false} SingleRequestSet(items: seq<Item>, requestId: int)
    ensures ItemsByRequestIds(items, {requestId}) == ItemsByRequestId(items, requestId)
  {
    if items != [] {
      SingleRequestSet(items[1..], requestId);
    }
  }

  lemma {:induction false} ItemsByRequestIdSnoc(items: seq<Item>, i: Item, requestId: int)
    ensures ItemsByRequestId(items + [i], requestId)
         == ItemsByRequestId(items, requestId) + (if i.requestId == Some(requestId) then [i] else [])
  {
    FilterSnoc(items, i, (i: Item) => i.requestId == Some(requestId));
  }

  /** Regrouping the rows of the set query by one of its ids gives exactly the
      single-id query for that id. */
  lemma {:induction false} GroupedItemsAgree(items: seq<Item>, ids: set<int>, requestId: int)
    requires requestId in ids
    ensures ItemsByRequestId(ItemsByRequestIds(items, ids), requestId) == ItemsByRequestId(items, requestId)
  {
    FilterNarrows(items, (i: Item) => i.requestId.Some? && i.requestId.value in ids,
                         (i: Item) => i.requestId == Some(requestId));
  }

  // --------------------------------------------------------------- requests

  /** server `getItemRequestsByRequestorId`. */
  function RequestsByRequestor(requests: seq<ItemRequest>, userId: int): (r: seq<ItemRequest>)
    ensures forall q :: q in r <==> q in requests && q.requestor.id == Some(userId)
    ensures forall q :: multiset(r)[q] == if q.requestor.id == Some(userId) then multiset(requests)[q] else 0
  {
    FilterCounts(requests, (q: ItemRequest) => q.requestor.id == Some(userId));
    Filter(requests, (q: ItemRequest) => q.requestor.id == Some(userId))
  }

  /** server `findAllByOtherUsers`: `requestor.id <> :userId`, which SQL leaves
      unknown, hence unselected, for a null id. */
  function RequestsByOtherUsers(requests: seq<ItemRequest>, userId: int): (r: seq<ItemRequest>)
    ensures forall q :: q in r <==> q in requests && q.requestor.id.Some? && q.requestor.id.value != userId
    ensures forall q :: multiset(r)[q] == if q.requestor.id.Some? && q.requestor.id.value != userId then multiset(requests)[q] else 0
  {
    FilterCounts(requests, (q: ItemRequest) => q.requestor.id.Some? && q.requestor.id.value != userId);
    Filter(requests, (q: ItemRequest) => q.requestor.id.Some? && q.requestor.id.value != userId)
  }

  /** Over saved requestors the two queries split the table between them:
      no request is in both, and together they hold every row. */
  lemma {:induction false} RequestQueriesPartition(requests: seq<ItemRequest>, userId: int)
    requires forall q :: q in requests ==> q.requestor.id.Some?
    ensures forall q :: !(q in RequestsByRequestor(requests, userId) && q in RequestsByOtherUsers(requests, userId))
    ensures multiset(RequestsByRequestor(requests, userId)) + multiset(RequestsByOtherUsers(requests, userId))
         == multiset(requests)
  {
    var mine, others := RequestsByRequestor(requests, userId), RequestsByOtherUsers(requests, userId);
    forall q
      ensures (multiset(mine) + multiset(others))[q] == multiset(requests)[q]
    {
      if q !in requests {
        assert multiset(requests)[q] == 0;
      }
    }
    assert multiset(mine) + multiset(others) == multiset(requests);
  }

  /** A user with no requests of their own sees the whole table. */
  lemma {:induction false} NoOwnRequestsSeesAll(requests: seq<ItemRequest>, userId: int)
    requires forall q :: q in requests ==> q.requestor.id.Some?
    requires RequestsByRequestor(requests, userId) == []
    ensures RequestsByOtherUsers(requests, userId) == requests
  {
    forall q | q in requests
      ensures q.requestor.id.Some? && q.requestor.id.value != userId
    {
      assert q !in RequestsByRequestor(requests, userId);
    }
    FilterAgrees(requests, (q: ItemRequest) => q.requestor.id.Some? && q.requestor.id.value != userId,
                           (q: ItemRequest) => true);
    FilterAll(requests);
  }

  lemma {:induction false} FilterAll<T(!new)>(s: seq<T>)
    ensures Filter(s, (x: T) => true) == s
  {
    if s != [] {
      FilterAll(s[1..]);
    }
  }

  // --------------------------------------------------------------- comments

  /** `findCommentsByItemId(Long)`. */
  function CommentsByItemId(comments: seq<Comment>, itemId: int): (r: seq<Comment>)
    ensures forall c :: c in r <==> c in comments && c.item.id == Some(itemId)
  {
    Filter(comments, (c: Comment) => c.item.id == Some(itemId))
  }

  /** `findCommentsByItemId(List<Long>)`: `item.id in (:itemIds)`. */
  function CommentsByItemIds(comments: seq<Comment>, itemIds: seq<int>): (r: seq<Comment>)
    ensures forall c :: c in r <==> c in comments && c.item.id.Some? && c.item.id.value in itemIds
  {
    Filter(comments, (c: Comment) => c.item.id.Some? && c.item.id.value in itemIds)
  }

  /** The list overload on one id is the single-id query, row for row. */
  lemma {:induction false} SingleItemList(comments: seq<Comment>, itemId: int)
    ensures CommentsByItemIds(comments, [itemId]) == CommentsByItemId(comments, itemId)
  {
    FilterAgrees(comments, (c: Comment) => c.item.id.Some? && c.item.id.value in [itemId],
                           (c: Comment) => c.item.id == Some(itemId));
  }

  /** Ids of items nobody commented on add nothing to the list query. */
  lemma {:induction false} UncommentedIdsAddNothing(comments: seq<Comment>, itemIds: seq<int>, extra: seq<int>)
    requires forall c :: c in comments && c.item.id.Some? ==> c.item.id.value !in extra
    ensures CommentsByItemIds(comments, itemIds + extra) == CommentsByItemIds(comments, itemIds)
  {
    forall c | c in comments && c.item.id.Some?
      ensures (c.item.id.value in itemIds + extra) == (c.item.id.value in itemIds)
    {
      assert c.item.id.value !in extra;
    }
    FilterAgrees(comments, (c: Comment) => c.item.id.Some? && c.item.id.value in itemIds + extra,
                           (c: Comment) => c.item.id.Some? && c.item.id.value in itemIds);
  }

  lemma {:induction false} CommentsByItemIdSnoc(comments: seq<Comment>, c: Comment, itemId: int)
    ensures CommentsByItemId(comments + [c], itemId)
         == CommentsByItemId(comments, itemId) + (if c.item.id == Some(itemId) then [c] else [])
  {
    FilterSnoc(comments, c, (c: Comment) => c.item.id == Some(itemId));
  }

  /** Regrouping the rows of the list query by one of its ids gives exactly the
      single-id query for that id. */
  lemma {:induction false} GroupedCommentsAgree(comments: seq<Comment>, itemIds: seq<int>, itemId: int)
    requires itemId in itemIds
    ensures CommentsByItemId(CommentsByItemIds(comments, itemIds), itemId) == CommentsByItemId(comments, itemId)
  {
    FilterNarrows(comments, (c: Comment) => c.item.id.Some? && c.item.id.value in itemIds,
                            (c: Comment) => c.item.id == Some(itemId));
  }
}
