/** src InMemoryItemRepositoryImpl: a HashMap from id to item plus a counter
    that hands out the ids. Keys are `Option<int>` because a HashMap accepts
    the null key that `update` of an item without id writes to. */
module InMemoryItemRepository {
  import opened Wrappers
  import opened Entities
  import opened Text
  import opened ItemQueries

  class InMemoryItemRepository {
    var storage: map<Option<int>, Item>
    var id: int
    /** Every id `save` has handed out so far. */
    ghost var issued: set<int>

    /** Each entry sits under its item's own id; every id handed out is at most the counter. */
    ghost predicate Valid()
      reads this
    {
      && id >= 0
      && (forall k :: k in storage ==> storage[k].id == k)
      && (forall n :: n in issued ==> 1 <= n <= id)
    }

    constructor ()
      ensures Valid()
      ensures storage == map[] && id == 0 && issued == {}
    {
      storage, id, issued := map[], 0, {};
    }

    /** `readAll(userId)`: the stored items whose owner's id is `userId`
        (HashMap order is unspecified, so the result is a set). */
    function ReadAll(userId: int): (r: set<Item>)
      reads this
      ensures forall i :: i in r <==> i in storage.Values && OwnerId(i) == Some(userId)
    {
      set k | k in storage && OwnerId(storage[k]) == Some(userId) :: storage[k]
    }

    /** `readById`: `Optional.ofNullable(itemStorage.get(itemId))`. */
    function ReadById(itemId: Option<int>): (r: Option<Item>)
      reads this
      ensures r.None? <==> itemId !in storage
      ensures r.Some? ==> r.value == storage[itemId]
    {
      if itemId in storage then Some(storage[itemId]) else None
    }

    /** `readByText`: available items whose lowered name or lowered
        description contains `text`; the text itself is not lowered. */
    function ReadByText(text: string): (r: set<Item>)
      reads this
      ensures forall i :: i in r <==> i in storage.Values && TextMatch(i, text)
      ensures forall i :: i in r ==> IsAvailable(i)
    {
      set k | k in storage && TextMatch(storage[k], text) :: storage[k]
    }

    method GenerateId()
      requires Valid()
      modifies this
      ensures Valid()
      ensures id == old(id) + 1
      ensures storage == old(storage) && issued == old(issued)
    {
      id := id + 1;
    }

    /** `save`: the next id, then `put` under it; the saved item is the one stored. */
    method Save(item: Item) returns (saved: Item)
      requires Valid()
      modifies this
      ensures Valid()
      ensures id == old(id) + 1
      ensures saved == item.(id := Some(id))
      ensures storage == old(storage)[Some(id) := saved]
      ensures ReadById(Some(id)) == Some(saved)
      ensures id !in old(issued) && issued == old(issued) + {id}
    {
      GenerateId();
      saved := item.(id := Some(id));
      storage := storage[saved.id := saved];
      issued := issued + {id};
    }

    /** `update`: `put` under the item's own id; the counter is left alone. */
    method Update(item: Item) returns (updated: Item)
      requires Valid()
      modifies this
      ensures Valid()
      ensures updated == item
      ensures storage == old(storage)[item.id := item]
      ensures id == old(id) && issued == old(issued)
    {
      storage := storage[item.id := item];
      updated := storage[item.id];
    }
  }

  // ------------------------------------------------------------------ lemmas

  /** The search text is used as given: one with a capital letter finds nothing,
      since every name and description is lowered before the comparison. */
  lemma {:induction false} ReadByTextCapitalFindsNothing(repo: InMemoryItemRepository, text: string, k: int)
    requires 0 <= k < |text| && 'A' <= text[k] <= 'Z'
    ensures repo.ReadByText(text) == {}
  {
    forall i | i in repo.storage.Values
      ensures !TextMatch(i, text)
    {
      if i.name.Some? { LoweredHasNoCapital(i.name.value, text, k); }
      if i.description.Some? { LoweredHasNoCapital(i.description.value, text, k); }
    }
  }

  /** The in-memory search selects by the same condition as the JPA query:
      an item is found by one exactly when the other finds it in the same rows. */
  lemma {:induction false} SearchAgreesWithQuery(repo: InMemoryItemRepository, rows: seq<Item>, text: string)
    requires forall i :: i in rows <==> i in repo.storage.Values
    ensures forall i :: i in repo.ReadByText(text) <==> i in ByText(rows, text)
  {
  }
}
