/** src InMemoryUserRepositoryImpl: a HashMap from id to user, a counter that
    hands out the ids, and the email check that relies on User.equals. The
    map also records which Java object sits under each key (`refs`), because
    `equals` first compares references. */
module InMemoryUserRepository {
  import opened Wrappers
  import opened Entities
  import opened Identity

  class InMemoryUserRepository {
    var storage: map<Option<int>, User>
    var refs: map<Option<int>, nat>
    var id: int
    /** Every id `save` has handed out so far, deleted ones included. */
    ghost var issued: set<int>

    ghost predicate Valid()
      reads this
    {
      && id >= 0
      && refs.Keys == storage.Keys
      && (forall k :: k in storage ==> storage[k].id == k)
      && (forall n :: n in issued ==> 1 <= n <= id)
    }

    constructor ()
      ensures Valid()
      ensures storage == map[] && refs == map[] && id == 0 && issued == {}
    {
      storage, refs, id, issued := map[], map[], 0, {};
    }

    /** `readAll`: the stored users (HashMap order is unspecified, so a set). */
    function ReadAll(): (r: set<User>)
      reads this
      ensures forall u :: u in r <==> exists k :: k in storage && storage[k] == u
    {
      set k | k in storage :: storage[k]
    }

    function ReadById(userId: Option<int>): (r: Option<User>)
      reads this
      ensures r.None? <==> userId !in storage
      ensures r.Some? ==> r.value == storage[userId]
    {
      if userId in storage then Some(storage[userId]) else None
    }

    /** `existsById`: `containsKey`, which is what makes `readById` non-empty. */
    function ExistsById(userId: Option<int>): (r: bool)
      reads this
      ensures r <==> ReadById(userId).Some?
    {
      userId in storage
    }

    /** The stored object under `k`, as `equals` sees it. */
    function Stored(k: Option<int>): Obj
      reads this
      requires k in storage && k in refs
    {
      UserObj(refs[k], storage[k])
    }

    /** `existsByEmail(user)`: some stored user that is not `equals` to the
        argument (object `ref` with contents `user`) has the same email. */
    function ExistsByEmail(user: User, ref: nat): (r: bool)
      reads this
      requires Valid()
      ensures r <==> exists k :: k in storage && !Equals(Stored(k), UserObj(ref, user))
                                     && storage[k].email.Some? && storage[k].email == user.email
    {
      exists k :: k in storage && !Equals(Stored(k), UserObj(ref, user))
                  && storage[k].email.Some? && storage[k].email == user.email
    }

    method GenerateId()
      requires Valid()
      modifies this
      ensures Valid()
      ensures id == old(id) + 1
      ensures storage == old(storage) && refs == old(refs) && issued == old(issued)
    {
      id := id + 1;
    }

    /** `save`: the next id is set on the object, which is then stored under it. */
    method Save(user: User, ref: nat) returns (saved: User)
      requires Valid()
      modifies this
      ensures Valid()
      ensures id == old(id) + 1
      ensures saved == user.(id := Some(id))
      ensures storage == old(storage)[Some(id) := saved] && refs == old(refs)[Some(id) := ref]
      ensures ReadById(Some(id)) == Some(saved)
      ensures id !in old(issued) && issued == old(issued) + {id}
    {
      GenerateId();
      saved := user.(id := Some(id));
      storage, refs := storage[saved.id := saved], refs[saved.id := ref];
      issued := issued + {id};
    }

    /** `update`: `put` under the user's own id; the counter is left alone. */
    method Update(user: User, ref: nat) returns (updated: User)
      requires Valid()
      modifies this
      ensures Valid()
      ensures updated == user
      ensures storage == old(storage)[user.id := user] && refs == old(refs)[user.id := ref]
      ensures id == old(id) && issued == old(issued)
    {
      storage, refs := storage[user.id := user], refs[user.id := ref];
      updated := storage[user.id];
    }

    /** `delete`: `remove`; the counter and the ids handed out stay as they were. */
    method Delete(userId: Option<int>)
      requires Valid()
      modifies this
      ensures Valid()
      ensures storage == old(storage) - {userId} && refs == old(refs) - {userId}
      ensures !ExistsById(userId)
      ensures id == old(id) && issued == old(issued)
    {
      storage, refs := storage - {userId}, refs - {userId};
    }
  }

  // ------------------------------------------------------------------ lemmas

  /** A stored user never conflicts with its own record, whether the argument
      is the stored object or a copy of it: the record has the same non-null
      id, so it `equals` the argument and is skipped. Only another key with
      the same email counts (the argument is not an object stored elsewhere). */
  lemma {:induction false} OwnRecordNeverConflicts(repo: InMemoryUserRepository, key: int, ref: nat)
    requires repo.Valid() && Some(key) in repo.storage
    requires forall k :: k in repo.storage && k != Some(key) ==> repo.refs[k] != ref
    ensures var u := repo.storage[Some(key)];
      repo.ExistsByEmail(u, ref) <==>
        exists k :: k in repo.storage && k != Some(key) && repo.storage[k].email.Some? && repo.storage[k].email == u.email
  {
    var u := repo.storage[Some(key)];
    forall k | k in repo.storage
      ensures Equals(repo.Stored(k), UserObj(ref, u)) <==> (k == Some(key) || repo.refs[k] == ref)
    {
    }
    if repo.ExistsByEmail(u, ref) {
      var k :| k in repo.storage && !Equals(repo.Stored(k), UserObj(ref, u))
               && repo.storage[k].email.Some? && repo.storage[k].email == u.email;
      assert k != Some(key);
    }
  }

  /** A new, unsaved user object conflicts exactly when some stored user
      already has its email. */
  lemma {:induction false} NewUserConflictsOnEmail(repo: InMemoryUserRepository, user: User, ref: nat)
    requires repo.Valid() && user.id.None? && ref !in repo.refs.Values
    ensures repo.ExistsByEmail(user, ref) <==>
      exists k :: k in repo.storage && repo.storage[k].email.Some? && repo.storage[k].email == user.email
  {
    forall k | k in repo.storage
      ensures !Equals(repo.Stored(k), UserObj(ref, user))
    {
      assert repo.refs[k] in repo.refs.Values;
    }
  }
}
