/** src UserServiceImpl over the JPA users table: listing, lookup, creation,
    the patch merge of `change`, and deletion. */
module UserService {
  import opened Wrappers
  import opened Errors
  import opened Entities
  import opened Store
  import opened UserMapper

  /** `getUsers`: every stored user as a DTO, in table order. */
  function GetUsers(users: seq<User>): (r: seq<UserResponseDto>)
    ensures |r| == |users|
    ensures forall k :: 0 <= k < |users| ==> ToUserDto(Some(users[k])) == Some(r[k])
  {
    seq(|users|, k requires 0 <= k < |users| => ToUserDto(Some(users[k])).value)
  }

  /** `getById`: the stored user's DTO, or EntityNotFound from the lazy reference. */
  function GetById(users: seq<User>, userId: int): (r: Result<UserResponseDto, Error>)
    ensures r.Failure? <==> FindUser(users, userId).None?
    ensures r.Failure? ==> r.error == EntityNotFound(UserEntity)
    ensures r.Success? ==> Some(r.value) == ToUserDto(FindUser(users, userId)) && r.value.id == Some(userId)
  {
    var u :- UserReference(users, userId);
    Success(ToUserDto(Some(u)).value)
  }

  /** `save`: map the DTO, insert it. `@NotBlank`/`@NotNull` on the DTO make
      name and email non-null before the call. */
  method Save(db: Database, dto: UserRequestDto) returns (r: Result<UserResponseDto, Error>)
    requires db.Valid() && dto.name.Some? && dto.email.Some?
    modifies db
    ensures db.Valid()
    ensures r.Failure? <==> EmailTaken(old(db.users), User(None, dto.name, dto.email))
    ensures r.Failure? ==> r.error == DuplicateEmail && db.users == old(db.users) && db.nextUserId == old(db.nextUserId)
    ensures r.Success? ==>
      && r.value == UserResponseDto(Some(old(db.nextUserId)), dto.name, dto.email)
      && db.users == old(db.users) + [User(Some(old(db.nextUserId)), dto.name, dto.email)]
    ensures db.items == old(db.items) && db.bookings == old(db.bookings)
    ensures db.requests == old(db.requests) && db.comments == old(db.comments)
  {
    var user := ToUser(Some(dto)).value;
    var saved :- db.InsertUser(user);
    r := Success(ToUserDto(Some(saved)).value);
  }

  /** The patch merge of `change`: the email, then the name, each overwritten
      only when the patch carries one. */
  function Merge(u: User, patch: UserPatchDto): (r: User)
    ensures r.id == u.id
    ensures patch.email.Some? ==> r.email == patch.email
    ensures patch.email.None? ==> r.email == u.email
    ensures patch.name.Some? ==> r.name == patch.name
    ensures patch.name.None? ==> r.name == u.name
  {
    var withEmail := if patch.email.Some? then u.(email := patch.email) else u;
    if patch.name.Some? then withEmail.(name := patch.name) else withEmail
  }

  /** `change` as seen from the table: the merged user, or why it was refused. */
  function Changed(users: seq<User>, userId: int, patch: UserPatchDto): (r: Result<User, Error>)
    ensures FindUser(users, userId).None? ==> r == Failure(EntityNotFound(UserEntity))
    ensures r.Success? ==> FindUser(users, userId).Some? && r.value == Merge(FindUser(users, userId).value, patch)
    ensures FindUser(users, userId).Some? ==>
      (r.Failure? <==> EmailTaken(users, Merge(FindUser(users, userId).value, patch)))
    ensures r.Failure? && FindUser(users, userId).Some? ==> r.error == DuplicateEmail
  {
    var u :- UserReference(users, userId);
    var m := Merge(u, patch);
    if EmailTaken(users, m) then Failure(DuplicateEmail) else Success(m)
  }

  function AfterChange(users: seq<User>, r: Result<User, Error>): seq<User> {
    if r.Success? then ReplaceUser(users, r.value) else users
  }

  /** `change`: load the row, merge the patch into it, save it. */
  method Change(db: Database, userId: int, patch: UserPatchDto) returns (r: Result<UserResponseDto, Error>)
    requires db.Valid()
    modifies db
    ensures db.Valid()
    ensures var c := Changed(old(db.users), userId, patch);
      && (r.Failure? <==> c.Failure?)
      && (r.Failure? ==> r.error == c.error)
      && (r.Success? ==> Some(r.value) == ToUserDto(Some(c.value)))
      && db.users == AfterChange(old(db.users), c)
    ensures var c := Changed(old(db.users), userId, patch);
      c.Failure? ==> db.items == old(db.items) && db.bookings == old(db.bookings)
                     && db.requests == old(db.requests) && db.comments == old(db.comments)
    ensures var c := Changed(old(db.users), userId, patch);
      c.Success? ==> && db.items == ItemsReadingUser(old(db.items), c.value)
                     && db.bookings == BookingsReadingUser(old(db.bookings), c.value)
                     && db.requests == RequestsReadingUser(old(db.requests), c.value)
                     && db.comments == CommentsReadingUser(old(db.comments), c.value)
    ensures db.nextUserId == old(db.nextUserId)
  {
    var dbUser :- UserReference(db.users, userId);
    if patch.email.Some? {
      dbUser := dbUser.(email := patch.email);
    }
    if patch.name.Some? {
      dbUser := dbUser.(name := patch.name);
    }
    var changed :- db.UpdateUser(dbUser);
    r := Success(ToUserDto(Some(changed)).value);
  }

  /** `delete`: `deleteById`, which refuses an id it does not find. */
  method Delete(db: Database, userId: int) returns (r: Result<(), Error>)
    requires db.Valid()
    modifies db
    ensures db.Valid()
    ensures r.Failure? <==> FindUser(old(db.users), userId).None?
    ensures r.Failure? ==> r.error == EmptyResult && db.users == old(db.users)
    ensures r.Success? ==> db.users == Without(old(db.users), userId)
    ensures FindUser(db.users, userId).None?
    ensures db.nextUserId == old(db.nextUserId) && db.items == old(db.items) && db.bookings == old(db.bookings)
    ensures db.requests == old(db.requests) && db.comments == old(db.comments)
  {
    r := db.DeleteUser(userId);
  }

  // ------------------------------------------------------------------ lemmas

  /** Merging a patch twice is merging it once. */
  lemma {:induction false} MergeIdempotent(u: User, patch: UserPatchDto)
    ensures Merge(Merge(u, patch), patch) == Merge(u, patch)
  {
  }

  /** A patch with neither field leaves the user as it was. */
  lemma {:induction false} EmptyPatchIsIdentity(u: User)
    ensures Merge(u, UserPatchDto(None, None)) == u
  {
  }

  /** After a successful change the row holds the merged user. */
  lemma {:induction false} ChangedRowIsFound(users: seq<User>, m: User)
    requires m.id.Some? && exists v :: v in users && v.id == m.id
    ensures FindUser(ReplaceUser(users, m), m.id.value) == Some(m)
  {
    var r := ReplaceUser(users, m);
    var v :| v in users && v.id == m.id;
    var k :| 0 <= k < |users| && users[k] == v;
    assert r[k] == m;
  }

  /** Applying the same patch a second time changes nothing more: it succeeds
      again and leaves the table as the first application left it. */
  lemma {:induction false} ChangeTwice(users: seq<User>, userId: int, patch: UserPatchDto)
    requires Changed(users, userId, patch).Success?
    ensures var once := AfterChange(users, Changed(users, userId, patch));
      && Changed(once, userId, patch) == Changed(users, userId, patch)
      && AfterChange(once, Changed(once, userId, patch)) == once
  {
    var m := Changed(users, userId, patch).value;
    var once := ReplaceUser(users, m);
    ChangedRowIsFound(users, m);
    MergeIdempotent(FindUser(users, userId).value, patch);
    forall v | v in once && v.id != m.id
      ensures v.email != m.email
    {
      var k :| 0 <= k < |once| && once[k] == v;
      assert users[k] == v;
    }
    assert ReplaceUser(once, m) == once;
  }

  /** On a well-kept table the empty patch succeeds and leaves the table as it was. */
  lemma {:induction false} EmptyChangeKeepsTable(users: seq<User>, userId: int)
    requires OrderedUsers(users) && FindUser(users, userId).Some?
    ensures Changed(users, userId, UserPatchDto(None, None)) == Success(FindUser(users, userId).value)
    ensures AfterChange(users, Changed(users, userId, UserPatchDto(None, None))) == users
  {
    var u := FindUser(users, userId).value;
    var k :| 0 <= k < |users| && users[k] == u;
    forall v | v in users && v.id != u.id
      ensures v.email != u.email
    {
      var j :| 0 <= j < |users| && users[j] == v;
    }
    forall j | 0 <= j < |users| && users[j].id == u.id
      ensures users[j] == u
    {
    }
  }

  /** A failed change, whatever the reason, writes nothing. */
  lemma {:induction false} FailedChangeWritesNothing(users: seq<User>, userId: int, patch: UserPatchDto)
    requires Changed(users, userId, patch).Failure?
    ensures AfterChange(users, Changed(users, userId, patch)) == users
  {
  }
}
