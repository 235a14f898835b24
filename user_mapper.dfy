/** src UserMapperImpl: field copies between the user DTOs and the User
    entity; a null argument maps to null. */
module UserMapper {
  import opened Wrappers
  import opened Entities

  datatype UserRequestDto = UserRequestDto(name: Option<string>, email: Option<string>)

  datatype UserPatchDto = UserPatchDto(name: Option<string>, email: Option<string>)

  datatype UserResponseDto = UserResponseDto(id: Option<int>, name: Option<string>, email: Option<string>)

  /** `toUser(UserRequestDto)`: a fresh, unsaved user with the DTO's name and email. */
  function ToUser(dto: Option<UserRequestDto>): (r: Option<User>)
    ensures r.None? <==> dto.None?
    ensures r.Some? ==> r.value.id.None? && r.value.name == dto.value.name && r.value.email == dto.value.email
  {
    match dto
    case None => None
    case Some(d) => Some(User(None, d.name, d.email))
  }

  /** `toUser(UserPatchDto)`: the same copy, nulls included. */
  function ToUserFromPatch(dto: Option<UserPatchDto>): (r: Option<User>)
    ensures r.None? <==> dto.None?
    ensures r.Some? ==> r.value.id.None? && r.value.name == dto.value.name && r.value.email == dto.value.email
  {
    match dto
    case None => None
    case Some(d) => Some(User(None, d.name, d.email))
  }

  /** `toUserDto`: id, name and email, exactly. */
  function ToUserDto(user: Option<User>): (r: Option<UserResponseDto>)
    ensures r.None? <==> user.None?
    ensures r.Some? ==> r.value.id == user.value.id && r.value.name == user.value.name && r.value.email == user.value.email
  {
    match user
    case None => None
    case Some(u) => Some(UserResponseDto(u.id, u.name, u.email))
  }

  /** Reading back a freshly mapped user gives the DTO's name and email and no id. */
  lemma {:induction false} RequestRoundTrip(dto: UserRequestDto)
    ensures ToUserDto(ToUser(Some(dto))) == Some(UserResponseDto(None, dto.name, dto.email))
  {
  }

  /** The two `toUser` overloads build the same user from the same fields. */
  lemma {:induction false} OverloadsAgree(name: Option<string>, email: Option<string>)
    ensures ToUser(Some(UserRequestDto(name, email))) == ToUserFromPatch(Some(UserPatchDto(name, email)))
  {
  }

  /** `toUserDto` loses nothing: distinct users give distinct DTOs. */
  lemma {:induction false} ToUserDtoInjective(a: Option<User>, b: Option<User>)
    ensures ToUserDto(a) == ToUserDto(b) ==> a == b
  {
    if a.Some? && b.Some? && ToUserDto(a) == ToUserDto(b) {
      assert a.value == User(ToUserDto(a).value.id, ToUserDto(a).value.name, ToUserDto(a).value.email);
    }
  }
}
