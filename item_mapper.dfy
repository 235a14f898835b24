/** src ItemMapperImpl: field copies between the item DTOs and the Item
    entity, with the owner looked up in the in-memory user storage. */
module ItemMapper {
  import opened Wrappers
  import opened Errors
  import opened Entities
  import opened UserMapper

  /** The create request, with the owner id that `toItem` reads through `getOwnerId()`. */
  datatype ItemRequestDto = ItemRequestDto(
    name: Option<string>, description: Option<string>, available: Option<bool>, ownerId: Option<int>)

  datatype ItemPatchDto = ItemPatchDto(
    name: Option<string>, description: Option<string>, available: Option<bool>, request: Option<int>)

  /** The booking summary attached to an item view. */
  datatype BookingBookerDto = BookingBookerDto(id: int, itemId: Option<int>, bookerId: Option<int>, start: int, end: int)

  datatype CommentResponseDto = CommentResponseDto(id: Option<int>, text: string, authorName: Option<string>, created: int)

  datatype ItemResponseDto = ItemResponseDto(
    id: Option<int>,
    name: Option<string>,
    description: Option<string>,
    available: Option<bool>,
    owner: Option<UserResponseDto>,
    lastBooking: Option<BookingBookerDto>,
    nextBooking: Option<BookingBookerDto>,
    comments: Option<seq<CommentResponseDto>>)

  /** `toItem(ItemRequestDto)`: the three fields, then the owner from
      `readById(ownerId)`, a `HashMap.get` on the in-memory user storage, so a
      null id is a key like any other; a user it does not find is a
      NotFoundException. */
  function ToItem(dto: Option<ItemRequestDto>, userStorage: map<Option<int>, User>): (r: Result<Option<Item>, Error>)
    ensures dto.None? ==> r == Success(None)
    ensures dto.Some? ==> (r.Failure? <==> dto.value.ownerId !in userStorage)
    ensures r.Failure? ==> r.error == NotFound(UserEntity)
    ensures r.Success? && dto.Some? ==>
      && r.value.Some?
      && r.value.value.id.None? && r.value.value.requestId.None?
      && r.value.value.name == dto.value.name
      && r.value.value.description == dto.value.description
      && r.value.value.available == dto.value.available
      && r.value.value.owner == Some(userStorage[dto.value.ownerId])
  {
    match dto
    case None => Success(None)
    case Some(d) =>
      if d.ownerId !in userStorage then Failure(NotFound(UserEntity))
      else Success(Some(Item(None, d.name, d.description, d.available, Some(userStorage[d.ownerId]), None)))
  }

  /** `toItem(ItemPatchDto)`: the three fields; no id, no owner, and the patch's
      `request` is not copied. */
  function ToItemFromPatch(dto: Option<ItemPatchDto>): (r: Option<Item>)
    ensures r.None? <==> dto.None?
    ensures r.Some? ==>
      && r.value.id.None? && r.value.owner.None? && r.value.requestId.None?
      && r.value.name == dto.value.name && r.value.description == dto.value.description
      && r.value.available == dto.value.available
  {
    match dto
    case None => None
    case Some(d) => Some(Item(None, d.name, d.description, d.available, None, None))
  }

  /** `toItemDto`: id, name, description and available; owner, bookings and
      comments stay null. */
  function ToItemDto(item: Option<Item>): (r: Option<ItemResponseDto>)
    ensures r.None? <==> item.None?
    ensures r.Some? ==>
      && r.value.id == item.value.id && r.value.name == item.value.name
      && r.value.description == item.value.description && r.value.available == item.value.available
      && r.value.owner.None? && r.value.lastBooking.None? && r.value.nextBooking.None? && r.value.comments.None?
  {
    match item
    case None => None
    case Some(i) => Some(ItemResponseDto(i.id, i.name, i.description, i.available, None, None, None, None))
  }

  /** Mapping a request in and back out keeps its three fields but drops the
      owner it was just given. */
  lemma {:induction false} RequestRoundTrip(dto: ItemRequestDto, userStorage: map<Option<int>, User>)
    requires dto.ownerId in userStorage
    ensures var r := ToItem(Some(dto), userStorage);
      && r.Success? && r.value.Some?
      && r.value.value.owner.Some?
      && ToItemDto(r.value) == Some(ItemResponseDto(None, dto.name, dto.description, dto.available, None, None, None, None))
  {
  }

  /** A patch read back gives its own three fields. */
  lemma {:induction false} PatchRoundTrip(dto: ItemPatchDto)
    ensures ToItemDto(ToItemFromPatch(Some(dto)))
         == Some(ItemResponseDto(None, dto.name, dto.description, dto.available, None, None, None, None))
  {
  }
}
