/** The persistent records: Booking, Item, User, Comment and ItemRequest, and the
    booking status enum with its labels. Dates are integer instants. A Java field
    that may hold null is an Option; the ids of User, Item and Comment are null
    until the record is saved, which is why they are optional. */
module Entities {
  import opened Wrappers

  /** BookingStatus: four constants, each carrying a label. */
  datatype BookingStatus = WAITING | APPROVED | REJECTED | CANCELED

  const AllStatuses: seq<BookingStatus> := [WAITING, APPROVED, REJECTED, CANCELED]

  function Label(s: BookingStatus): string {
    match s
    case WAITING => "WAITING"
    case APPROVED => "true"
    case REJECTED => "false"
    case CANCELED => "CANCELED"
  }

  /** The statuses the services ever write (CANCELED is declared but never produced). */
  predicate Written(s: BookingStatus) {
    s == WAITING || s == APPROVED || s == REJECTED
  }

  /** A decided booking: the status guard of the approval operation rejects these. */
  predicate Decided(s: BookingStatus) {
    s == APPROVED || s == REJECTED
  }

  /** There are exactly four statuses, listed once each. */
  lemma {:induction false} ExactlyFourStatuses()
    ensures |AllStatuses| == 4
    ensures forall s: BookingStatus :: s in AllStatuses
    ensures forall i, j :: 0 <= i < j < |AllStatuses| ==> AllStatuses[i] != AllStatuses[j]
  {
    forall s: BookingStatus ensures s in AllStatuses {
      match s
      case WAITING => assert AllStatuses[0] == s;
      case APPROVED => assert AllStatuses[1] == s;
      case REJECTED => assert AllStatuses[2] == s;
      case CANCELED => assert AllStatuses[3] == s;
    }
  }

  /** Distinct statuses carry distinct labels, so a label names its status. */
  lemma {:induction false} LabelInjective(a: BookingStatus, b: BookingStatus)
    ensures Label(a) == Label(b) ==> a == b
  {
  }

  datatype User = User(id: Option<int>, name: Option<string>, email: Option<string>)

  datatype Item = Item(
    id: Option<int>,
    name: Option<string>,
    description: Option<string>,
    available: Option<bool>,
    owner: Option<User>,
    requestId: Option<int>)       // the id of the ItemRequest the item answers, if any

  datatype Booking = Booking(
    id: int,
    start: int,
    end: int,
    item: Item,
    booker: User,
    status: BookingStatus)

  datatype Comment = Comment(id: Option<int>, text: string, item: Item, author: User, created: int)

  datatype ItemRequest = ItemRequest(id: int, description: string, requestor: User, created: int)

  /** `item.owner.id`, null when the item has no owner or the owner no id. */
  function OwnerId(i: Item): Option<int> {
    if i.owner.Some? then i.owner.value.id else None
  }

  /** `item.getAvailable()` is TRUE (SQL `available = true`). */
  predicate IsAvailable(i: Item) {
    i.available == Some(true)
  }

  /** `b.item.owner.id = :userId` */
  predicate OwnedBy(b: Booking, userId: int) {
    OwnerId(b.item) == Some(userId)
  }

  /** `b.booker.id = :userId` */
  predicate BookedBy(b: Booking, userId: int) {
    b.booker.id == Some(userId)
  }
}
