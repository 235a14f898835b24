# ShareIt core in Dafny

ShareIt is a service for lending things. Users list items and answer requests for items. Other users book an item for a time interval. The owner approves or rejects each booking. A user who has finished an approved booking may comment on the item. The repository holds two generations of the service:

- a monolith, under `src/`, with in-memory repositories, hand-written mappers and JPA repositories;
- a server, under `server/`, behind a gateway, with paged booking listings.

This project models:

- **Booking statuses and entity identity**:
  - `BookingStatus` and its labels;
  - `User`/`Comment` `equals` and `hashCode`, over objects given by their reference and contents.
- **Paging** (`Pageable`): both `PageableConverter`s, Java's truncating `int` division, Spring's `PageRequest.of` checks, and the rows a page holds.
- **Booking queries** (`BookingQueries`): the WHERE clause of every `BookingRepository` query, including the correlated max/min subqueries of the last/next queries, the free-interval query, and the single-result query behind comments. `Select` is a scan of the table. `OrderByStartDesc` is a stable sort by start.
- **Booking rules** (`BookingRules`), shared by both booking services: reading one booking (owner or booker only), and deciding a booking (owner only, once).
- **The two booking services** (`MonolithBookingService`, `ServerBookingService`): the guard order of booking, the state listings, and how the two differ.
- **Tables** (`Store`): the JPA tables as a class `Database` whose methods insert and update rows. Ids are generated by position. Users have a counter, because users can be deleted and e-mails are unique. A row holds the rows it refers to (an item its owner, a booking its item and booker, a comment its item and author, a request its requestor); saving a changed user or item rewrites those references, so every reference reads the current row, as a `@ManyToOne` does.
- **Items, requests and comments**:
  - the item, item-request and comment queries (`ItemQueries`);
  - `ItemServiceImpl` (`ItemService`): item view with last/next booking and comments, owner listing, text search, create, patch, comment;
  - `ItemRequestServiceImpl` (`ItemRequestService`).
- **Users, mappers and in-memory repositories**:
  - `UserServiceImpl` (`UserService`);
  - the two hand-written mappers (`UserMapper`, `ItemMapper`);
  - the two in-memory repositories, as classes over `map`s.

Modelling choices:

- **Java values**:
  - A nullable Java reference is an `Option`.
  - A `LocalDateTime` is an `int`.
  - `LocalDateTime.now()` is a parameter read once per operation.
  - `Integer` request parameters are 32-bit values (`Int32`).
- **Exceptions**: every exception the core throws is an `Error` in a `Result`:
  - `getReferenceById` on a missing row is `EntityNotFound(kind)`, because the lazy proxy fails on first use;
  - a mapper lookup that finds nothing gives null, which the service turns into `NotFound`;
  - a single-row query that returns two rows is `IncorrectResultSize`;
  - `PageRequest.of` with a bad page or size is `IllegalArgument`;
  - division by zero is `DivisionByZero`;
  - `deleteById` of a missing row is `EmptyResult`.
- **Loops**: loops that fill a DTO (`forEach` over bookings, comments or items) are methods with loop invariants. Each is proved equal to a function, and the lemmas are about those functions. Where a `forEach` overwrites a field, the last qualifying row wins, as in the source.

Behaviours a reader may not expect, and where the two versions differ:

- The monolith checks the free interval before the own-item check. The server checks them in the opposite order (`GuardOrderDiffers`).
- The monolith's `CURRENT` listing and all of its owner listings are unsorted.
- The monolith `ItemServiceImpl`/`ItemRequestServiceImpl` call repository methods with the server's signatures:
  - a paged `getItemsByOwnerId`;
  - `getByText` with a pageable;
  - `findCommentsByItemIds`;
  - `findItemsByRequestId` over a set;
  - `getItemsByRequestId`.

  For these, the queries follow the server `ItemRepository`/`ItemRequestRepository` and the monolith `CommentRepository`.
- `getById` of an item attaches bookings only for the owner. The listings attach them for everybody.
- `saveComment` refuses a comment when the author has two or more ended approved bookings of the item (`SecondEndedBookingRefusesComment`).

## Model

| member | source | states |
|---|---|---|
| Entities.ExactlyFourStatuses | src/main/java/ru/practicum/shareit/booking/db/model/enums/BookingStatus.java:8-12 | there are exactly four booking statuses, all distinct |
| Entities.LabelInjective | src/main/java/ru/practicum/shareit/booking/db/model/enums/BookingStatus.java:8-14 | different statuses carry different labels ("WAITING", "true", "false", "CANCELED") |
| Identity.EqualsReflexive | src/main/java/ru/practicum/shareit/user/db/model/User.java:25-26 | every user or comment equals itself, even before it has an id |
| Identity.NeverEqualsOtherClass | src/main/java/ru/practicum/shareit/user/db/model/User.java:27 | an object of another class is never equal |
| Identity.DistinctObjectsEqualById | src/main/java/ru/practicum/shareit/user/db/model/User.java:25-29 | two different objects of one class are equal exactly when the receiver's id is non-null and both ids agree |
| Identity.NullIdEqualsOnlyItself | src/main/java/ru/practicum/shareit/item/db/model/Comment.java:38-42 | an unsaved entity (null id) equals only itself |
| Identity.EqualsSymmetric | src/main/java/ru/practicum/shareit/user/db/model/User.java:25-29 | equals is symmetric |
| Identity.EqualsTransitive | src/main/java/ru/practicum/shareit/item/db/model/Comment.java:38-42 | equals is transitive |
| Identity.CommentNeverEqualsUser | src/main/java/ru/practicum/shareit/item/db/model/Comment.java:40 | a comment never equals a user, whatever their ids |
| Identity.HashCodeConsistent | src/main/java/ru/practicum/shareit/user/db/model/User.java:32-34 | equal objects have equal hash codes (the hash is the class's hash) |
| Text.LowerChar | src/main/java/ru/practicum/shareit/item/db/repository/impl/InMemoryItemRepositoryImpl.java:32 | lower-casing maps 'A'..'Z' to 'a'..'z' and keeps every other character |
| Text.Lower | src/main/java/ru/practicum/shareit/item/db/repository/impl/InMemoryItemRepositoryImpl.java:32 | lower-casing keeps the length and maps each character by itself |
| Text.LowerIdempotent | src/main/java/ru/practicum/shareit/item/service/impl/ItemServiceImpl.java:77 | lower-casing twice is lower-casing once |
| Text.EmptyTextMatchesEverything | src/main/java/ru/practicum/shareit/item/db/repository/impl/InMemoryItemRepositoryImpl.java:32 | every string contains the empty string |
| Pageable.JavaDiv | src/main/java/ru/practicum/shareit/global/utility/PageableConverter.java:15 | `from / size` fails with an ArithmeticException exactly when `size` is 0, and `MIN_VALUE / -1` wraps to `MIN_VALUE` |
| Pageable.JavaDivRoundsTowardZero | src/main/java/ru/practicum/shareit/global/utility/PageableConverter.java:15 | every other quotient leaves a remainder smaller than the divisor with the dividend's sign, so it is rounded toward zero |
| Pageable.JavaDivNonNegative | src/main/java/ru/practicum/shareit/global/utility/PageableConverter.java:15 | for non-negative `from` and positive `size` the Java quotient is the mathematical one |
| Pageable.PageRequestOf | src/main/java/ru/practicum/shareit/global/utility/PageableConverter.java:15 | `PageRequest.of` succeeds exactly when page >= 0 and size >= 1, and then keeps both |
| Pageable.MonolithGetPageable | src/main/java/ru/practicum/shareit/global/utility/PageableConverter.java:11-16 | every page request it builds has page >= 0 and size >= 1 |
| Pageable.ServerGetPageable | server/src/main/java/ru/practicum/shareit/global/utility/PageableConverter.java:10-12 | every page request it builds has page >= 0 and size >= 1 |
| Pageable.MonolithRejectsNegative | src/main/java/ru/practicum/shareit/global/utility/PageableConverter.java:12-14 | a negative `from` or `size` is a BadPageRequest before any division |
| Pageable.MonolithPageIndex | src/main/java/ru/practicum/shareit/global/utility/PageableConverter.java:15 | for from >= 0 and size > 0 the page is from / size, the page whose rows contain offset `from` |
| Pageable.MonolithSizeZeroDividesByZero | src/main/java/ru/practicum/shareit/global/utility/PageableConverter.java:12-15 | size 0 passes the guard and fails with division by zero |
| Pageable.ServerPageIndex | server/src/main/java/ru/practicum/shareit/global/utility/PageableConverter.java:11 | for from >= 0 and size > 0 the page is from / size, the page whose rows contain offset `from` |
| Pageable.ServerNegativeOffset | server/src/main/java/ru/practicum/shareit/global/utility/PageableConverter.java:11 | without a guard, a negative offset above -size truncates to page 0, and one at or below -size is rejected by `PageRequest.of` |
| Pageable.ServerNegativeSize | server/src/main/java/ru/practicum/shareit/global/utility/PageableConverter.java:11 | a negative size, with any offset, is rejected by `PageRequest.of`; `5 / -1` gives page -5 |
| Pageable.ConvertersAgree | server/src/main/java/ru/practicum/shareit/global/utility/PageableConverter.java:10-12 | the two converters agree on every non-negative offset and size |
| Pageable.OffsetRoundsDownToPageStart | src/main/java/ru/practicum/shareit/global/utility/PageableConverter.java:15 | asking for offset 1 with size 10 returns the page that starts with row 0 |
| Pageable.PageOf | src/main/java/ru/practicum/shareit/booking/db/repository/BookingRepository.java:16 | a page holds at most `size` rows, the rows of the result from offset page*size in order, and none past the end |
| Pageable.PageOfMembers | src/main/java/ru/practicum/shareit/booking/db/repository/BookingRepository.java:16 | every row of a page is a row of the full result |
| BookingQueries.MaxStartBefore | src/main/java/ru/practicum/shareit/booking/db/repository/BookingRepository.java:57 | the subquery gives the greatest start before `time` among the item's bookings, or null when there is none |
| BookingQueries.MinStartAfter | src/main/java/ru/practicum/shareit/booking/db/repository/BookingRepository.java:58 | the subquery gives the least start after `time` among the item's bookings, or null when there is none |
| BookingQueries.MaxStartBeforeAttained | src/main/java/ru/practicum/shareit/booking/db/repository/BookingRepository.java:57 | a non-null maximum is the start of a booking of the item |
| BookingQueries.MinStartAfterAttained | src/main/java/ru/practicum/shareit/booking/db/repository/BookingRepository.java:58 | a non-null minimum is the start of a booking of the item |
| BookingQueries.Scan | src/main/java/ru/practicum/shareit/booking/db/repository/BookingRepository.java:16-79 | a query returns exactly the table rows that satisfy its WHERE clause, and no more rows than the table has |
| BookingQueries.ScanCount | src/main/java/ru/practicum/shareit/booking/db/repository/BookingRepository.java:16-79 | a matching row is returned as often as it is stored, and a non-matching row never |
| BookingQueries.ScanSnoc | src/main/java/ru/practicum/shareit/booking/db/repository/BookingRepository.java:16-79 | a row appended to the table is appended to the result exactly when it matches |
| BookingQueries.SingleResult | src/main/java/ru/practicum/shareit/booking/db/repository/BookingRepository.java:79 | a single-entity query gives null for no row, the row for one row, and IncorrectResultSize for more |
| BookingQueries.OrderByStartDesc | src/main/java/ru/practicum/shareit/booking/service/impl/BookingServiceImpl.java:52 | `Sort.by(desc("start"))` returns a permutation of the rows ordered by start, latest first |
| BookingQueries.InsertByStart | src/main/java/ru/practicum/shareit/booking/service/impl/BookingServiceImpl.java:52 | inserting a row into a sorted list keeps it sorted and adds exactly that row |
| BookingQueries.TimePartition | src/main/java/ru/practicum/shareit/booking/db/repository/BookingRepository.java:18-28 | a booking with start <= end is exactly one of current, past and future at any instant |
| BookingQueries.BookerStatesPartition | src/main/java/ru/practicum/shareit/booking/db/repository/BookingRepository.java:16-28 | a booker's current, past and future bookings together are exactly all of the booker's bookings, with multiplicity |
| BookingQueries.OwnerStatesPartition | src/main/java/ru/practicum/shareit/booking/db/repository/BookingRepository.java:30-48 | an owner's current, past and future bookings together are exactly all bookings of the owner's items, with multiplicity |
| BookingQueries.CurrentIncludesEndpoints | src/main/java/ru/practicum/shareit/booking/db/repository/BookingRepository.java:24-28 | a booking is current at its own start and end (both bounds inclusive), and neither past at its end nor future at its start |
| BookingQueries.FreeIntervalIsApprovedOverlap | src/main/java/ru/practicum/shareit/booking/db/repository/BookingRepository.java:67-72 | the free-interval query returns exactly the approved bookings of the item whose closed interval meets the requested one |
| BookingQueries.TouchingIntervalsConflict | src/main/java/ru/practicum/shareit/booking/db/repository/BookingRepository.java:69-70 | a request that starts when an approved booking ends, or ends when it starts, conflicts with it |
| BookingQueries.LastAndNextSkipsTime | src/main/java/ru/practicum/shareit/booking/db/repository/BookingRepository.java:55-59 | each row of the last/next query is a booking of the item that starts immediately before or after `time`, never at it |
| BookingQueries.LastAndNextIgnoresStatus | src/main/java/ru/practicum/shareit/booking/db/repository/BookingRepository.java:55-59 | the latest booking that starts before `time` is returned whatever its status (rejected or cancelled included) |
| BookingQueries.LastAndNextListIsUnion | src/main/java/ru/practicum/shareit/booking/db/repository/BookingRepository.java:61-65 | the list query returns exactly the rows the single-item query returns for some listed id |
| BookingQueries.ListMatchesOne | src/main/java/ru/practicum/shareit/booking/db/repository/BookingRepository.java:61-65 | for a listed id, a row matches the single-item query exactly when it matches the list query and belongs to that item |
| BookingQueries.LastAndNextSingletonList | src/main/java/ru/practicum/shareit/booking/db/repository/BookingRepository.java:55-65 | the list query on a one-element list is the single-item query |
| BookingQueries.ApprovedEndedOnly | src/main/java/ru/practicum/shareit/booking/db/repository/BookingRepository.java:74-79 | the comment query returns exactly the author's approved bookings of the item that ended before `time` |
| BookingRules.Get | src/main/java/ru/practicum/shareit/booking/service/impl/BookingServiceImpl.java:34-43 | a missing booking is EntityNotFound, and an existing one is returned exactly to its item's owner or its booker, anyone else getting NotItemOwner; the server's `getBooking` behaves the same |
| BookingRules.Decide | src/main/java/ru/practicum/shareit/booking/service/impl/BookingServiceImpl.java:149-167 | a decision succeeds only for the item's owner on an undecided booking, and then sets APPROVED or REJECTED and nothing else; the server's `updateBookingStatus` decides the same way |
| BookingRules.DecideBooking | src/main/java/ru/practicum/shareit/booking/service/impl/BookingServiceImpl.java:151-166 | the table changes only in the decided row, as `Decide` says, and the other tables stay unchanged |
| BookingRules.NonOwnerCannotDecide | src/main/java/ru/practicum/shareit/booking/service/impl/BookingServiceImpl.java:152-155 | a user who does not own the item gets NotItemOwner and the table is unchanged |
| BookingRules.DecidedIsTerminal | src/main/java/ru/practicum/shareit/booking/service/impl/BookingServiceImpl.java:156-159 | an approved or rejected booking cannot be decided again (BadApproveStatus) |
| BookingRules.UndecidedTakesVerdict | src/main/java/ru/practicum/shareit/booking/service/impl/BookingServiceImpl.java:160-164 | a WAITING or CANCELED booking takes APPROVED or REJECTED according to the flag |
| BookingRules.SecondDecisionFails | src/main/java/ru/practicum/shareit/booking/service/impl/BookingServiceImpl.java:156-159 | after one successful decision every further decision of that booking fails |
| BookingRules.DecisionKeepsWellFormed | src/main/java/ru/practicum/shareit/booking/service/impl/BookingServiceImpl.java:160-166 | a decision keeps every booking's start <= end |
| BookingRules.BookerQueryMeansState | src/main/java/ru/practicum/shareit/booking/service/impl/BookingServiceImpl.java:53-74 | each state's booker query selects exactly the booker's bookings in that state |
| BookingRules.OwnerQueryMeansState | src/main/java/ru/practicum/shareit/booking/service/impl/BookingServiceImpl.java:87-108 | each state's owner query selects exactly the bookings of the owner's items in that state |
| MonolithBookingService.Book | src/main/java/ru/practicum/shareit/booking/service/impl/BookingServiceImpl.java:116-145 | a created booking is WAITING, takes the next id, holds the stored item and booker, the item is available, and no approved booking of the item overlaps it |
| MonolithBookingService.Save | src/main/java/ru/practicum/shareit/booking/service/impl/BookingServiceImpl.java:116-145 | the table gains exactly the created booking, or nothing on failure; the other tables stay unchanged |
| MonolithBookingService.BookGuardOrder | src/main/java/ru/practicum/shareit/booking/service/impl/BookingServiceImpl.java:118-140 | each error is given exactly when its check is the first to fail: dates, item, booker, availability, free interval, own item |
| MonolithBookingService.BookKeepsWellFormed | src/main/java/ru/practicum/shareit/booking/service/impl/BookingServiceImpl.java:118-121 | saving a booking keeps every booking's start <= end |
| MonolithBookingService.GuardOrderDiffers | src/main/java/ru/practicum/shareit/booking/service/impl/BookingServiceImpl.java:133-140 | the two services answer an owner booking their own item on taken dates differently (DatesTaken vs NotItemOwner) and agree on every other request |
| MonolithBookingService.ChangeStatus | src/main/java/ru/practicum/shareit/booking/service/impl/BookingServiceImpl.java:149-167 | the decision and table update given by `Decide` |
| MonolithBookingService.ParseState | src/main/java/ru/practicum/shareit/booking/service/impl/BookingServiceImpl.java:53-74 | exactly the six names ALL, CURRENT, PAST, FUTURE, REJECTED and WAITING are states |
| MonolithBookingService.GetAllByState | src/main/java/ru/practicum/shareit/booking/service/impl/BookingServiceImpl.java:47-78 | an unknown user is EntityNotFound before the state is read, and an unknown state is BadState; otherwise the result is the user's bookings in that state, latest start first except for CURRENT |
| MonolithBookingService.GetAllByOwner | src/main/java/ru/practicum/shareit/booking/service/impl/BookingServiceImpl.java:82-112 | the same errors; otherwise the bookings of the owner's items in that state |
| MonolithBookingService.UserCheckedBeforeState | src/main/java/ru/practicum/shareit/booking/service/impl/BookingServiceImpl.java:49 | an unknown user with an unknown state gets EntityNotFound, not BadState |
| MonolithBookingService.AgreesWithServerListing | src/main/java/ru/practicum/shareit/booking/service/impl/BookingServiceImpl.java:47-78 | when one page can hold all rows, the monolith and server booker listings return the same rows, and in the same order except for CURRENT |
| MonolithBookingService.OwnerListingIsUnsorted | src/main/java/ru/practicum/shareit/booking/service/impl/BookingServiceImpl.java:87-108 | the owner listing is the query's rows in table order, with no sort |
| ServerBookingService.Book | server/src/main/java/ru/practicum/shareit/booking/service/impl/BookingServiceImpl.java:118-147 | a created booking is WAITING, takes the next id, holds the stored item and booker, the item is available, and no approved booking of the item overlaps it |
| ServerBookingService.BookItem | server/src/main/java/ru/practicum/shareit/booking/service/impl/BookingServiceImpl.java:118-147 | the table gains exactly the created booking, or nothing on failure; the other tables stay unchanged |
| ServerBookingService.BookGuardOrder | server/src/main/java/ru/practicum/shareit/booking/service/impl/BookingServiceImpl.java:120-142 | each error is given exactly when its check is the first to fail: dates, item, booker, availability, own item, free interval |
| ServerBookingService.BookKeepsWellFormed | server/src/main/java/ru/practicum/shareit/booking/service/impl/BookingServiceImpl.java:120-123 | booking keeps every booking's start <= end |
| ServerBookingService.BookThenGet | server/src/main/java/ru/practicum/shareit/booking/service/impl/BookingServiceImpl.java:38-46 | right after booking, both the booker and the item's owner can read the new booking |
| ServerBookingService.BookThenApprove | server/src/main/java/ru/practicum/shareit/booking/service/impl/BookingServiceImpl.java:151-169 | the owner can decide a new booking once, and a second decision is BadApproveStatus |
| ServerBookingService.ApprovalDoesNotRecheckOverlap | server/src/main/java/ru/practicum/shareit/booking/service/impl/BookingServiceImpl.java:151-169 | two overlapping WAITING bookings of one item can both be approved |
| ServerBookingService.UpdateBookingStatus | server/src/main/java/ru/practicum/shareit/booking/service/impl/BookingServiceImpl.java:151-169 | the decision and table update given by `Decide` |
| ServerBookingService.PageOfSorted | server/src/main/java/ru/practicum/shareit/booking/service/impl/BookingServiceImpl.java:54 | a page of a start-sorted result is start-sorted |
| ServerBookingService.SortedPage | server/src/main/java/ru/practicum/shareit/booking/service/impl/BookingServiceImpl.java:54-76 | the page is exactly `PageOf` of the query's rows sorted latest start first; so it is sorted, holds at most `size` rows, and holds only rows that match the query |
| ServerBookingService.GetBookings | server/src/main/java/ru/practicum/shareit/booking/service/impl/BookingServiceImpl.java:49-80 | an unknown user is EntityNotFound; otherwise the listing fails exactly when the page request does, and is exactly the requested page of the booker's bookings in the state, latest start first; every row is the booker's and in the state |
| ServerBookingService.GetItemOwnerBookings | server/src/main/java/ru/practicum/shareit/booking/service/impl/BookingServiceImpl.java:83-114 | an unknown user is EntityNotFound; otherwise the listing fails exactly when the page request does, and is exactly the requested page of the bookings of the user's items in the state, latest start first |
| ServerBookingService.FirstPageHoldsAll | server/src/main/java/ru/practicum/shareit/booking/service/impl/BookingServiceImpl.java:49-80 | page 0 with a size of at least the table size holds all the booker's rows in that state, sorted |
| ServerBookingService.OwnerFirstPageHoldsAll | server/src/main/java/ru/practicum/shareit/booking/service/impl/BookingServiceImpl.java:83-114 | page 0 with a size of at least the table size holds all the bookings of the owner's items in that state, sorted |
| Store.UserReference | src/main/java/ru/practicum/shareit/user/service/impl/UserServiceImpl.java:39 | `getReferenceById` on users gives the stored row, or EntityNotFound when no row has the id |
| Store.ItemReference | src/main/java/ru/practicum/shareit/item/service/impl/ItemServiceImpl.java:62 | `getReferenceById` on items gives the stored row, or EntityNotFound when no row has the id |
| Store.RequestReference | src/main/java/ru/practicum/shareit/request/service/impl/ItemRequestServiceImpl.java:57 | `getReferenceById` on requests gives the stored row, or EntityNotFound when no row has the id |
| Store.ReplaceUser | src/main/java/ru/practicum/shareit/user/service/impl/UserServiceImpl.java:63 | saving a changed user replaces the row with its id and keeps every other row |
| Store.Without | src/main/java/ru/practicum/shareit/user/service/impl/UserServiceImpl.java:72 | deleting keeps exactly the rows with another id |
| Store.Database.InsertBooking | src/main/java/ru/practicum/shareit/booking/service/impl/BookingServiceImpl.java:142 | the booking is appended with the next id and can be found by it; nothing else changes |
| Store.Database.UpdateBooking | src/main/java/ru/practicum/shareit/booking/service/impl/BookingServiceImpl.java:166 | the row with the booking's id is overwritten; nothing else changes |
| Store.Database.InsertUser | src/main/java/ru/practicum/shareit/user/service/impl/UserServiceImpl.java:47 | a duplicate e-mail is refused with no change; otherwise the user is appended with the counter's id and the counter advances |
| Store.Database.UpdateUser | src/main/java/ru/practicum/shareit/user/service/impl/UserServiceImpl.java:63 | an e-mail used by another user is refused with no change; otherwise the row is replaced, and every booking, item, comment and request that refers to the user reads the new row |
| Store.Database.DeleteUser | src/main/java/ru/practicum/shareit/user/service/impl/UserServiceImpl.java:72 | deleting a missing id is EmptyResult; otherwise only users with another id stay; afterwards the id is not found |
| Store.Database.InsertItem | src/main/java/ru/practicum/shareit/item/service/impl/ItemServiceImpl.java:97 | the item is appended with the next id and can be found by it; nothing else changes |
| Store.Database.UpdateItem | src/main/java/ru/practicum/shareit/item/service/impl/ItemServiceImpl.java:119 | the row with the item's id is overwritten, and every booking and comment of that item reads the new row; users and requests are unchanged |
| Store.SavedUserIsRead | src/main/java/ru/practicum/shareit/booking/db/model/Booking.java:28-34 | once a user is saved, every booker, author, requestor and item owner with its id reads the new row, and every other reference and column keeps its value |
| Store.ReadingUserTwice | src/main/java/ru/practicum/shareit/item/db/model/Item.java:29-31 | reading the same saved user again changes no table further |
| Store.SavedItemIsRead | src/main/java/ru/practicum/shareit/item/db/model/Comment.java:26-32 | once an item is saved, every booking and comment of its id reads the new row, and the rest keeps its value |
| Store.Database.InsertComment | src/main/java/ru/practicum/shareit/item/service/impl/ItemServiceImpl.java:145 | the comment is appended with the next id; nothing else changes |
| Store.Database.InsertRequest | src/main/java/ru/practicum/shareit/request/service/impl/ItemRequestServiceImpl.java:83 | the request is appended with the next id and can be found by it; nothing else changes |
| UserMapper.ToUser | src/main/java/ru/practicum/shareit/user/mapper/impl/UserMapperImpl.java:14-25 | null maps to null; otherwise an unsaved user with the DTO's name and e-mail |
| UserMapper.ToUserFromPatch | src/main/java/ru/practicum/shareit/user/mapper/impl/UserMapperImpl.java:28-39 | null maps to null; otherwise an unsaved user with the patch's name and e-mail |
| UserMapper.ToUserDto | src/main/java/ru/practicum/shareit/user/mapper/impl/UserMapperImpl.java:42-54 | null maps to null; otherwise the user's id, name and e-mail |
| UserMapper.RequestRoundTrip | src/main/java/ru/practicum/shareit/user/mapper/impl/UserMapperImpl.java:14-54 | mapping a request to a user and back keeps name and e-mail, with no id |
| UserMapper.OverloadsAgree | src/main/java/ru/practicum/shareit/user/mapper/impl/UserMapperImpl.java:14-39 | both `toUser` overloads build the same user from the same fields |
| UserMapper.ToUserDtoInjective | src/main/java/ru/practicum/shareit/user/mapper/impl/UserMapperImpl.java:42-54 | different users map to different DTOs |
| ItemMapper.ToItem | src/main/java/ru/practicum/shareit/item/mapper/impl/ItemMapperImpl.java:20-36 | null maps to null; the owner id, null included, is looked up as a storage key and a miss is NotFound; otherwise an unsaved item with the DTO's fields and the stored owner |
| ItemMapper.ToItemFromPatch | src/main/java/ru/practicum/shareit/item/mapper/impl/ItemMapperImpl.java:39-51 | null maps to null; otherwise an unsaved item with the patch's three fields and no owner |
| ItemMapper.ToItemDto | src/main/java/ru/practicum/shareit/item/mapper/impl/ItemMapperImpl.java:54-67 | null maps to null; otherwise id, name, description and availability, with owner, bookings and comments left null |
| ItemMapper.RequestRoundTrip | src/main/java/ru/practicum/shareit/item/mapper/impl/ItemMapperImpl.java:20-67 | mapping a request to an item and back keeps the three fields and drops the owner |
| ItemMapper.PatchRoundTrip | src/main/java/ru/practicum/shareit/item/mapper/impl/ItemMapperImpl.java:39-67 | mapping a patch to an item and back keeps the three fields |
| InMemoryUserRepository.InMemoryUserRepository.constructor | src/main/java/ru/practicum/shareit/user/db/repository/impl/InMemoryUserRepositoryImpl.java:14-15 | the storage is empty and the counter is 0 |
| InMemoryUserRepository.InMemoryUserRepository.ReadAll | src/main/java/ru/practicum/shareit/user/db/repository/impl/InMemoryUserRepositoryImpl.java:18-20 | exactly the stored users |
| InMemoryUserRepository.InMemoryUserRepository.ReadById | src/main/java/ru/practicum/shareit/user/db/repository/impl/InMemoryUserRepositoryImpl.java:23-25 | the user stored under the key, or empty when there is none (a null key included) |
| InMemoryUserRepository.InMemoryUserRepository.ExistsById | src/main/java/ru/practicum/shareit/user/db/repository/impl/InMemoryUserRepositoryImpl.java:47-49 | true exactly when `readById` finds a user |
| InMemoryUserRepository.InMemoryUserRepository.ExistsByEmail | src/main/java/ru/practicum/shareit/user/db/repository/impl/InMemoryUserRepositoryImpl.java:52-56 | true exactly when a stored user that does not equal the given one has its non-null e-mail |
| InMemoryUserRepository.InMemoryUserRepository.GenerateId | src/main/java/ru/practicum/shareit/user/db/repository/impl/InMemoryUserRepositoryImpl.java:58-60 | the counter advances by one and nothing else changes |
| InMemoryUserRepository.InMemoryUserRepository.Save | src/main/java/ru/practicum/shareit/user/db/repository/impl/InMemoryUserRepositoryImpl.java:28-33 | the user gets the next, never issued id and is stored under it; the stored user is returned |
| InMemoryUserRepository.InMemoryUserRepository.Update | src/main/java/ru/practicum/shareit/user/db/repository/impl/InMemoryUserRepositoryImpl.java:36-39 | the user is stored under its own id, replacing any earlier one |
| InMemoryUserRepository.InMemoryUserRepository.Delete | src/main/java/ru/practicum/shareit/user/db/repository/impl/InMemoryUserRepositoryImpl.java:42-44 | the key is removed and no longer exists; nothing else changes |
| InMemoryUserRepository.OwnRecordNeverConflicts | src/main/java/ru/practicum/shareit/user/db/repository/impl/InMemoryUserRepositoryImpl.java:52-56 | checking a stored user against the store ignores that user's own record, so it conflicts only with another user's e-mail |
| InMemoryUserRepository.NewUserConflictsOnEmail | src/main/java/ru/practicum/shareit/user/db/repository/impl/InMemoryUserRepositoryImpl.java:52-56 | a new user without an id conflicts exactly when some stored user has the same e-mail |
| InMemoryItemRepository.InMemoryItemRepository.constructor | src/main/java/ru/practicum/shareit/item/db/repository/impl/InMemoryItemRepositoryImpl.java:14-15 | the storage is empty and the counter is 0 |
| InMemoryItemRepository.InMemoryItemRepository.ReadAll | src/main/java/ru/practicum/shareit/item/db/repository/impl/InMemoryItemRepositoryImpl.java:18-22 | exactly the stored items whose owner has the given id |
| InMemoryItemRepository.InMemoryItemRepository.ReadById | src/main/java/ru/practicum/shareit/item/db/repository/impl/InMemoryItemRepositoryImpl.java:25-27 | the item stored under the key, or empty |
| InMemoryItemRepository.InMemoryItemRepository.ReadByText | src/main/java/ru/practicum/shareit/item/db/repository/impl/InMemoryItemRepositoryImpl.java:30-35 | exactly the available stored items whose lower-cased name or description contains the text |
| InMemoryItemRepository.InMemoryItemRepository.GenerateId | src/main/java/ru/practicum/shareit/item/db/repository/impl/InMemoryItemRepositoryImpl.java:51-53 | the counter advances by one and nothing else changes |
| InMemoryItemRepository.InMemoryItemRepository.Save | src/main/java/ru/practicum/shareit/item/db/repository/impl/InMemoryItemRepositoryImpl.java:38-43 | the item gets the next, never issued id and is stored under it |
| InMemoryItemRepository.InMemoryItemRepository.Update | src/main/java/ru/practicum/shareit/item/db/repository/impl/InMemoryItemRepositoryImpl.java:46-49 | the item is stored under its own id |
| InMemoryItemRepository.ReadByTextCapitalFindsNothing | src/main/java/ru/practicum/shareit/item/db/repository/impl/InMemoryItemRepositoryImpl.java:32 | a search text that contains a capital letter never matches, since only the columns are lower-cased |
| InMemoryItemRepository.SearchAgreesWithQuery | src/main/java/ru/practicum/shareit/item/db/repository/impl/InMemoryItemRepositoryImpl.java:30-35 | the in-memory search finds the same items as the JPQL search over the same rows |
| UserService.GetUsers | src/main/java/ru/practicum/shareit/user/service/impl/UserServiceImpl.java:28-33 | one DTO per stored user, in table order |
| UserService.GetById | src/main/java/ru/practicum/shareit/user/service/impl/UserServiceImpl.java:37-40 | the stored user's DTO, or EntityNotFound |
| UserService.Save | src/main/java/ru/practicum/shareit/user/service/impl/UserServiceImpl.java:44-50 | a new e-mail stores the user under the next id and returns it; a taken e-mail is refused with no change |
| UserService.Merge | src/main/java/ru/practicum/shareit/user/service/impl/UserServiceImpl.java:57-62 | a patch replaces exactly the non-null fields and keeps the id |
| UserService.Changed | src/main/java/ru/practicum/shareit/user/service/impl/UserServiceImpl.java:54-66 | an unknown user is EntityNotFound; otherwise the merged user, refused exactly when its e-mail belongs to another user |
| UserService.Change | src/main/java/ru/practicum/shareit/user/service/impl/UserServiceImpl.java:54-66 | the DTO of `Changed` and the table written accordingly; on success the references to the user in the other tables read the new row, on failure nothing changes |
| UserService.Delete | src/main/java/ru/practicum/shareit/user/service/impl/UserServiceImpl.java:70-74 | a missing user is EmptyResult; otherwise exactly that user is removed |
| UserService.MergeIdempotent | src/main/java/ru/practicum/shareit/user/service/impl/UserServiceImpl.java:57-62 | applying a patch twice is applying it once |
| UserService.EmptyPatchIsIdentity | src/main/java/ru/practicum/shareit/user/service/impl/UserServiceImpl.java:57-62 | an all-null patch changes nothing |
| UserService.ChangedRowIsFound | src/main/java/ru/practicum/shareit/user/service/impl/UserServiceImpl.java:63 | after a change the user's id finds the changed row |
| UserService.ChangeTwice | src/main/java/ru/practicum/shareit/user/service/impl/UserServiceImpl.java:54-66 | repeating a successful change gives the same user and leaves the table as it is |
| UserService.EmptyChangeKeepsTable | src/main/java/ru/practicum/shareit/user/service/impl/UserServiceImpl.java:54-66 | an all-null patch of a stored user succeeds and leaves the table unchanged |
| UserService.FailedChangeWritesNothing | src/main/java/ru/practicum/shareit/user/service/impl/UserServiceImpl.java:54-66 | a failed change writes nothing |
| ItemQueries.Filter | src/main/java/ru/practicum/shareit/item/db/repository/ItemRepository.java:11 | a derived query returns exactly the stored rows that satisfy its condition, no more rows than stored |
| ItemQueries.ItemsByOwner | server/src/main/java/ru/practicum/shareit/item/db/repository/ItemRepository.java:14 | exactly the owner's items, each as often as stored |
| ItemQueries.ByText | server/src/main/java/ru/practicum/shareit/item/db/repository/ItemRepository.java:16-21 | exactly the available items whose lower-cased name or description contains the text; the monolith's unpaged `getByText` has the same condition |
| ItemQueries.CapitalTextFindsNothing | server/src/main/java/ru/practicum/shareit/item/db/repository/ItemRepository.java:19-20 | a text with a capital letter never matches, since only the columns are lower-cased |
| ItemQueries.LoweredHasNoCapital | server/src/main/java/ru/practicum/shareit/item/db/repository/ItemRepository.java:19-20 | a lower-cased string never contains a text with a capital letter |
| ItemQueries.EmptyTextFindsAllAvailable | server/src/main/java/ru/practicum/shareit/item/db/repository/ItemRepository.java:16-21 | the empty text matches every available item |
| ItemQueries.ItemsByRequestIds | server/src/main/java/ru/practicum/shareit/item/db/repository/ItemRepository.java:23-25 | exactly the items answering one of the given requests |
| ItemQueries.ItemsByRequestId | server/src/main/java/ru/practicum/shareit/item/db/repository/ItemRepository.java:27 | exactly the items answering the given request |
| ItemQueries.SingleRequestSet | server/src/main/java/ru/practicum/shareit/item/db/repository/ItemRepository.java:23-27 | the set query on one id is the single-request query |
| ItemQueries.GroupedItemsAgree | server/src/main/java/ru/practicum/shareit/item/db/repository/ItemRepository.java:23-27 | taking one request's items out of the set query gives the single-request query |
| ItemQueries.RequestsByRequestor | server/src/main/java/ru/practicum/shareit/request/db/repository/ItemRequestRepository.java:11 | exactly the user's own requests, each as often as stored |
| ItemQueries.RequestsByOtherUsers | server/src/main/java/ru/practicum/shareit/request/db/repository/ItemRequestRepository.java:13-15 | exactly the requests whose requestor id is non-null and different, each as often as stored |
| ItemQueries.RequestQueriesPartition | server/src/main/java/ru/practicum/shareit/request/db/repository/ItemRequestRepository.java:11-15 | a user's own requests and the other users' requests are disjoint and together all requests |
| ItemQueries.NoOwnRequestsSeesAll | server/src/main/java/ru/practicum/shareit/request/db/repository/ItemRequestRepository.java:13-15 | a user with no requests of their own sees all requests, in order |
| ItemQueries.CommentsByItemId | src/main/java/ru/practicum/shareit/item/db/repository/CommentRepository.java:10 | exactly the comments on the item |
| ItemQueries.CommentsByItemIds | src/main/java/ru/practicum/shareit/item/db/repository/CommentRepository.java:12-14 | exactly the comments on one of the listed items |
| ItemQueries.SingleItemList | src/main/java/ru/practicum/shareit/item/db/repository/CommentRepository.java:10-14 | the list query on one id is the single-item query |
| ItemQueries.UncommentedIdsAddNothing | src/main/java/ru/practicum/shareit/item/db/repository/CommentRepository.java:12-14 | listing ids that no comment refers to adds no rows |
| ItemQueries.GroupedCommentsAgree | src/main/java/ru/practicum/shareit/item/db/repository/CommentRepository.java:10-14 | taking one item's comments out of the list query gives the single-item query |
| ItemService.LastEnded | src/main/java/ru/practicum/shareit/item/service/impl/ItemServiceImpl.java:158-160 | `lastBooking` is a row that ended before now, and is null exactly when no row did |
| ItemService.LastStarting | src/main/java/ru/practicum/shareit/item/service/impl/ItemServiceImpl.java:155-157 | `nextBooking` is a row that starts after now, and is null exactly when no row does |
| ItemService.LastEndedIsLatest | src/main/java/ru/practicum/shareit/item/service/impl/ItemServiceImpl.java:154-161 | the last row that ended is kept: no later row ended |
| ItemService.LastStartingIsLatest | src/main/java/ru/practicum/shareit/item/service/impl/ItemServiceImpl.java:154-161 | the last row that starts later is kept: no later row does |
| ItemService.WithBookingsSnoc | src/main/java/ru/practicum/shareit/item/service/impl/ItemServiceImpl.java:154-161 | each further row overwrites `nextBooking` if it is future and `lastBooking` if it is past |
| ItemService.AttachBookings | src/main/java/ru/practicum/shareit/item/service/impl/ItemServiceImpl.java:151-162 | the loop leaves the view that the whole row list gives |
| ItemService.BookingsOnEitherSide | src/main/java/ru/practicum/shareit/item/service/impl/ItemServiceImpl.java:151-162 | last is set exactly when some row ended and next exactly when some row is future; a current booking is neither; each is the last such row |
| ItemService.AttachItemBookings | src/main/java/ru/practicum/shareit/item/service/impl/ItemServiceImpl.java:167-174 | one view's loop over all listed rows gives the view of that item's rows only |
| ItemService.AttachBookingsList | src/main/java/ru/practicum/shareit/item/service/impl/ItemServiceImpl.java:164-175 | every listed view gets the bookings of its own item |
| ItemService.CommentDtosSnoc | src/main/java/ru/practicum/shareit/item/service/impl/ItemServiceImpl.java:188-192 | mapping comments commutes with appending one |
| ItemService.CommentsForIsQuery | src/main/java/ru/practicum/shareit/item/service/impl/ItemServiceImpl.java:186-192 | the comments the loop keeps for an item are the single-item comment query |
| ItemService.CollectComments | src/main/java/ru/practicum/shareit/item/service/impl/ItemServiceImpl.java:187-192 | the inner loop yields the DTOs of the item's comments in order |
| ItemService.AttachCommentsList | src/main/java/ru/practicum/shareit/item/service/impl/ItemServiceImpl.java:184-195 | every listed view gets exactly its own item's comments |
| ItemService.ListRowsRegroup | src/main/java/ru/practicum/shareit/item/service/impl/ItemServiceImpl.java:164-175 | one item's rows out of the list query are that item's single-item rows |
| ItemService.Detail | src/main/java/ru/practicum/shareit/item/service/impl/ItemServiceImpl.java:60-68 | a missing item is EntityNotFound; otherwise the item's fields, its owner, its comments, and bookings only when the caller owns it |
| ItemService.GetById | src/main/java/ru/practicum/shareit/item/service/impl/ItemServiceImpl.java:60-68 | the view `Detail` describes |
| ItemService.OwnerSeesAdjacentBookings | src/main/java/ru/practicum/shareit/item/service/impl/ItemServiceImpl.java:63-65 | the owner's view shows as last a past booking at the latest start before now, and as next a booking at the earliest start after now, present exactly when one exists |
| ItemService.IdsOf | src/main/java/ru/practicum/shareit/item/service/impl/ItemServiceImpl.java:50-52 | every listed item's id is in the id list |
| ItemService.ListViews | src/main/java/ru/practicum/shareit/item/service/impl/ItemServiceImpl.java:53-54 | the list loops yield each row's view with its bookings and comments |
| ItemService.GetItems | src/main/java/ru/practicum/shareit/item/service/impl/ItemServiceImpl.java:44-56 | the owner's page of item views |
| ItemService.GetByText | src/main/java/ru/practicum/shareit/item/service/impl/ItemServiceImpl.java:72-87 | the search's page of item views, and nothing for the empty text |
| ItemService.ListedIsOwnerDetail | src/main/java/ru/practicum/shareit/item/service/impl/ItemServiceImpl.java:164-195 | a listed view is the view the owner gets from `getById` |
| ItemService.OwnerListingIsDetail | src/main/java/ru/practicum/shareit/item/service/impl/ItemServiceImpl.java:44-56 | every entry of the owner's page is the owner's `getById` view of that item |
| ItemService.ItemsPageIsListing | src/main/java/ru/practicum/shareit/item/service/impl/ItemServiceImpl.java:46-54 | the paged listing equals the page `ItemsByOwner` selects, with each item's bookings and comments attached |
| ItemService.SearchShowsOwnerDetail | src/main/java/ru/practicum/shareit/item/service/impl/ItemServiceImpl.java:72-87 | every search result entry is the owner's `getById` view, with bookings, even for a caller who is not the owner |
| ItemService.SearchPageIsListing | src/main/java/ru/practicum/shareit/item/service/impl/ItemServiceImpl.java:77-85 | a non-empty search equals the page `ByText` selects for the lower-cased text, with each item's bookings and comments attached |
| ItemService.SearchIgnoresCase | src/main/java/ru/practicum/shareit/item/service/impl/ItemServiceImpl.java:77 | searching for a text and for its lower-cased form gives the same result |
| ItemService.EmptySearchSkipsPaging | src/main/java/ru/practicum/shareit/item/service/impl/ItemServiceImpl.java:74-76 | the empty text returns an empty list even for a bad page request, which any other text fails on |
| ItemService.Save | src/main/java/ru/practicum/shareit/item/service/impl/ItemServiceImpl.java:91-100 | an unknown owner is NotFound with no change; otherwise the item is stored under the next id with its owner, and its view returned |
| ItemService.Patched | src/main/java/ru/practicum/shareit/item/service/impl/ItemServiceImpl.java:110-118 | a patch replaces exactly the non-null fields and keeps id, owner and request |
| ItemService.PatchIdempotent | src/main/java/ru/practicum/shareit/item/service/impl/ItemServiceImpl.java:110-118 | applying a patch twice is applying it once |
| ItemService.Changed | src/main/java/ru/practicum/shareit/item/service/impl/ItemServiceImpl.java:104-118 | a missing item is EntityNotFound, someone else's is NotItemOwner, otherwise the patched item |
| ItemService.Change | src/main/java/ru/practicum/shareit/item/service/impl/ItemServiceImpl.java:104-124 | on success the row is replaced by the patched item, the bookings and comments of the item read it, and the result is the owner's view of it; on failure nothing changes |
| ItemService.ViewsReadSavedUser | src/main/java/ru/practicum/shareit/item/db/model/Comment.java:30-32 | after a user is saved, a comment by that user shows the new name and an item of that user shows the new owner |
| ItemService.CommentOutcome | src/main/java/ru/practicum/shareit/item/service/impl/ItemServiceImpl.java:128-144 | a stored comment has the stored author and item, the text and the time, and no id; a missing author is NotFound before anything else, then a missing item is NotFound |
| ItemService.CommentNeedsExactlyOneEndedBooking | src/main/java/ru/practicum/shareit/item/service/impl/ItemServiceImpl.java:139-143 | a comment is accepted exactly when the author has one ended approved booking of the item; none is NotItemBooked, more is IncorrectResultSize |
| ItemService.SecondEndedBookingRefusesComment | src/main/java/ru/practicum/shareit/item/service/impl/ItemServiceImpl.java:139-140 | two ended approved bookings of the item refuse the comment |
| ItemService.SaveComment | src/main/java/ru/practicum/shareit/item/service/impl/ItemServiceImpl.java:128-149 | an accepted comment is appended under the next id and its DTO returned; otherwise nothing changes |
| ItemRequestService.OrderByCreatedDesc | src/main/java/ru/practicum/shareit/request/service/impl/ItemRequestServiceImpl.java:45 | requests sorted by `created`, latest first, as a permutation |
| ItemRequestService.InsertByCreated | src/main/java/ru/practicum/shareit/request/service/impl/ItemRequestServiceImpl.java:45 | inserting into a sorted list keeps it sorted and adds exactly that request |
| ItemRequestService.ItemsForIsQuery | src/main/java/ru/practicum/shareit/request/service/impl/ItemRequestServiceImpl.java:100-108 | the items the loop keeps for a request are the single-request item query |
| ItemRequestService.ForRequestsSnoc | src/main/java/ru/practicum/shareit/request/service/impl/ItemRequestServiceImpl.java:102-106 | mapping items commutes with appending one |
| ItemRequestService.CollectItems | src/main/java/ru/practicum/shareit/request/service/impl/ItemRequestServiceImpl.java:101-107 | the inner loop yields the DTOs of the request's items in order |
| ItemRequestService.AttachItems | src/main/java/ru/practicum/shareit/request/service/impl/ItemRequestServiceImpl.java:100-108 | every listed request gets exactly its own items |
| ItemRequestService.IdSet | src/main/java/ru/practicum/shareit/request/service/impl/ItemRequestServiceImpl.java:96-98 | every listed request's id is in the id set |
| ItemRequestService.ListViews | src/main/java/ru/practicum/shareit/request/service/impl/ItemRequestServiceImpl.java:95-109 | the list loops yield each request's view with its items |
| ItemRequestService.OwnPage | src/main/java/ru/practicum/shareit/request/service/impl/ItemRequestServiceImpl.java:41-50 | an unknown user is EntityNotFound; otherwise the listing fails exactly when the page request does |
| ItemRequestService.OthersPage | src/main/java/ru/practicum/shareit/request/service/impl/ItemRequestServiceImpl.java:64-72 | the listing fails exactly when the page request does (the caller is not looked up) |
| ItemRequestService.Detail | src/main/java/ru/practicum/shareit/request/service/impl/ItemRequestServiceImpl.java:54-60 | an unknown user, then an unknown request, is EntityNotFound; otherwise the request with the items that answer it |
| ItemRequestService.GetItemRequests | src/main/java/ru/practicum/shareit/request/service/impl/ItemRequestServiceImpl.java:41-50 | the page `OwnPage` describes |
| ItemRequestService.GetAllByOtherRequestors | src/main/java/ru/practicum/shareit/request/service/impl/ItemRequestServiceImpl.java:64-72 | the page `OthersPage` describes |
| ItemRequestService.Save | src/main/java/ru/practicum/shareit/request/service/impl/ItemRequestServiceImpl.java:76-86 | a null or unknown requestor is NotFound with no change; otherwise the request is stored under the next id at `now` and returned with no items |
| ItemRequestService.ListedIsDetail | src/main/java/ru/practicum/shareit/request/service/impl/ItemRequestServiceImpl.java:88-109 | a listed request is what `getById` returns for it |
| ItemRequestService.PageKeepsOrder | src/main/java/ru/practicum/shareit/request/service/impl/ItemRequestServiceImpl.java:44-45 | a page of a sorted result is sorted and holds only its rows |
| ItemRequestService.ListingKeepsRows | src/main/java/ru/practicum/shareit/request/service/impl/ItemRequestServiceImpl.java:46-48 | the listing keeps each row's id and creation time, in order |
| ItemRequestService.OwnPageMeansOwnRequests | src/main/java/ru/practicum/shareit/request/service/impl/ItemRequestServiceImpl.java:41-50 | the user's page is latest first, holds only the user's requests, and each entry is what `getById` returns |
| ItemRequestService.OthersPageExcludesCaller | src/main/java/ru/practicum/shareit/request/service/impl/ItemRequestServiceImpl.java:64-72 | the others' page is latest first and holds only requests of other, non-null requestors |

## Left out

- HTTP controllers, the gateway, error handlers, JSON, validation annotations and logging are not modelled. Bean validation (`@NotBlank`, `@NotNull`) appears as `requires` on the create methods.
- Transactions and isolation levels are not modelled. Each operation is one atomic step on the tables.
- `LocalDateTime.now()` is a parameter, so the clock itself is not modelled.
- Null pointer exceptions are not modelled. They come from null ids, null owners, null names or a null `available` (for example `readByText` on an item without a name), and the model compares `Option`s instead.
- `LIKE` wildcards in a search text are read as literal characters. Lower-casing covers ASCII letters only.
- The 64-bit id counters are unbounded in the model. Whether a refused insert uses up an identity value is not modelled; ids are dense.
- Foreign-key checks when a user is deleted are not modelled.
- SQL leaves the order of rows with equal sort keys open. The model sorts stably.
- Unsorted queries return rows in table order. `HashMap` values are a set.
- DTO objects are values, so aliasing between a DTO and the entity is not modelled.
- The MapStruct mappers the services use (for bookings, comments, item requests, and items for requests) are not part of the source shown. The model writes them as field copies.
- The server `UserService.getUser` is not part of this model. It is taken to fail like the monolith's `getById`.
- The server `BookingState` enum is not part of this model. It is taken to have six values.
- `ItemForRequestResponseDto` is taken with the server's fields.
- The monolith `ItemRepository` declares `getItemsByOwnerId(Long)` and an unpaged `getByText`, and its `CommentRepository` declares an overloaded `findCommentsByItemId(List)`. The monolith services call the server signatures. The model follows the services and uses the server's query conditions.
- The in-memory repositories' `readAll` return lists built from `HashMap` values. The model gives them as sets, because their order is not defined.
- Pageable.MonolithGetPageable: its own contract states only that a result is well formed. The exact outcomes are in `MonolithRejectsNegative`, `MonolithPageIndex` and `MonolithSizeZeroDividesByZero`.
- Pageable.ServerGetPageable: its own contract states only that a result is well formed. The exact outcomes are in `ServerPageIndex`, `ServerNegativeOffset`, `ServerNegativeSize` and `ConvertersAgree`.
- ItemRequestService.OwnPage: its own contract gives only the error cases. Order, ownership and entries are in `OwnPageMeansOwnRequests`.
- ItemRequestService.OthersPage: its own contract gives only the error cases. Order and the excluded caller are in `OthersPageExcludesCaller`.
