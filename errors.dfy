/** The exceptions the services throw, as values. */
module Errors {

  /** Which kind of record a lookup was about (the message of the exception). */
  datatype Entity = UserEntity | ItemEntity | BookingEntity | RequestEntity | CommentEntity

  /** Why a booking request found the item unavailable (the two messages of
      NotItemAvailableException). */
  datatype Unavailability = ItemSwitchedOff | DatesTaken

  datatype Error =
    | BadBookingDate                    // BadBookingDateException
    | NotFound(what: Entity)            // the application's NotFoundException
    | EntityNotFound(what: Entity)      // javax.persistence.EntityNotFoundException of a lazy reference
    | NotItemAvailable(why: Unavailability)
    | NotItemOwner                      // NotItemOwnerException
    | BadApproveStatus                  // BadApproveStatusException
    | BadState(state: string)           // BadStateException("Unknown state: ...")
    | BadPageRequest                    // BadPageRequestException
    | NotItemBooked                     // NotItemBookedException
    | DivisionByZero                    // java.lang.ArithmeticException from `from / size`
    | IllegalArgument                   // IllegalArgumentException from PageRequest.of
    | IncorrectResultSize               // a single-result query that found several rows
    | EmptyResult                       // EmptyResultDataAccessException from deleteById
    | DuplicateEmail                    // the UNIQUE constraint on users.email
}
