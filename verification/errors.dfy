/** The error kinds that the plugin reports in its `{ success: false, error }`
    replies and thrown hook errors. Message text is not modelled; the two
    numbers that messages carry (remaining minutes of a block, remaining
    attempts) are. */
module Errors {

  datatype Error =
    | PhoneRequired               // PHONE_REQUIRED / "phone is required" hook error
    | PhoneInvalid                // PHONE_INVALID
    | PhoneExists                 // PHONE_EXISTS
    | PhoneBlocked(minutes: nat)  // PHONE_BLOCKED, with the minutes quoted in the message
    | CodeNotFound                // CODE_NOT_FOUND
    | CodeExpired                 // CODE_EXPIRED
    | CodeInvalid(attemptsLeft: nat) // CODE_INVALID, with the attempts left
    | IpBlocked                   // IP_BLOCKED
    | MissingParams               // MISSING_PARAMS
    | NotVerified                 // registration hook: phone not verified
    | Unauthorized                // UNAUTHORIZED
    | UserNotFound                // USER_NOT_FOUND
    | NoPhone                     // NO_PHONE: the profile holds no phone
    | ServerError                 // SERVER_ERROR (an exception caught by the handler)

  /** `{ success: true }` or `{ success: false, error }`. */
  datatype Status = Success | Failure(error: Error)
}
