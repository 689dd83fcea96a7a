/** The value types shared by both `User` classes. The enum sources
    (UserRole.java, UserStatus.java) are not part of this model: the role
    constants are those the repository's tests use, and of the status
    constants only `ACTIVE` is named anywhere. */
module UserTypes {

  /** `UserRole`: the constants `SELLER`, `BUYER`, `BIDDER` and `ADMIN`. */
  datatype UserRole = Seller | Buyer | Bidder | Admin

  /** `UserStatus`: `ACTIVE`, or one of the other constants, by name. */
  datatype UserStatus = Active | OtherStatus(name: string)

  /** A `LocalDateTime` value, as a count of ticks since some fixed origin. */
  type Timestamp = int

}
