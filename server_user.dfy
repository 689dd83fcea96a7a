/** The persistent account entity of the auction server
    (com.noryangjin.auction.server.domain.user.User). Each Java field is a
    mutable field of the class; a field of reference type that may hold
    `null` is an `Option`. The two readings of `LocalDateTime.now()` the
    builder constructor takes are its last two parameters. */
module ServerUser {
  import opened Options
  import opened UserTypes

  class User {
    /** Generated by the store on insert; the constructors leave it unset. */
    var id: Option<int>
    var email: Option<string>
    var password: Option<string>
    var name: Option<string>
    var phoneNumber: Option<string>
    var role: Option<UserRole>
    var status: Option<UserStatus>
    var createdAt: Option<Timestamp>
    var updatedAt: Option<Timestamp>

    /** The state the builder constructor leaves behind, whatever its
        arguments: no id yet, status `ACTIVE`, both timestamps set. */
    predicate IsNewAccount()
      reads this
    {
      id.None? && status == Some(Active) && createdAt.Some? && updatedAt.Some?
    }

    /** The protected no-argument constructor the persistence layer uses
        before it fills the fields in: every field is `null`. */
    constructor Empty()
      ensures id.None? && email.None? && password.None? && name.None?
      ensures phoneNumber.None? && role.None? && status.None?
      ensures createdAt.None? && updatedAt.None?
      ensures !IsNewAccount()
    {
      id := None;
      email := None;
      password := None;
      name := None;
      phoneNumber := None;
      role := None;
      status := None;
      createdAt := None;
      updatedAt := None;
    }

    /** The `@Builder` constructor. It checks none of its arguments: `null`
        and blank values are stored as given. `firstReading` and
        `secondReading` are the two separate clock readings, so the two
        timestamps need not be equal. */
    constructor (email: Option<string>, password: Option<string>, name: Option<string>,
                 phoneNumber: Option<string>, role: Option<UserRole>,
                 firstReading: Timestamp, secondReading: Timestamp)
      ensures this.email == email && this.password == password && this.name == name
      ensures this.phoneNumber == phoneNumber && this.role == role
      ensures this.status == Some(Active)
      ensures this.createdAt == Some(firstReading) && this.updatedAt == Some(secondReading)
      ensures this.id.None?
      ensures IsNewAccount()
    {
      this.email := email;
      this.password := password;
      this.name := name;
      this.phoneNumber := phoneNumber;
      this.role := role;
      this.status := Some(Active);
      this.createdAt := Some(firstReading);
      this.updatedAt := Some(secondReading);
      this.id := None;
    }
  }

  /** The two timestamps come from separate clock readings: when the clock
      advances between them, `createdAt` and `updatedAt` differ. */
  method TimestampsMayDiffer(firstReading: Timestamp)
    returns (createdAt: Option<Timestamp>, updatedAt: Option<Timestamp>)
    ensures createdAt.Some? && updatedAt.Some? && createdAt != updatedAt
  {
    var u := new User(Some("seller@example.com"), Some("password123"), Some("seller"),
                      Some("010-1234-5678"), Some(Seller), firstReading, firstReading + 1);
    createdAt := u.createdAt;
    updatedAt := u.updatedAt;
  }

}
