/** The plain account value of com.noryangfin.auction.domain.user.User: a
    nine-argument constructor, nine getters and no mutators, so a value is
    fixed once built. A field of reference type that may hold `null` is an
    `Option`. */
module DomainUser {
  import opened Options
  import opened UserTypes

  datatype User = User(
    id: Option<int>,
    email: Option<string>,
    password: Option<string>,
    name: Option<string>,
    phoneNumber: Option<string>,
    role: Option<UserRole>,
    status: Option<UserStatus>,
    createdAt: Option<Timestamp>,
    updatedAt: Option<Timestamp>)
  {
    function GetId(): Option<int> { id }
    function GetEmail(): Option<string> { email }
    function GetPassword(): Option<string> { password }
    function GetName(): Option<string> { name }
    function GetPhoneNumber(): Option<string> { phoneNumber }
    function GetRole(): Option<UserRole> { role }
    function GetStatus(): Option<UserStatus> { status }
    function GetCreatedAt(): Option<Timestamp> { createdAt }
    function GetUpdatedAt(): Option<Timestamp> { updatedAt }
  }

  /** Each getter returns exactly the matching constructor argument: no
      defaults (a missing status or timestamp stays missing), no clock
      reading and no checks. */
  lemma GettersReturnArguments(id: Option<int>, email: Option<string>, password: Option<string>,
                               name: Option<string>, phoneNumber: Option<string>,
                               role: Option<UserRole>, status: Option<UserStatus>,
                               createdAt: Option<Timestamp>, updatedAt: Option<Timestamp>)
    ensures var u := User(id, email, password, name, phoneNumber, role, status, createdAt, updatedAt);
      u.GetId() == id && u.GetEmail() == email && u.GetPassword() == password
      && u.GetName() == name && u.GetPhoneNumber() == phoneNumber && u.GetRole() == role
      && u.GetStatus() == status && u.GetCreatedAt() == createdAt && u.GetUpdatedAt() == updatedAt
  {
  }

  /** A value is determined by what its getters return: two values that
      agree on all nine getters are the same value. */
  lemma DeterminedByGetters(u: User, v: User)
    ensures u == v <==>
      (u.GetId() == v.GetId() && u.GetEmail() == v.GetEmail() && u.GetPassword() == v.GetPassword()
       && u.GetName() == v.GetName() && u.GetPhoneNumber() == v.GetPhoneNumber()
       && u.GetRole() == v.GetRole() && u.GetStatus() == v.GetStatus()
       && u.GetCreatedAt() == v.GetCreatedAt() && u.GetUpdatedAt() == v.GetUpdatedAt())
  {
  }

  /** Rebuilding a value from its own getters gives the same value back. */
  lemma RebuildFromGetters(u: User)
    ensures User(u.GetId(), u.GetEmail(), u.GetPassword(), u.GetName(), u.GetPhoneNumber(),
                 u.GetRole(), u.GetStatus(), u.GetCreatedAt(), u.GetUpdatedAt()) == u
  {
  }

}
