/** Whole flows through the use cases, on a fresh store, with any hasher
    that accepts a password against its own hash or with the test suite's
    identity hasher. */
module AuthScenarios {
  import opened Wrappers
  import opened Strings
  import opened Tables
  import opened AuthModels
  import opened AuthRepo
  import opened AuthServices
  import opened AuthMessages
  import Registration
  import Passwords
  import AllowList

  /** A fresh store allowing one address. */
  method AllowedStore(address: string, role: string) returns (repo: AuthRepository, entryId: Id)
    requires address != "" && IsLower(address) && role != ""
    ensures fresh(repo) && repo.Valid() && repo.Linked()
    ensures repo.emails == map[entryId := EmailDoc(address, role, false)] && repo.users == map[]
    ensures repo.FindEmail(address) == Ok(Email(entryId, address, role, false))
    ensures repo.FindUserByEmail(address).Err?
  {
    repo := new AuthRepository();
    LowerOfLower(address);
    var allowed := AllowList.AddEmail(repo, address, role);
    entryId := allowed.value;
    assert repo.emails[entryId].email == address;
  }

  /** A fresh store where one allowed address has registered. */
  method RegisteredStore(h: Hasher, secret: string, address: string, role: string, username: string, password: string)
    returns (repo: AuthRepository, mail: Outbox, entryId: Id, id: Id)
    requires address != "" && IsLower(address) && role != "" && username != "" && h.hash(password) != ""
    ensures fresh(repo) && fresh(mail) && repo.Valid() && repo.Linked()
    ensures repo.emails == map[entryId := EmailDoc(address, role, true)]
    ensures repo.users == map[id := UserDoc(username, address, h.hash(password), role, false)]
    ensures mail.sent == [ConfirmationEmail(address, id, EncodeToken(IdString(id), ConfirmationSecret(secret, false)))]
  {
    repo, entryId := AllowedStore(address, role);
    mail := new Outbox();
    var registered := Registration.Register(repo, h, mail, secret, username, address, password);
    id := registered.value;
  }

  /** An admin allows an address; its owner registers, cannot log in before
      confirming, confirms with the mailed token, then logs in. The same
      token no longer confirms. This holds for every hasher that accepts a
      password against its own hash. */
  method RegisterConfirmLogin(h: Hasher, secret: string, address: string, role: string, username: string, password: string)
    returns (before: Result<Id>, confirmed: Result<Id>, after: Result<Id>, again: Result<Id>)
    requires SoundHasher(h)
    requires address != "" && IsLower(address) && role != "" && username != "" && h.hash(password) != ""
    ensures before == Err(ProfileNotConfirmed)
    ensures confirmed.Ok? && after == confirmed
    ensures again == Err(ConfirmationError)
  {
    var repo, mail, entryId, id := RegisteredStore(h, secret, address, role, username, password);
    LowerOfLower(address);
    before := Registration.Login(repo, h, address, password);
    var token := mail.sent[0].token;
    confirmed := Registration.ConfirmRegistration(repo, secret, id, token);
    after := Registration.Login(repo, h, address, password);
    Registration.ConfirmationTokenSingleUse(secret, IdString(id));
    again := Registration.ConfirmRegistration(repo, secret, id, token);
  }

  /** Moving a registered user's allow-list entry to another address locks
      the user out: the old address is no longer allowed, and no user holds
      the new one. */
  method RenamedEntryLocksOut(secret: string, address: string, newAddress: string, role: string,
                              username: string, password: string)
    returns (oldLogin: Result<Id>, newLogin: Result<Id>)
    requires address != "" && IsLower(address) && IsLower(newAddress) && newAddress != address
    requires role != "" && username != "" && password != ""
    ensures oldLogin == Err(EmailNotAllowed)
    ensures newLogin == Err(InvalidEmailOrPassword)
  {
    var repo, mail, entryId, id := RegisteredStore(IdentityHasher(), secret, address, role, username, password);
    LowerOfLower(address);
    LowerOfLower(newAddress);
    var moved := AllowList.UpdateEmail(repo, entryId, newAddress, role);
    assert repo.emails == map[entryId := EmailDoc(newAddress, role, true)];
    assert repo.users.Keys == {id} && repo.users[id].email == address;
    assert !HasEntryFor(repo.emails, address);
    assert !HasUserFor(repo.users, newAddress);
    oldLogin := Registration.Login(repo, IdentityHasher(), address, password);
    newLogin := Registration.Login(repo, IdentityHasher(), newAddress, password);
  }

  /** A confirmation token is not tied to the account it was mailed for:
      the token mailed to the first of two new users confirms the second. */
  method TokenConfirmsAnotherAccount(secret: string, first: string, second: string, role: string,
                                     username: string, password: string)
    returns (confirmed: Result<Id>, secondId: Id)
    requires first != "" && IsLower(first) && second != "" && IsLower(second) && first != second
    requires role != "" && username != "" && password != ""
    ensures confirmed == Ok(secondId)
  {
    var repo, mail, entryId, firstId := RegisteredStore(IdentityHasher(), secret, first, role, username, password);
    var token := mail.sent[0].token;
    LowerOfLower(second);
    var allowed := AllowList.AddEmail(repo, second, role);
    assert repo.FindEmail(second).Ok? by {
      assert repo.emails[allowed.value].email == second;
    }
    assert repo.FindUserByEmail(second).Err? by {
      assert repo.users.Keys == {firstId} && repo.users[firstId].email == first;
    }
    var two := Registration.Register(repo, IdentityHasher(), mail, secret, username, second, password);
    secondId := two.value;
    confirmed := Registration.ConfirmRegistration(repo, secret, secondId, token);
  }

  /** A forgotten-password link opens, sets a new password once, and is
      spent afterwards. */
  method ResetLinkSpentAfterUse(secret: string, address: string, role: string, username: string,
                                password: string, newPassword: string)
    returns (firstOpen: Result<string>, changed: Result<Id>, secondOpen: Result<string>)
    requires address != "" && IsLower(address) && role != "" && username != "" && password != ""
    requires newPassword != password
    ensures firstOpen == Ok(address)
    ensures changed.Ok?
    ensures secondOpen == Err(InvalidEmail)
  {
    var repo, mail, entryId, id := RegisteredStore(IdentityHasher(), secret, address, role, username, password);
    LowerOfLower(address);
    assert repo.FindUserByEmail(address).Ok? by {
      assert repo.users[id].email == address;
    }
    var asked := Passwords.ForgotPassword(repo, mail, secret, address);
    var token := mail.sent[1].token;
    assert token == EncodeToken(IdObject(id), ResetSecret(secret, password));
    firstOpen := Passwords.ResetPassword(repo, secret, id, token);
    changed := Passwords.SetNewPassword(repo, IdentityHasher(), secret, id, token, newPassword, newPassword);
    Passwords.ResetLinkValidIffHashUnchanged(repo, secret, id, password);
    secondOpen := Passwords.ResetPassword(repo, secret, id, token);
  }
}
