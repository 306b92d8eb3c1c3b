/** Registering, confirming a registration and logging in. */
module Registration {
  import opened Wrappers
  import opened Strings
  import opened Tables
  import opened AuthModels
  import opened AuthRepo
  import opened AuthServices
  import opened AuthInvariants
  import opened AuthMessages

  /** Registers a user for an allowed address that has no user yet: stores
      the user unconfirmed with the entry's role and the hashed password,
      flags the entry, and mails a confirmation token that opens under the
      "not yet confirmed" secret. */
  method Register(repo: AuthRepository, h: Hasher, mail: Outbox, secret: string,
                  username: string, email: string, password: string) returns (r: Result<Id>)
    requires repo.Valid()
    modifies repo, mail
    ensures repo.Valid()
    ensures old(repo.FindEmail(email)).Err? ==>
      r == Err(EmailNotAllowed) && unchanged(repo) && mail.sent == old(mail.sent)
    ensures old(repo.FindEmail(email)).Ok? && old(repo.FindUserByEmail(email)).Ok? ==>
      r == Err(UserAlreadyExists) && unchanged(repo) && mail.sent == old(mail.sent)
    ensures var entry := old(repo.FindEmail(email));
      entry.Ok? && old(repo.FindUserByEmail(email)).Err?
      && (username == "" || email == "" || h.hash(password) == "" || entry.value.role == "") ==>
      r == Err(UserValidationFailed) && repo.users == old(repo.users) && repo.emails == old(repo.emails)
      && mail.sent == old(mail.sent)
    ensures var entry := old(repo.FindEmail(email));
      entry.Ok? && old(repo.FindUserByEmail(email)).Err?
      && username != "" && email != "" && h.hash(password) != "" && entry.value.role != "" ==>
      r.Ok? && r.value !in old(repo.users)
      && repo.users == old(repo.users)[r.value := UserDoc(username, Lower(email), h.hash(password), entry.value.role, false)]
      && repo.emails == old(repo.emails)[entry.value.id := old(repo.emails)[entry.value.id].(hasUser := true)]
      && mail.sent == old(mail.sent) + [ConfirmationEmail(email, r.value, EncodeToken(IdString(r.value), ConfirmationSecret(secret, false)))]
    ensures old(repo.Linked()) ==> repo.Linked()
  {
    ghost var emails0, users0 := repo.emails, repo.users;
    var entry := repo.FindEmail(email);
    if entry.Err? {
      return Err(EmailNotAllowed);
    }
    var existing := repo.FindUserByEmail(email);
    if existing.Ok? {
      return Err(UserAlreadyExists);
    }
    var passwordHash := h.hash(password);
    LowerIdempotent(email);
    var added := repo.AddUser(username, email, passwordHash, entry.value.role);
    if added.Err? {
      return Err(added.error);
    }
    var user := added.value;
    var _ := repo.SetEmailHasUser(entry.value.id, true);
    var token := EncodeToken(IdString(user.id), ConfirmationSecret(secret, user.isConfirmed));
    var _ := mail.SendConfirmationEmail(email, user.id, token);
    r := Ok(user.id);
    if LinkedTables(emails0, users0) {
      RegisterKeepsLinked(emails0, users0, entry.value.id, user.id,
                          UserDoc(username, Lower(email), passwordHash, entry.value.role, false));
    }
  }

  /** Confirms the profile with that id when the token opens under the
      secret for the profile's current `isConfirmed` flag. The token's
      payload is not compared with the id. */
  method ConfirmRegistration(repo: AuthRepository, secret: string, id: Id, token: Token) returns (r: Result<Id>)
    requires repo.Valid()
    modifies repo
    ensures repo.Valid()
    ensures id !in old(repo.users) ==> r == Err(UserDoesNotExists) && unchanged(repo)
    ensures (id in old(repo.users)
             && DecodeToken(token, ConfirmationSecret(secret, old(repo.users)[id].isConfirmed)).None?) ==>
      r == Err(ConfirmationError) && unchanged(repo)
    ensures (id in old(repo.users)
             && DecodeToken(token, ConfirmationSecret(secret, old(repo.users)[id].isConfirmed)).Some?) ==>
      r == Ok(id) && repo.emails == old(repo.emails)
      && repo.users == old(repo.users)[id := old(repo.users)[id].(isConfirmed := true)]
    ensures old(repo.Linked()) ==> repo.Linked()
  {
    var user := repo.FindUserById(id);
    if user.Err? {
      return Err(UserDoesNotExists);
    }
    var payload := DecodeToken(token, ConfirmationSecret(secret, user.value.isConfirmed));
    if payload.None? {
      return Err(ConfirmationError);
    }
    ghost var users0 := repo.users;
    var done := repo.ConfirmUserRegistration(id);
    r := Ok(done);
    if LinkedTables(repo.emails, users0) {
      UserFieldUpdateKeepsLinked(repo.emails, users0, id, users0[id].(isConfirmed := true));
    }
  }

  /** Logs in: the address must be on the allow-list, a user must hold it,
      the password must match the stored hash and the profile must be
      confirmed; the answer is the user's id. */
  function Login(repo: AuthRepository, h: Hasher, email: string, password: string): (r: Result<Id>)
    reads repo
    requires repo.Valid()
    ensures !HasEntryFor(repo.emails, Lower(email)) ==> r == Err(EmailNotAllowed)
    ensures HasEntryFor(repo.emails, Lower(email)) && !HasUserFor(repo.users, Lower(email)) ==>
      r == Err(InvalidEmailOrPassword)
    ensures forall u :: u in repo.users && repo.users[u].email == Lower(email) && HasEntryFor(repo.emails, Lower(email)) ==>
      r == if !h.compare(password, repo.users[u].password) then Err(InvalidEmailOrPassword)
           else if !repo.users[u].isConfirmed then Err(ProfileNotConfirmed)
           else Ok(u)
  {
    var entry := repo.FindEmail(email);
    var user := repo.FindUserByEmail(email);
    if entry.Err? then Err(EmailNotAllowed)
    else if user.Err? || !h.compare(password, user.value.password) then Err(InvalidEmailOrPassword)
    else if !user.value.isConfirmed then Err(ProfileNotConfirmed)
    else Ok(user.value.id)
  }

  /** A confirmation token stops opening once the profile is confirmed. */
  lemma {:induction false} ConfirmationTokenSingleUse(secret: string, p: Payload)
    ensures DecodeToken(EncodeToken(p, ConfirmationSecret(secret, false)), ConfirmationSecret(secret, true)).None?
  {
    ConfirmationSecretChanges(secret);
  }
}
