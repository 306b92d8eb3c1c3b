/** The forgotten-password flow (request a link, open it, set a new
    password) and changing a password while logged in. */
module Passwords {
  import opened Wrappers
  import opened Strings
  import opened Tables
  import opened AuthModels
  import opened AuthRepo
  import opened AuthServices
  import opened AuthInvariants
  import opened AuthMessages

  /** Mails a one-time reset link to the user holding the address: the
      token carries the id and is signed with the base secret followed by
      the stored hash. The store is only read. */
  method ForgotPassword(repo: AuthRepository, mail: Outbox, secret: string, email: string) returns (r: Result<Id>)
    requires repo.Valid()
    modifies mail
    ensures repo.FindUserByEmail(email).Err? ==> r == Err(InvalidEmail) && mail.sent == old(mail.sent)
    ensures var user := repo.FindUserByEmail(email);
      user.Ok? ==>
      r == Ok(user.value.id)
      && mail.sent == old(mail.sent) + [ForgotPasswordEmail(email, user.value.id,
                                         EncodeToken(IdObject(user.value.id), ResetSecret(secret, user.value.password)))]
  {
    var user := repo.FindUserByEmail(email);
    if user.Err? {
      return Err(InvalidEmail);
    }
    var token := EncodeToken(IdObject(user.value.id), ResetSecret(secret, user.value.password));
    var _ := mail.SendForgotPasswordEmail(email, user.value.id, token);
    r := Ok(user.value.id);
  }

  /** Opens a reset link: the answer is the user's address when the token
      opens under the secret for the currently stored hash. */
  function ResetPassword(repo: AuthRepository, secret: string, id: Id, token: Token): (r: Result<string>)
    reads repo`users
    ensures id !in repo.users ==> r == Err(InvalidEmail)
    ensures id in repo.users ==>
      (r.Ok? <==> DecodeToken(token, ResetSecret(secret, repo.users[id].password)).Some?)
    ensures r.Ok? ==> id in repo.users && r.value == repo.users[id].email
    ensures r.Err? ==> r.error == InvalidEmail
  {
    var user := repo.FindUserById(id);
    if user.Err? then Err(InvalidEmail)
    else if DecodeToken(token, ResetSecret(secret, user.value.password)).None? then Err(InvalidEmail)
    else Ok(user.value.email)
  }

  /** A link mailed while the stored hash was `issuedUnder` opens exactly as
      long as that hash is still stored: once the password changes to a
      different hash the link is spent. */
  lemma {:induction false} ResetLinkValidIffHashUnchanged(repo: AuthRepository, secret: string, id: Id, issuedUnder: string)
    requires id in repo.users
    ensures ResetPassword(repo, secret, id, EncodeToken(IdObject(id), ResetSecret(secret, issuedUnder))).Ok?
            <==> repo.users[id].password == issuedUnder
  {
    ResetSecretInjective(secret, issuedUnder, repo.users[id].password);
  }

  /** Sets a new password through a reset link: the link must still open
      and both new passwords must agree; the stored hash becomes the hash of
      the new password. */
  method SetNewPassword(repo: AuthRepository, h: Hasher, secret: string, id: Id, token: Token,
                        newPassword1: string, newPassword2: string) returns (r: Result<Id>)
    requires repo.Valid()
    modifies repo
    ensures repo.Valid()
    ensures old(ResetPassword(repo, secret, id, token)).Err? ==> r == Err(InvalidEmail) && unchanged(repo)
    ensures old(ResetPassword(repo, secret, id, token)).Ok? && newPassword1 != newPassword2 ==>
      r == Err(PasswordsMustBeSame) && unchanged(repo)
    ensures old(ResetPassword(repo, secret, id, token)).Ok? && newPassword1 == newPassword2 ==>
      r == Ok(id) && repo.emails == old(repo.emails)
      && repo.users == old(repo.users)[id := old(repo.users)[id].(password := h.hash(newPassword1))]
    ensures old(repo.Linked()) ==> repo.Linked()
  {
    var user := repo.FindUserById(id);
    if user.Err? {
      return Err(InvalidEmail);
    }
    var payload := DecodeToken(token, ResetSecret(secret, user.value.password));
    if payload.None? {
      return Err(InvalidEmail);
    }
    if newPassword1 != newPassword2 {
      return Err(PasswordsMustBeSame);
    }
    var passwordHash := h.hash(newPassword1);
    ghost var users0 := repo.users;
    var done := repo.UpdateUserPassword(user.value.id, passwordHash);
    r := Ok(done);
    if LinkedTables(repo.emails, users0) {
      UserFieldUpdateKeepsLinked(repo.emails, users0, id, users0[id].(password := passwordHash));
    }
  }

  /** Changes the password of a user who knows the current one; both new
      passwords must agree. */
  method UpdateUserPassword(repo: AuthRepository, h: Hasher, id: Id, oldPassword: string,
                            newPassword1: string, newPassword2: string) returns (r: Result<Id>)
    requires repo.Valid()
    modifies repo
    ensures repo.Valid()
    ensures id !in old(repo.users) ==> r == Err(InvalidUserId) && unchanged(repo)
    ensures id in old(repo.users) && !h.compare(oldPassword, old(repo.users)[id].password) ==>
      r == Err(InvalidOldPassword) && unchanged(repo)
    ensures (id in old(repo.users) && h.compare(oldPassword, old(repo.users)[id].password)
             && newPassword1 != newPassword2) ==>
      r == Err(PasswordsMustBeSame) && unchanged(repo)
    ensures (id in old(repo.users) && h.compare(oldPassword, old(repo.users)[id].password)
             && newPassword1 == newPassword2) ==>
      r == Ok(id) && repo.emails == old(repo.emails)
      && repo.users == old(repo.users)[id := old(repo.users)[id].(password := h.hash(newPassword1))]
    ensures old(repo.Linked()) ==> repo.Linked()
  {
    var user := repo.FindUserById(id);
    if user.Err? {
      return Err(InvalidUserId);
    }
    if !h.compare(oldPassword, user.value.password) {
      return Err(InvalidOldPassword);
    }
    if newPassword1 != newPassword2 {
      return Err(PasswordsMustBeSame);
    }
    var passwordHash := h.hash(newPassword1);
    ghost var users0 := repo.users;
    var done := repo.UpdateUserPassword(user.value.id, passwordHash);
    r := Ok(done);
    if LinkedTables(repo.emails, users0) {
      UserFieldUpdateKeepsLinked(repo.emails, users0, id, users0[id].(password := passwordHash));
    }
  }
}
