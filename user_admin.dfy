/** Administering users: renaming, changing the role, deleting, looking a
    user up and listing all users. */
module UserAdmin {
  import opened Wrappers
  import opened Strings
  import opened Sequences
  import opened Tables
  import opened AuthModels
  import opened AuthRepo
  import opened AuthInvariants
  import opened AuthMessages

  /** Renames the user with that id. */
  method UpdateUserName(repo: AuthRepository, id: Id, username: string) returns (r: Result<Id>)
    requires repo.Valid()
    modifies repo
    ensures repo.Valid()
    ensures id !in old(repo.users) ==> r == Err(UserDoesNotExist) && unchanged(repo)
    ensures id in old(repo.users) ==>
      r == Ok(id) && repo.emails == old(repo.emails)
      && repo.users == old(repo.users)[id := old(repo.users)[id].(username := username)]
    ensures old(repo.Linked()) ==> repo.Linked()
  {
    var user := repo.FindUserById(id);
    if user.Err? {
      return Err(UserDoesNotExist);
    }
    ghost var users0 := repo.users;
    var _ := repo.UpdateUserName(id, username);
    r := Ok(user.value.id);
    if LinkedTables(repo.emails, users0) {
      UserFieldUpdateKeepsLinked(repo.emails, users0, id, users0[id].(username := username));
    }
  }

  /** Changes the user's role and, when the user's address is on the
      allow-list, that entry's role too. */
  method UpdateUserRole(repo: AuthRepository, id: Id, role: string) returns (r: Result<Id>)
    requires repo.Valid()
    modifies repo
    ensures repo.Valid()
    ensures id !in old(repo.users) ==> r == Err(UserDoesNotExist) && unchanged(repo)
    ensures id in old(repo.users) ==>
      r == Ok(id) && repo.users == old(repo.users)[id := old(repo.users)[id].(role := role)]
    ensures id in old(repo.users) ==>
      var entry := old(repo.FindEmail(repo.users[id].email));
      repo.emails == if entry.Err? then old(repo.emails)
                     else old(repo.emails)[entry.value.id := old(repo.emails)[entry.value.id].(role := role)]
    ensures old(repo.Linked()) ==> repo.Linked()
  {
    var user := repo.FindUserById(id);
    if user.Err? {
      return Err(UserDoesNotExist);
    }
    ghost var emails0, users0 := repo.emails, repo.users;
    var _ := repo.UpdateUserRole(id, role);
    var entry := repo.FindEmail(user.value.email);
    if entry.Ok? {
      assert !OtherEntryHas(repo.emails, entry.value.id, entry.value.email);
      var updated := repo.UpdateEmail(entry.value.id, entry.value.email, role);
    }
    r := Ok(user.value.id);
    if LinkedTables(emails0, users0) {
      UserFieldUpdateKeepsLinked(emails0, users0, id, users0[id].(role := role));
      if entry.Ok? {
        EntryUpdateKeepsLinked(emails0, repo.users, entry.value.id, emails0[entry.value.id].(role := role));
      }
    }
  }

  /** Deletes the user, then clears the flag of the allow-list entry for
      the user's address. The deletion stands even when no such entry is
      found, which the answer then reports. */
  method DeleteUser(repo: AuthRepository, id: Id) returns (r: Result<Id>)
    requires repo.Valid()
    modifies repo
    ensures repo.Valid()
    ensures id !in old(repo.users) ==> r == Err(UserDoesNotExist) && unchanged(repo)
    ensures id in old(repo.users) ==> repo.users == old(repo.users) - {id}
    ensures id in old(repo.users) ==>
      var entry := old(repo.FindEmail(repo.users[id].email));
      if entry.Err? then r == Err(EmailDoesNotExist) && repo.emails == old(repo.emails)
      else r == Ok(id) && repo.emails == old(repo.emails)[entry.value.id := old(repo.emails)[entry.value.id].(hasUser := false)]
    ensures old(repo.Linked()) ==> repo.Linked()
    ensures old(repo.Linked()) && id in old(repo.users) ==> r == Ok(id)
  {
    var user := repo.FindUserById(id);
    if user.Err? {
      return Err(UserDoesNotExist);
    }
    ghost var emails0, users0 := repo.emails, repo.users;
    var deleted := repo.DeleteUser(id);
    var entry := repo.FindEmail(user.value.email);
    if entry.Err? {
      r := Err(EmailDoesNotExist);
      if LinkedTables(emails0, users0) {
        LowerOfLower(users0[id].email);
        assert false;
      }
      return;
    }
    var _ := repo.SetEmailHasUser(entry.value.id, false);
    r := Ok(deleted);
    if LinkedTables(emails0, users0) {
      LowerOfLower(users0[id].email);
      DeleteUserKeepsLinked(emails0, users0, id, entry.value.id);
    }
  }

  /** Looks a user up by address (compared in lower case). */
  function FindUser(repo: AuthRepository, email: string): (r: Result<User>)
    reads repo`users, repo`nextId
    requires repo.UsersValid()
    ensures r.Ok? <==> HasUserFor(repo.users, Lower(email))
    ensures r.Ok? ==> r.value.id in repo.users && r.value == UserOf(r.value.id, repo.users[r.value.id])
                      && r.value.email == Lower(email)
    ensures r.Err? ==> r.error == UserDoesNotExist
  {
    var user := repo.FindUserByEmail(email);
    if user.Err? then Err(UserDoesNotExist) else user
  }

  /** Lists every user once, by username ascending; an empty store is
      reported instead of listed. */
  function GetAllUsers(repo: AuthRepository): (r: Result<seq<User>>)
    reads repo`users, repo`nextId
    requires repo.UsersValid()
    ensures r.Err? <==> repo.users == map[]
    ensures r.Err? ==> r.error == NoUsersFound
    ensures r.Ok? ==> SortedAsc(r.value, UsernameKey) && Distinct(r.value)
    ensures r.Ok? ==> forall u :: u in r.value <==> u.id in repo.users && u == UserOf(u.id, repo.users[u.id])
  {
    var users := repo.GetAllUsers();
    if |users| == 0 then Err(NoUsersFound) else Ok(users)
  }
}
