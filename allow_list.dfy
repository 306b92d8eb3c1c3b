/** Administering the allow-list of addresses that may register: adding,
    changing and deleting entries and listing them. */
module AllowList {
  import opened Wrappers
  import opened Strings
  import opened Sequences
  import opened Tables
  import opened AuthModels
  import opened AuthRepo
  import opened AuthInvariants
  import opened AuthMessages

  /** Adds an address (stored in lower case) with a role, unless it is
      already on the list. */
  method AddEmail(repo: AuthRepository, email: string, role: string) returns (r: Result<Id>)
    requires repo.Valid()
    modifies repo
    ensures repo.Valid()
    ensures repo.users == old(repo.users)
    ensures old(repo.FindEmail(email)).Ok? ==> r == Err(EmailAlreadyExists) && unchanged(repo)
    ensures old(repo.FindEmail(email)).Err? && (email == "" || role == "") ==>
      r == Err(EmailValidationFailed) && repo.emails == old(repo.emails)
    ensures old(repo.FindEmail(email)).Err? && email != "" && role != "" ==>
      r.Ok? && r.value !in old(repo.emails)
      && repo.emails == old(repo.emails)[r.value := EmailDoc(Lower(email), role, false)]
    ensures old(repo.Linked()) ==> repo.Linked()
  {
    var entry := repo.FindEmail(email);
    if entry.Ok? {
      return Err(EmailAlreadyExists);
    }
    ghost var emails0 := repo.emails;
    r := repo.AddEmail(email, role);
    if r.Ok? && LinkedTables(emails0, repo.users) {
      AddEntryKeepsLinked(emails0, repo.users, r.value, EmailDoc(Lower(email), role, false));
    }
  }

  /** Overwrites the address (as given) and role of an entry, then gives
      the user holding the old address the new role. The user keeps the old
      address. The tables stay linked when the address is unchanged, or when
      an entry nobody holds moves to a fresh lower-case address; they come
      apart when a held entry moves, or when the new address has a capital
      letter. */
  method UpdateEmail(repo: AuthRepository, id: Id, email: string, role: string) returns (r: Result<Id>)
    requires repo.Valid()
    modifies repo
    ensures repo.Valid()
    ensures id !in old(repo.emails) ==> r == Err(EmailDoesNotExist) && unchanged(repo)
    ensures id in old(repo.emails) && OtherEntryHas(old(repo.emails), id, email) ==>
      r == Err(DuplicateKey) && unchanged(repo)
    ensures id in old(repo.emails) && !OtherEntryHas(old(repo.emails), id, email) ==>
      r == Ok(id) && repo.emails == old(repo.emails)[id := old(repo.emails)[id].(email := email, role := role)]
    ensures id in old(repo.emails) && !OtherEntryHas(old(repo.emails), id, email) ==>
      var holder := old(repo.FindUserByEmail(repo.emails[id].email));
      repo.users == if holder.Err? then old(repo.users)
                    else old(repo.users)[holder.value.id := old(repo.users)[holder.value.id].(role := role)]
    ensures old(repo.Linked()) && (id in old(repo.emails) ==> email == old(repo.emails)[id].email) ==>
      repo.Linked()
    ensures (old(repo.Linked()) && id in old(repo.emails) && !OtherEntryHas(old(repo.emails), id, email)
             && old(repo.emails)[id].hasUser && email != old(repo.emails)[id].email) ==>
      !repo.Linked()
    ensures (old(repo.Linked()) && id in old(repo.emails) && !OtherEntryHas(old(repo.emails), id, email)
             && !old(repo.emails)[id].hasUser && IsLower(email)) ==>
      repo.Linked()
    ensures (id in old(repo.emails) && !OtherEntryHas(old(repo.emails), id, email) && !IsLower(email)) ==>
      !repo.Linked()
  {
    var entry := repo.FindEmailById(id);
    if entry.Err? {
      return Err(EmailDoesNotExist);
    }
    ghost var emails0, users0 := repo.emails, repo.users;
    var updated := repo.UpdateEmail(id, email, role);
    if updated.Err? {
      return Err(updated.error);
    }
    var holder := repo.FindUserByEmail(entry.value.email);
    if holder.Ok? {
      var _ := repo.UpdateUserRole(holder.value.id, role);
    }
    r := Ok(entry.value.id);
    if LinkedTables(emails0, users0) {
      var doc := emails0[id].(email := email, role := role);
      if email == emails0[id].email {
        EntryUpdateKeepsLinked(emails0, users0, id, doc);
        if holder.Ok? {
          UserFieldUpdateKeepsLinked(repo.emails, users0, holder.value.id, users0[holder.value.id].(role := role));
        }
      } else if emails0[id].hasUser {
        RenamingHeldEntryUnlinks(emails0, users0, id, doc);
        if holder.Ok? {
          assert !LinkedTables(repo.emails, users0);
          RoleChangeKeepsUnlinked(repo.emails, users0, holder.value.id, role);
        }
      } else if IsLower(email) {
        RenamingFreeEntryKeepsLinked(emails0, users0, id, doc);
        if holder.Ok? {
          RoleChangeKeepsUnlinked(repo.emails, users0, holder.value.id, role);
        }
      }
    }
    assert repo.emails[id].email == email;
  }

  /** Changing a user's role neither links nor unlinks the tables. */
  lemma {:induction false} RoleChangeKeepsUnlinked(emails: map<Id, EmailDoc>, users: map<Id, UserDoc>, u: Id, role: string)
    requires u in users
    ensures LinkedTables(emails, users[u := users[u].(role := role)]) <==> LinkedTables(emails, users)
  {
    var users' := users[u := users[u].(role := role)];
    if LinkedTables(emails, users) {
      UserFieldUpdateKeepsLinked(emails, users, u, users'[u]);
    }
    if LinkedTables(emails, users') {
      UserFieldUpdateKeepsLinked(emails, users', u, users[u]);
      assert users'[u := users[u]] == users;
    }
  }

  /** Deletes an entry, then the user holding its address. */
  method DeleteEmail(repo: AuthRepository, id: Id) returns (r: Result<Id>)
    requires repo.Valid()
    modifies repo
    ensures repo.Valid()
    ensures id !in old(repo.emails) ==> r == Err(EmailDoesNotExist) && unchanged(repo)
    ensures id in old(repo.emails) ==> r == Ok(id) && repo.emails == old(repo.emails) - {id}
    ensures id in old(repo.emails) ==>
      var holder := old(repo.FindUserByEmail(repo.emails[id].email));
      repo.users == if holder.Err? then old(repo.users) else old(repo.users) - {holder.value.id}
    ensures old(repo.Linked()) ==> repo.Linked()
  {
    var entry := repo.FindEmailById(id);
    if entry.Err? {
      return Err(EmailDoesNotExist);
    }
    ghost var emails0, users0 := repo.emails, repo.users;
    var deleted := repo.DeleteEmail(id);
    var holder := repo.FindUserByEmail(entry.value.email);
    if holder.Ok? {
      var _ := repo.DeleteUser(holder.value.id);
    }
    r := Ok(deleted);
    if LinkedTables(emails0, users0) {
      LowerOfLower(emails0[id].email);
      if holder.Ok? {
        DeleteEntryAndUserKeepsLinked(emails0, users0, id, holder.value.id);
      } else {
        DeleteEntryKeepsLinked(emails0, users0, id);
      }
    }
  }

  /** Lists every entry once, by address ascending; an empty list is
      reported instead of listed. */
  function GetAllEmails(repo: AuthRepository): (r: Result<seq<Email>>)
    reads repo`emails, repo`nextId
    requires repo.EmailsValid()
    ensures r.Err? <==> repo.emails == map[]
    ensures r.Err? ==> r.error == NoEmailsFound
    ensures r.Ok? ==> SortedAsc(r.value, EmailKey) && Distinct(r.value)
    ensures r.Ok? ==> forall e :: e in r.value <==> e.id in repo.emails && e == EmailOf(e.id, repo.emails[e.id])
  {
    var emails := repo.GetAllEmails();
    if |emails| == 0 then Err(NoEmailsFound) else Ok(emails)
  }
}
