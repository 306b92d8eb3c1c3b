/** The auth store: the allow-list and the users collection, with the CRUD,
    find and listing operations the use cases build on. */
module AuthRepo {
  import opened Wrappers
  import opened Strings
  import opened Sequences
  import opened Tables
  import opened AuthModels

  const EmailNotFound := "Email not found"
  const UserNotFound := "User not found"

  ghost predicate HasEntryFor(emails: map<Id, EmailDoc>, addr: string)
  {
    exists k :: k in emails && emails[k].email == addr
  }

  ghost predicate HasUserFor(users: map<Id, UserDoc>, addr: string)
  {
    exists k :: k in users && users[k].email == addr
  }

  /** An entry other than `id` already holds `addr`. */
  ghost predicate OtherEntryHas(emails: map<Id, EmailDoc>, id: Id, addr: string)
  {
    exists k :: k in emails && k != id && emails[k].email == addr
  }

  /** The unique index on the allow-list's addresses. */
  ghost predicate UniqueEntries(emails: map<Id, EmailDoc>)
  {
    forall j, k :: j in emails && k in emails && emails[j].email == emails[k].email ==> j == k
  }

  /** The unique index on the users' addresses. */
  ghost predicate UniqueUsers(users: map<Id, UserDoc>)
  {
    forall j, k :: j in users && k in users && users[j].email == users[k].email ==> j == k
  }

  /** The two tables agree: every allow-list address is lower-case, an entry's
      `hasUser` is set exactly when a user has that address, and every user has
      an entry. */
  ghost predicate LinkedTables(emails: map<Id, EmailDoc>, users: map<Id, UserDoc>)
  {
    && (forall k :: k in emails ==> IsLower(emails[k].email))
    && (forall k :: k in emails ==> (emails[k].hasUser <==> HasUserFor(users, emails[k].email)))
    && (forall u :: u in users ==> HasEntryFor(emails, users[u].email))
  }

  function EmailKey(e: Email): string
  {
    e.email
  }

  function UsernameKey(u: User): string
  {
    u.username
  }

  /** One record per stored document, in key order. */
  function EmailRecords(emails: map<Id, EmailDoc>, bound: nat): (r: seq<Email>)
    requires Bounded(emails, bound)
    ensures forall i :: 0 <= i < |r| ==> r[i].id in emails && r[i] == EmailOf(r[i].id, emails[r[i].id])
    ensures forall k :: k in emails ==> EmailOf(k, emails[k]) in r
    ensures Distinct(r)
  {
    var rows := Rows(emails, bound);
    var r := seq(|rows|, i requires 0 <= i < |rows| => EmailOf(rows[i].0, rows[i].1));
    RowsRecords(emails, rows, EmailOf, (x: Email) => x.id, r);
    r
  }

  /** `find().sort({email: 1})` on the allow-list: every entry exactly once,
      by address ascending; empty exactly when the collection is. */
  function EmailListing(emails: map<Id, EmailDoc>, bound: nat): (r: seq<Email>)
    requires Bounded(emails, bound)
    ensures SortedAsc(r, EmailKey)
    ensures forall e :: e in r <==> e.id in emails && e == EmailOf(e.id, emails[e.id])
    ensures Distinct(r)
    ensures r == [] <==> emails == map[]
  {
    var records := EmailRecords(emails, bound);
    var r := SortAsc(records, EmailKey);
    PermutationDistinct(records, r);
    PermutationMembers(records, r);
    assert emails != map[] ==> r != [] by {
      if emails != map[] {
        var k :| k in emails;
        assert EmailOf(k, emails[k]) in records;
      }
    }
    r
  }

  /** One record per stored document, in key order. */
  function UserRecords(users: map<Id, UserDoc>, bound: nat): (r: seq<User>)
    requires Bounded(users, bound)
    ensures forall i :: 0 <= i < |r| ==> r[i].id in users && r[i] == UserOf(r[i].id, users[r[i].id])
    ensures forall k :: k in users ==> UserOf(k, users[k]) in r
    ensures Distinct(r)
  {
    var rows := Rows(users, bound);
    var r := seq(|rows|, i requires 0 <= i < |rows| => UserOf(rows[i].0, rows[i].1));
    RowsRecords(users, rows, UserOf, (x: User) => x.id, r);
    r
  }

  /** `find().sort({username: 1})` on the users: every user exactly once, by
      username ascending; empty exactly when the collection is. */
  function UserListing(users: map<Id, UserDoc>, bound: nat): (r: seq<User>)
    requires Bounded(users, bound)
    ensures SortedAsc(r, UsernameKey)
    ensures forall u :: u in r <==> u.id in users && u == UserOf(u.id, users[u.id])
    ensures Distinct(r)
    ensures r == [] <==> users == map[]
  {
    var records := UserRecords(users, bound);
    var r := SortAsc(records, UsernameKey);
    PermutationDistinct(records, r);
    PermutationMembers(records, r);
    assert users != map[] ==> r != [] by {
      if users != map[] {
        var k :| k in users;
        assert UserOf(k, users[k]) in records;
      }
    }
    r
  }

  /** The in-memory store. Each collection is a map from id to document;
      `nextId` is the source of fresh ids. */
  class AuthRepository {
    var emails: map<Id, EmailDoc>
    var users: map<Id, UserDoc>
    var nextId: Id

    /** The allow-list's unique index holds and no key is above the counter. */
    ghost predicate EmailsValid()
      reads this`emails, this`nextId
    {
      Bounded(emails, nextId) && UniqueEntries(emails)
    }

    /** The users' unique index holds, no key is above the counter, and every
        stored address is lower-case (the schema's `lowercase` option). */
    ghost predicate UsersValid()
      reads this`users, this`nextId
    {
      Bounded(users, nextId) && UniqueUsers(users) && forall k :: k in users ==> IsLower(users[k].email)
    }

    ghost predicate Valid()
      reads this
    {
      EmailsValid() && UsersValid()
    }

    ghost predicate Linked()
      reads this`emails, this`users
    {
      LinkedTables(emails, users)
    }

    constructor ()
      ensures Valid() && Linked()
      ensures emails == map[] && users == map[]
    {
      emails, users, nextId := map[], map[], 0;
    }

    // ---------------------------------------------------------------- emails

    /** `addEmail`: saves the lower-cased address with the role and
        `hasUser` false under a fresh id, unless validation or the unique
        index rejects it. */
    method AddEmail(email: string, role: string) returns (r: Result<Id>)
      requires Valid()
      modifies this`emails, this`nextId
      ensures Valid()
      ensures var addr := Lower(email);
        if addr == "" || role == "" then
          r == Err(EmailValidationFailed) && emails == old(emails)
        else if HasEntryFor(old(emails), addr) then
          r == Err(DuplicateKey) && emails == old(emails)
        else
          r.Ok? && r.value !in old(emails) && r.value !in users
          && emails == old(emails)[r.value := EmailDoc(addr, role, false)]
    {
      var made := NewEmailDoc(Lower(email), role);
      if made.Err? {
        r := Err(made.error);
      } else if Lookup(emails, nextId, (d: EmailDoc) => d.email == made.value.email).Some? {
        r := Err(DuplicateKey);
      } else {
        emails := emails[nextId := made.value];
        r := Ok(nextId);
        nextId := nextId + 1;
      }
    }

    /** `updateEmail`: overwrites the address (as given, not lower-cased) and
        the role of the entry with that id; an absent id changes nothing and
        still answers the id. Only the unique index can reject it. */
    method UpdateEmail(id: Id, email: string, role: string) returns (r: Result<Id>)
      requires Valid()
      modifies this`emails
      ensures Valid()
      ensures id in old(emails) && OtherEntryHas(old(emails), id, email) ==>
        r == Err(DuplicateKey) && emails == old(emails)
      ensures !(id in old(emails) && OtherEntryHas(old(emails), id, email)) ==>
        r == Ok(id) &&
        emails == if id in old(emails) then old(emails)[id := EmailDoc(email, role, old(emails)[id].hasUser)]
                  else old(emails)
    {
      var holder := Lookup(emails, nextId, (d: EmailDoc) => d.email == email);
      if id in emails && holder.Some? && holder.value != id {
        r := Err(DuplicateKey);
      } else {
        if id in emails {
          assert !OtherEntryHas(emails, id, email);
          emails := emails[id := emails[id].(email := email, role := role)];
        }
        r := Ok(id);
      }
    }

    /** `deleteEmail`: removes the entry if present and answers the id. */
    method DeleteEmail(id: Id) returns (r: Id)
      requires Valid()
      modifies this`emails
      ensures Valid()
      ensures r == id && emails == old(emails) - {id}
    {
      emails := emails - {id};
      r := id;
    }

    /** `setEmailHasUser`: overwrites only `hasUser`; an absent id changes
        nothing. */
    method SetEmailHasUser(id: Id, hasUser: bool) returns (r: Id)
      requires Valid()
      modifies this`emails
      ensures Valid()
      ensures r == id
      ensures emails == if id in old(emails) then old(emails)[id := old(emails)[id].(hasUser := hasUser)]
                        else old(emails)
    {
      if id in emails {
        emails := emails[id := emails[id].(hasUser := hasUser)];
      }
      r := id;
    }

    /** `findEmail`: the entry whose address equals the lower-cased argument. */
    function FindEmail(email: string): (r: Result<Email>)
      reads this`emails, this`nextId
      requires EmailsValid()
      ensures r.Ok? <==> HasEntryFor(emails, Lower(email))
      ensures r.Ok? ==> r.value.id in emails && r.value == EmailOf(r.value.id, emails[r.value.id])
                        && r.value.email == Lower(email)
      ensures r.Err? ==> r.error == EmailNotFound
    {
      var addr := Lower(email);
      var found := Lookup(emails, nextId, (d: EmailDoc) => d.email == addr);
      if found.Some? then Ok(EmailOf(found.value, emails[found.value])) else Err(EmailNotFound)
    }

    /** `findEmailById`. */
    function FindEmailById(id: Id): (r: Result<Email>)
      reads this`emails
      ensures r.Ok? <==> id in emails
      ensures r.Ok? ==> r.value == EmailOf(id, emails[id])
      ensures r.Err? ==> r.error == EmailNotFound
    {
      if id in emails then Ok(EmailOf(id, emails[id])) else Err(EmailNotFound)
    }

    /** `getAllEmails`. Its `!_email` guard never fires (an empty array is
        truthy), so an empty allow-list yields an empty list. */
    function GetAllEmails(): (r: seq<Email>)
      reads this`emails, this`nextId
      requires EmailsValid()
      ensures r == EmailListing(emails, nextId)
      ensures SortedAsc(r, EmailKey) && Distinct(r)
      ensures forall e :: e in r <==> e.id in emails && e == EmailOf(e.id, emails[e.id])
    {
      EmailListing(emails, nextId)
    }

    // ----------------------------------------------------------------- users

    /** `addUser`: saves the username, the lower-cased address, the hash, the
        role and `isConfirmed` false under a fresh id and answers that user,
        unless validation or the unique index rejects it. */
    method AddUser(username: string, email: string, passwordHash: string, role: string) returns (r: Result<User>)
      requires Valid()
      modifies this`users, this`nextId
      ensures Valid()
      ensures var addr := Lower(email);
        if username == "" || addr == "" || passwordHash == "" || role == "" then
          r == Err(UserValidationFailed) && users == old(users)
        else if HasUserFor(old(users), addr) then
          r == Err(DuplicateKey) && users == old(users)
        else
          r.Ok? && r.value.id !in old(users) && r.value.id !in emails
          && r.value == User(r.value.id, username, addr, passwordHash, role, false)
          && users == old(users)[r.value.id := UserDoc(username, addr, passwordHash, role, false)]
    {
      LowerIdempotent(email);
      var made := NewUserDoc(username, Lower(email), passwordHash, role);
      if made.Err? {
        r := Err(made.error);
      } else if Lookup(users, nextId, (d: UserDoc) => d.email == made.value.email).Some? {
        r := Err(DuplicateKey);
      } else {
        users := users[nextId := made.value];
        r := Ok(UserOf(nextId, made.value));
        nextId := nextId + 1;
      }
    }

    /** `updateUserName`: overwrites only the username. */
    method UpdateUserName(id: Id, username: string) returns (r: Id)
      requires Valid()
      modifies this`users
      ensures Valid()
      ensures r == id
      ensures users == if id in old(users) then old(users)[id := old(users)[id].(username := username)]
                       else old(users)
    {
      if id in users {
        users := users[id := users[id].(username := username)];
      }
      r := id;
    }

    /** `updateUserPassword`: overwrites only the stored hash. */
    method UpdateUserPassword(id: Id, password: string) returns (r: Id)
      requires Valid()
      modifies this`users
      ensures Valid()
      ensures r == id
      ensures users == if id in old(users) then old(users)[id := old(users)[id].(password := password)]
                       else old(users)
    {
      if id in users {
        users := users[id := users[id].(password := password)];
      }
      r := id;
    }

    /** `updateUserRole`: overwrites only the role. */
    method UpdateUserRole(id: Id, role: string) returns (r: Id)
      requires Valid()
      modifies this`users
      ensures Valid()
      ensures r == id
      ensures users == if id in old(users) then old(users)[id := old(users)[id].(role := role)]
                       else old(users)
    {
      if id in users {
        users := users[id := users[id].(role := role)];
      }
      r := id;
    }

    /** `deleteUser`: removes the user if present and answers the id. */
    method DeleteUser(id: Id) returns (r: Id)
      requires Valid()
      modifies this`users
      ensures Valid()
      ensures r == id && users == old(users) - {id}
    {
      users := users - {id};
      r := id;
    }

    /** `confirmUserRegistration`: sets only `isConfirmed`, to true. */
    method ConfirmUserRegistration(id: Id) returns (r: Id)
      requires Valid()
      modifies this`users
      ensures Valid()
      ensures r == id
      ensures users == if id in old(users) then old(users)[id := old(users)[id].(isConfirmed := true)]
                       else old(users)
    {
      if id in users {
        users := users[id := users[id].(isConfirmed := true)];
      }
      r := id;
    }

    /** `findUserByEmail`: the user whose address equals the lower-cased
        argument. */
    function FindUserByEmail(email: string): (r: Result<User>)
      reads this`users, this`nextId
      requires UsersValid()
      ensures r.Ok? <==> HasUserFor(users, Lower(email))
      ensures r.Ok? ==> r.value.id in users && r.value == UserOf(r.value.id, users[r.value.id])
                        && r.value.email == Lower(email)
      ensures r.Err? ==> r.error == UserNotFound
    {
      var addr := Lower(email);
      var found := Lookup(users, nextId, (d: UserDoc) => d.email == addr);
      if found.Some? then Ok(UserOf(found.value, users[found.value])) else Err(UserNotFound)
    }

    /** `findUserById`. */
    function FindUserById(id: Id): (r: Result<User>)
      reads this`users
      ensures r.Ok? <==> id in users
      ensures r.Ok? ==> r.value == UserOf(id, users[id])
      ensures r.Err? ==> r.error == UserNotFound
    {
      if id in users then Ok(UserOf(id, users[id])) else Err(UserNotFound)
    }

    /** `getAllUsers`; as with `getAllEmails` its guard never fires. */
    function GetAllUsers(): (r: seq<User>)
      reads this`users, this`nextId
      requires UsersValid()
      ensures r == UserListing(users, nextId)
      ensures SortedAsc(r, UsernameKey) && Distinct(r)
      ensures forall u :: u in r <==> u.id in users && u == UserOf(u.id, users[u.id])
    {
      UserListing(users, nextId)
    }
  }
}
