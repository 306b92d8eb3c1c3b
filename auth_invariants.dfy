/** How each change the use cases make to the two tables keeps them linked:
    an allow-list entry's `hasUser` flag tells whether a user holds its
    address, and every user's address is on the allow-list. */
module AuthInvariants {
  import opened Strings
  import opened Tables
  import opened AuthModels
  import opened AuthRepo

  /** Adding a fresh lower-case entry without a user (add email). */
  lemma {:induction false} AddEntryKeepsLinked(emails: map<Id, EmailDoc>, users: map<Id, UserDoc>, k: Id, doc: EmailDoc)
    requires LinkedTables(emails, users)
    requires k !in emails && !HasEntryFor(emails, doc.email)
    requires IsLower(doc.email) && !doc.hasUser
    ensures LinkedTables(emails[k := doc], users)
  {
    var emails' := emails[k := doc];
    forall u | u in users ensures users[u].email != doc.email {
      assert HasEntryFor(emails, users[u].email);
    }
    forall u | u in users ensures HasEntryFor(emails', users[u].email) {
      var j :| j in emails && emails[j].email == users[u].email;
      assert emails'[j] == emails[j];
    }
  }

  /** Adding a user for an allowed, unused address and setting that entry's
      flag (register). */
  lemma {:induction false} RegisterKeepsLinked(emails: map<Id, EmailDoc>, users: map<Id, UserDoc>, e: Id, u: Id, doc: UserDoc)
    requires LinkedTables(emails, users) && UniqueEntries(emails)
    requires e in emails && emails[e].email == doc.email
    requires u !in users && !HasUserFor(users, doc.email)
    ensures LinkedTables(emails[e := emails[e].(hasUser := true)], users[u := doc])
  {
    var emails' := emails[e := emails[e].(hasUser := true)];
    var users' := users[u := doc];
    forall k | k in emails' ensures emails'[k].hasUser <==> HasUserFor(users', emails'[k].email) {
      if k == e {
        assert users'[u].email == doc.email;
      } else {
        assert emails[k].email != doc.email;
        if HasUserFor(users', emails[k].email) {
          var j :| j in users' && users'[j].email == emails[k].email;
          assert j != u && j in users;
        }
        if HasUserFor(users, emails[k].email) {
          var j :| j in users && users[j].email == emails[k].email;
          assert j in users';
        }
      }
    }
    forall j | j in users' ensures HasEntryFor(emails', users'[j].email) {
      if j == u {
        assert emails'[e].email == doc.email;
      } else {
        var i :| i in emails && emails[i].email == users[j].email;
        assert emails'[i].email == emails[i].email;
      }
    }
  }

  /** Overwriting a user's fields other than the address (name, password,
      role, confirmation). */
  lemma {:induction false} UserFieldUpdateKeepsLinked(emails: map<Id, EmailDoc>, users: map<Id, UserDoc>, id: Id, doc: UserDoc)
    requires LinkedTables(emails, users)
    requires id in users && doc.email == users[id].email
    ensures LinkedTables(emails, users[id := doc])
  {
    var users' := users[id := doc];
    forall a ensures HasUserFor(users', a) <==> HasUserFor(users, a) {
      if HasUserFor(users', a) {
        var j :| j in users' && users'[j].email == a;
        assert users[j].email == a;
      }
      if HasUserFor(users, a) {
        var j :| j in users && users[j].email == a;
        assert users'[j].email == a;
      }
    }
  }

  /** Overwriting an entry's role, keeping its address and flag (update
      user role, update email to the same address). */
  lemma {:induction false} EntryUpdateKeepsLinked(emails: map<Id, EmailDoc>, users: map<Id, UserDoc>, id: Id, doc: EmailDoc)
    requires LinkedTables(emails, users)
    requires id in emails && doc.email == emails[id].email && doc.hasUser == emails[id].hasUser
    ensures LinkedTables(emails[id := doc], users)
  {
    var emails' := emails[id := doc];
    forall u | u in users ensures HasEntryFor(emails', users[u].email) {
      var j :| j in emails && emails[j].email == users[u].email;
      assert emails'[j].email == emails[j].email;
    }
  }

  /** Removing a user and clearing the flag of its entry (delete user). */
  lemma {:induction false} DeleteUserKeepsLinked(emails: map<Id, EmailDoc>, users: map<Id, UserDoc>, u: Id, e: Id)
    requires LinkedTables(emails, users) && UniqueEntries(emails) && UniqueUsers(users)
    requires u in users && e in emails && emails[e].email == users[u].email
    ensures LinkedTables(emails[e := emails[e].(hasUser := false)], users - {u})
  {
    var emails' := emails[e := emails[e].(hasUser := false)];
    var users' := users - {u};
    forall k | k in emails' ensures emails'[k].hasUser <==> HasUserFor(users', emails'[k].email) {
      if k == e {
        forall j | j in users' ensures users'[j].email != emails[e].email {
          assert j != u;
        }
      } else {
        assert emails[k].email != users[u].email;
        if HasUserFor(users, emails[k].email) {
          var j :| j in users && users[j].email == emails[k].email;
          assert j in users';
        }
      }
    }
    forall j | j in users' ensures HasEntryFor(emails', users'[j].email) {
      var i :| i in emails && emails[i].email == users[j].email;
      assert emails'[i].email == emails[i].email;
    }
  }

  /** Removing an entry that no user holds (delete email). */
  lemma {:induction false} DeleteEntryKeepsLinked(emails: map<Id, EmailDoc>, users: map<Id, UserDoc>, e: Id)
    requires LinkedTables(emails, users)
    requires e in emails && !HasUserFor(users, emails[e].email)
    ensures LinkedTables(emails - {e}, users)
  {
    var emails' := emails - {e};
    forall u | u in users ensures HasEntryFor(emails', users[u].email) {
      var j :| j in emails && emails[j].email == users[u].email;
      assert j != e;
      assert j in emails';
    }
  }

  /** Removing an entry together with the user holding its address (delete
      email). */
  lemma {:induction false} DeleteEntryAndUserKeepsLinked(emails: map<Id, EmailDoc>, users: map<Id, UserDoc>, e: Id, u: Id)
    requires LinkedTables(emails, users) && UniqueEntries(emails) && UniqueUsers(users)
    requires e in emails && u in users && users[u].email == emails[e].email
    ensures LinkedTables(emails - {e}, users - {u})
  {
    var emails' := emails - {e};
    var users' := users - {u};
    forall k | k in emails' ensures emails'[k].hasUser <==> HasUserFor(users', emails'[k].email) {
      assert emails[k].email != emails[e].email;
      if HasUserFor(users', emails[k].email) {
        var j :| j in users' && users'[j].email == emails[k].email;
        assert j in users;
      }
      if HasUserFor(users, emails[k].email) {
        var j :| j in users && users[j].email == emails[k].email;
        assert j != u;
        assert j in users';
      }
    }
    forall j | j in users' ensures HasEntryFor(emails', users'[j].email) {
      var i :| i in emails && emails[i].email == users[j].email;
      assert users[j].email != users[u].email;
      assert i != e;
      assert i in emails';
    }
  }

  /** Moving an entry that a user holds to another address leaves that user
      without an allowed address (update email). */
  lemma {:induction false} RenamingHeldEntryUnlinks(emails: map<Id, EmailDoc>, users: map<Id, UserDoc>, e: Id, doc: EmailDoc)
    requires LinkedTables(emails, users) && UniqueEntries(emails)
    requires e in emails && emails[e].hasUser && doc.email != emails[e].email
    ensures !LinkedTables(emails[e := doc], users)
  {
    var u :| u in users && users[u].email == emails[e].email;
    var emails' := emails[e := doc];
    forall i | i in emails' ensures emails'[i].email != users[u].email {
      if i != e {
        assert emails[i].email != emails[e].email;
      }
    }
  }

  /** Moving an entry that no user holds to a lower-case address that no
      other entry has keeps the tables linked (update email). */
  lemma {:induction false} RenamingFreeEntryKeepsLinked(emails: map<Id, EmailDoc>, users: map<Id, UserDoc>, e: Id, doc: EmailDoc)
    requires LinkedTables(emails, users)
    requires e in emails && !emails[e].hasUser
    requires IsLower(doc.email) && !doc.hasUser && !OtherEntryHas(emails, e, doc.email)
    ensures LinkedTables(emails[e := doc], users)
  {
    var emails' := emails[e := doc];
    forall u | u in users ensures users[u].email != doc.email && HasEntryFor(emails', users[u].email) {
      assert users[u].email != emails[e].email;
      var j :| j in emails && emails[j].email == users[u].email;
      assert j != e;
      assert emails'[j] == emails[j];
    }
  }
}
