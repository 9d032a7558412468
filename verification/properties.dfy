/**
 * Properties that relate several requests: idempotence and last-one-wins of
 * the moderation actions, the registration/approval scenario, what a
 * protocol's author may depend on, sequential deletes, and the references
 * deletion leaves dangling.
 */
module Properties {
  import opened Wrappers
  import opened Sql
  import opened Tables
  import opened Forms
  import opened Schema
  import opened Sessions
  import opened Http
  import opened Accounts
  import opened Protocols
  import opened Records

  // ---- Startup ----

  /**
   * A fresh install: the seeded database is well formed, holds exactly the
   * default admin under rowid 1, and that admin can sign in.
   */
  lemma FreshInstall()
    ensures Valid(SeedAdmin(Empty))
    ensures SeedAdmin(Empty).admins.rows == map[1 := DefaultAdmin]
    ensures AdminLogin(SeedAdmin(Empty), Anonymous, map["username" := "admin", "password" := "admin123"]).outcome == Success
  {
    assert SeedAdmin(Empty).admins.rows[1] == DefaultAdmin;
  }

  // ---- Approval ----

  lemma ApproveIdempotent(db: Db, s: Session, id: nat)
    ensures ApproveUser(ApproveUser(db, s, id).db, s, id) == ApproveUser(db, s, id)
  {
  }

  lemma RejectIdempotent(db: Db, s: Session, id: nat)
    ensures RejectUser(RejectUser(db, s, id).db, s, id) == RejectUser(db, s, id)
  {
  }

  /** Whatever was decided before, the last decision is the one that stands. */
  lemma LastDecisionWins(db: Db, s: Session, id: nat)
    ensures RejectUser(ApproveUser(db, s, id).db, s, id).db == RejectUser(db, s, id).db
    ensures ApproveUser(RejectUser(db, s, id).db, s, id).db == ApproveUser(db, s, id).db
  {
  }

  // ---- Registration and login ----

  /** Submitting the same registration twice: the second one is reported as a duplicate. */
  lemma RegisterTwice(db: Db, s: Session, form: Form)
    requires Register(db, s, form).outcome == Success
    ensures var again := Register(Register(db, s, form).db, s, form);
      again.outcome == DuplicateUser && again.db == Register(db, s, form).db
  {
    var r := Register(db, s, form);
    assert r.db.users.rows[db.users.next].username == form["username"];
  }

  /** An account whose every matching row is not approved never gets a session identity. */
  lemma UnapprovedNeverSignsIn(db: Db, s: Session, form: Form)
    requires "username" in form && "password" in form
    requires forall id :: Matches(db.users.rows, id, form["username"], form["password"]) ==>
      db.users.rows[id].status != Approved
    ensures UserLogin(db, s, form).session == s
    ensures UserLogin(db, s, form).outcome in {NotApproved, AccountRejected, BadCredentials}
  {
  }

  /** Signing out after a successful login leaves the same session as signing out before it. */
  lemma LogoutUndoesLogin(db: Db, s: Session, form: Form)
    requires UserLogin(db, s, form).outcome == Success
    ensures UserLogout(db, UserLogin(db, s, form).session).session == UserLogout(db, s).session
  {
  }

  const IvanovForm: Form := map["full_name" := "Ivan Ivanov", "username" := "ivanov", "password" := "pw1"]
  const IvanovLogin: Form := map["username" := "ivanov", "password" := "pw1"]

  /**
   * Register "ivanov"/"pw1": the account is pending and its login is refused
   * as not approved.  After an admin approves it the same login succeeds and
   * the session carries the new account's id.
   */
  lemma {:induction false} RegistrationScenario(db: Db, browser: Session, admin: Session)
    requires Valid(db) && admin.admin
    requires !UsernameTaken(db.users.rows, "ivanov") && Bindable(db.users.next)
    ensures var id := db.users.next;
      var registered := Register(db, browser, IvanovForm);
      var early := UserLogin(registered.db, browser, IvanovLogin);
      var approved := ApproveUser(registered.db, admin, id);
      var later := UserLogin(approved.db, browser, IvanovLogin);
      && registered.outcome == Success
      && registered.db.users.rows[id].status == Pending
      && early.outcome == NotApproved && early.session == browser
      && approved.outcome == Success
      && later.outcome == Success && later.session.userId == Some(id)
  {
    var id := db.users.next;
    var registered := Register(db, browser, IvanovForm);
    assert Matches(registered.db.users.rows, id, "ivanov", "pw1");
    assert AccountWith(registered.db.users.rows, "ivanov", "pw1", Pending);
    var approved := ApproveUser(registered.db, admin, id);
    assert Matches(approved.db.users.rows, id, "ivanov", "pw1");
    assert AccountWith(approved.db.users.rows, "ivanov", "pw1", Approved);
    var later := UserLogin(approved.db, browser, IvanovLogin);
    assert Matches(approved.db.users.rows, later.session.userId.value, "ivanov", "pw1");
  }

  // ---- Protocols ----

  /** The two forms agree on whether field `name` is present and on its value. */
  predicate Agree(f1: Form, f2: Form, name: string) {
    (name in f1 <==> name in f2) && (name in f1 ==> f1[name] == f2[name])
  }

  /** Only four form fields influence protocol creation; any other field, `user_id` included, is ignored. */
  lemma ProtocolDependsOnFourFields(db: Db, s: Session, f1: Form, f2: Form)
    requires Agree(f1, f2, "case_id") && Agree(f1, f2, "title") && Agree(f1, f2, "content")
    requires Agree(f1, f2, "protocol_number")
    ensures CreateProtocol(db, s, f1) == CreateProtocol(db, s, f2)
  {
  }

  /** A form cannot name the author: a submitted `user_id` changes nothing. */
  lemma AuthorNotSpoofable(db: Db, s: Session, form: Form, claimed: string)
    ensures CreateProtocol(db, s, form["user_id" := claimed]) == CreateProtocol(db, s, form)
  {
    ProtocolDependsOnFourFields(db, s, form["user_id" := claimed], form);
  }

  /** Deleting the same protocol twice: the second attempt finds nothing and changes nothing. */
  lemma SecondDeleteFails(db: Db, s: Session, id: nat)
    requires DeleteProtocol(db, s, id).outcome == Success
    ensures var first := DeleteProtocol(db, s, id);
      DeleteProtocol(first.db, s, id) == Response(first.db, s, NotFoundOrForbidden)
  {
  }

  /**
   * Two delete requests for one protocol, by any two signed-in users, the
   * second sent after the first has finished: the owner's succeeds and the
   * other is refused.
   */
  lemma SequentialDeletes(db: Db, s1: Session, s2: Session, id: nat)
    requires Owns(db, s1, id) && SignedIn(s2)
    requires Bindable(id) && Bindable(s1.userId.value) && Bindable(s2.userId.value)
    ensures var first := DeleteProtocol(db, s1, id);
      && first.outcome == Success
      && DeleteProtocol(first.db, s2, id).outcome == NotFoundOrForbidden
  {
  }

  /** Another user can neither see nor delete a protocol, even by typing its id. */
  lemma OthersCannotTouch(db: Db, owner: Session, other: Session, id: nat)
    requires Owns(db, owner, id) && SignedIn(other) && other.userId != owner.userId
    ensures DeleteProtocol(db, other, id).db == db
    ensures DeleteProtocol(db, other, id).outcome in {NotFoundOrForbidden, ServerError}
    ensures ViewProtocol(db, other, id).outcome in {NotFound, ServerError}
    ensures Bindable(id) && Bindable(other.userId.value) ==>
      && DeleteProtocol(db, other, id) == Response(db, other, NotFoundOrForbidden)
      && ViewProtocol(db, other, id).outcome == NotFound
  {
  }

  /** Whatever a user may view, the same user may delete. */
  lemma ViewableIsDeletable(db: Db, s: Session, id: nat)
    requires ViewProtocol(db, s, id).outcome.Shown?
    ensures DeleteProtocol(db, s, id).outcome == Success
  {
  }

  /**
   * After its case is deleted, a protocol disappears from its author's view
   * (the view joins `cases`) yet its author can still delete it.
   */
  lemma OrphanedProtocol(db: Db, owner: Session, admin: Session, id: nat, caseId: nat)
    requires Owns(db, owner, id) && admin.admin
    requires db.protocols.rows[id].caseId == Integer(caseId)
    requires Bindable(id) && Bindable(caseId) && Bindable(owner.userId.value)
    ensures var after := DeleteCase(db, admin, caseId).db;
      && ViewProtocol(after, owner, id).outcome == NotFound
      && DeleteProtocol(after, owner, id).outcome == Success
  {
  }

  /**
   * The session is never checked against `users` again: once signed in, a
   * user whose account is rejected or deleted can still write protocols.
   */
  lemma SessionOutlivesAccount(db: Db, admin: Session, s: Session, uid: nat, form: Form)
    requires admin.admin && SignedIn(s) && s.userId == Some(uid) && Bindable(uid)
    requires "case_id" in form && "title" in form && "content" in form
    ensures CreateProtocol(RejectUser(db, admin, uid).db, s, form).outcome == Success
    ensures CreateProtocol(DeleteUser(db, admin, uid).db, s, form).outcome == Success
  {
  }

  // ---- Deletion leaves references dangling ----

  /** Cases assigned to a deleted employee keep pointing at the vanished row. */
  lemma DeletedEmployeeStaysAssigned(db: Db, admin: Session, employee: nat, caseId: int)
    requires admin.admin && caseId in db.cases.rows
    requires db.cases.rows[caseId].assignedTo == Some(Integer(employee))
    ensures var after := DeleteEmployee(db, admin, employee).db;
      && (Bindable(employee) ==> employee !in after.employees.rows)
      && caseId in after.cases.rows && after.cases.rows[caseId] == db.cases.rows[caseId]
  {
  }

  /** Protocols about a deleted case keep pointing at the vanished row. */
  lemma DeletedCaseKeepsProtocols(db: Db, admin: Session, caseId: nat)
    requires admin.admin
    ensures var after := DeleteCase(db, admin, caseId).db;
      && (Bindable(caseId) ==> caseId !in after.cases.rows)
      && after.protocols == db.protocols
  {
  }

  /** Protocols written by a deleted user keep pointing at the vanished row. */
  lemma DeletedUserKeepsProtocols(db: Db, admin: Session, uid: nat)
    requires admin.admin
    ensures var after := DeleteUser(db, admin, uid).db;
      && (Bindable(uid) ==> uid !in after.users.rows)
      && after.protocols == db.protocols
  {
  }

  // ---- Cases ----

  /** A case filed with only a title and a number: no assignee, empty description, status "open". */
  lemma UnassignedCase(db: Db, admin: Session)
    requires admin.admin
    ensures var r := AddCase(db, admin, map["title" := "Theft #12", "case_number" := "12-2024"]);
      && r.outcome == Success
      && r.db.cases.rows[db.cases.next] == Case("Theft #12", "", "12-2024", None, Open)
  {
  }

  /** Only an absent `status` field defaults to "open"; a submitted empty status is stored empty. */
  lemma EmptyStatusIsKept(db: Db, admin: Session)
    requires admin.admin
    ensures var r := AddCase(db, admin, map["title" := "t", "status" := ""]);
      r.outcome == Success && r.db.cases.rows[db.cases.next].status == ""
  {
  }
}
