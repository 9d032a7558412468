/**
 * User accounts: registration, the two logins and logouts, and the admin's
 * moderation of registrations (approve, reject, edit, delete).
 */
module Accounts {
  import opened Wrappers
  import opened Sql
  import opened Tables
  import opened Forms
  import opened Schema
  import opened Sessions
  import opened Http

  /** Some row of `users` already has this username (exact, case-sensitive match). */
  predicate UsernameTaken(users: map<int, User>, name: string) {
    exists id :: id in users && users[id].username == name
  }

  /** Some row other than `id` has this username. */
  predicate TakenByOther(users: map<int, User>, id: int, name: string) {
    exists k :: k in users && k != id && users[k].username == name
  }

  /** Row `id` holds exactly these credentials. */
  predicate Matches(users: map<int, User>, id: int, name: string, password: string) {
    id in users && users[id].username == name && users[id].password == password
  }

  /** Some row holds these credentials and has the given status. */
  predicate AccountWith(users: map<int, User>, name: string, password: string, status: string) {
    exists id :: id in users && Matches(users, id, name, password) && users[id].status == status
  }

  /**
   * `u` is the row the account form describes: full name, username and
   * password as submitted, experience, education and rank as submitted or
   * empty when absent, and the given status.
   */
  predicate FromForm(u: User, form: Form, status: string) {
    && "full_name" in form && u.fullName == form["full_name"]
    && "username" in form && u.username == form["username"]
    && "password" in form && u.password == form["password"]
    && u.experience == (if "experience" in form then form["experience"] else "")
    && u.education == (if "education" in form then form["education"] else "")
    && u.rank == (if "rank" in form then form["rank"] else "")
    && u.status == status
  }

  function AccountFields(form: Form, status: string): User
    requires "full_name" in form && "username" in form && "password" in form
  {
    User(form["full_name"], form["username"], form["password"],
         FieldOr(form, "experience", ""), FieldOr(form, "education", ""), FieldOr(form, "rank", ""),
         status)
  }

  /**
   * POST /register.  The username is looked up before the other fields are
   * read, so a taken username is reported even when other fields are missing.
   */
  function Register(db: Db, s: Session, form: Form): (r: Response)
    ensures r.session == s
    ensures r.outcome in {Success, DuplicateUser, BadRequest}
    ensures r.outcome == DuplicateUser <==> "username" in form && UsernameTaken(db.users.rows, form["username"])
    ensures r.outcome == Success <==>
      && "full_name" in form && "username" in form && "password" in form
      && !UsernameTaken(db.users.rows, form["username"])
    ensures r.outcome != Success ==> r.db == db
    ensures r.outcome == Success ==>
      && r.db == db.(users := r.db.users)
      && db.users.next in r.db.users.rows
      && Appended(db.users, r.db.users, r.db.users.rows[db.users.next])
      && FromForm(r.db.users.rows[db.users.next], form, Pending)
    ensures Valid(db) ==> Valid(r.db)
  {
    if "username" !in form then Response(db, s, BadRequest)
    else if UsernameTaken(db.users.rows, form["username"]) then Response(db, s, DuplicateUser)
    else if "full_name" !in form || "password" !in form then Response(db, s, BadRequest)
    else
      var users := db.users.Insert(AccountFields(form, Pending));
      assert UniqueUsernames(db.users.rows) && db.users.Valid() ==> UniqueUsernames(users.rows);
      Response(db.(users := users), s, Success)
  }

  /** SELECT * FROM users WHERE username = ? AND password = ?: the first matching row. */
  function FindAccount(users: Table<User>, name: string, password: string): (r: Option<int>)
    ensures r.Some? ==> Matches(users.rows, r.value, name, password)
    ensures r.None? ==> forall id :: !Matches(users.rows, id, name, password)
    ensures r.Some? && UniqueUsernames(users.rows) ==>
      forall id :: Matches(users.rows, id, name, password) ==> id == r.value
  {
    users.FirstWhere((u: User) => u.username == name && u.password == password)
  }

  /**
   * POST /user/login.  Only an account whose status is exactly "approved"
   * signs in; pending and rejected accounts get their own messages, any other
   * status the same message as wrong credentials.
   */
  function UserLogin(db: Db, s: Session, form: Form): (r: Response)
    ensures r.db == db
    ensures r.outcome in {Success, NotApproved, AccountRejected, BadCredentials, BadRequest}
    ensures r.outcome == BadRequest <==> "username" !in form || "password" !in form
    ensures r.outcome != Success ==> r.session == s
    ensures r.outcome == Success ==>
      && "username" in form && "password" in form
      && r.session.userId.Some?
      && Matches(db.users.rows, r.session.userId.value, form["username"], form["password"])
      && db.users.rows[r.session.userId.value].status == Approved
      && r.session == s.(userId := r.session.userId, username := Some(form["username"]))
    ensures UniqueUsernames(db.users.rows) && "username" in form && "password" in form ==>
      && (r.outcome == Success <==> AccountWith(db.users.rows, form["username"], form["password"], Approved))
      && (r.outcome == NotApproved <==> AccountWith(db.users.rows, form["username"], form["password"], Pending))
      && (r.outcome == AccountRejected <==> AccountWith(db.users.rows, form["username"], form["password"], Rejected))
  {
    if "username" !in form || "password" !in form then Response(db, s, BadRequest)
    else
      match FindAccount(db.users, form["username"], form["password"])
      case None => Response(db, s, BadCredentials)
      case Some(id) =>
        var user := db.users.rows[id];
        if user.status == Pending then Response(db, s, NotApproved)
        else if user.status == Rejected then Response(db, s, AccountRejected)
        else if user.status == Approved then
          Response(db, s.(userId := Some(id), username := Some(user.username)), Success)
        else Response(db, s, BadCredentials)
  }

  /** GET /user/logout: forgets the signed-in user and keeps the admin flag. */
  function UserLogout(db: Db, s: Session): (r: Response)
    ensures r.db == db && r.outcome == Success
    ensures r.session.userId == None && r.session.username == None
    ensures r.session.admin == s.admin
  {
    Response(db, s.(userId := None, username := None), Success)
  }

  /** Some row of `admins` holds exactly these credentials. */
  predicate AdminMatches(admins: map<int, Admin>, name: string, password: string) {
    exists id :: id in admins && admins[id] == Admin(name, password)
  }

  /** POST /admin/login: sets the admin flag, and nothing else, when an admin row matches. */
  function AdminLogin(db: Db, s: Session, form: Form): (r: Response)
    ensures r.db == db
    ensures r.outcome in {Success, BadCredentials, BadRequest}
    ensures r.outcome == BadRequest <==> "username" !in form || "password" !in form
    ensures r.outcome == Success <==>
      "username" in form && "password" in form && AdminMatches(db.admins.rows, form["username"], form["password"])
    ensures r.outcome == Success ==> r.session.admin && r.session.(admin := s.admin) == s
    ensures r.outcome != Success ==> r.session == s
  {
    if "username" !in form || "password" !in form then Response(db, s, BadRequest)
    else if AdminMatches(db.admins.rows, form["username"], form["password"]) then
      Response(db, s.(admin := true), Success)
    else Response(db, s, BadCredentials)
  }

  /** GET /admin/logout: clears the admin flag and keeps the signed-in user. */
  function AdminLogout(db: Db, s: Session): (r: Response)
    ensures r.db == db && r.outcome == Success
    ensures !r.session.admin
    ensures r.session.userId == s.userId && r.session.username == s.username
  {
    Response(db, s.(admin := false), Success)
  }

  /**
   * UPDATE users SET status = ? WHERE id = ?, behind the admin guard.  An id
   * beyond 64 bits cannot be bound as a parameter: the request fails with
   * nothing written.
   */
  function SetStatus(db: Db, s: Session, id: int, status: string): Response
  {
    if !s.admin then Response(db, s, RedirectLogin(AdminArea))
    else if !Bindable(id) then Response(db, s, ServerError)
    else Response(db.(users := db.users.Update(id, (u: User) => u.(status := status))), s, Success)
  }

  /**
   * POST /admin/users/<id>/approve, whatever the account's current status.
   * A missing id changes nothing and is still reported as a success; an id
   * beyond 64 bits fails the request.
   */
  function ApproveUser(db: Db, s: Session, id: nat): (r: Response)
    ensures !s.admin ==> r == Response(db, s, RedirectLogin(AdminArea))
    ensures s.admin && !Bindable(id) ==> r == Response(db, s, ServerError)
    ensures s.admin && Bindable(id) ==> r.session == s && r.outcome == Success
    ensures r.db == db.(users := r.db.users) && ChangedAt(db.users, r.db.users, id)
    ensures s.admin && Bindable(id) && id in db.users.rows ==>
      r.db.users.rows[id] == db.users.rows[id].(status := Approved)
    ensures id !in db.users.rows ==> r.db == db
    ensures Valid(db) ==> Valid(r.db)
  {
    SetStatus(db, s, id, Approved)
  }

  /** POST /admin/users/<id>/reject: the mirror image of ApproveUser. */
  function RejectUser(db: Db, s: Session, id: nat): (r: Response)
    ensures !s.admin ==> r == Response(db, s, RedirectLogin(AdminArea))
    ensures s.admin && !Bindable(id) ==> r == Response(db, s, ServerError)
    ensures s.admin && Bindable(id) ==> r.session == s && r.outcome == Success
    ensures r.db == db.(users := r.db.users) && ChangedAt(db.users, r.db.users, id)
    ensures s.admin && Bindable(id) && id in db.users.rows ==>
      r.db.users.rows[id] == db.users.rows[id].(status := Rejected)
    ensures id !in db.users.rows ==> r.db == db
    ensures Valid(db) ==> Valid(r.db)
  {
    SetStatus(db, s, id, Rejected)
  }

  /**
   * POST /admin/users/<id>/edit: overwrites every column of the row, the
   * status with any submitted text.  Renaming the account to a username
   * another row holds violates the UNIQUE constraint; the database error is
   * not caught and the request fails with nothing written, as it does for
   * an id beyond 64 bits.
   */
  function EditUser(db: Db, s: Session, id: nat, form: Form): (r: Response)
    ensures !s.admin ==> r == Response(db, s, RedirectLogin(AdminArea))
    ensures s.admin ==> r.session == s
    ensures r.outcome in {RedirectLogin(AdminArea), BadRequest, ServerError, Success}
    ensures r.outcome == BadRequest <==>
      s.admin && !("full_name" in form && "username" in form && "password" in form && "status" in form)
    ensures r.outcome == ServerError <==>
      && s.admin && "full_name" in form && "username" in form && "password" in form && "status" in form
      && (!Bindable(id) || (id in db.users.rows && TakenByOther(db.users.rows, id, form["username"])))
    ensures r.outcome != Success ==> r.db == db
    ensures r.outcome == Success ==>
      && r.db == db.(users := r.db.users)
      && ChangedAt(db.users, r.db.users, id)
      && (id in db.users.rows ==> "status" in form && FromForm(r.db.users.rows[id], form, form["status"]))
    ensures Valid(db) ==> Valid(r.db)
  {
    if !s.admin then Response(db, s, RedirectLogin(AdminArea))
    else if !("full_name" in form && "username" in form && "password" in form && "status" in form) then
      Response(db, s, BadRequest)
    else if !Bindable(id) then Response(db, s, ServerError)
    else if id in db.users.rows && TakenByOther(db.users.rows, id, form["username"]) then
      Response(db, s, ServerError)
    else
      var edited := AccountFields(form, form["status"]);
      Response(db.(users := db.users.Update(id, (u: User) => edited)), s, Success)
  }

  /** POST /admin/users/<id>/delete: removes the row only; the user's protocols stay. */
  function DeleteUser(db: Db, s: Session, id: nat): (r: Response)
    ensures !s.admin ==> r == Response(db, s, RedirectLogin(AdminArea))
    ensures s.admin && !Bindable(id) ==> r == Response(db, s, ServerError)
    ensures s.admin && Bindable(id) ==> r.session == s && r.outcome == Success
    ensures s.admin && Bindable(id) ==> r.db == db.(users := r.db.users) && Removed(db.users, r.db.users, id)
    ensures Valid(db) ==> Valid(r.db)
  {
    if !s.admin then Response(db, s, RedirectLogin(AdminArea))
    else if !Bindable(id) then Response(db, s, ServerError)
    else Response(db.(users := db.users.Delete(id)), s, Success)
  }
}
