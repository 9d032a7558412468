/**
 * The application as a state machine: each request the routes accept is a
 * transition of (database, session), and a run interleaves the requests of
 * many browsers, each with its own session, against one shared database.
 * The lemmas here are about every route at once: the login guards, the
 * schema invariants, and how a session comes to carry a user identity.
 */
module App {
  import opened Wrappers
  import opened Forms
  import opened Schema
  import opened Sessions
  import opened Http
  import Accounts
  import Protocols
  import Records

  /** The state-changing requests, by HTTP method and path. */
  datatype Request =
    | PostRegister(form: Form)                 // POST /register
    | PostUserLogin(form: Form)                // POST /user/login
    | GetUserLogout                            // GET  /user/logout
    | PostAdminLogin(form: Form)               // POST /admin/login
    | GetAdminLogout                           // GET  /admin/logout
    | PostApproveUser(id: nat)                 // POST /admin/users/<id>/approve
    | PostRejectUser(id: nat)                  // POST /admin/users/<id>/reject
    | PostEditUser(id: nat, form: Form)        // POST /admin/users/<id>/edit
    | PostDeleteUser(id: nat)                  // POST /admin/users/<id>/delete
    | PostCreateProtocol(form: Form)           // POST /user/protocols/create
    | GetProtocol(id: nat)                     // GET  /user/protocols/<id>
    | PostDeleteProtocol(id: nat)              // POST /user/protocols/<id>/delete
    | PostAdminDeleteProtocol(id: nat)         // POST /admin/protocols/<id>/delete
    | PostNews(form: Form)                     // POST /admin/news
    | GetDeleteNews(id: nat)                   // GET  /admin/news/delete/<id>
    | PostEmployee(form: Form)                 // POST /admin/employees
    | GetDeleteEmployee(id: nat)               // GET  /admin/employees/<id>/delete
    | PostCase(form: Form)                     // POST /admin/cases
    | GetDeleteCase(id: nat)                   // GET  /admin/cases/<id>/delete

  /** Routes that begin with the admin guard. */
  predicate AdminOnly(req: Request) {
    || req.PostApproveUser? || req.PostRejectUser? || req.PostEditUser? || req.PostDeleteUser?
    || req.PostAdminDeleteProtocol?
    || req.PostNews? || req.GetDeleteNews?
    || req.PostEmployee? || req.GetDeleteEmployee?
    || req.PostCase? || req.GetDeleteCase?
  }

  /** Routes that begin with the user guard. */
  predicate UserOnly(req: Request) {
    req.PostCreateProtocol? || req.GetProtocol? || req.PostDeleteProtocol?
  }

  function Handle(db: Db, s: Session, req: Request): Response
  {
    match req
    case PostRegister(form) => Accounts.Register(db, s, form)
    case PostUserLogin(form) => Accounts.UserLogin(db, s, form)
    case GetUserLogout => Accounts.UserLogout(db, s)
    case PostAdminLogin(form) => Accounts.AdminLogin(db, s, form)
    case GetAdminLogout => Accounts.AdminLogout(db, s)
    case PostApproveUser(id) => Accounts.ApproveUser(db, s, id)
    case PostRejectUser(id) => Accounts.RejectUser(db, s, id)
    case PostEditUser(id, form) => Accounts.EditUser(db, s, id, form)
    case PostDeleteUser(id) => Accounts.DeleteUser(db, s, id)
    case PostCreateProtocol(form) => Protocols.CreateProtocol(db, s, form)
    case GetProtocol(id) => Protocols.ViewProtocol(db, s, id)
    case PostDeleteProtocol(id) => Protocols.DeleteProtocol(db, s, id)
    case PostAdminDeleteProtocol(id) => Protocols.AdminDeleteProtocol(db, s, id)
    case PostNews(form) => Records.AddNews(db, s, form)
    case GetDeleteNews(id) => Records.DeleteNews(db, s, id)
    case PostEmployee(form) => Records.AddEmployee(db, s, form)
    case GetDeleteEmployee(id) => Records.DeleteEmployee(db, s, id)
    case PostCase(form) => Records.AddCase(db, s, form)
    case GetDeleteCase(id) => Records.DeleteCase(db, s, id)
  }

  /** Without the admin flag every admin route redirects to the admin login and changes nothing. */
  lemma AdminGuard(db: Db, s: Session, req: Request)
    requires AdminOnly(req) && !s.admin
    ensures Handle(db, s, req) == Response(db, s, RedirectLogin(AdminArea))
  {
  }

  /** Without a truthy `user_id` every user route redirects to the user login and changes nothing. */
  lemma UserGuard(db: Db, s: Session, req: Request)
    requires UserOnly(req) && !SignedIn(s)
    ensures Handle(db, s, req) == Response(db, s, RedirectLogin(UserArea))
  {
  }

  /** No request breaks the schema's invariants. */
  lemma HandlePreservesValid(db: Db, s: Session, req: Request)
    requires Valid(db)
    ensures Valid(Handle(db, s, req).db)
  {
  }

  /** No request separates `user_id` from `username` in the session. */
  lemma HandleKeepsConsistent(db: Db, s: Session, req: Request)
    requires Consistent(s)
    ensures Consistent(Handle(db, s, req).session)
  {
  }

  /** `req` is a user login that, against `db`, matches row `uid` whose status is "approved". */
  predicate ApprovedLogin(db: Db, req: Request, uid: int) {
    && req.PostUserLogin?
    && "username" in req.form && "password" in req.form
    && Accounts.Matches(db.users.rows, uid, req.form["username"], req.form["password"])
    && db.users.rows[uid].status == Approved
  }

  /**
   * Per request: the session's user is kept, cleared, or set to the row an
   * approved login matched.  Nothing else puts a user id into a session.
   */
  lemma UserIdentitySources(db: Db, s: Session, req: Request)
    ensures var r := Handle(db, s, req);
      || r.session.userId == s.userId
      || r.session.userId == None
      || (r.session.userId.Some? && ApprovedLogin(db, req, r.session.userId.value))
  {
  }

  /** Per request: the admin flag is raised only by an admin login whose credentials match a row. */
  lemma AdminFlagSources(db: Db, s: Session, req: Request)
    ensures var r := Handle(db, s, req);
      r.session.admin && !s.admin ==>
        && req.PostAdminLogin?
        && "username" in req.form && "password" in req.form
        && Accounts.AdminMatches(db.admins.rows, req.form["username"], req.form["password"])
  {
  }

  /** A browser, told apart by the session cookie it sends. */
  type Browser = nat

  /** One request, sent by one browser. */
  datatype Visit = Visit(browser: Browser, req: Request)

  /** The shared database and the session each browser holds; a browser without a cookie is anonymous. */
  datatype World = World(db: Db, sessions: map<Browser, Session>)

  function SessionOf(w: World, b: Browser): Session {
    if b in w.sessions then w.sessions[b] else Anonymous
  }

  /** One visit: the request runs against the shared database with its own browser's session. */
  function Step(w: World, v: Visit): (w': World)
    ensures w'.db == Handle(w.db, SessionOf(w, v.browser), v.req).db
    ensures SessionOf(w', v.browser) == Handle(w.db, SessionOf(w, v.browser), v.req).session
    ensures forall b :: b != v.browser ==> SessionOf(w', b) == SessionOf(w, b)
  {
    var r := Handle(w.db, SessionOf(w, v.browser), v.req);
    World(r.db, w.sessions[v.browser := r.session])
  }

  /** The world after the visits, handled one after another. */
  function Run(w: World, visits: seq<Visit>): World
    decreases |visits|
  {
    if visits == [] then w else Run(Step(w, visits[0]), visits[1..])
  }

  lemma {:induction false} RunPreservesValid(w: World, visits: seq<Visit>)
    requires Valid(w.db)
    ensures Valid(Run(w, visits).db)
    decreases |visits|
  {
    if visits != [] {
      HandlePreservesValid(w.db, SessionOf(w, visits[0].browser), visits[0].req);
      RunPreservesValid(Step(w, visits[0]), visits[1..]);
    }
  }

  /** A browser that sends nothing keeps its session, whatever the other browsers do. */
  lemma {:induction false} SilentBrowserUnchanged(w: World, visits: seq<Visit>, b: Browser)
    requires forall k :: 0 <= k < |visits| ==> visits[k].browser != b
    ensures SessionOf(Run(w, visits), b) == SessionOf(w, b)
    decreases |visits|
  {
    if visits != [] {
      assert visits[0].browser != b;
      SilentBrowserUnchanged(Step(w, visits[0]), visits[1..], b);
    }
  }

  /**
   * If browser `b` carries user `uid` at the end of a run, either it carried
   * it from the start or `b` itself sent, during the run, a login matching
   * row `uid` while that row's status was "approved".  Another browser's
   * login never signs `b` in.
   */
  lemma {:induction false} IdentityFromApprovedLogin(w: World, visits: seq<Visit>, b: Browser, uid: int)
    requires SessionOf(Run(w, visits), b).userId == Some(uid)
    ensures || SessionOf(w, b).userId == Some(uid)
            || exists k ::
                 0 <= k < |visits| && visits[k].browser == b
                 && ApprovedLogin(Run(w, visits[..k]).db, visits[k].req, uid)
    decreases |visits|
  {
    if visits != [] {
      var w1 := Step(w, visits[0]);
      IdentityFromApprovedLogin(w1, visits[1..], b, uid);
      if SessionOf(w1, b).userId == Some(uid) {
        if visits[0].browser == b && SessionOf(w, b).userId != Some(uid) {
          UserIdentitySources(w.db, SessionOf(w, b), visits[0].req);
          assert visits[..0] == [];
          assert ApprovedLogin(Run(w, visits[..0]).db, visits[0].req, uid);
        }
      } else {
        var k :| 0 <= k < |visits| - 1 && visits[1..][k].browser == b
          && ApprovedLogin(Run(w1, visits[1..][..k]).db, visits[1..][k].req, uid);
        assert visits[..k + 1][1..] == visits[1..][..k];
        assert Run(w, visits[..k + 1]) == Run(w1, visits[1..][..k]);
        assert ApprovedLogin(Run(w, visits[..k + 1]).db, visits[k + 1].req, uid);
      }
    }
  }

  /** A browser that starts without a cookie is signed in as `uid` only after its own approved login of `uid`. */
  lemma SignedInOnlyAfterApprovedLogin(db: Db, visits: seq<Visit>, b: Browser, uid: int)
    requires SessionOf(Run(World(db, map[]), visits), b).userId == Some(uid)
    ensures exists k ::
      0 <= k < |visits| && visits[k].browser == b
      && ApprovedLogin(Run(World(db, map[]), visits[..k]).db, visits[k].req, uid)
  {
    IdentityFromApprovedLogin(World(db, map[]), visits, b, uid);
  }
}
