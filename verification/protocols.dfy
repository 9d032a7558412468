/**
 * Protocols (reports users write about cases) and the ownership rule that
 * guards them: a user sees and deletes only the protocols whose `user_id`
 * is the signed-in user's id; an admin deletes any.
 */
module Protocols {
  import opened Wrappers
  import opened Sql
  import opened Tables
  import opened Forms
  import opened Schema
  import opened Sessions
  import opened Http

  /** Protocol `id` exists and the signed-in user wrote it: `WHERE id = ? AND user_id = ?`. */
  predicate Owns(db: Db, s: Session, id: int) {
    SignedIn(s) && id in db.protocols.rows && db.protocols.rows[id].userId == s.userId.value
  }

  /** The protocol's case and author rows both exist, so the inner joins keep it. */
  predicate Joined(db: Db, p: Protocol) {
    p.caseId.Integer? && p.caseId.n in db.cases.rows && p.userId in db.users.rows
  }

  /**
   * `p` is the row the protocol form describes with `author` as its writer:
   * case id, title and content as submitted, the number as submitted or
   * empty when absent.
   */
  predicate Drafted(p: Protocol, form: Form, author: int) {
    && p.userId == author
    && "case_id" in form && p.caseId == IntegerAffinity(form["case_id"])
    && "title" in form && p.title == form["title"]
    && "content" in form && p.content == form["content"]
    && p.protocolNumber == (if "protocol_number" in form then form["protocol_number"] else "")
  }

  /**
   * POST /user/protocols/create.  The author is the session's user, never a
   * form value; the case id is not checked against `cases`.
   */
  function CreateProtocol(db: Db, s: Session, form: Form): (r: Response)
    ensures !SignedIn(s) ==> r == Response(db, s, RedirectLogin(UserArea))
    ensures r.session == s
    ensures r.outcome in {RedirectLogin(UserArea), BadRequest, ServerError, Success}
    ensures r.outcome == BadRequest <==> SignedIn(s) && !("case_id" in form && "title" in form && "content" in form)
    ensures r.outcome == Success <==>
      SignedIn(s) && "case_id" in form && "title" in form && "content" in form && Bindable(s.userId.value)
    ensures r.outcome != Success ==> r.db == db
    ensures r.outcome == Success ==>
      && r.db == db.(protocols := r.db.protocols)
      && db.protocols.next in r.db.protocols.rows
      && Appended(db.protocols, r.db.protocols, r.db.protocols.rows[db.protocols.next])
      && Drafted(r.db.protocols.rows[db.protocols.next], form, s.userId.value)
    ensures Valid(db) ==> Valid(r.db)
  {
    if !SignedIn(s) then Response(db, s, RedirectLogin(UserArea))
    else if "case_id" !in form || "title" !in form || "content" !in form then Response(db, s, BadRequest)
    else if !Bindable(s.userId.value) then Response(db, s, ServerError)
    else
      var p := Protocol(IntegerAffinity(form["case_id"]), s.userId.value, form["title"], form["content"],
                        FieldOr(form, "protocol_number", ""));
      Response(db.(protocols := db.protocols.Insert(p)), s, Success)
  }

  /**
   * GET /user/protocols/<id>.  Shown only to its author, and only while its
   * case and its author's row exist (the query joins both).
   */
  function ViewProtocol(db: Db, s: Session, id: nat): (r: Response)
    ensures r.db == db && r.session == s
    ensures !SignedIn(s) ==> r.outcome == RedirectLogin(UserArea)
    ensures SignedIn(s) && !(Bindable(id) && Bindable(s.userId.value)) ==> r.outcome == ServerError
    ensures SignedIn(s) && Bindable(id) && Bindable(s.userId.value) ==>
      && (r.outcome.Shown? <==> Owns(db, s, id) && Joined(db, db.protocols.rows[id]))
      && (!r.outcome.Shown? ==> r.outcome == NotFound)
    ensures r.outcome.Shown? ==>
      && Owns(db, s, id)
      && var p := db.protocols.rows[id];
      && Joined(db, p)
      && r.outcome.view.protocol == p
      && r.outcome.view.caseTitle == db.cases.rows[p.caseId.n].title
      && r.outcome.view.caseNumber == db.cases.rows[p.caseId.n].caseNumber
      && r.outcome.view.authorName == db.users.rows[p.userId].fullName
  {
    if !SignedIn(s) then Response(db, s, RedirectLogin(UserArea))
    else if !Bindable(id) || !Bindable(s.userId.value) then Response(db, s, ServerError)
    else if Owns(db, s, id) && Joined(db, db.protocols.rows[id]) then
      var p := db.protocols.rows[id];
      var c := db.cases.rows[p.caseId.n];
      Response(db, s, Shown(ProtocolView(p, c.title, c.caseNumber, db.users.rows[p.userId].fullName)))
    else Response(db, s, NotFound)
  }

  /**
   * POST /user/protocols/<id>/delete.  Ownership is checked again here, so a
   * protocol id typed in by another user, or one already deleted, is refused.
   */
  function DeleteProtocol(db: Db, s: Session, id: nat): (r: Response)
    ensures r.session == s
    ensures !SignedIn(s) ==> r == Response(db, s, RedirectLogin(UserArea))
    ensures SignedIn(s) && !(Bindable(id) && Bindable(s.userId.value)) ==> r == Response(db, s, ServerError)
    ensures r.outcome == Success <==> Owns(db, s, id) && Bindable(id) && Bindable(s.userId.value)
    ensures SignedIn(s) && Bindable(id) && Bindable(s.userId.value) && !Owns(db, s, id) ==>
      r == Response(db, s, NotFoundOrForbidden)
    ensures r.outcome == Success ==> r.db == db.(protocols := r.db.protocols) && Removed(db.protocols, r.db.protocols, id)
    ensures Valid(db) ==> Valid(r.db)
  {
    if !SignedIn(s) then Response(db, s, RedirectLogin(UserArea))
    else if !Bindable(id) || !Bindable(s.userId.value) then Response(db, s, ServerError)
    else if Owns(db, s, id) then Response(db.(protocols := db.protocols.Delete(id)), s, Success)
    else Response(db, s, NotFoundOrForbidden)
  }

  /** POST /admin/protocols/<id>/delete: any protocol, no ownership test. */
  function AdminDeleteProtocol(db: Db, s: Session, id: nat): (r: Response)
    ensures !s.admin ==> r == Response(db, s, RedirectLogin(AdminArea))
    ensures s.admin && !Bindable(id) ==> r == Response(db, s, ServerError)
    ensures s.admin && Bindable(id) ==> r.session == s && r.outcome == Success
    ensures s.admin && Bindable(id) ==> r.db == db.(protocols := r.db.protocols) && Removed(db.protocols, r.db.protocols, id)
    ensures Valid(db) ==> Valid(r.db)
  {
    if !s.admin then Response(db, s, RedirectLogin(AdminArea))
    else if !Bindable(id) then Response(db, s, ServerError)
    else Response(db.(protocols := db.protocols.Delete(id)), s, Success)
  }
}
