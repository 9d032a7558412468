/**
 * The admin's record screens: news items, employees and cases, each created
 * by a form post and deleted by id.  Deleting never looks at rows that
 * refer to the deleted one.
 */
module Records {
  import opened Wrappers
  import opened Sql
  import opened Tables
  import opened Forms
  import opened Schema
  import opened Sessions
  import opened Http

  /** POST /admin/news: title, content and date are all required. */
  function AddNews(db: Db, s: Session, form: Form): (r: Response)
    ensures !s.admin ==> r == Response(db, s, RedirectLogin(AdminArea))
    ensures r.session == s
    ensures r.outcome == Success <==> s.admin && "title" in form && "content" in form && "date" in form
    ensures s.admin && r.outcome != Success ==> r == Response(db, s, BadRequest)
    ensures r.outcome == Success ==>
      && r.db == db.(news := r.db.news)
      && Appended(db.news, r.db.news, News(form["title"], form["content"], form["date"]))
    ensures Valid(db) ==> Valid(r.db)
  {
    if !s.admin then Response(db, s, RedirectLogin(AdminArea))
    else if "title" !in form || "content" !in form || "date" !in form then Response(db, s, BadRequest)
    else Response(db.(news := db.news.Insert(News(form["title"], form["content"], form["date"]))), s, Success)
  }

  /** GET /admin/news/delete/<id>. */
  function DeleteNews(db: Db, s: Session, id: nat): (r: Response)
    ensures !s.admin ==> r == Response(db, s, RedirectLogin(AdminArea))
    ensures s.admin && !Bindable(id) ==> r == Response(db, s, ServerError)
    ensures s.admin && Bindable(id) ==> r.session == s && r.outcome == Success
    ensures s.admin && Bindable(id) ==> r.db == db.(news := r.db.news) && Removed(db.news, r.db.news, id)
    ensures Valid(db) ==> Valid(r.db)
  {
    if !s.admin then Response(db, s, RedirectLogin(AdminArea))
    else if !Bindable(id) then Response(db, s, ServerError)
    else Response(db.(news := db.news.Delete(id)), s, Success)
  }

  /** `e` is the employee the form describes; the department is empty when absent. */
  predicate Hired(e: Employee, form: Form) {
    && "full_name" in form && e.fullName == form["full_name"]
    && "position" in form && e.position == form["position"]
    && e.department == (if "department" in form then form["department"] else "")
  }

  /** POST /admin/employees: full name and position are required. */
  function AddEmployee(db: Db, s: Session, form: Form): (r: Response)
    ensures !s.admin ==> r == Response(db, s, RedirectLogin(AdminArea))
    ensures r.session == s
    ensures r.outcome == Success <==> s.admin && "full_name" in form && "position" in form
    ensures s.admin && r.outcome != Success ==> r == Response(db, s, BadRequest)
    ensures r.outcome == Success ==>
      && r.db == db.(employees := r.db.employees)
      && db.employees.next in r.db.employees.rows
      && Appended(db.employees, r.db.employees, r.db.employees.rows[db.employees.next])
      && Hired(r.db.employees.rows[db.employees.next], form)
    ensures Valid(db) ==> Valid(r.db)
  {
    if !s.admin then Response(db, s, RedirectLogin(AdminArea))
    else if "full_name" !in form || "position" !in form then Response(db, s, BadRequest)
    else
      var e := Employee(form["full_name"], form["position"], FieldOr(form, "department", ""));
      Response(db.(employees := db.employees.Insert(e)), s, Success)
  }

  /** GET /admin/employees/<id>/delete: cases assigned to the employee keep the id. */
  function DeleteEmployee(db: Db, s: Session, id: nat): (r: Response)
    ensures !s.admin ==> r == Response(db, s, RedirectLogin(AdminArea))
    ensures s.admin && !Bindable(id) ==> r == Response(db, s, ServerError)
    ensures s.admin && Bindable(id) ==> r.session == s && r.outcome == Success
    ensures s.admin && Bindable(id) ==> r.db == db.(employees := r.db.employees) && Removed(db.employees, r.db.employees, id)
    ensures Valid(db) ==> Valid(r.db)
  {
    if !s.admin then Response(db, s, RedirectLogin(AdminArea))
    else if !Bindable(id) then Response(db, s, ServerError)
    else Response(db.(employees := db.employees.Delete(id)), s, Success)
  }

  /**
   * `c` is the case the form describes: description and number empty when
   * absent, status "open" when absent (a submitted empty status stays
   * empty), and no assignee when `assigned_to` is absent or empty.
   */
  predicate Filed(c: Case, form: Form) {
    && "title" in form && c.title == form["title"]
    && c.description == (if "description" in form then form["description"] else "")
    && c.caseNumber == (if "case_number" in form then form["case_number"] else "")
    && c.status == (if "status" in form then form["status"] else Open)
    && (if "assigned_to" in form && form["assigned_to"] != ""
        then c.assignedTo == Some(IntegerAffinity(form["assigned_to"]))
        else c.assignedTo == None)
  }

  /** POST /admin/cases: only the title is required. */
  function AddCase(db: Db, s: Session, form: Form): (r: Response)
    ensures !s.admin ==> r == Response(db, s, RedirectLogin(AdminArea))
    ensures r.session == s
    ensures r.outcome == Success <==> s.admin && "title" in form
    ensures s.admin && r.outcome != Success ==> r == Response(db, s, BadRequest)
    ensures r.outcome == Success ==>
      && r.db == db.(cases := r.db.cases)
      && db.cases.next in r.db.cases.rows
      && Appended(db.cases, r.db.cases, r.db.cases.rows[db.cases.next])
      && Filed(r.db.cases.rows[db.cases.next], form)
    ensures Valid(db) ==> Valid(r.db)
  {
    if !s.admin then Response(db, s, RedirectLogin(AdminArea))
    else if "title" !in form then Response(db, s, BadRequest)
    else
      var assignee := match NonEmptyField(form, "assigned_to")
        case Some(v) => Some(IntegerAffinity(v))
        case None => None;
      var c := Case(form["title"], FieldOr(form, "description", ""), FieldOr(form, "case_number", ""),
                    assignee, FieldOr(form, "status", Open));
      Response(db.(cases := db.cases.Insert(c)), s, Success)
  }

  /** GET /admin/cases/<id>/delete: protocols about the case keep the id. */
  function DeleteCase(db: Db, s: Session, id: nat): (r: Response)
    ensures !s.admin ==> r == Response(db, s, RedirectLogin(AdminArea))
    ensures s.admin && !Bindable(id) ==> r == Response(db, s, ServerError)
    ensures s.admin && Bindable(id) ==> r.session == s && r.outcome == Success
    ensures s.admin && Bindable(id) ==> r.db == db.(cases := r.db.cases) && Removed(db.cases, r.db.cases, id)
    ensures Valid(db) ==> Valid(r.db)
  {
    if !s.admin then Response(db, s, RedirectLogin(AdminArea))
    else if !Bindable(id) then Response(db, s, ServerError)
    else Response(db.(cases := db.cases.Delete(id)), s, Success)
  }
}
