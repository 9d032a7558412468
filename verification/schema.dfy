/**
 * The six tables of the application's database and the invariants SQLite
 * keeps on them: AUTOINCREMENT rowids and the UNIQUE usernames of `users`
 * and `admins`.  Foreign keys are declared but not enforced (SQLite leaves
 * enforcement off unless a connection asks for it), so references between
 * tables may dangle.  `created_at` timestamps are not modelled.
 */
module Schema {
  import opened Wrappers
  import opened Sql
  import opened Tables

  /** The three statuses the application writes into `users.status`. */
  const Pending: string := "pending"
  const Approved: string := "approved"
  const Rejected: string := "rejected"

  /** The default `cases.status`. */
  const Open: string := "open"

  datatype News = News(title: string, content: string, date: string)

  /** A registration; `status` is free text, since an admin edit may store any value. */
  datatype User = User(
    fullName: string,
    username: string,
    password: string,
    experience: string,
    education: string,
    rank: string,
    status: string)

  datatype Employee = Employee(fullName: string, position: string, department: string)

  /** A case; `assignedTo` is NULL or whatever the form's `assigned_to` became in an INTEGER column. */
  datatype Case = Case(
    title: string,
    description: string,
    caseNumber: string,
    assignedTo: Option<Value>,
    status: string)

  /** A protocol written by user `userId` about the case `caseId` refers to. */
  datatype Protocol = Protocol(
    caseId: Value,
    userId: int,
    title: string,
    content: string,
    protocolNumber: string)

  datatype Admin = Admin(username: string, password: string)

  datatype Db = Db(
    news: Table<News>,
    users: Table<User>,
    employees: Table<Employee>,
    cases: Table<Case>,
    protocols: Table<Protocol>,
    admins: Table<Admin>)

  predicate UniqueUsernames(users: map<int, User>) {
    forall a, b :: a in users && b in users && users[a].username == users[b].username ==> a == b
  }

  predicate UniqueAdminNames(admins: map<int, Admin>) {
    forall a, b :: a in admins && b in admins && admins[a].username == admins[b].username ==> a == b
  }

  /** What the schema guarantees of every database state. */
  predicate Valid(db: Db) {
    && db.news.Valid()
    && db.users.Valid()
    && db.employees.Valid()
    && db.cases.Valid()
    && db.protocols.Valid()
    && db.admins.Valid()
    && UniqueUsernames(db.users.rows)
    && UniqueAdminNames(db.admins.rows)
  }

  /** The credentials seeded into an empty `admins` table at startup. */
  const DefaultAdmin: Admin := Admin("admin", "admin123")

  /** Freshly created tables: no rows, rowids start at 1. */
  const Empty: Db := Db(Table(map[], 1), Table(map[], 1), Table(map[], 1), Table(map[], 1), Table(map[], 1), Table(map[], 1))

  /** Startup seeding: an empty `admins` table receives the default admin; otherwise nothing changes. */
  function SeedAdmin(db: Db): (r: Db)
    ensures r == db.(admins := r.admins)
    ensures db.admins.rows == map[] ==> r.admins.rows.Values == {DefaultAdmin} && |r.admins.rows| == 1
    ensures db.admins.rows == map[] ==> Appended(db.admins, r.admins, DefaultAdmin)
    ensures db.admins.rows != map[] ==> r == db
    ensures Valid(db) ==> Valid(r)
  {
    if |db.admins.rows| == 0 then
      var r := db.(admins := db.admins.Insert(DefaultAdmin));
      assert r.admins.rows == map[db.admins.next := DefaultAdmin];
      r
    else db
  }
}
