/**
 * SQLite tables whose key is declared INTEGER PRIMARY KEY AUTOINCREMENT, and
 * the single-row statements the application runs on them: INSERT, DELETE,
 * UPDATE and SELECT, each keyed by rowid or by a column test.
 */
module Tables {
  import opened Wrappers
  import opened Sets

  /** A table: its rows by rowid, and the rowid the next INSERT receives. */
  datatype Table<T(==)> = Table(rows: map<int, T>, next: int) {

    /** AUTOINCREMENT hands out rowids from 1 upward and never reuses one. */
    predicate Valid() {
      && next >= 1
      && forall id :: id in rows ==> 1 <= id < next
    }

    /** INSERT: the new row receives the next rowid. */
    function Insert(row: T): (t: Table<T>)
      ensures Appended(this, t, row)
      ensures Valid() ==> t.Valid() && next !in rows && |t.rows| == |rows| + 1
    {
      Table(rows[next := row], next + 1)
    }

    /** DELETE ... WHERE id = ?: a missing rowid deletes nothing. */
    function Delete(id: int): (t: Table<T>)
      ensures Removed(this, t, id)
      ensures Valid() ==> t.Valid()
      ensures id !in rows ==> t == this
    {
      Table(rows - {id}, next)
    }

    /** UPDATE ... WHERE id = ?: `f` rewrites the one matching row, if any. */
    function Update(id: int, f: T -> T): (t: Table<T>)
      ensures ChangedAt(this, t, id)
      ensures id in rows ==> t.rows[id] == f(rows[id])
      ensures id !in rows ==> t == this
      ensures Valid() ==> t.Valid()
    {
      if id in rows then Table(rows[id := f(rows[id])], next) else this
    }

    /** SELECT ... WHERE p LIMIT 1, scanning in rowid order: the least matching rowid. */
    function FirstWhere(p: T -> bool): (r: Option<int>)
      ensures r.Some? ==> r.value in rows && p(rows[r.value])
      ensures r.Some? ==> forall k :: k in rows && p(rows[k]) ==> r.value <= k
      ensures r.None? ==> forall k :: k in rows ==> !p(rows[k])
    {
      var hits := set k | k in rows && p(rows[k]);
      assert forall k :: k in rows && p(rows[k]) ==> k in hits;
      if hits == {} then None else Some(MinOf(hits))
    }
  }

  /** `after` is `before` with `row` added under the rowid `before.next`. */
  predicate Appended<T(==)>(before: Table<T>, after: Table<T>, row: T) {
    && after.rows.Keys == before.rows.Keys + {before.next}
    && after.rows[before.next] == row
    && (forall k :: k in before.rows && k != before.next ==> after.rows[k] == before.rows[k])
    && after.next == before.next + 1
  }

  /** `after` is `before` without the row `id`; every other row is as it was. */
  predicate Removed<T(==)>(before: Table<T>, after: Table<T>, id: int) {
    && after.rows.Keys == before.rows.Keys - {id}
    && (forall k :: k in after.rows ==> after.rows[k] == before.rows[k])
    && after.next == before.next
  }

  /** `after` has the same rowids as `before` and differs from it at most in row `id`. */
  predicate ChangedAt<T(==)>(before: Table<T>, after: Table<T>, id: int) {
    && after.rows.Keys == before.rows.Keys
    && (forall k :: k in before.rows && k != id ==> after.rows[k] == before.rows[k])
    && after.next == before.next
  }
}
