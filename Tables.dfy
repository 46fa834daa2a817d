/**
 * A PostgreSQL table with a SERIAL primary key, reduced to what the catalog needs: the rows
 * by id and the next value of the id sequence. `INSERT ... ON CONFLICT DO NOTHING` on a
 * table whose whole row is the unique key becomes insert-or-ignore; the sequence value is
 * drawn before the conflict is detected, so an ignored insert still uses one up.
 */
module Tables {
  /** Rows by id, and the value the id sequence hands out next. */
  datatype Table<R> = Table(rows: map<nat, R>, next: nat)

  /** A freshly created table: no rows, the sequence starts at 1. */
  function Empty<R>(): Table<R> {
    Table(map[], 1)
  }

  /** Ids are drawn from the sequence: every id in use is below the next one. */
  ghost predicate Wf<R>(t: Table<R>) {
    1 <= t.next && forall id :: id in t.rows ==> 1 <= id < t.next
  }

  /** The row is a unique key: no two ids hold the same row. */
  ghost predicate Unique<R>(t: Table<R>) {
    forall i, j :: i in t.rows && j in t.rows && t.rows[i] == t.rows[j] ==> i == j
  }

  /** Every row of t is still in u under the same id. */
  ghost predicate Extends<R>(t: Table<R>, u: Table<R>) {
    forall id :: id in t.rows ==> id in u.rows && u.rows[id] == t.rows[id]
  }

  /** A plain INSERT: the row gets the next id. */
  function Append<R>(t: Table<R>, r: R): Table<R> {
    Table(t.rows[t.next := r], t.next + 1)
  }

  /** INSERT ... ON CONFLICT DO NOTHING with the whole row as unique key. */
  function InsertOrIgnore<R(==)>(t: Table<R>, r: R): (u: Table<R>)
    ensures r in u.rows.Values
  {
    if r in t.rows.Values then Table(t.rows, t.next + 1)
    else
      var u := Append(t, r);
      assert u.rows[t.next] == r;
      u
  }

  /** An insert adds exactly one row under a fresh id and keeps the others. */
  lemma AppendFacts<R>(t: Table<R>, r: R)
    requires Wf(t)
    ensures var u := Append(t, r);
      Wf(u) && Extends(t, u) && t.next !in t.rows && u.rows[t.next] == r
      && |u.rows| == |t.rows| + 1 && u.rows.Keys == t.rows.Keys + {t.next}
  {
  }

  /** Insert-or-ignore keeps the table well formed and its rows unique; it adds the row
      exactly when it was not there, and then under a fresh id. */
  lemma InsertOrIgnoreFacts<R>(t: Table<R>, r: R)
    requires Wf(t) && Unique(t)
    ensures var u := InsertOrIgnore(t, r);
      Wf(u) && Unique(u) && Extends(t, u) && u.next == t.next + 1
      && u.rows.Values == t.rows.Values + {r}
      && (r in t.rows.Values ==> u.rows == t.rows)
      && (r !in t.rows.Values ==> |u.rows| == |t.rows| + 1 && u.rows.Keys == t.rows.Keys + {t.next})
  {
    if r !in t.rows.Values {
      AppendFacts(t, r);
      AppendUnique(t, r);
      AppendValues(t, r);
    }
  }

  /** Appending a row that is not there keeps the rows unique. */
  lemma AppendUnique<R>(t: Table<R>, r: R)
    requires Wf(t) && Unique(t) && r !in t.rows.Values
    ensures Unique(Append(t, r))
  {
    var u := Append(t, r);
    assert forall id :: id in t.rows ==> t.rows[id] != r;
    forall i, j | i in u.rows && j in u.rows && u.rows[i] == u.rows[j] ensures i == j {
      if i != t.next && j != t.next {
        assert t.rows[i] == t.rows[j];
      }
    }
  }

  /** Appending adds the row to the table's values and nothing else. */
  lemma AppendValues<R>(t: Table<R>, r: R)
    requires Wf(t)
    ensures Append(t, r).rows.Values == t.rows.Values + {r}
  {
    var u := Append(t, r);
    forall v | v in u.rows.Values ensures v in t.rows.Values + {r} {
      var id :| id in u.rows && u.rows[id] == v;
      if id != t.next {
        assert t.rows[id] == v;
      }
    }
    forall v | v in t.rows.Values ensures v in u.rows.Values {
      var id :| id in t.rows && t.rows[id] == v;
      assert u.rows[id] == v;
    }
    assert u.rows[t.next] == r;
  }

  /** The id a SELECT on the row finds. */
  ghost function IdOf<R>(t: Table<R>, r: R): (id: nat)
    requires r in t.rows.Values
    ensures id in t.rows && t.rows[id] == r
  {
    var id :| id in t.rows && t.rows[id] == r; id
  }

  /** In a table with unique rows, a row has one id, the one IdOf names. */
  lemma IdOfUnique<R>(t: Table<R>, r: R, id: nat)
    requires Unique(t) && id in t.rows && t.rows[id] == r
    ensures IdOf(t, r) == id
  {
  }

  /** `SELECT id FROM t WHERE row = r` followed by fetchone(): some id holding r. */
  method SelectId<R(==)>(t: Table<R>, r: R) returns (id: nat)
    requires r in t.rows.Values
    ensures id in t.rows && t.rows[id] == r
    ensures Unique(t) ==> id == IdOf(t, r)
  {
    id :| id in t.rows && t.rows[id] == r;
  }
}
