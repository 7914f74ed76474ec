/**
  The shape of every `SELECT … ORDER BY <text column>` the catalogue runs:
  a sequence of rows of one table, each chosen row exactly once, sorted by a
  text key under the BINARY collation. SQLite does not promise an order among
  rows with equal keys, so the selection below chooses among them freely and
  its contract promises only what SQLite promises.
 */
module Ordered {
  import opened Collation

  /** One result row: the row's primary key and its other columns. */
  datatype Row<T> = Row(id: nat, val: T)

  ghost predicate SortedBy<T>(key: T -> string, rows: seq<Row<T>>)
  {
    forall i, j :: 0 <= i < j < |rows| ==> LessEq(key(rows[i].val), key(rows[j].val))
  }

  ghost predicate DistinctIds<T>(rows: seq<Row<T>>)
  {
    forall i, j :: 0 <= i < j < |rows| ==> rows[i].id != rows[j].id
  }

  /** `rows` lists every row of table `m` whose key is in `ids`, each once,
      with its stored columns, and nothing else, in order of `key`. */
  ghost predicate IsOrderedSelection<T>(m: map<nat, T>, ids: set<nat>, key: T -> string, rows: seq<Row<T>>)
  {
    && (forall i :: 0 <= i < |rows| ==> rows[i].id in m && rows[i].id in ids && rows[i].val == m[rows[i].id])
    && (forall id :: id in m && id in ids ==> exists i :: 0 <= i < |rows| && rows[i].id == id)
    && DistinctIds(rows)
    && SortedBy(key, rows)
  }

  /** Every non-empty set of rows has one whose key sorts first. */
  lemma {:induction false} MinExists<T>(m: map<nat, T>, ids: set<nat>, key: T -> string)
    requires ids != {} && ids <= m.Keys
    ensures exists k :: k in ids && forall j :: j in ids ==> LessEq(key(m[k]), key(m[j]))
    decreases ids
  {
    var x :| x in ids;
    var kx := key(m[x]);
    if ids == {x} {
      LessEqReflexive(kx);
      assert forall j :: j in ids ==> j == x;
    } else {
      var rest := ids - {x};
      MinExists(m, rest, key);
      var k :| k in rest && forall j :: j in rest ==> LessEq(key(m[k]), key(m[j]));
      var kk := key(m[k]);
      LessEqTotal(kx, kk);
      if LessEq(kx, kk) {
        forall j | j in ids
          ensures LessEq(kx, key(m[j]))
        {
          if j == x {
            LessEqReflexive(kx);
          } else {
            assert j in rest;
            LessEqTransitive(kx, kk, key(m[j]));
          }
        }
        assert x in ids;
      } else {
        forall j | j in ids
          ensures LessEq(kk, key(m[j]))
        {
          if j != x {
            assert j in rest;
          }
        }
        assert k in ids;
      }
    }
  }

  /** `rows` is the start of the selection: the rows already taken, each
      once and in order, and every row still in `remaining` sorts at or after
      all of them. */
  ghost predicate Partial<T>(m: map<nat, T>, ids: set<nat>, key: T -> string, rows: seq<Row<T>>, remaining: set<nat>)
  {
    && remaining <= m.Keys * ids
    && (forall i :: 0 <= i < |rows| ==>
          rows[i].id in m && rows[i].id in ids && rows[i].id !in remaining && rows[i].val == m[rows[i].id])
    && (forall id :: id in m && id in ids && id !in remaining ==> exists i :: 0 <= i < |rows| && rows[i].id == id)
    && DistinctIds(rows)
    && SortedBy(key, rows)
    && (forall i, k :: 0 <= i < |rows| && k in remaining ==> LessEq(key(rows[i].val), key(m[k])))
  }

  /** Taking a remaining row whose key sorts first extends the selection. */
  lemma SelectStep<T>(m: map<nat, T>, ids: set<nat>, key: T -> string, rows: seq<Row<T>>, remaining: set<nat>, k: nat)
    requires Partial(m, ids, key, rows, remaining)
    requires k in remaining && forall j :: j in remaining ==> LessEq(key(m[k]), key(m[j]))
    ensures Partial(m, ids, key, rows + [Row(k, m[k])], remaining - {k})
  {
    var rows' := rows + [Row(k, m[k])];
    var rest := remaining - {k};
    forall i | 0 <= i < |rows'|
      ensures rows'[i].id in m && rows'[i].id in ids && rows'[i].id !in rest && rows'[i].val == m[rows'[i].id]
    {
      if i < |rows| {
        assert rows'[i] == rows[i];
      }
    }
    forall i, j | 0 <= i < j < |rows'|
      ensures rows'[i].id != rows'[j].id && LessEq(key(rows'[i].val), key(rows'[j].val))
    {
      assert rows'[i] == rows[i];
      if j < |rows| {
        assert rows'[j] == rows[j];
      } else {
        assert rows'[j] == Row(k, m[k]);
      }
    }
    forall i, j | 0 <= i < |rows'| && j in rest
      ensures LessEq(key(rows'[i].val), key(m[j]))
    {
      if i < |rows| {
        assert rows'[i] == rows[i];
      }
    }
    forall id | id in m && id in ids && id !in rest
      ensures exists i :: 0 <= i < |rows'| && rows'[i].id == id
    {
      if id == k {
        assert rows'[|rows|].id == id;
      } else {
        var i :| 0 <= i < |rows| && rows[i].id == id;
        assert rows'[i].id == id;
      }
    }
  }

  /** Selects the rows of `m` whose key is in `ids`, in order of `key`, by
      repeatedly taking a remaining row whose key sorts first. */
  method SelectOrdered<T>(m: map<nat, T>, ids: set<nat>, key: T -> string) returns (rows: seq<Row<T>>)
    ensures IsOrderedSelection(m, ids, key, rows)
  {
    var remaining := m.Keys * ids;
    rows := [];
    while remaining != {}
      invariant Partial(m, ids, key, rows, remaining)
      decreases remaining
    {
      MinExists(m, remaining, key);
      var k :| k in remaining && forall j :: j in remaining ==> LessEq(key(m[k]), key(m[j]));
      SelectStep(m, ids, key, rows, remaining, k);
      rows := rows + [Row(k, m[k])];
      remaining := remaining - {k};
    }
  }
}
