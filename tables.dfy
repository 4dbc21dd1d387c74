/** A relational table as the endpoints see it: rows keyed by an AUTO_INCREMENT primary
    key. `SELECT * FROM t` without ORDER BY is modelled as a scan in primary-key order,
    which is the order in which an InnoDB table returns its rows. */
module Tables {

  /** One row as `SELECT *` returns it: its primary key and its other columns. */
  datatype Row<T> = Row(id: int, val: T)

  /** The rows by primary key and the value AUTO_INCREMENT hands out next. */
  datatype Table<T> = Table(rows: map<int, T>, nextId: nat) {

    /** Keys are positive and below the counter, as AUTO_INCREMENT guarantees. */
    ghost predicate Valid() {
      nextId >= 1 && forall id :: id in rows ==> 1 <= id < nextId
    }

    /** `INSERT`: the row is stored under the next auto-increment id. */
    function Insert(v: T): Table<T> {
      Table(rows[nextId := v], nextId + 1)
    }

    /** `DELETE ... WHERE id = k`. */
    function Delete(k: int): Table<T> {
      Table(rows - {k}, nextId)
    }

    /** `UPDATE ... WHERE id = k`: nothing happens when there is no such row. */
    function Set(k: int, v: T): Table<T> {
      if k in rows then Table(rows[k := v], nextId) else this
    }

    /** The state after `ROLLBACK` of a transaction that began in `before`: the rows of
        `before`, but the auto-increment counter keeps the ids the transaction consumed. */
    function RolledBack(before: Table<T>): Table<T> {
      Table(before.rows, nextId)
    }
  }

  /** Whether MySQL counts `UPDATE ... WHERE id = k` as affecting a row: only rows whose
      value actually changes are counted. */
  predicate Changes<T(==)>(t: Table<T>, k: int, v: T) {
    k in t.rows && t.rows[k] != v
  }

  function EmptyTable<T>(): (t: Table<T>)
    ensures t.Valid() && t.rows == map[]
  {
    Table(map[], 1)
  }

  /** The rows with id in [0, n), in increasing id order. */
  function Scan<T>(rows: map<int, T>, n: nat): (r: seq<Row<T>>)
    ensures forall i :: 0 <= i < |r| ==> 0 <= r[i].id < n
    ensures forall i, j :: 0 <= i < j < |r| ==> r[i].id < r[j].id
  {
    if n == 0 then []
    else Scan(rows, n - 1) + (if n - 1 in rows then [Row(n - 1, rows[n - 1])] else [])
  }

  /** The scan holds exactly the stored rows with id in [0, n). */
  lemma {:induction false} ScanContents<T>(rows: map<int, T>, n: nat)
    ensures forall i :: 0 <= i < |Scan(rows, n)| ==>
      var x := Scan(rows, n)[i]; 0 <= x.id < n && x.id in rows && rows[x.id] == x.val
    ensures forall k :: 0 <= k < n && k in rows ==> Row(k, rows[k]) in Scan(rows, n)
  {
    if n > 0 {
      ScanContents(rows, n - 1);
      var prev := Scan(rows, n - 1);
      var r := Scan(rows, n);
      assert r == prev + (if n - 1 in rows then [Row(n - 1, rows[n - 1])] else []);
      forall i | 0 <= i < |r|
        ensures 0 <= r[i].id < n && r[i].id in rows && rows[r[i].id] == r[i].val
      {
        if i < |prev| {
          assert r[i] == prev[i];
        }
      }
      forall k | 0 <= k < n && k in rows
        ensures Row(k, rows[k]) in r
      {
        if k < n - 1 {
          assert Row(k, rows[k]) in prev;
        } else {
          assert r[|r| - 1] == Row(k, rows[k]);
        }
      }
    }
  }

  /** A row's primary key, as a projection. */
  function RowId<T>(): Row<T> -> int {
    (x: Row<T>) => x.id
  }

  /** `SELECT * FROM t`, in primary-key order. */
  function Rows<T>(t: Table<T>): seq<Row<T>> {
    Scan(t.rows, t.nextId)
  }

  /** Every stored row appears in the scan, once, and nothing else does. */
  lemma RowsExact<T>(t: Table<T>)
    requires t.Valid()
    ensures forall i :: 0 <= i < |Rows(t)| ==> Rows(t)[i].id in t.rows && t.rows[Rows(t)[i].id] == Rows(t)[i].val
    ensures forall k :: k in t.rows ==> Row(k, t.rows[k]) in Rows(t)
    ensures forall i, j :: 0 <= i < j < |Rows(t)| ==> Rows(t)[i].id < Rows(t)[j].id
  {
    ScanContents(t.rows, t.nextId);
  }

  function Values<T>(rs: seq<Row<T>>): (vs: seq<T>)
    ensures |vs| == |rs|
    ensures forall i :: 0 <= i < |rs| ==> vs[i] == rs[i].val
  {
    if rs == [] then [] else Values(rs[..|rs| - 1]) + [rs[|rs| - 1].val]
  }

  /** The rows that inserting `vs` one after another creates, from id `start` upwards. */
  function Numbered<T>(start: int, vs: seq<T>): (rs: seq<Row<T>>)
    ensures |rs| == |vs|
    ensures forall i :: 0 <= i < |vs| ==> rs[i] == Row(start + i, vs[i])
  {
    seq(|vs|, i requires 0 <= i < |vs| => Row(start + i, vs[i]))
  }

  /** A sequence of INSERT statements, in order. */
  function InsertAll<T>(t: Table<T>, vs: seq<T>): (r: Table<T>)
    ensures r.nextId == t.nextId + |vs|
    ensures t.Valid() ==> r.Valid()
    decreases |vs|
  {
    if vs == [] then t else InsertAll(t, vs[..|vs| - 1]).Insert(vs[|vs| - 1])
  }

  lemma {:induction false} ScanAgree<T>(a: map<int, T>, b: map<int, T>, n: nat)
    requires forall k :: 0 <= k < n ==> (k in a <==> k in b)
    requires forall k :: 0 <= k < n && k in a ==> a[k] == b[k]
    ensures Scan(a, n) == Scan(b, n)
  {
    if n > 0 {
      ScanAgree(a, b, n - 1);
    }
  }

  /** Scanning beyond the largest key adds nothing. */
  lemma {:induction false} ScanBeyond<T>(rows: map<int, T>, k: nat, n: nat)
    requires k <= n
    requires forall id :: id in rows ==> id < k
    ensures Scan(rows, n) == Scan(rows, k)
  {
    if n > k {
      ScanBeyond(rows, k, n - 1);
    }
  }

  /** An insert appends exactly one row at the end of the scan. */
  lemma RowsInsert<T>(t: Table<T>, v: T)
    requires t.Valid()
    ensures Rows(t.Insert(v)) == Rows(t) + [Row(t.nextId, v)]
  {
    var rows := t.rows[t.nextId := v];
    ScanAgree(rows, t.rows, t.nextId);
  }

  lemma {:induction false} InsertAllAppend<T>(t: Table<T>, a: seq<T>, b: seq<T>)
    ensures InsertAll(t, a + b) == InsertAll(InsertAll(t, a), b)
    decreases |b|
  {
    if b == [] {
      assert a + b == a;
    } else {
      var b' := b[..|b| - 1];
      assert (a + b)[..|a + b| - 1] == a + b';
      InsertAllAppend(t, a, b');
    }
  }

  lemma InsertAllOne<T>(t: Table<T>, vs: seq<T>, v: T)
    ensures InsertAll(t, vs + [v]) == InsertAll(t, vs).Insert(v)
  {
    assert (vs + [v])[..|vs|] == vs;
  }

  /** Inserting `vs` appends exactly one row per value, in order, with consecutive ids. */
  lemma {:induction false} RowsInsertAll<T>(t: Table<T>, vs: seq<T>)
    requires t.Valid()
    ensures Rows(InsertAll(t, vs)) == Rows(t) + Numbered(t.nextId, vs)
    decreases |vs|
  {
    if vs != [] {
      var vs' := vs[..|vs| - 1];
      RowsInsertAll(t, vs');
      var t' := InsertAll(t, vs');
      RowsInsert(t', vs[|vs| - 1]);
      assert Numbered(t.nextId, vs) == Numbered(t.nextId, vs') + [Row(t'.nextId, vs[|vs| - 1])];
    }
  }

  /** After a rollback the scan is the scan from before the transaction. */
  lemma RowsRolledBack<T>(before: Table<T>, after: Table<T>)
    requires before.Valid() && after.nextId >= before.nextId
    ensures Rows(after.RolledBack(before)) == Rows(before)
  {
    ScanBeyond(before.rows, before.nextId, after.nextId);
  }

  // ---------------------------------------------------------------------------
  // SUM(...) over a scan
  // ---------------------------------------------------------------------------

  /** `SUM(w(row))` where a row outside the WHERE clause weighs 0; COALESCE(SUM, 0) on no rows. */
  function SumOver<T>(rs: seq<Row<T>>, w: T -> real): real {
    if rs == [] then 0.0 else SumOver(rs[..|rs| - 1], w) + w(rs[|rs| - 1].val)
  }

  lemma {:induction false} SumAppend<T>(a: seq<Row<T>>, b: seq<Row<T>>, w: T -> real)
    ensures SumOver(a + b, w) == SumOver(a, w) + SumOver(b, w)
    decreases |b|
  {
    if b == [] {
      assert a + b == a;
    } else {
      var b' := b[..|b| - 1];
      assert (a + b)[..|a + b| - 1] == a + b';
      SumAppend(a, b', w);
    }
  }

  /** Rows that all weigh nothing sum to nothing. */
  lemma {:induction false} SumZero<T>(rs: seq<Row<T>>, w: T -> real)
    requires forall i :: 0 <= i < |rs| ==> w(rs[i].val) == 0.0
    ensures SumOver(rs, w) == 0.0
    decreases |rs|
  {
    if rs != [] {
      SumZero(rs[..|rs| - 1], w);
    }
  }

  /** The same sum, taken directly over the keys below n. */
  function SumBelow<T>(rows: map<int, T>, n: nat, w: T -> real): real {
    if n == 0 then 0.0 else SumBelow(rows, n - 1, w) + (if n - 1 in rows then w(rows[n - 1]) else 0.0)
  }

  /** Summing over the scan is summing over the keys. */
  lemma {:induction false} SumScan<T>(rows: map<int, T>, n: nat, w: T -> real)
    ensures SumOver(Scan(rows, n), w) == SumBelow(rows, n, w)
  {
    if n > 0 {
      SumScan(rows, n - 1, w);
      var tail := if n - 1 in rows then [Row(n - 1, rows[n - 1])] else [];
      SumAppend(Scan(rows, n - 1), tail, w);
      if n - 1 in rows {
        assert tail[..0] == [];
      }
    }
  }

  lemma {:induction false} SumBelowDelete<T>(rows: map<int, T>, k: int, n: nat, w: T -> real)
    ensures SumBelow(rows, n, w)
         == SumBelow(rows - {k}, n, w) + (if k in rows && 0 <= k < n then w(rows[k]) else 0.0)
  {
    if n > 0 {
      SumBelowDelete(rows, k, n - 1, w);
    }
  }

  lemma {:induction false} SumBelowSet<T>(rows: map<int, T>, k: int, v: T, n: nat, w: T -> real)
    requires k in rows
    ensures SumBelow(rows[k := v], n, w)
         == SumBelow(rows, n, w) + (if 0 <= k < n then w(v) - w(rows[k]) else 0.0)
  {
    if n > 0 {
      SumBelowSet(rows, k, v, n - 1, w);
    }
  }

  /** Deleting row k removes exactly its weight from the sum over the table. */
  lemma SumRowsDelete<T>(t: Table<T>, k: int, w: T -> real)
    requires t.Valid()
    ensures SumOver(Rows(t), w) == SumOver(Rows(t.Delete(k)), w) + (if k in t.rows then w(t.rows[k]) else 0.0)
  {
    SumScan(t.rows, t.nextId, w);
    SumScan(t.rows - {k}, t.nextId, w);
    SumBelowDelete(t.rows, k, t.nextId, w);
  }

  /** Overwriting row k replaces its weight in the sum over the table. */
  lemma SumRowsSet<T>(t: Table<T>, k: int, v: T, w: T -> real)
    requires t.Valid()
    ensures SumOver(Rows(t.Set(k, v)), w) == SumOver(Rows(t), w) + (if k in t.rows then w(v) - w(t.rows[k]) else 0.0)
  {
    if k in t.rows {
      SumScan(t.rows, t.nextId, w);
      SumScan(t.rows[k := v], t.nextId, w);
      SumBelowSet(t.rows, k, v, t.nextId, w);
    }
  }

  /** Inserting a row adds exactly its weight to the sum over the table. */
  lemma SumRowsInsert<T>(t: Table<T>, v: T, w: T -> real)
    requires t.Valid()
    ensures SumOver(Rows(t.Insert(v)), w) == SumOver(Rows(t), w) + w(v)
  {
    RowsInsert(t, v);
    SumAppend(Rows(t), [Row(t.nextId, v)], w);
    assert [Row(t.nextId, v)][..0] == [];
  }
}
