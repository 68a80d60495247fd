/** From the file to the output: the page walk over an intact table, and what is written of its rows. */
module RepairRecovery {
  import opened Options
  import opened Bytes
  import opened RepairBytes
  import opened RepairRecord
  import opened RepairPages
  import opened RepairWalk
  import opened RepairTree
  import RepairOutput

  /** A row as it arrives at the output without a user's callback; `inserted` says whether its INSERT succeeds. */
  function ArrivalOf(row: Row, inserted: bool): RepairOutput.Arrival {
    RepairOutput.Arrival(false, None, row.rowid, row.values, inserted)
  }

  function Arrivals(rows: seq<Row>, inserted: Row -> bool): (r: seq<RepairOutput.Arrival>)
    ensures |r| == |rows|
  {
    if rows == [] then [] else [ArrivalOf(rows[0], inserted(rows[0]))] + Arrivals(rows[1..], inserted)
  }

  /** The output's job for the table that is found by walking from page `n`. */
  function JobOf(table: RepairOutput.Table, r: Walked, inserted: Row -> bool): RepairOutput.Job
    requires r.Walked?
  {
    RepairOutput.Job(false, None, table, Some(RepairOutput.Walk(Arrivals(r.st.rows, inserted), r.code)))
  }

  /** The rows that a list of statements inserts. */
  function Inserts(log: seq<RepairOutput.Sql>): seq<seq<Value>> {
    if log == [] then []
    else Inserts(log[..|log| - 1]) + (if log[|log| - 1].Insert? then [log[|log| - 1].values] else [])
  }

  /** The row passes the tests of the output, and the database takes it. */
  predicate Passes(row: Row, columns: seq<RepairOutput.ColumnInfo>, inserted: Row -> bool) {
    !RepairOutput.Corrupted(row.values, columns) && inserted(row)
  }

  function Taken(rows: seq<Row>, columns: seq<RepairOutput.ColumnInfo>, inserted: Row -> bool): (taken: seq<Row>)
    ensures |taken| <= |rows| && forall row :: row in taken <==> row in rows && Passes(row, columns, inserted)
  {
    if rows == [] then []
    else (if Passes(rows[0], columns, inserted) then [rows[0]] else []) + Taken(rows[1..], columns, inserted)
  }

  function BoundRow(row: Row, columns: seq<RepairOutput.ColumnInfo>, ipkColumn: nat): seq<Value> {
    RepairOutput.Bound(row.values, row.rowid, columns, ipkColumn)
  }

  function BoundRows(rows: seq<Row>, columns: seq<RepairOutput.ColumnInfo>, ipkColumn: nat): (r: seq<seq<Value>>)
    ensures |r| == |rows| && forall i :: 0 <= i < |rows| ==> r[i] == BoundRow(rows[i], columns, ipkColumn)
  {
    seq(|rows|, i requires 0 <= i < |rows| => BoundRow(rows[i], columns, ipkColumn))
  }

  lemma {:induction false} InsertsNext(log: seq<RepairOutput.Sql>, sql: RepairOutput.Sql)
    ensures Inserts(log + [sql]) == Inserts(log) + (if sql.Insert? then [sql.values] else [])
  {
    assert (log + [sql])[..|log|] == log;
  }

  /** The file holds the tree, and a walk may start: the callback takes all rows, and no page of the tree is busy. */
  ghost predicate Intact(env: Env, st: State, t: Node) {
    && Represents(env.db, t) && Proper(t) && st.rows == []
    && |st.status| == |env.db.pages| && TakesAll(env) && NoneChecking(st.status, PagesOf(t))
  }

  // ----- every row is counted

  lemma {:induction false} AllArrivalsCount(rows: seq<Row>, inserted: Row -> bool)
    ensures RepairOutput.CountedRows(Arrivals(rows, inserted)) == |rows|
    decreases |rows|
  {
    if rows != [] {
      var a := Arrivals(rows, inserted);
      assert a[1..] == Arrivals(rows[1..], inserted);
      AllArrivalsCount(rows[1..], inserted);
    }
  }

  /** Each row of an intact table moves one counter of the output by one. */
  lemma {:induction false} IntactTableCounted(
    env: Env, st: State, t: Node, table: RepairOutput.Table, inserted: Row -> bool, c: RepairOutput.Context)
    returns (r: Walked, d: RepairOutput.Context)
    requires Intact(env, st, t) && RepairOutput.Sound(c) && !c.prepared
    ensures r == ParsePage(env, st, t.page, Height(t)) && r.Walked?
    ensures d == RepairOutput.OneTable(c, JobOf(table, r, inserted))
    ensures RepairOutput.Sound(d) && !d.prepared && d.success + d.fail == c.success + c.fail + |InOrder(t)|
  {
    hide Represents, Proper, ParsePage, InOrder, RepairOutput.Sound, RepairOutput.OneTable, Height, PagesOf;
    TreeDelivers(env, st, t, Height(t));
    r := ParsePage(env, st, t.page, Height(t));
    assert [] + InOrder(t) == InOrder(t);
    AllArrivalsCount(r.st.rows, inserted);
    RepairOutput.TableIsSound(c, JobOf(table, r, inserted));
    d := RepairOutput.OneTable(c, JobOf(table, r, inserted));
  }

  // ----- every row that passes is written

  /** A row that passes is inserted; any other counts as failed and leaves no trace. */
  lemma {:induction false} RowIsWritten(
    c: RepairOutput.Context, row: Row, inserted: bool, columns: seq<RepairOutput.ColumnInfo>, ipkColumn: nat)
    requires c.cursor == Some(RepairOutput.Table(Some(columns), ipkColumn)) && columns != []
    ensures
      var d := RepairOutput.OnRow(c, ArrivalOf(row, inserted));
      d.cursor == c.cursor
      && if !RepairOutput.Corrupted(row.values, columns) && inserted then
           d.fail == c.fail && d.success == c.success + 1
           && Inserts(d.log) == Inserts(c.log) + [BoundRow(row, columns, ipkColumn)]
         else d.fail == c.fail + 1 && d.success == c.success && Inserts(d.log) == Inserts(c.log)
  {
    hide RepairOutput.Corrupted, RepairOutput.Bound, Inserts;
    var bound := BoundRow(row, columns, ipkColumn);
    InsertsNext(c.log, RepairOutput.Begin);
    assert Inserts(c.log) + [] == Inserts(c.log);
    var p := RepairOutput.Prepare(c);
    InsertsNext(p.log, RepairOutput.Insert(bound));
    var log := p.log + [RepairOutput.Insert(bound)];
    InsertsNext(log, RepairOutput.Commit);
    InsertsNext(log + [RepairOutput.Commit], RepairOutput.Begin);
    assert Inserts(log) + [] == Inserts(log);
  }

  /** One more row in front, behind what was inserted before. */
  lemma {:induction false} BoundRowsMore(
    before: seq<seq<Value>>, row: Row, rest: seq<Row>, columns: seq<RepairOutput.ColumnInfo>, ipkColumn: nat)
    ensures before + BoundRows([row] + rest, columns, ipkColumn)
         == before + [BoundRow(row, columns, ipkColumn)] + BoundRows(rest, columns, ipkColumn)
  {
    hide BoundRow;
    assert BoundRows([row] + rest, columns, ipkColumn) == [BoundRow(row, columns, ipkColumn)] + BoundRows(rest, columns, ipkColumn);
  }

  lemma {:induction false} RowsAreWritten(
    c: RepairOutput.Context, rows: seq<Row>, columns: seq<RepairOutput.ColumnInfo>, ipkColumn: nat, inserted: Row -> bool)
    requires c.cursor == Some(RepairOutput.Table(Some(columns), ipkColumn)) && columns != []
    ensures
      var d := RepairOutput.OnRows(c, Arrivals(rows, inserted));
      var taken := Taken(rows, columns, inserted);
      d.success == c.success + |taken| && d.fail == c.fail + |rows| - |taken|
      && Inserts(d.log) == Inserts(c.log) + BoundRows(taken, columns, ipkColumn)
    decreases |rows|
  {
    hide RepairOutput.OnRow, RepairOutput.Corrupted, BoundRow, Inserts, BoundRows;
    if rows == [] {
      assert BoundRows([], columns, ipkColumn) == [];
      assert Inserts(c.log) + [] == Inserts(c.log);
    } else {
      var row, rest := rows[0], rows[1..];
      var a := Arrivals(rows, inserted);
      assert a[0] == ArrivalOf(row, inserted(row)) && a[1..] == Arrivals(rest, inserted);
      RowIsWritten(c, row, inserted(row), columns, ipkColumn);
      RowsAreWritten(RepairOutput.OnRow(c, a[0]), rest, columns, ipkColumn, inserted);
      BoundRowsMore(Inserts(c.log), row, Taken(rest, columns, inserted), columns, ipkColumn);
      hide ArrivalOf;
      assert [] + Taken(rest, columns, inserted) == Taken(rest, columns, inserted);
    }
  }

  /** What the output makes of delivered rows. */
  lemma {:induction false} DeliveredIsWritten(
    c: RepairOutput.Context, r: Walked, columns: seq<RepairOutput.ColumnInfo>, ipkColumn: nat, inserted: Row -> bool)
    returns (d: RepairOutput.Context)
    requires r.Walked? && r.code == Good && RepairOutput.Sound(c) && !c.prepared && columns != []
    ensures d == RepairOutput.OneTable(c, JobOf(RepairOutput.Table(Some(columns), ipkColumn), r, inserted))
    ensures var taken := Taken(r.st.rows, columns, inserted);
            Inserts(d.log) == Inserts(c.log) + BoundRows(taken, columns, ipkColumn)
            && d.success == c.success + |taken| && d.fail == c.fail + |r.st.rows| - |taken|
    ensures RepairOutput.Lost(d.log) == RepairOutput.Lost(c.log)
  {
    hide RepairOutput.Sound, RepairOutput.OnRows, Inserts, RepairOutput.Replay, BoundRows, Taken;
    var table := RepairOutput.Table(Some(columns), ipkColumn);
    var job := JobOf(table, r, inserted);
    RepairOutput.TableIsSound(c, job);
    var begun := c.(cursor := Some(table));
    RowsAreWritten(begun, r.st.rows, columns, ipkColumn, inserted);
    var last := RepairOutput.OnRows(begun, job.walk.value.rows);
    InsertsNext(last.log, RepairOutput.Commit);
    assert Inserts(last.log) + [] == Inserts(last.log);
    d := RepairOutput.OneTable(c, job);
    assert d == RepairOutput.Finish(last, Good);
    RepairOutput.SoundIsLedger(c);
    RepairOutput.SoundIsLedger(d);
  }

  /** From the file to the database, for any definition of the table and whatever the database takes: of the rows of an
      intact table exactly those that pass are inserted, once each and in order of their rowids, the others count as
      failed, and none is rolled back. */
  lemma {:induction false} IntactTableWritten(
    env: Env, st: State, t: Node, low: int, high: int, columns: seq<RepairOutput.ColumnInfo>, ipkColumn: nat,
    inserted: Row -> bool, c: RepairOutput.Context)
    returns (r: Walked, d: RepairOutput.Context)
    requires Intact(env, st, t) && Ordered(t, low, high) && RepairOutput.Sound(c) && !c.prepared && columns != []
    ensures r == ParsePage(env, st, t.page, Height(t)) && r.Walked?
    ensures d == RepairOutput.OneTable(c, JobOf(RepairOutput.Table(Some(columns), ipkColumn), r, inserted))
    ensures var taken := Taken(InOrder(t), columns, inserted);
            Inserts(d.log) == Inserts(c.log) + BoundRows(taken, columns, ipkColumn)
            && d.success == c.success + |taken| && d.fail == c.fail + |InOrder(t)| - |taken|
    ensures Ascending(InOrder(t), low, high) && RepairOutput.Lost(d.log) == RepairOutput.Lost(c.log)
  {
    hide Represents, Proper, Ordered, ParsePage, InOrder, RepairOutput.Sound, Height, PagesOf, Inserts, Taken,
         Ascending, RepairOutput.Replay, BoundRows, RepairOutput.OneTable;
    IntactTableRecovered(env, st, t, low, high);
    r := ParsePage(env, st, t.page, Height(t));
    d := DeliveredIsWritten(c, r, columns, ipkColumn, inserted);
  }

  // ----- when that restores the table

  /** The rows as the definition of the table has them. */
  function MeantRows(rows: seq<Row>, columns: seq<RepairOutput.ColumnInfo>, ipkColumn: nat): (r: seq<seq<Value>>)
    ensures |r| == |rows|
    ensures forall i :: 0 <= i < |rows| ==> r[i] == RepairOutput.Meant(rows[i].values, rows[i].rowid, columns, ipkColumn)
  {
    seq(|rows|, i requires 0 <= i < |rows| => RepairOutput.Meant(rows[i].values, rows[i].rowid, columns, ipkColumn))
  }

  /** A row that the definition allows and that is inserted as it is meant, if the database takes it. */
  predicate Restorable(row: Row, columns: seq<RepairOutput.ColumnInfo>, ipkColumn: nat) {
    && RepairOutput.Allowed(row.values, columns, ipkColumn)
    && !RepairOutput.KeyIsNull(row.values, columns, ipkColumn)
    && RepairOutput.LastSurvives(row.values, row.rowid, columns, ipkColumn)
    && RepairOutput.NoDefaults(row.values, columns)
  }

  /** An intact table is restored, in a database that takes its rows, exactly if all its rows are restorable. */
  lemma {:induction false} IntactTableRestoredExactly(
    env: Env, st: State, t: Node, low: int, high: int, columns: seq<RepairOutput.ColumnInfo>, ipkColumn: nat,
    c: RepairOutput.Context)
    returns (r: Walked, d: RepairOutput.Context)
    requires Intact(env, st, t) && Ordered(t, low, high) && RepairOutput.Sound(c) && !c.prepared && columns != []
    ensures r == ParsePage(env, st, t.page, Height(t)) && r.Walked?
    ensures d == RepairOutput.OneTable(c, JobOf(RepairOutput.Table(Some(columns), ipkColumn), r, _ => true))
    ensures Inserts(d.log) == Inserts(c.log) + MeantRows(InOrder(t), columns, ipkColumn)
            <==> forall row :: row in InOrder(t) ==> Restorable(row, columns, ipkColumn)
  {
    hide Intact, Ordered, ParsePage, InOrder, Ascending, RepairOutput.Sound, Height, Inserts, Taken, RepairOutput.OneTable,
         Restorable, BoundRows, MeantRows, RepairOutput.Lost;
    r, d := IntactTableWritten(env, st, t, low, high, columns, ipkColumn, _ => true, c);
    RowsRestoredExactly(InOrder(t), columns, ipkColumn);
    var taken := Taken(InOrder(t), columns, _ => true);
    SameEnds(Inserts(c.log), BoundRows(taken, columns, ipkColumn), MeantRows(InOrder(t), columns, ipkColumn));
  }

  lemma {:induction false} SameEnds<T>(a: seq<T>, b: seq<T>, c: seq<T>)
    ensures a + b == a + c <==> b == c
  {
    if a + b == a + c {
      assert (a + b)[|a|..] == b && (a + c)[|a|..] == c;
    }
  }

  lemma {:induction false} RowsRestoredExactly(rows: seq<Row>, columns: seq<RepairOutput.ColumnInfo>, ipkColumn: nat)
    ensures BoundRows(Taken(rows, columns, _ => true), columns, ipkColumn) == MeantRows(rows, columns, ipkColumn)
            <==> forall row :: row in rows ==> Restorable(row, columns, ipkColumn)
  {
    hide Restorable, RepairOutput.Meant, RepairOutput.Corrupted, BoundRow;
    var taken := Taken(rows, columns, _ => true);
    if |taken| == |rows| {
      AllTaken(rows, columns);
      forall i | 0 <= i < |rows|
        ensures BoundRow(rows[i], columns, ipkColumn) == RepairOutput.Meant(rows[i].values, rows[i].rowid, columns, ipkColumn)
                <==> Restorable(rows[i], columns, ipkColumn)
      {
        assert rows[i] in rows;
        RestorableExactly(rows[i], columns, ipkColumn);
      }
      BoundIsMeantOn(rows, columns, ipkColumn);
    } else {
      var row := OneNotTaken(rows, columns);
      RejectedIsNotRestorable(row, columns, ipkColumn);
    }
  }

  lemma {:induction false} BoundIsMeantOn(rows: seq<Row>, columns: seq<RepairOutput.ColumnInfo>, ipkColumn: nat)
    ensures BoundRows(rows, columns, ipkColumn) == MeantRows(rows, columns, ipkColumn)
            <==> forall i :: 0 <= i < |rows| ==>
                   BoundRow(rows[i], columns, ipkColumn)
                   == RepairOutput.Meant(rows[i].values, rows[i].rowid, columns, ipkColumn)
  {
    hide BoundRow, RepairOutput.Meant, BoundRows, MeantRows;
    var b, m := BoundRows(rows, columns, ipkColumn), MeantRows(rows, columns, ipkColumn);
    if forall i :: 0 <= i < |rows| ==>
         BoundRow(rows[i], columns, ipkColumn) == RepairOutput.Meant(rows[i].values, rows[i].rowid, columns, ipkColumn) {
      forall i | 0 <= i < |rows| ensures b[i] == m[i] {
        assert b[i] == BoundRow(rows[i], columns, ipkColumn);
      }
    }
    if b == m {
      forall i | 0 <= i < |rows|
        ensures BoundRow(rows[i], columns, ipkColumn)
             == RepairOutput.Meant(rows[i].values, rows[i].rowid, columns, ipkColumn)
      {
        assert b[i] == m[i];
      }
    }
  }

  lemma {:induction false} AllTaken(rows: seq<Row>, columns: seq<RepairOutput.ColumnInfo>)
    requires |Taken(rows, columns, _ => true)| == |rows|
    ensures Taken(rows, columns, _ => true) == rows
    ensures forall row :: row in rows ==> !RepairOutput.Corrupted(row.values, columns)
    decreases |rows|
  {
    hide RepairOutput.Corrupted;
    if rows != [] {
      var rest := Taken(rows[1..], columns, _ => true);
      assert |rest| <= |rows[1..]|;
      AllTaken(rows[1..], columns);
      assert rows == [rows[0]] + rows[1..];
    }
  }

  lemma {:induction false} OneNotTaken(rows: seq<Row>, columns: seq<RepairOutput.ColumnInfo>) returns (row: Row)
    requires |Taken(rows, columns, _ => true)| != |rows|
    ensures row in rows && RepairOutput.Corrupted(row.values, columns)
    decreases |rows|
  {
    hide RepairOutput.Corrupted;
    row := rows[0];
    if !RepairOutput.Corrupted(row.values, columns) {
      row := OneNotTaken(rows[1..], columns);
    }
  }

  lemma {:induction false} RestorableExactly(row: Row, columns: seq<RepairOutput.ColumnInfo>, ipkColumn: nat)
    requires !RepairOutput.Corrupted(row.values, columns)
    ensures BoundRow(row, columns, ipkColumn) == RepairOutput.Meant(row.values, row.rowid, columns, ipkColumn)
            <==> Restorable(row, columns, ipkColumn)
  {
    RepairOutput.RejectedExactly(row.values, columns, ipkColumn);
    assert |row.values| <= |columns|;
    hide RepairOutput.Corrupted, RepairOutput.KeyIsNull, RepairOutput.LastSurvives, RepairOutput.NoDefaults,
         RepairOutput.Bound, RepairOutput.Meant, RepairOutput.Allowed;
    RepairOutput.BoundIsMeantExactly(row.values, row.rowid, columns, ipkColumn);
  }

  lemma {:induction false} RejectedIsNotRestorable(row: Row, columns: seq<RepairOutput.ColumnInfo>, ipkColumn: nat)
    requires RepairOutput.Corrupted(row.values, columns)
    ensures !Restorable(row, columns, ipkColumn)
  {
    hide RepairOutput.Corrupted, RepairOutput.KeyIsNull, RepairOutput.LastSurvives, RepairOutput.NoDefaults,
         RepairOutput.Allowed;
    RepairOutput.RejectedExactly(row.values, columns, ipkColumn);
  }

  /** In particular a table with a key that is declared NOT NULL is lost as a whole: SQLite stores the key as NULL. */
  lemma {:induction false} KeyedTableIsLost(
    rows: seq<Row>, columns: seq<RepairOutput.ColumnInfo>, ipkColumn: nat, inserted: Row -> bool)
    requires 0 < ipkColumn <= |columns| && columns[ipkColumn - 1].notNull
    requires forall row :: row in rows ==> ipkColumn <= |row.values| && row.values[ipkColumn - 1] == Null
    ensures Taken(rows, columns, inserted) == []
  {
    forall row | row in rows ensures RepairOutput.Corrupted(row.values, columns) {
      RepairOutput.RejectedExactly(row.values, columns, ipkColumn);
    }
    hide RepairOutput.Corrupted;
    var taken := Taken(rows, columns, inserted);
    if taken != [] {
      assert taken[0] in taken;
    }
  }
}
