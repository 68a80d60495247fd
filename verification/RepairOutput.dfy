/** Writing recovered rows to a new database (sqliterk_output.cpp): the row callback and the loop over the tables, with
    their transactions and counters. */
module RepairOutput {
  import opened Options
  import opened RepairBytes
  import opened RepairRecord

  /** What init_insert finds out about a column; `default` is the value of its DEFAULT clause, if it has one. */
  datatype ColumnInfo = ColumnInfo(textAffinity: bool, notNull: bool, default: Option<Value>)

  /** A table to fill. `columns` is None when its INSERT cannot be prepared; `ipkColumn` is the position of the INTEGER
      PRIMARY KEY column counted from one, or zero. */
  datatype Table = Table(columns: Option<seq<ColumnInfo>>, ipkColumn: nat)

  /** The statements that reach the database; those that fail leave no trace in it. */
  datatype Sql = Begin | Commit | Rollback | Create | Insert(values: seq<Value>)

  /** A row from the page walk, with what the outside does at that moment: the cancel flag, the answer of the user's
      callback if there is one, and whether the INSERT succeeds. */
  datatype Arrival = Arrival(cancelled: bool, answer: Option<Code>, rowid: int, values: seq<Value>, inserted: bool)

  /** SQLITERK_IGNORE */
  const IGNORE := Refused(100)

  /** The fields of sqliterk_output_ctx: whether a statement is prepared, the table cursor (None: past the end), the
      counters, and the statements executed so far. */
  datatype Context = Context(prepared: bool, cursor: Option<Table>, success: nat, fail: nat, log: seq<Sql>)

  // ----- one row

  predicate Misfit(v: Value, column: ColumnInfo) {
    ((v.Integer? || v.Unset? || v.Real?) && column.textAffinity) || (v.Null? && column.notNull)
  }

  /** The row is rejected. */
  predicate Corrupted(values: seq<Value>, columns: seq<ColumnInfo>) {
    |values| > |columns| || exists i :: 0 <= i < |values| && Misfit(values[i], columns[i])
  }

  /** A stored value: a NULL in the INTEGER PRIMARY KEY column stands for the rowid. */
  function StoredAt(values: seq<Value>, rowid: int, ipkColumn: nat, i: nat): Value
    requires i < |values|
  {
    if values[i].Null? && ipkColumn == i + 1 then Integer(rowid) else values[i]
  }

  /** The value bound to parameter `i`, counted from zero. Parameters start out as NULL. The default of a column that
      the row lacks is bound one place further left than the column's own: that of the first one comes to the last
      stored value, if there is one, and the last parameter gets none. */
  function BoundAt(values: seq<Value>, rowid: int, columns: seq<ColumnInfo>, ipkColumn: nat, i: nat): Value
    requires i < |columns|
  {
    if |values| <= i + 1 < |columns| && columns[i + 1].default.Some? then columns[i + 1].default.value
    else if i < |values| then StoredAt(values, rowid, ipkColumn, i)
    else Null
  }

  /** The row that is inserted. */
  function Bound(values: seq<Value>, rowid: int, columns: seq<ColumnInfo>, ipkColumn: nat): seq<Value> {
    seq(|columns|, i requires 0 <= i < |columns| => BoundAt(values, rowid, columns, ipkColumn, i))
  }

  /** Rows that neither the cancel flag nor the user's callback takes away. */
  predicate Counted(row: Arrival) {
    !row.cancelled && (row.answer == None || row.answer == Some(Good))
  }

  function Failing(c: Context): Context {
    c.(fail := c.fail + 1)
  }

  function Succeeding(c: Context, values: seq<Value>): Context {
    var done := c.(success := c.success + 1, log := c.log + [Insert(values)]);
    if done.success % 256 == 0 then done.(log := done.log + [Commit] + [Begin]) else done
  }

  /** Preparing the statement of the current table, if it is not, opens a transaction. */
  function Prepare(c: Context): Context {
    if c.prepared || c.cursor == None then c
    else if c.cursor.value.columns == None || c.cursor.value.columns.value == [] then c.(cursor := None)
    else c.(prepared := true, log := c.log + [Begin])
  }

  /** table_onParseColumn */
  function OnRow(c: Context, row: Arrival): Context {
    if !Counted(row) then c
    else
      var p := Prepare(c);
      if !p.prepared || p.cursor == None || p.cursor.value.columns == None then Failing(p)
      else if Corrupted(row.values, p.cursor.value.columns.value) || !row.inserted then Failing(p)
      else
        var table := p.cursor.value;
        Succeeding(p, Bound(row.values, row.rowid, table.columns.value, table.ipkColumn))
  }

  function Answer(row: Arrival): Code {
    if row.cancelled then Cancelled
    else match row.answer
      case Some(code) => if code == IGNORE then Good else code
      case None => Good
  }

  lemma {:induction false} TooManyValues(values: seq<Value>, columns: seq<ColumnInfo>)
    requires |values| > |columns|
    ensures Corrupted(values, columns)
  {
  }

  // ----- what the definition of the table says of a row

  /** The row as SQLite itself reads it: the stored values, then the defaults of the columns added since. */
  function MeantAt(values: seq<Value>, rowid: int, columns: seq<ColumnInfo>, ipkColumn: nat, i: nat): Value
    requires i < |columns|
  {
    if i < |values| then StoredAt(values, rowid, ipkColumn, i)
    else if columns[i].default.Some? then columns[i].default.value
    else Null
  }

  function Meant(values: seq<Value>, rowid: int, columns: seq<ColumnInfo>, ipkColumn: nat): seq<Value> {
    seq(|columns|, i requires 0 <= i < |columns| => MeantAt(values, rowid, columns, ipkColumn, i))
  }

  /** The last stored value is not overwritten by another one: no column is missing, or the first missing one has no
      default, or the same. */
  predicate LastSurvives(values: seq<Value>, rowid: int, columns: seq<ColumnInfo>, ipkColumn: nat)
    requires |values| <= |columns|
  {
    var n := |values|;
    0 < n < |columns| && columns[n].default.Some? ==> columns[n].default.value == StoredAt(values, rowid, ipkColumn, n - 1)
  }

  /** The columns that the row lacks have no default, or NULL. */
  predicate NoDefaults(values: seq<Value>, columns: seq<ColumnInfo>) {
    forall i :: |values| <= i < |columns| ==> columns[i].default == None || columns[i].default == Some(Null)
  }

  /** All stored values are inserted exactly if the last one survives. */
  lemma {:induction false} StoredSurviveExactly(values: seq<Value>, rowid: int, columns: seq<ColumnInfo>, ipkColumn: nat)
    requires |values| <= |columns|
    ensures (forall i :: 0 <= i < |values| ==>
               Bound(values, rowid, columns, ipkColumn)[i] == StoredAt(values, rowid, ipkColumn, i))
            <==> LastSurvives(values, rowid, columns, ipkColumn)
  {
    hide StoredAt;
    var b, n := Bound(values, rowid, columns, ipkColumn), |values|;
    if 0 < n < |columns| {
      assert b[n - 1] == BoundAt(values, rowid, columns, ipkColumn, n - 1);
    }
    forall i | 0 <= i < n - 1 ensures b[i] == StoredAt(values, rowid, ipkColumn, i) {
      assert b[i] == BoundAt(values, rowid, columns, ipkColumn, i);
    }
  }

  /** What is inserted is what the definition says exactly if the last stored value survives and the missing columns have
      no defaults: one that has is never filled. */
  lemma {:induction false} BoundIsMeantExactly(values: seq<Value>, rowid: int, columns: seq<ColumnInfo>, ipkColumn: nat)
    requires |values| <= |columns|
    ensures Bound(values, rowid, columns, ipkColumn) == Meant(values, rowid, columns, ipkColumn)
            <==> LastSurvives(values, rowid, columns, ipkColumn) && NoDefaults(values, columns)
  {
    hide StoredAt;
    var b, m := Bound(values, rowid, columns, ipkColumn), Meant(values, rowid, columns, ipkColumn);
    StoredSurviveExactly(values, rowid, columns, ipkColumn);
    if b == m {
      forall i | 0 <= i < |values| ensures b[i] == StoredAt(values, rowid, ipkColumn, i) {
        assert m[i] == MeantAt(values, rowid, columns, ipkColumn, i);
      }
      NullFrom(values, rowid, columns, ipkColumn, |values|);
    }
    if LastSurvives(values, rowid, columns, ipkColumn) && NoDefaults(values, columns) {
      forall i | 0 <= i < |columns| ensures b[i] == m[i] {
        assert b[i] == BoundAt(values, rowid, columns, ipkColumn, i) && m[i] == MeantAt(values, rowid, columns, ipkColumn, i);
      }
    }
  }

  /** From the last column on to the left, each default has to be that of the next one, and the last one has none. */
  lemma {:induction false} NullFrom(values: seq<Value>, rowid: int, columns: seq<ColumnInfo>, ipkColumn: nat, i: nat)
    requires |values| <= i <= |columns|
    requires Bound(values, rowid, columns, ipkColumn) == Meant(values, rowid, columns, ipkColumn)
    ensures forall k :: i <= k < |columns| ==> columns[k].default == None || columns[k].default == Some(Null)
    decreases |columns| - i
  {
    if i < |columns| {
      NullFrom(values, rowid, columns, ipkColumn, i + 1);
      assert Bound(values, rowid, columns, ipkColumn)[i] == BoundAt(values, rowid, columns, ipkColumn, i);
      assert Meant(values, rowid, columns, ipkColumn)[i] == MeantAt(values, rowid, columns, ipkColumn, i);
    }
  }

  /** t(a, b DEFAULT 5), and the row (1) stored before column b was added: inserted as (5, NULL). */
  lemma {:induction false} DefaultOverwrites()
    ensures
      var columns := [ColumnInfo(false, false, None), ColumnInfo(false, false, Some(Integer(5)))];
      var values := [Integer(1)];
      && !Corrupted(values, columns)
      && Bound(values, 1, columns, 0) == [Integer(5), Null] && Meant(values, 1, columns, 0) == [Integer(1), Integer(5)]
  {
  }

  /** The definition of the table allows the row: an INTEGER PRIMARY KEY is stored as NULL. */
  predicate Allowed(values: seq<Value>, columns: seq<ColumnInfo>, ipkColumn: nat) {
    |values| <= |columns|
    && forall i :: 0 <= i < |values| ==> !Misfit(values[i], columns[i]) || (values[i].Null? && ipkColumn == i + 1)
  }

  /** The key is declared NOT NULL, and stored as NULL. */
  predicate KeyIsNull(values: seq<Value>, columns: seq<ColumnInfo>, ipkColumn: nat) {
    0 < ipkColumn <= |values| && ipkColumn <= |columns| && columns[ipkColumn - 1].notNull && values[ipkColumn - 1].Null?
  }

  /** A row that the definition allows is rejected exactly if it has a key that is declared NOT NULL: NULL is looked for
      before the key is. A row with values in the wrong place is always rejected. */
  lemma {:induction false} RejectedExactly(values: seq<Value>, columns: seq<ColumnInfo>, ipkColumn: nat)
    ensures Corrupted(values, columns) <==> !Allowed(values, columns, ipkColumn) || KeyIsNull(values, columns, ipkColumn)
  {
    if KeyIsNull(values, columns, ipkColumn) && |values| <= |columns| {
      assert Misfit(values[ipkColumn - 1], columns[ipkColumn - 1]);
    }
  }

  /** A row that lacks no column is inserted as it is stored, but for a NULL in the key column, which becomes the rowid. */
  lemma {:induction false} WholeRowIsBound(values: seq<Value>, rowid: int, columns: seq<ColumnInfo>, ipkColumn: nat)
    requires |values| == |columns|
    ensures Bound(values, rowid, columns, ipkColumn) == Meant(values, rowid, columns, ipkColumn)
         == if 0 < ipkColumn <= |values| && values[ipkColumn - 1] == Null then values[ipkColumn - 1 := Integer(rowid)]
            else values
  {
    var b, m := Bound(values, rowid, columns, ipkColumn), Meant(values, rowid, columns, ipkColumn);
    forall i | 0 <= i < |values|
      ensures b[i] == m[i] == if i == ipkColumn - 1 && values[i] == Null then Integer(rowid) else values[i]
    {
      assert b[i] == BoundAt(values, rowid, columns, ipkColumn, i) && m[i] == MeantAt(values, rowid, columns, ipkColumn, i);
    }
  }

  /** Which rows are rejected, value by value: too many of them, a number for a column of text, or a NULL that is not
      allowed. */
  lemma {:induction false} RejectedByValue(values: seq<Value>, columns: seq<ColumnInfo>)
    ensures Corrupted(values, columns) <==>
            || |values| > |columns|
            || (exists i :: 0 <= i < |values| && values[i] == Null && columns[i].notNull)
            || (exists i :: 0 <= i < |values| && !values[i].Null? && !values[i].Text? && !values[i].Blob?
                            && columns[i].textAffinity)
  {
    if |values| <= |columns| {
      forall i | 0 <= i < |values|
        ensures Misfit(values[i], columns[i]) <==>
                (values[i] == Null && columns[i].notNull)
                || (!values[i].Null? && !values[i].Text? && !values[i].Blob? && columns[i].textAffinity)
      {
      }
      hide Misfit;
    }
  }

  /** What the row callback answers, and when it does nothing else: the cancel flag, a user's callback that wants the row
      ignored, and one that refuses it. */
  lemma {:induction false} TurnedAway(c: Context, row: Arrival)
    ensures row.cancelled ==> Answer(row) == Cancelled && OnRow(c, row) == c
    ensures !row.cancelled && row.answer == Some(Refused(100)) ==> Answer(row) == Good && OnRow(c, row) == c
    ensures !row.cancelled && row.answer.Some? && row.answer.value !in {Good, Refused(100)} ==>
              Answer(row) == row.answer.value && OnRow(c, row) == c
    ensures !row.cancelled && (row.answer == None || row.answer == Some(Good)) ==> Answer(row) == Good
    ensures !row.cancelled && (row.answer == None || row.answer == Some(Good)) ==>
              OnRow(c, row).success + OnRow(c, row).fail == c.success + c.fail + 1
  {
  }

  // ----- all tables

  /** A table in sqlite_master. `creates`: whether its CREATE statement is executed, and succeeds. `walk`: the rows and
      the answer of the page walk from its root page, if it has one. `cancelled`: the cancel flag before it. */
  datatype Job = Job(cancelled: bool, creates: Option<bool>, table: Table, walk: Option<Walk>)

  datatype Walk = Walk(rows: seq<Arrival>, code: Code)

  function OnRows(c: Context, rows: seq<Arrival>): Context
    decreases |rows|
  {
    if rows == [] then c else OnRows(OnRow(c, rows[0]), rows[1..])
  }

  function Creating(c: Context, creates: Option<bool>): Context {
    match creates
    case None => c
    case Some(ok) => if ok then c.(success := c.success + 1, log := c.log + [Create]) else Failing(c)
  }

  function Finish(c: Context, code: Code): Context {
    if c.prepared then c.(prepared := false, log := c.log + [if code == Cancelled then Rollback else Commit]) else c
  }

  function OneTable(c: Context, job: Job): Context {
    var created := Creating(c, job.creates);
    match job.walk
    case None => created
    case Some(walk) => Finish(OnRows(created.(cursor := Some(job.table)), walk.rows), walk.code)
  }

  predicate Stops(job: Job) {
    job.walk.Some? && job.walk.value.code == Cancelled
  }

  datatype Result = Result(context: Context, cancelled: bool)

  function AllTables(c: Context, jobs: seq<Job>): Result
    decreases |jobs|
  {
    if jobs == [] then Result(c, false)
    else if jobs[0].cancelled then Result(c, true)
    else
      var next := OneTable(c, jobs[0]);
      if Stops(jobs[0]) then Result(next, true) else AllTables(next, jobs[1..])
  }

  // ----- indexes, and the whole output

  /** An entry of sqlite_master as the last loop sees it: the cancel flag before it, whether it is an index, and whether
      its CREATE statement succeeds. */
  datatype Index = Index(cancelled: bool, isIndex: bool, created: bool)

  function AllIndexes(c: Context, indexes: seq<Index>): Result
    decreases |indexes|
  {
    if indexes == [] then Result(c, false)
    else if indexes[0].cancelled then Result(c, true)
    else AllIndexes(if indexes[0].isIndex then Creating(c, Some(indexes[0].created)) else c, indexes[1..])
  }

  /** What sqliterk_output_cb is given: the entries for its two loops, and whether it is to create anything at all. */
  datatype Request = Request(jobs: seq<Job>, creating: bool, indexes: seq<Index>)

  function Everything(c: Context, request: Request): Result {
    var tables := AllTables(c, request.jobs);
    if tables.cancelled || !request.creating then tables else AllIndexes(tables.context, request.indexes)
  }

  const Start := Context(false, None, 0, 0, [])

  /** The code returned: something was output, or nothing could be. */
  function CodeOf(r: Result): Code {
    if r.cancelled then Cancelled else if r.context.success == 0 then Damaged else Good
  }

  // ----- the same, as the source does it

  /** struct sqliterk_output_ctx */
  class Output {
    var prepared: bool
    var cursor: Option<Table>
    var successCount: nat
    var failCount: nat
    var log: seq<Sql>

    ghost function Contents(): Context
      reads this
    {
      Context(prepared, cursor, successCount, failCount, log)
    }

    constructor ()
      ensures Contents() == Start
    {
      prepared, cursor, successCount, failCount, log := false, None, 0, 0, [];
    }

    method Execute(sql: Sql)
      modifies this`log
      ensures log == old(log) + [sql]
    {
      log := log + [sql];
    }

    /** The two binding loops; None for a value that its column does not allow. The second loop goes on with the
        counter of the first, which counts columns from zero, and binds to parameters, which count from one. */
    method Bind(row: Arrival, columns: seq<ColumnInfo>, ipkColumn: nat) returns (r: Option<seq<Value>>)
      requires |row.values| <= |columns|
      ensures r == if Corrupted(row.values, columns) then None
                   else Some(Bound(row.values, row.rowid, columns, ipkColumn))
    {
      hide Misfit;
      var bindings := new Value[|columns|](_ => Null);
      var i := 0;
      while i < |row.values|
        invariant 0 <= i <= |row.values|
        invariant forall k :: 0 <= k < i ==> !Misfit(row.values[k], columns[k])
        invariant forall k :: 0 <= k < |columns| ==>
                    bindings[k] == if k < i then StoredAt(row.values, row.rowid, ipkColumn, k) else Null
      {
        if Misfit(row.values[i], columns[i]) {
          return None;
        }
        bindings[i] := if row.values[i].Null? && ipkColumn == i + 1 then Integer(row.rowid) else row.values[i];
        i := i + 1;
      }
      while i < |columns|
        invariant |row.values| <= i <= |columns|
        invariant forall k :: 0 <= k < |columns| ==>
                    bindings[k] == if k + 1 < i then BoundAt(row.values, row.rowid, columns, ipkColumn, k)
                                   else if k < |row.values| then StoredAt(row.values, row.rowid, ipkColumn, k) else Null
      {
        if columns[i].default.Some? && i > 0 {
          bindings[i - 1] := columns[i].default.value;
        }
        i := i + 1;
      }
      assert bindings[..] == Bound(row.values, row.rowid, columns, ipkColumn);
      return Some(bindings[..]);
    }

    /** table_onParseColumn */
    method OnParseColumn(row: Arrival) returns (code: Code)
      modifies this
      ensures Contents() == OnRow(old(Contents()), row) && code == Answer(row)
    {
      hide Bound, Corrupted;
      if row.cancelled {
        return Cancelled;
      }
      if row.answer.Some? && row.answer.value != Good {
        return if row.answer.value == IGNORE then Good else row.answer.value;
      }
      code := Good;
      if !prepared {
        if cursor == None {
          failCount := failCount + 1;
          return;
        }
        if cursor.value.columns == None || cursor.value.columns.value == [] {
          cursor := None;
          failCount := failCount + 1;
          return;
        }
        Execute(Begin);
        prepared := true;
      }
      if cursor == None || cursor.value.columns == None {
        failCount := failCount + 1;
        return;
      }
      var columns := cursor.value.columns.value;
      if |row.values| > |columns| {
        TooManyValues(row.values, columns);
        failCount := failCount + 1;
        return;
      }
      var bindings := Bind(row, columns, cursor.value.ipkColumn);
      if bindings == None {
        failCount := failCount + 1;
        return;
      }
      if !row.inserted {
        failCount := failCount + 1;
        return;
      }
      Execute(Insert(bindings.value));
      successCount := successCount + 1;
      if successCount % 256 == 0 {
        Execute(Commit);
        Execute(Begin);
      }
    }

    /** The table loop of sqliterk_output_cb; answers whether the output was cancelled. */
    method OutputTables(jobs: seq<Job>) returns (cancelled: bool)
      modifies this
      ensures Result(Contents(), cancelled) == AllTables(old(Contents()), jobs)
    {
      hide OnRow, Creating, Finish;
      var i := 0;
      assert jobs[0..] == jobs;
      while i < |jobs|
        invariant 0 <= i <= |jobs|
        invariant AllTables(old(Contents()), jobs) == AllTables(Contents(), jobs[i..])
      {
        assert jobs[i..][0] == jobs[i] && jobs[i..][1..] == jobs[i + 1..];
        if jobs[i].cancelled {
          return true;
        }
        OutputTable(jobs[i]);
        if Stops(jobs[i]) {
          return true;
        }
        i := i + 1;
      }
      assert jobs[i..] == [];
      return false;
    }

    /** The last loop of sqliterk_output_cb. */
    method OutputIndexes(indexes: seq<Index>) returns (cancelled: bool)
      modifies this
      ensures Result(Contents(), cancelled) == AllIndexes(old(Contents()), indexes)
    {
      var i := 0;
      assert indexes[0..] == indexes;
      while i < |indexes|
        invariant 0 <= i <= |indexes|
        invariant AllIndexes(old(Contents()), indexes) == AllIndexes(Contents(), indexes[i..])
      {
        assert indexes[i..][0] == indexes[i] && indexes[i..][1..] == indexes[i + 1..];
        if indexes[i].cancelled {
          return true;
        }
        if indexes[i].isIndex {
          if indexes[i].created {
            Execute(Create);
            successCount := successCount + 1;
          } else {
            failCount := failCount + 1;
          }
        }
        i := i + 1;
      }
      assert indexes[i..] == [];
      return false;
    }

    /** sqliterk_output_cb */
    method OutputAll(request: Request) returns (code: Code)
      requires Contents() == Start
      modifies this
      ensures Contents() == Everything(Start, request).context && code == CodeOf(Everything(Start, request))
    {
      hide AllTables, AllIndexes;
      var cancelled := OutputTables(request.jobs);
      if !cancelled && request.creating {
        cancelled := OutputIndexes(request.indexes);
      }
      if cancelled {
        return Cancelled;
      }
      return if successCount == 0 then Damaged else Good;
    }

    method OutputTable(job: Job)
      modifies this
      ensures Contents() == OneTable(old(Contents()), job)
    {
      hide OnRow;
      if job.creates == Some(true) {
        Execute(Create);
        successCount := successCount + 1;
      } else if job.creates == Some(false) {
        failCount := failCount + 1;
      }
      if job.walk == None {
        return;
      }
      cursor := Some(job.table);
      ghost var before := Contents();
      var rows := job.walk.value.rows;
      assert rows[0..] == rows;
      var i := 0;
      while i < |rows|
        invariant 0 <= i <= |rows|
        invariant OnRows(before, rows) == OnRows(Contents(), rows[i..])
      {
        assert rows[i..][0] == rows[i] && rows[i..][1..] == rows[i + 1..];
        var code := OnParseColumn(rows[i]);
        i := i + 1;
      }
      assert rows[i..] == [];
      if prepared {
        Execute(if job.walk.value.code == Cancelled then Rollback else Commit);
        prepared := false;
      }
    }
  }

  // ----- what the database makes of the statements

  /** `pending`: rows in the open transaction; `lost`: rows rolled back. `Broken`: a transaction begun inside another, or
      ended or written to outside of one. */
  datatype Ledger = Broken | Ledger(open: bool, pending: nat, durable: nat, lost: nat)

  function Step(l: Ledger, sql: Sql): Ledger {
    if l.Broken? then Broken
    else match sql
      case Begin => if l.open then Broken else l.(open := true)
      case Commit => if l.open then Ledger(false, 0, l.durable + l.pending, l.lost) else Broken
      case Rollback => if l.open then Ledger(false, 0, l.durable, l.lost + l.pending) else Broken
      case Create => if l.open then Broken else l.(durable := l.durable + 1)
      case Insert(_) => if l.open then l.(pending := l.pending + 1) else Broken
  }

  function Replay(log: seq<Sql>): Ledger {
    if log == [] then Ledger(false, 0, 0, 0) else Step(Replay(log[..|log| - 1]), log[|log| - 1])
  }

  /** The rows rolled back. */
  function Lost(log: seq<Sql>): nat {
    if Replay(log).Ledger? then Replay(log).lost else 0
  }

  lemma {:induction false} ReplayNext(log: seq<Sql>, sql: Sql)
    ensures Replay(log + [sql]) == Step(Replay(log), sql)
  {
    assert (log + [sql])[..|log|] == log;
  }

  /** Transactions alternate and are open exactly while a statement is prepared; every success is durable, pending or
      lost; fewer than 256 rows are ever pending. */
  ghost predicate Sound(c: Context) {
    var l := Replay(c.log);
    l.Ledger? && l.open == c.prepared && (!l.open ==> l.pending == 0)
    && l.durable + l.pending + l.lost == c.success && l.pending <= c.success % 256
  }

  lemma {:induction false} SoundIsLedger(c: Context)
    requires Sound(c)
    ensures Replay(c.log).Ledger?
  {
    hide Replay;
  }

  lemma {:induction false} RowIsSound(c: Context, row: Arrival)
    requires Sound(c)
    ensures Sound(OnRow(c, row)) && Replay(OnRow(c, row).log).lost == Replay(c.log).lost
  {
    hide Corrupted, Bound, Replay;
    ReplayNext(c.log, Begin);
    var p := Prepare(c);
    if OnRow(c, row).success == p.success + 1 {
      var insert := Insert(Bound(row.values, row.rowid, p.cursor.value.columns.value, p.cursor.value.ipkColumn));
      ReplayNext(p.log, insert);
      ReplayNext(p.log + [insert], Commit);
      ReplayNext(p.log + [insert] + [Commit], Begin);
    }
  }

  /** A row that counts moves exactly one counter, by one; any other changes nothing at all. */
  lemma {:induction false} RowIsCountedOnce(c: Context, row: Arrival)
    ensures var d := OnRow(c, row);
            if Counted(row) then
              (d.success == c.success + 1 && d.fail == c.fail) || (d.success == c.success && d.fail == c.fail + 1)
            else d == c
  {
  }

  function CountedRows(rows: seq<Arrival>): nat {
    if rows == [] then 0 else (if Counted(rows[0]) then 1 else 0) + CountedRows(rows[1..])
  }

  lemma {:induction false} RowsAreSound(c: Context, rows: seq<Arrival>)
    requires Sound(c)
    ensures Sound(OnRows(c, rows)) && Replay(OnRows(c, rows).log).lost == Replay(c.log).lost
    ensures OnRows(c, rows).success + OnRows(c, rows).fail == c.success + c.fail + CountedRows(rows)
    decreases |rows|
  {
    hide OnRow, Sound, Counted, Replay;
    if rows != [] {
      RowIsSound(c, rows[0]);
      RowIsCountedOnce(c, rows[0]);
      RowsAreSound(OnRow(c, rows[0]), rows[1..]);
    }
  }

  function JobRows(job: Job): nat {
    (if job.creates.Some? then 1 else 0) + (if job.walk.Some? then CountedRows(job.walk.value.rows) else 0)
  }

  lemma {:induction false} TableIsSound(c: Context, job: Job)
    requires Sound(c) && !c.prepared
    ensures var d := OneTable(c, job);
            Sound(d) && !d.prepared && d.success + d.fail == c.success + c.fail + JobRows(job)
            && Replay(c.log).lost <= Replay(d.log).lost < Replay(c.log).lost + 256
            && (!Stops(job) ==> Replay(d.log).lost == Replay(c.log).lost)
  {
    hide OnRows, Replay, CountedRows;
    ReplayNext(c.log, Create);
    var created := Creating(c, job.creates);
    if job.walk.Some? {
      var begun := created.(cursor := Some(job.table));
      RowsAreSound(begun, job.walk.value.rows);
      var last := OnRows(begun, job.walk.value.rows);
      ReplayNext(last.log, if job.walk.value.code == Cancelled then Rollback else Commit);
    }
  }

  /** The successes since the last commit, of `success` in all, when the transaction began after `start` of them: it is
      committed whenever there are 256 more. */
  function Uncommitted(start: nat, success: nat): int {
    if success / 256 == start / 256 then success - start else success % 256
  }

  /** While rows come in, exactly those are pending. */
  ghost predicate Pends(c: Context, start: nat) {
    && Replay(c.log).Ledger? && start <= c.success
    && Replay(c.log).pending == Uncommitted(start, c.success) && (!c.prepared ==> c.success == start)
  }

  lemma {:induction false} NextUncommitted(start: nat, success: nat)
    requires start <= success
    ensures Uncommitted(start, success + 1) == if (success + 1) % 256 == 0 then 0 else Uncommitted(start, success) + 1
  {
  }

  lemma {:induction false} SuccessPends(c: Context, values: seq<Value>, start: nat)
    requires c.prepared && Pends(c, start) && Replay(c.log).open
    ensures Pends(Succeeding(c, values), start)
  {
    NextUncommitted(start, c.success);
    hide Replay, Uncommitted;
    ReplayNext(c.log, Insert(values));
    ReplayNext(c.log + [Insert(values)], Commit);
    ReplayNext(c.log + [Insert(values)] + [Commit], Begin);
  }

  lemma {:induction false} PreparedPends(c: Context, start: nat)
    requires Sound(c) && Pends(c, start)
    ensures Pends(Prepare(c), start) && (Prepare(c).prepared ==> Replay(Prepare(c).log).open)
  {
    hide Replay;
    ReplayNext(c.log, Begin);
  }

  lemma {:induction false} RowPends(c: Context, row: Arrival, start: nat)
    requires Sound(c) && Pends(c, start)
    ensures Pends(OnRow(c, row), start)
  {
    PreparedPends(c, start);
    hide Corrupted, Bound, Replay, Sound, Succeeding, Uncommitted;
    var p := Prepare(c);
    if p.prepared && p.cursor.Some? && p.cursor.value.columns.Some? {
      SuccessPends(p, Bound(row.values, row.rowid, p.cursor.value.columns.value, p.cursor.value.ipkColumn), start);
    }
  }

  lemma {:induction false} RowsPend(c: Context, rows: seq<Arrival>, start: nat)
    requires Sound(c) && Pends(c, start)
    ensures Pends(OnRows(c, rows), start)
    decreases |rows|
  {
    hide OnRow, Sound, Pends, Replay;
    if rows != [] {
      RowIsSound(c, rows[0]);
      RowPends(c, rows[0], start);
      RowsPend(OnRow(c, rows[0]), rows[1..], start);
    }
  }

  /** What a cancelled walk costs: exactly the rows of that table since the last commit. */
  lemma {:induction false} LostExactly(c: Context, job: Job)
    requires Sound(c) && !c.prepared && job.walk.Some?
    ensures
      var start := c.success + (if job.creates == Some(true) then 1 else 0);
      Lost(OneTable(c, job).log) == Lost(c.log)
        + (if job.walk.value.code == Cancelled then Uncommitted(start, OneTable(c, job).success) else 0)
  {
    hide OnRows, Replay;
    ReplayNext(c.log, Create);
    var created := Creating(c, job.creates);
    var begun := created.(cursor := Some(job.table));
    RowsAreSound(begun, job.walk.value.rows);
    RowsPend(begun, job.walk.value.rows, created.success);
    var last := OnRows(begun, job.walk.value.rows);
    ReplayNext(last.log, if job.walk.value.code == Cancelled then Rollback else Commit);
  }

  /** What has been counted once the loop is through. */
  function AllRows(jobs: seq<Job>): nat
    decreases |jobs|
  {
    if jobs == [] || jobs[0].cancelled then 0
    else JobRows(jobs[0]) + (if Stops(jobs[0]) then 0 else AllRows(jobs[1..]))
  }

  /** Over any run: no transaction is left open or begun twice, every counted row and CREATE statement has moved exactly
      one counter, all successes are durable unless a walk was cancelled, and then at most 255 of them are not. */
  lemma {:induction false} OutputConserves(c: Context, jobs: seq<Job>)
    requires Sound(c) && !c.prepared && Replay(c.log).lost == 0
    ensures var r := AllTables(c, jobs);
            var l := Replay(r.context.log);
            Sound(r.context) && !r.context.prepared && l.Ledger? && !l.open
            && r.context.success + r.context.fail == c.success + c.fail + AllRows(jobs)
            && l.durable + l.lost == r.context.success && l.lost <= 255 && (!r.cancelled ==> l.lost == 0)
    decreases |jobs|
  {
    hide OneTable, JobRows, Replay;
    if jobs != [] && !jobs[0].cancelled {
      TableIsSound(c, jobs[0]);
      if !Stops(jobs[0]) {
        OutputConserves(OneTable(c, jobs[0]), jobs[1..]);
      }
    }
  }

  function IndexRows(indexes: seq<Index>): nat
    decreases |indexes|
  {
    if indexes == [] || indexes[0].cancelled then 0
    else (if indexes[0].isIndex then 1 else 0) + IndexRows(indexes[1..])
  }

  lemma {:induction false} CreatingIsSound(c: Context, created: bool)
    requires Sound(c) && !c.prepared
    ensures
      var d := Creating(c, Some(created));
      Sound(d) && !d.prepared && d.success + d.fail == c.success + c.fail + 1 && Replay(d.log).lost == Replay(c.log).lost
  {
    hide Replay;
    ReplayNext(c.log, Create);
  }

  lemma {:induction false} IndexesAreSound(c: Context, indexes: seq<Index>)
    requires Sound(c) && !c.prepared
    ensures
      var r := AllIndexes(c, indexes);
      Sound(r.context) && !r.context.prepared && Replay(r.context.log).lost == Replay(c.log).lost
      && r.context.success + r.context.fail == c.success + c.fail + IndexRows(indexes)
    decreases |indexes|
  {
    hide Sound, Replay, Creating;
    if indexes != [] && !indexes[0].cancelled {
      if indexes[0].isIndex {
        CreatingIsSound(c, indexes[0].created);
        IndexesAreSound(Creating(c, Some(indexes[0].created)), indexes[1..]);
      } else {
        IndexesAreSound(c, indexes[1..]);
      }
    }
  }

  lemma {:induction false} StartsSound()
    ensures Sound(Start) && Replay(Start.log).lost == 0
  {
  }

  /** Rows and CREATE statements that reach a counter, those of the indexes included. */
  function EveryRow(request: Request): nat {
    AllRows(request.jobs)
    + (if request.creating && !AllTables(Start, request.jobs).cancelled then IndexRows(request.indexes) else 0)
  }

  lemma {:induction false} SoundLedger(c: Context)
    requires Sound(c) && !c.prepared
    ensures
      var l := Replay(c.log);
      l.Ledger? && !l.open && l.durable + l.lost == c.success
  {
    hide Replay;
  }

  /** Over a whole output: no transaction is left open or begun twice, every counted row and CREATE statement has moved
      exactly one counter, all successes are durable unless a walk was cancelled, and then at most 255 of them are not;
      it answers Good only if something is in the database. */
  lemma {:induction false} WholeOutputConserves(request: Request)
    ensures var r := Everything(Start, request);
            var l := Replay(r.context.log);
            l.Ledger? && !l.open && r.context.success + r.context.fail == EveryRow(request)
            && l.durable + l.lost == r.context.success && l.lost <= 255 && (!r.cancelled ==> l.lost == 0)
            && (CodeOf(r) == Good <==> !r.cancelled && l.durable > 0)
  {
    hide AllTables, AllIndexes, AllRows, IndexRows, Sound, Replay;
    StartsSound();
    OutputConserves(Start, request.jobs);
    var tables := AllTables(Start, request.jobs);
    if !tables.cancelled && request.creating {
      IndexesAreSound(tables.context, request.indexes);
    }
    SoundLedger(Everything(Start, request).context);
  }

  /** When the output is cancelled: exactly if the flag is seen before some table, or a walk reports a cancel, or else the
      flag is seen before some entry of the index loop, if there is one. */
  lemma {:induction false} CancelledExactly(request: Request)
    ensures Everything(Start, request).cancelled <==>
            || (exists i :: 0 <= i < |request.jobs| && HasCancel(request.jobs[i]))
            || (request.creating && exists i :: 0 <= i < |request.indexes| && request.indexes[i].cancelled)
    ensures CodeOf(Everything(Start, request)) == Cancelled <==> Everything(Start, request).cancelled
  {
    hide AllTables, AllIndexes, HasCancel;
    TablesCancelled(Start, request.jobs);
    IndexesCancelled(AllTables(Start, request.jobs).context, request.indexes);
  }

  predicate HasCancel(job: Job) {
    job.cancelled || (job.walk.Some? && job.walk.value.code == Cancelled)
  }

  lemma {:induction false} TablesCancelled(c: Context, jobs: seq<Job>)
    ensures AllTables(c, jobs).cancelled <==> exists i :: 0 <= i < |jobs| && HasCancel(jobs[i])
    decreases |jobs|
  {
    hide OneTable;
    if jobs != [] && !HasCancel(jobs[0]) {
      TablesCancelled(OneTable(c, jobs[0]), jobs[1..]);
      hide HasCancel;
      if i :| 0 <= i < |jobs| && HasCancel(jobs[i]) {
        assert jobs[1..][i - 1] == jobs[i];
      }
    }
  }

  lemma {:induction false} IndexesCancelled(c: Context, indexes: seq<Index>)
    ensures AllIndexes(c, indexes).cancelled <==> exists i :: 0 <= i < |indexes| && indexes[i].cancelled
    decreases |indexes|
  {
    hide Creating;
    if indexes != [] && !indexes[0].cancelled {
      var next := if indexes[0].isIndex then Creating(c, Some(indexes[0].created)) else c;
      IndexesCancelled(next, indexes[1..]);
      if i :| 0 <= i < |indexes| && indexes[i].cancelled {
        assert indexes[1..][i - 1] == indexes[i];
      }
    }
  }
}
