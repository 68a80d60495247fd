/** What holds of the page walk on every file, however damaged, and for every callback. */
module RepairSafety {
  import opened Options
  import opened RepairBytes
  import opened RepairRecord
  import opened RepairPages
  import opened RepairPayload
  import opened RepairWalk

  /** The row is the record of some cell of some leaf table page. */
  ghost predicate Genuine(db: Db, row: Row) {
    PageView(db, row.page).Rows?
    && exists i :: 0 <= i < |PageView(db, row.page).pointers| && CellGives(db, PageView(db, row.page).pointers[i], row)
  }

  predicate CellGives(db: Db, pointer: int, row: Row) {
    var page := Acquire(db, row.page);
    page.Page? && ReadCell(db, page.data, pointer) == CellRead(row.overflow, row.rowid, Accepted(row.values))
  }

  /** Rows are only ever added, and only genuine ones. */
  ghost predicate Adds(db: Db, before: seq<Row>, after: seq<Row>) {
    before <= after && forall i :: |before| <= i < |after| ==> Genuine(db, after[i])
  }

  lemma {:induction false} AddsMore(db: Db, a: seq<Row>, b: seq<Row>, c: seq<Row>)
    requires Adds(db, a, b) && Adds(db, b, c)
    ensures Adds(db, a, c)
  {
    hide Genuine;
    forall i | |a| <= i < |c| ensures Genuine(db, c[i]) {
      if i < |b| {
        assert c[i] == b[i];
      }
    }
  }

  lemma {:induction false} CellAdds(env: Env, st: State, n: int, i: nat)
    requires Acquire(env.db, n).Page? && PageView(env.db, n).Rows? && i < |PageView(env.db, n).pointers|
    ensures Adds(env.db, st.rows, ParseCell(env, st, n, PageView(env.db, n).pointers[i]).st.rows)
  {
    hide PageView, ReadCell, Acquire, TouchAll, DiscardAll;
    var db := env.db;
    var pointer := PageView(db, n).pointers[i];
    var cell := ReadCell(db, Acquire(db, n).data, pointer);
    if cell.record.Accepted? {
      assert CellGives(db, pointer, Row(n, cell.rowid, cell.record.values, cell.touched));
    }
  }

  lemma {:induction false} CellsAdd(env: Env, st: State, n: int, i: nat)
    requires Acquire(env.db, n).Page? && PageView(env.db, n).Rows? && i <= |PageView(env.db, n).pointers|
    ensures Adds(env.db, st.rows, ParseCells(env, st, n, PageView(env.db, n).pointers[i..]).st.rows)
    decreases |PageView(env.db, n).pointers| - i
  {
    hide PageView, ParseCell, Acquire, Genuine;
    var pointers := PageView(env.db, n).pointers;
    if i < |pointers| {
      CellAdds(env, st, n, i);
      var r := ParseCell(env, st, n, pointers[i]);
      assert pointers[i..][1..] == pointers[i + 1..];
      if r.code == Good {
        CellsAdd(env, r.st, n, i + 1);
        AddsMore(env.db, st.rows, r.st.rows, ParseCells(env, r.st, n, pointers[i + 1..]).st.rows);
      }
    }
  }

  /** No walk of any file makes up a row or takes one back. */
  lemma {:induction false} WalkAddsGenuineRows(env: Env, st: State, n: int, fuel: nat)
    requires ParsePage(env, st, n, fuel).Walked?
    ensures Adds(env.db, st.rows, ParsePage(env, st, n, fuel).st.rows)
    decreases fuel, 1, 0
  {
    hide PageView, ParseCells, ParseChildren, Acquire, Genuine;
    var db := env.db;
    var view := PageView(db, n);
    if n <= |db.pages| && BeginCode(st.status, n) == Good {
      ViewOfWholePage(db, n);
      if view.Inner? {
        ChildrenAddGenuineRows(env, Begun(st, n), view.children, fuel - 1);
      } else if view.Rows? && !env.skipRows {
        assert view.pointers[0..] == view.pointers;
        CellsAdd(env, Begun(st, n), n, 0);
      }
    }
  }

  lemma {:induction false} ChildrenAddGenuineRows(env: Env, st: State, kids: seq<int>, fuel: nat)
    requires ParseChildren(env, st, kids, fuel).Walked?
    ensures Adds(env.db, st.rows, ParseChildren(env, st, kids, fuel).st.rows)
    decreases fuel, 2, |kids|
  {
    hide ParsePage, Genuine;
    if kids != [] {
      WalkAddsGenuineRows(env, st, kids[0], fuel);
      var r := ParsePage(env, st, kids[0], fuel);
      if r.code != Cancelled {
        ChildrenAddGenuineRows(env, r.st, kids[1..], fuel);
        AddsMore(env.db, st.rows, r.st.rows, ParseChildren(env, r.st, kids[1..], fuel).st.rows);
      }
    }
  }

  /** The status a page is left in tells the result of parsing it, unless that was cancelled. A page whose row the
      callback refused is first set to discarded, and then to invalid: the end notification has the last word. */
  lemma {:induction false} StatusTellsResult(env: Env, st: State, n: int, fuel: nat)
    requires ValidNo(env.db, n) && |st.status| == |env.db.pages| && BeginCode(st.status, n) == Good
    requires ParsePage(env, st, n, fuel).Walked? && ParsePage(env, st, n, fuel).code != Cancelled
    ensures var r := ParsePage(env, st, n, fuel);
            Get(r.st.status, n) == if r.code == Good then Checked else if r.code == Damaged then Damage else Invalid
  {
    hide ParseBody;
  }

  /** A refused row marks its overflow pages, and the walk of its leaf stops there. */
  lemma {:induction false} RefusedRowDiscards(env: Env, st: State, n: int, pointer: int, rest: seq<int>, k: int)
    requires Acquire(env.db, n).Page? && |st.status| == |env.db.pages|
    requires ReadCell(env.db, Acquire(env.db, n).data, pointer).record.Accepted?
    requires var cell := ReadCell(env.db, Acquire(env.db, n).data, pointer);
             var code := env.reply(st.rows, Row(n, cell.rowid, cell.record.values, cell.touched));
             code != Good && code != Cancelled && ValidNo(env.db, k) && (k == n || k in cell.touched)
    ensures var r := ParseCells(env, st, n, [pointer] + rest);
            r.code != Good && |r.st.rows| == |st.rows| + 1 && Get(r.st.status, k) == Discarded
  {
    hide ReadCell, TouchAll;
    var cell := ReadCell(env.db, Acquire(env.db, n).data, pointer);
    var touched := TouchAll(env.db, st.status, cell.touched);
    DiscardAllElsewhere(Put(touched, n, Discarded), cell.touched, k);
    var pointers := [pointer] + rest;
    assert pointers[0] == pointer;
  }
}
