/** What becomes of a row callback that asks to stop: the walk reports it from a leaf page only, and the output, which
    rolls back on such a report, commits above an interior page. */
module RepairCancel {
  import opened Options
  import opened Bytes
  import opened RepairBytes
  import opened RepairRecord
  import opened RepairPages
  import opened RepairPayload
  import opened RepairWalk
  import opened RepairStack
  import opened RepairSafety
  import opened RepairTree
  import RepairOutput
  import Example = RepairExample

  // ----- the walk

  /** The callback answered Cancelled to row `i`. */
  predicate CancelsAt(env: Env, rows: seq<Row>, i: nat)
    requires i < |rows|
  {
    env.reply(rows[..i], rows[i]) == Cancelled
  }

  /** It did so to one of the rows that came since. */
  predicate Cancels(env: Env, before: seq<Row>, after: seq<Row>) {
    exists i :: |before| <= i < |after| && CancelsAt(env, after, i)
  }

  /** A leaf reports a cancel exactly if the callback asked for one, and then no row comes after it. */
  lemma {:induction false} CellsReportCancel(env: Env, st: State, n: int, pointers: seq<int>)
    requires Acquire(env.db, n).Page?
    ensures var r := ParseCells(env, st, n, pointers);
            && st.rows <= r.st.rows && (r.code == Cancelled <==> Cancels(env, st.rows, r.st.rows))
            && (r.code == Cancelled ==> CancelsAt(env, r.st.rows, |r.st.rows| - 1))
    decreases |pointers|
  {
    hide ReadCell, Acquire, TouchAll, DiscardAll;
    if pointers != [] {
      FailuresAreErrors(env.db, Acquire(env.db, n).data, pointers[0]);
      var r := ParseCell(env, st, n, pointers[0]);
      assert r.st.rows != st.rows ==> r.st.rows[..|st.rows|] == st.rows;
      if r.code == Good {
        CellsReportCancel(env, r.st, n, pointers[1..]);
        var all := ParseCells(env, r.st, n, pointers[1..]).st.rows;
        assert all[..|r.st.rows|] == r.st.rows;
        assert all[..|st.rows|] == r.st.rows[..|st.rows|];
        assert |st.rows| < |r.st.rows| ==> all[|st.rows|] == r.st.rows[|st.rows|];
      } else if r.code == Cancelled {
        assert CancelsAt(env, r.st.rows, |st.rows|);
      }
    }
  }

  /** Any page, on any file: a cancel is reported exactly if the page is a leaf and the callback asked for one. An interior
      page that was begun answers Good, whatever the callback asked for below it. */
  lemma {:induction false} CancelReportedExactly(env: Env, st: State, n: int, fuel: nat)
    requires ParsePage(env, st, n, fuel).Walked?
    ensures
      var r := ParsePage(env, st, n, fuel);
      && (r.code == Cancelled <==> PageView(env.db, n).Rows? && Cancels(env, st.rows, r.st.rows))
      && (r.code == Cancelled ==> CancelsAt(env, r.st.rows, |r.st.rows| - 1))
      && (n <= |env.db.pages| && BeginCode(st.status, n) == Good && IsInner(env.db, n) ==> r.code == Good)
  {
    ViewIsNotCancelled(env.db, n);
    ViewOfWholePage(env.db, n);
    hide PageView, ParseCells, ParseChildren, Acquire;
    var view := PageView(env.db, n);
    if view.Inner? && n <= |env.db.pages| && BeginCode(st.status, n) == Good {
      ChildrenAreGood(env, Begun(st, n), view.children, fuel - 1);
    } else if view.Rows? && Acquire(env.db, n).Page? {
      CellsReportCancel(env, Begun(st, n), n, view.pointers);
    }
  }

  lemma {:induction false} ViewIsNotCancelled(db: Db, n: int)
    ensures PageView(db, n) != Bad(Cancelled)
  {
    hide ReadInt, ReadAll, CellPointers;
  }

  /** Behind a child that reports a cancel no sibling is walked. */
  lemma {:induction false} CancelStopsSiblings(env: Env, st: State, kids: seq<int>, i: nat, fuel: nat)
    requires i < |kids| && After(env, st, kids[..i], fuel).Some?
    requires ParsePage(env, After(env, st, kids[..i], fuel).value, kids[i], fuel).Walked?
    requires ParsePage(env, After(env, st, kids[..i], fuel).value, kids[i], fuel).code == Cancelled
    ensures ParseChildren(env, st, kids, fuel)
         == Walked(ParsePage(env, After(env, st, kids[..i], fuel).value, kids[i], fuel).st, Good)
    decreases i
  {
    hide ParsePage;
    if i > 0 {
      assert kids[..i][1..] == kids[1..][..i - 1] && kids[..i][0] == kids[0];
      CancelStopsSiblings(env, ParsePage(env, st, kids[0], fuel).st, kids[1..], i - 1, fuel);
    }
  }

  /** A leaf that was cancelled stays in status checking, unless it has itself in an overflow chain: no end notification
      takes it out, and it cannot be begun again. */
  lemma {:induction false} CancelledStaysChecking(env: Env, st: State, n: int, fuel: nat)
    requires |st.status| == |env.db.pages| && ParsePage(env, st, n, fuel).Walked?
    requires ParsePage(env, st, n, fuel).code == Cancelled && !LeafTouches(env, n, n)
    ensures Get(ParsePage(env, st, n, fuel).st.status, n) == Checking
  {
    ViewOfWholePage(env.db, n);
    CancelReportedExactly(env, st, n, fuel);
    BeginsToCancel(env, st, n, fuel);
    hide PageView, ParseCells, Acquire, LeafTouches, CellAt, Reached, ParseChildren;
    var pointers := PageView(env.db, n).pointers;
    assert pointers[0..] == pointers;
    CellsLeave(env, Begun(st, n), n, 0);
  }

  lemma {:induction false} BeginsToCancel(env: Env, st: State, n: int, fuel: nat)
    requires ParsePage(env, st, n, fuel).Walked? && ParsePage(env, st, n, fuel).code == Cancelled
    requires PageView(env.db, n).Rows? && Acquire(env.db, n).Page?
    ensures ValidNo(env.db, n) && BeginCode(st.status, n) == Good && !env.skipRows
  {
    hide PageView, ParseCells;
  }

  lemma {:induction false} CellsLeave(env: Env, st: State, n: int, i: nat)
    requires !env.skipRows && PageView(env.db, n).Rows? && i <= |PageView(env.db, n).pointers| && Acquire(env.db, n).Page?
    requires Reached(env.db, n, i) && !LeafTouches(env, n, n)
    requires ParseCells(env, st, n, PageView(env.db, n).pointers[i..]).code == Cancelled
    ensures Get(ParseCells(env, st, n, PageView(env.db, n).pointers[i..]).st.status, n) == Get(st.status, n)
    decreases |PageView(env.db, n).pointers| - i
  {
    hide PageView, ReadCell, Acquire, TouchAll, DiscardAll;
    var pointers := PageView(env.db, n).pointers;
    if i < |pointers| {
      var cell := CellAt(env.db, n, i);
      FailuresAreErrors(env.db, Acquire(env.db, n).data, pointers[i]);
      assert n !in cell.touched;
      TouchAllElsewhere(env.db, st.status, cell.touched, n);
      var r := ParseCell(env, st, n, pointers[i]);
      assert pointers[i..][0] == pointers[i] && pointers[i..][1..] == pointers[i + 1..];
      if r.code == Good {
        CellsLeave(env, r.st, n, i + 1);
      }
    }
  }

  // ----- the statuses

  /** No page gets into status checking. */
  ghost predicate Settled(before: seq<Status>, after: seq<Status>) {
    forall k :: Get(after, k) == Checking ==> Get(before, k) == Checking
  }

  /** A callback that has not asked to stop has not done so on a part of the rows. */
  lemma {:induction false} NotBetween(env: Env, a: seq<Row>, b: seq<Row>, c: seq<Row>)
    requires a <= b <= c && !Cancels(env, a, c)
    ensures !Cancels(env, a, b) && !Cancels(env, b, c)
  {
    forall i: nat | |a| <= i < |b| ensures !CancelsAt(env, b, i) {
      assert !CancelsAt(env, c, i) && c[..i] == b[..i];
    }
  }

  lemma {:induction false} CellsSettle(env: Env, st: State, n: int, pointers: seq<int>)
    requires Acquire(env.db, n).Page?
    ensures Settled(st.status, ParseCells(env, st, n, pointers).st.status)
    decreases |pointers|
  {
    hide ReadCell, Acquire;
    if pointers != [] {
      var cell := ReadCell(env.db, Acquire(env.db, n).data, pointers[0]);
      var touched := TouchAll(env.db, st.status, cell.touched);
      var r := ParseCell(env, st, n, pointers[0]);
      forall k | Get(r.st.status, k) == Checking ensures Get(st.status, k) == Checking {
        TouchAllElsewhere(env.db, st.status, cell.touched, k);
        DiscardAllElsewhere(Put(touched, n, Discarded), cell.touched, k);
        DiscardedIsDiscarded(Put(touched, n, Discarded), cell.touched, k);
      }
      CellsSettle(env, r.st, n, pointers[1..]);
    }
  }

  /** A walk that the callback let go on leaves no page in status checking. */
  lemma {:induction false} PageSettles(env: Env, st: State, n: int, fuel: nat)
    requires ParsePage(env, st, n, fuel).Walked? && !Cancels(env, st.rows, ParsePage(env, st, n, fuel).st.rows)
    ensures Settled(st.status, ParsePage(env, st, n, fuel).st.status)
    decreases fuel, 1, 0
  {
    CancelReportedExactly(env, st, n, fuel);
    ViewOfWholePage(env.db, n);
    hide PageView, ParseCells, ParseChildren, Acquire, Cancels, Settled, Ended;
    var view := PageView(env.db, n);
    SettledAlready(st.status);
    if n <= |env.db.pages| && BeginCode(st.status, n) == Good {
      var begun := Begun(st, n);
      SettledAlready(begun.status);
      if view.Inner? {
        ChildrenSettle(env, begun, view.children, fuel - 1);
      } else if view.Rows? {
        CellsSettle(env, begun, n, view.pointers);
      }
      BracketSettles(st, n, ParseBody(env, begun, n, fuel));
    }
  }

  lemma {:induction false} SettledAlready(st: seq<Status>)
    ensures Settled(st, st)
  {
  }

  lemma {:induction false} BracketSettles(st: State, n: int, r: Walked)
    requires BeginCode(st.status, n) == Good
    requires r.Walked? && r.code != Cancelled && |r.st.status| == |st.status|
    requires Settled(Begun(st, n).status, r.st.status)
    ensures Settled(st.status, Ended(r.st, n, r.code).status)
  {
  }

  lemma {:induction false} ChildrenSettle(env: Env, st: State, kids: seq<int>, fuel: nat)
    requires ParseChildren(env, st, kids, fuel).Walked? && !Cancels(env, st.rows, ParseChildren(env, st, kids, fuel).st.rows)
    ensures Settled(st.status, ParseChildren(env, st, kids, fuel).st.status)
    decreases fuel, 2, |kids|
  {
    hide ParsePage, Cancels, Genuine;
    if kids != [] {
      var r := ParsePage(env, st, kids[0], fuel);
      WalkAddsGenuineRows(env, st, kids[0], fuel);
      if r.code == Cancelled {
        PageSettles(env, st, kids[0], fuel);
      } else {
        ChildrenAddGenuineRows(env, r.st, kids[1..], fuel);
        NotBetween(env, st.rows, r.st.rows, ParseChildren(env, r.st, kids[1..], fuel).st.rows);
        PageSettles(env, st, kids[0], fuel);
        ChildrenSettle(env, r.st, kids[1..], fuel);
      }
    }
  }

  lemma {:induction false} AfterSettles(env: Env, st: State, kids: seq<int>, fuel: nat)
    requires After(env, st, kids, fuel).Some?
    ensures var after := After(env, st, kids, fuel).value;
            st.rows <= after.rows && (!Cancels(env, st.rows, after.rows) ==> Settled(st.status, after.status))
    decreases |kids|
  {
    hide ParsePage, Cancels, Genuine;
    if kids != [] {
      var r := ParsePage(env, st, kids[0], fuel);
      WalkAddsGenuineRows(env, st, kids[0], fuel);
      AfterSettles(env, r.st, kids[1..], fuel);
      var after := After(env, r.st, kids[1..], fuel).value;
      if !Cancels(env, st.rows, after.rows) {
        NotBetween(env, st.rows, r.st.rows, after.rows);
        PageSettles(env, st, kids[0], fuel);
      }
    }
  }

  lemma {:induction false} LookSettles(env: Env, st: State, n: int, path: seq<nat>, fuel: nat)
    requires Look(env, st, n, path, fuel).Some?
    ensures
      var m := Look(env, st, n, path, fuel).value;
      st.rows <= m.st.rows
      && (!Cancels(env, st.rows, m.st.rows) ==>
            forall k :: Get(m.st.status, k) == Checking ==> Get(st.status, k) == Checking || k in Pages(m.stack))
    decreases |path|
  {
    hide PageView, Cancels, After;
    if path != [] {
      var kids := PageView(env.db, n).children;
      var before := After(env, Begun(st, n), kids[..path[0]], fuel - 1).value;
      AfterSettles(env, Begun(st, n), kids[..path[0]], fuel - 1);
      LookSettles(env, before, kids[path[0]], path[1..], fuel - 1);
      var m := Look(env, before, kids[path[0]], path[1..], fuel - 1).value;
      if !Cancels(env, st.rows, m.st.rows) {
        NotBetween(env, st.rows, before.rows, m.st.rows);
      }
    }
  }

  /** StackIsExact for pages of all kinds: as long as the callback has not asked to stop, the pages in status checking are
      exactly those on the recursion stack. */
  lemma {:induction false} StackIsAllChecking(env: Env, st: State, n: int, path: seq<nat>, fuel: nat)
    requires |st.status| == |env.db.pages| && Look(env, st, n, path, fuel).Some?
    requires forall k :: Get(st.status, k) != Checking
    requires !Cancels(env, st.rows, Look(env, st, n, path, fuel).value.st.rows)
    requires Undisturbed(env, Look(env, st, n, path, fuel).value.stack)
    ensures
      var m := Look(env, st, n, path, fuel).value;
      forall k :: Get(m.st.status, k) == Checking <==> k in Pages(m.stack)
  {
    hide Look, IsInner, Undisturbed, Cancels;
    StackIsExact(env, st, n, path, fuel);
    LookSettles(env, st, n, path, fuel);
  }

  // ----- the output

  /** The rows of a walk as they arrive at the output, whose answers are the replies that the walk gets. */
  predicate ArriveAs(env: Env, rows: seq<Row>, arrivals: seq<RepairOutput.Arrival>) {
    |arrivals| == |rows|
    && forall i :: 0 <= i < |rows| ==>
         && arrivals[i].rowid == rows[i].rowid && arrivals[i].values == rows[i].values
         && RepairOutput.Answer(arrivals[i]) == env.reply(rows[..i], rows[i])
  }

  /** What the output knows of a cancel: it stops, and takes back the open transaction, exactly if the table's root page is
      a leaf. Above an interior page it commits and goes on with the next table. */
  lemma {:induction false} OutputStopsExactly(
    env: Env, st: State, n: int, fuel: nat, creates: Option<bool>, table: RepairOutput.Table,
    arrivals: seq<RepairOutput.Arrival>, c: RepairOutput.Context)
    returns (job: RepairOutput.Job)
    requires ParsePage(env, st, n, fuel).Walked? && st.rows == []
    requires ArriveAs(env, ParsePage(env, st, n, fuel).st.rows, arrivals)
    ensures job == RepairOutput.Job(
                     false, creates, table, Some(RepairOutput.Walk(arrivals, ParsePage(env, st, n, fuel).code)))
    ensures
      var stopped := exists i :: 0 <= i < |arrivals| && RepairOutput.Answer(arrivals[i]) == Cancelled;
      var last := RepairOutput.OnRows(RepairOutput.Creating(c, creates).(cursor := Some(table)), arrivals);
      && (RepairOutput.Stops(job) <==> PageView(env.db, n).Rows? && stopped)
      && (last.prepared ==>
            RepairOutput.OneTable(c, job).log
            == last.log + [if PageView(env.db, n).Rows? && stopped then RepairOutput.Rollback else RepairOutput.Commit])
  {
    hide PageView, ParsePage, RepairOutput.OnRows, RepairOutput.Creating, RepairOutput.Answer;
    CancelReportedExactly(env, st, n, fuel);
    var r := ParsePage(env, st, n, fuel);
    job := RepairOutput.Job(false, creates, table, Some(RepairOutput.Walk(arrivals, r.code)));
    if i :| 0 <= i < |arrivals| && RepairOutput.Answer(arrivals[i]) == Cancelled {
      assert CancelsAt(env, r.st.rows, i);
    }
    if i: nat :| i < |r.st.rows| && CancelsAt(env, r.st.rows, i) {
      assert RepairOutput.Answer(arrivals[i]) == Cancelled;
    }
  }

  // ----- a file on which that happens

  /** A callback that takes one row and then asks to stop, on the file of RepairExample. */
  function TakesOne(): Env {
    Env(Example.File(), false, (rows: seq<Row>, row: Row) => if rows == [] then Good else Cancelled)
  }

  function RowOf(rowid: Byte): Row {
    Row(rowid + 2, rowid, [Integer(1)], [])
  }

  /** A leaf with one row on its page. */
  predicate HasRow(db: Db, row: Row, pointer: int) {
    && Acquire(db, row.page).Page? && PageView(db, row.page) == Rows([pointer]) && row.overflow == []
    && ReadCell(db, Acquire(db, row.page).data, pointer) == CellRead([], row.rowid, Accepted(row.values))
  }

  /** What page 2 and its children hold. */
  lemma {:induction false} FileIsSeen()
    ensures |Example.File().pages| == 4 && PageView(Example.File(), 2) == Inner([3, 4])
    ensures HasRow(Example.File(), RowOf(1), 20) && HasRow(Example.File(), RowOf(2), 20)
  {
    hide PageView, Example.LeafPage, Example.RootPage, Acquire, ReadCell, TableLeaf, TableInterior;
    Example.Pages();
    Example.LeafShape(1);
    Example.LeafShape(2);
    Example.CellReads(1);
    Example.CellReads(2);
    LeafIsSeen(Example.File(), 3, [20]);
    LeafIsSeen(Example.File(), 4, [20]);
    Example.RootShape();
    InteriorIsSeen(Example.File(), 2, [16], [3, 4], [1]);
  }

  lemma {:induction false} LeafGives(env: Env, st: State, row: Row, pointer: int, fuel: nat)
    requires HasRow(env.db, row, pointer) && !env.skipRows && BeginCode(st.status, row.page) == Good
    requires env.reply(st.rows, row) == Good || env.reply(st.rows, row) == Cancelled
    ensures
      var r := ParsePage(env, st, row.page, fuel);
      && r.Walked? && r.st.rows == st.rows + [row] && r.code == env.reply(st.rows, row)
      && |r.st.status| == |st.status| && forall k :: k != row.page ==> Get(r.st.status, k) == Get(st.status, k)
  {
    hide PageView, ReadCell;
    var n := row.page;
    var begun := Begun(st, n);
    assert TouchAll(env.db, begun.status, []) == begun.status;
    assert Row(n, row.rowid, row.values, []) == row;
    OneCell(env, begun, n, pointer);
  }

  lemma {:induction false} OneCell(env: Env, st: State, n: int, pointer: int)
    requires Acquire(env.db, n).Page?
    ensures ParseCells(env, st, n, [pointer]) == ParseCell(env, st, n, pointer)
  {
    hide ParseCell, Acquire;
    var r := ParseCell(env, st, n, pointer);
    assert [pointer][1..] == [] && ParseCells(env, r.st, n, []) == Walked(r.st, Good);
  }

  /** Nothing is being parsed, and the table's rows go to the output: the callback is cancelled at the second of the two
      rows. The output commits the first one and does not stop. */
  lemma {:induction false} CommitsDespiteCancel()
    ensures
      var r := ParsePage(TakesOne(), State([Unchecked, Unchecked, Unchecked, Unchecked], []), 2, 1);
      var table := RepairOutput.Table(Some([RepairOutput.ColumnInfo(false, false, None)]), 0);
      var first := RepairOutput.Arrival(false, None, 1, [Integer(1)], true);
      var second := RepairOutput.Arrival(true, None, 2, [Integer(1)], true);
      && r.Walked? && ArriveAs(TakesOne(), r.st.rows, [first, second])
      && var job := RepairOutput.Job(false, None, table, Some(RepairOutput.Walk([first, second], r.code)));
         !RepairOutput.Stops(job)
         && RepairOutput.OneTable(RepairOutput.Start, job).log
            == [RepairOutput.Begin, RepairOutput.Insert([Integer(1)]), RepairOutput.Commit]
  {
    WalkGivesBoth();
    hide ParsePage;
    WritesOne();
  }

  lemma {:induction false} WritesOne()
    ensures
      var table := RepairOutput.Table(Some([RepairOutput.ColumnInfo(false, false, None)]), 0);
      var first := RepairOutput.Arrival(false, None, 1, [Integer(1)], true);
      var second := RepairOutput.Arrival(true, None, 2, [Integer(1)], true);
      var job := RepairOutput.Job(false, None, table, Some(RepairOutput.Walk([first, second], Good)));
      RepairOutput.OneTable(RepairOutput.Start, job).log
      == [RepairOutput.Begin, RepairOutput.Insert([Integer(1)]), RepairOutput.Commit]
  {
    var table := RepairOutput.Table(Some([RepairOutput.ColumnInfo(false, false, None)]), 0);
    var first := RepairOutput.Arrival(false, None, 1, [Integer(1)], true);
    var second := RepairOutput.Arrival(true, None, 2, [Integer(1)], true);
    var c := RepairOutput.Start.(cursor := Some(table));
    assert [first, second][1..] == [second] && [second][1..] == [];
    assert RepairOutput.Bound([Integer(1)], 1, table.columns.value, 0) == [Integer(1)];
    var one := RepairOutput.OnRow(c, first);
    assert one.log == [RepairOutput.Begin, RepairOutput.Insert([Integer(1)])];
    assert RepairOutput.OnRows(one, [second]) == one;
    assert RepairOutput.OnRows(c, [first, second]) == one;
  }

  lemma {:induction false} WalkGivesBoth()
    ensures ParsePage(TakesOne(), State([Unchecked, Unchecked, Unchecked, Unchecked], []), 2, 1).Walked?
    ensures var r := ParsePage(TakesOne(), State([Unchecked, Unchecked, Unchecked, Unchecked], []), 2, 1);
            r.code == Good && r.st.rows == [RowOf(1), RowOf(2)]
  {
    hide Example.File, ParsePage, HasRow, PageView;
    FileIsSeen();
    var env, st := TakesOne(), State([Unchecked, Unchecked, Unchecked, Unchecked], []);
    var begun := Begun(st, 2);
    LeafGives(env, begun, RowOf(1), 20, 0);
    var r := ParsePage(env, begun, 3, 0);
    assert Get(r.st.status, 4) == Get(begun.status, 4) == Unchecked;
    LeafGives(env, r.st, RowOf(2), 20, 0);
    var s := ParsePage(env, r.st, 4, 0);
    TwoChildren(env, begun, 3, 4, 0, r, s);
    RootGives(env, st, [3, 4], s.st);
  }

  lemma {:induction false} TwoChildren(env: Env, st: State, a: int, b: int, fuel: nat, r: Walked, s: Walked)
    requires ParsePage(env, st, a, fuel) == r && r.Walked? && r.code != Cancelled
    requires ParsePage(env, r.st, b, fuel) == s && s.Walked?
    ensures ParseChildren(env, st, [a, b], fuel) == Walked(s.st, Good)
  {
    hide ParsePage;
    assert [a, b][1..] == [b] && [b][1..] == [];
    assert ParseChildren(env, r.st, [b], fuel) == Walked(s.st, Good);
  }

  lemma {:induction false} RootGives(env: Env, st: State, kids: seq<int>, after: State)
    requires |env.db.pages| >= 2 && Get(st.status, 2) != Checking && PageView(env.db, 2) == Inner(kids)
    requires ParseChildren(env, Begun(st, 2), kids, 0) == Walked(after, Good)
    ensures ParsePage(env, st, 2, 1) == Walked(Ended(after, 2, Good), Good)
  {
    hide PageView, ParseChildren, Begun;
  }
}
