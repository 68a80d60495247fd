/** The recursive page walk: sqliterkBtreeParsePage and sqliterkBtreeParseCell (sqliterk_btree.c) with the notifications
    of sqliterk.c that drive the page statuses, as functions of the file and the statuses. */
module RepairWalk {
  import opened Options
  import opened Bytes
  import opened RepairBytes
  import opened RepairRecord
  import opened RepairPages
  import opened RepairPayload

  /** What the row callback gets. */
  datatype Row = Row(page: int, rowid: int, values: seq<Value>, overflow: seq<int>)

  datatype State = State(status: seq<Status>, rows: seq<Row>)

  /** `skipRows`: the b-tree is a system one other than sqlite_master. `reply`: the answer of the row callback, given the
      rows it had before. */
  datatype Env = Env(db: Db, skipRows: bool, reply: (seq<Row>, Row) -> Code)

  /** The callback takes every row it gets. */
  ghost predicate NeverRefuses(env: Env) {
    forall rows, row :: env.reply(rows, row) == Good
  }

  // ----- one page

  datatype View = Bad(code: Code) | Inner(children: seq<int>) | Rows(pointers: seq<int>) | IndexLeaf

  const INTERIOR_INDEX := 2
  const INTERIOR_TABLE := 5
  const LEAF_INDEX := 10
  const LEAF_TABLE := 13

  function ReadAll(data: Data, offsets: seq<int>, n: nat): (r: Option<seq<int>>)
    ensures r.Some? ==> |r.value| == |offsets|
  {
    if offsets == [] then Some([])
    else
      var first := ReadInt(data, offsets[0], n);
      var rest := ReadAll(data, offsets[1..], n);
      if first.Some? && rest.Some? then Some([first.value] + rest.value) else None
  }

  function ArrayOffset(t: int): nat {
    if t == INTERIOR_TABLE then 12 else 8
  }

  function CellPointers(data: Data, start: int, count: nat): Option<seq<int>> {
    ReadAll(data, seq(count, i => start + 2 * i), 2)
  }

  /** The right-most child is read at byte 8, even on page 1. */
  function Children(data: Data, pointers: seq<int>, t: int): View {
    var children := ReadAll(data, pointers, 4);
    if children == None then Bad(Outside)
    else if t != INTERIOR_TABLE then Inner(children.value)
    else
      var last := ReadInt(data, 8, 4);
      if last == None then Bad(Outside) else Inner(children.value + [last.value])
  }

  function ViewOf(db: Db, n: int, data: Data): View {
    var h := HeaderOffset(n);
    var t := ReadInt(data, h, 1);
    if t == None || t.value !in {INTERIOR_INDEX, INTERIOR_TABLE, LEAF_INDEX, LEAF_TABLE} then Bad(Damaged)
    else
      var count := ReadInt(data, 3 + h, 2);
      if count == None || count.value <= 0 || count.value * 2 + ArrayOffset(t.value) > db.pagesize then Bad(Damaged)
      else
        var pointers := CellPointers(data, h + ArrayOffset(t.value), count.value);
        if pointers == None then Bad(Outside)
        else if t.value == LEAF_TABLE then Rows(pointers.value)
        else if t.value == LEAF_INDEX then IndexLeaf
        else Children(data, pointers.value, t.value)
  }

  /** The page as the walk sees it. */
  function PageView(db: Db, n: int): View {
    var got := Acquire(db, n);
    if got.NoPage? then Bad(got.code) else ViewOf(db, n, got.data)
  }

  // ----- rows

  datatype Walked = TooDeep | Walked(st: State, code: Code)

  /** sqliterkNotify_onParseColumn: a row that the callback refuses discards its page and its overflow pages. */
  function Deliver(env: Env, st: State, row: Row): (r: Walked)
    ensures r.Walked? && |r.st.status| == |st.status| && r.st.rows == st.rows + [row]
  {
    var code := env.reply(st.rows, row);
    var rows := st.rows + [row];
    if code == Good || code == Cancelled then Walked(State(st.status, rows), code)
    else Walked(State(DiscardAll(Put(st.status, row.page, Discarded), row.overflow), rows), code)
  }

  function ParseCell(env: Env, st: State, n: int, pointer: int): (r: Walked)
    requires Acquire(env.db, n).Page?
    ensures r.Walked? && |r.st.status| == |st.status|
  {
    var cell := ReadCell(env.db, Acquire(env.db, n).data, pointer);
    var touched := State(TouchAll(env.db, st.status, cell.touched), st.rows);
    if cell.record.Failed? then Walked(touched, cell.record.code)
    else Deliver(env, touched, Row(n, cell.rowid, cell.record.values, cell.touched))
  }

  function ParseCells(env: Env, st: State, n: int, pointers: seq<int>): (r: Walked)
    requires Acquire(env.db, n).Page?
    ensures r.Walked? && |r.st.status| == |st.status|
    decreases |pointers|
  {
    if pointers == [] then Walked(st, Good)
    else
      var r := ParseCell(env, st, n, pointers[0]);
      if r.code != Good then r else ParseCells(env, r.st, n, pointers[1..])
  }

  // ----- the recursion

  function Begun(st: State, n: int): (r: State)
    ensures |r.status| == |st.status|
  {
    State(BeginStatus(st.status, n), st.rows)
  }

  function Ended(st: State, n: int, code: Code): (r: State)
    ensures |r.status| == |st.status|
  {
    State(EndStatus(st.status, n, code), st.rows)
  }

  /** The whole walk below page `n`; `TooDeep` when it needs more than `fuel` levels of recursion. */
  function ParsePage(env: Env, st: State, n: int, fuel: nat): (r: Walked)
    ensures r.Walked? ==> |r.st.status| == |st.status|
    decreases fuel, 1, 0
  {
    if n > |env.db.pages| then Walked(st, Misuse)
    else if BeginCode(st.status, n) != Good then Walked(st, BeginCode(st.status, n))
    else
      var r := ParseBody(env, Begun(st, n), n, fuel);
      if r.TooDeep? then r else Walked(Ended(r.st, n, r.code), r.code)
  }

  function ParseBody(env: Env, st: State, n: int, fuel: nat): (r: Walked)
    ensures r.Walked? ==> |r.st.status| == |st.status|
    decreases fuel, 0, 0
  {
    var view := PageView(env.db, n);
    if view.Bad? then Walked(st, view.code)
    else if view.Inner? then
      if fuel == 0 then TooDeep else ParseChildren(env, st, view.children, fuel - 1)
    else if view.Rows? && !env.skipRows then ParseCells(env, st, n, view.pointers)
    else Walked(st, Good)
  }

  /** Errors of a child are dropped; a cancelled child stops the loop, and is dropped as well. */
  function ParseChildren(env: Env, st: State, kids: seq<int>, fuel: nat): (r: Walked)
    ensures r.Walked? ==> |r.st.status| == |st.status|
    decreases fuel, 2, |kids|
  {
    if kids == [] then Walked(st, Good)
    else
      var r := ParsePage(env, st, kids[0], fuel);
      if r.TooDeep? then r
      else if r.code == Cancelled then Walked(r.st, Good)
      else ParseChildren(env, r.st, kids[1..], fuel)
  }

  /** More room for the recursion changes nothing. */
  lemma {:induction false} DepthIsStable(env: Env, st: State, n: int, fuel: nat, more: nat)
    requires ParsePage(env, st, n, fuel).Walked? && fuel <= more
    ensures ParsePage(env, st, n, more) == ParsePage(env, st, n, fuel)
    decreases fuel, 1, 0
  {
    hide PageView, ParseCells, Begun, Ended, BeginCode;
    var view := PageView(env.db, n);
    if n <= |env.db.pages| && BeginCode(st.status, n) == Good && view.Inner? {
      ChildrenDepthIsStable(env, Begun(st, n), view.children, fuel - 1, more - 1);
    }
  }

  lemma {:induction false} ChildrenDepthIsStable(env: Env, st: State, kids: seq<int>, fuel: nat, more: nat)
    requires ParseChildren(env, st, kids, fuel).Walked? && fuel <= more
    ensures ParseChildren(env, st, kids, more) == ParseChildren(env, st, kids, fuel)
    decreases fuel, 2, |kids|
  {
    hide ParsePage;
    if kids != [] {
      DepthIsStable(env, st, kids[0], fuel, more);
      var r := ParsePage(env, st, kids[0], fuel);
      if r.code != Cancelled {
        ChildrenDepthIsStable(env, r.st, kids[1..], fuel, more);
      }
    }
  }

  // ----- child pointers and overflow chains

  predicate IsInner(db: Db, n: int) {
    PageView(db, n).Inner?
  }

  predicate IsChild(db: Db, parent: int, child: int) {
    IsInner(db, parent) && child in PageView(db, parent).children
  }

  /** Each page is a child of the one before. */
  ghost predicate IsPath(db: Db, path: seq<int>): (r: bool)
    ensures r ==> path != []
  {
    path != [] && forall i :: 0 <= i < |path| - 1 ==> IsChild(db, path[i], path[i + 1])
  }

  function CellAt(db: Db, n: int, i: nat): CellRead
    requires PageView(db, n).Rows? && i < |PageView(db, n).pointers|
  {
    ReadCell(db, Acquire(db, n).data, PageView(db, n).pointers[i])
  }

  /** No cell before the `i`th of leaf `n` fails. */
  predicate Reached(db: Db, n: int, i: nat)
    requires PageView(db, n).Rows? && i <= |PageView(db, n).pointers|
  {
    forall j :: 0 <= j < i ==> CellAt(db, n, j).record.Accepted?
  }

  /** Page `k` belongs to the overflow chain of a cell of leaf `n`, of the first that fails or of one before it. */
  predicate LeafTouches(env: Env, n: int, k: int) {
    !env.skipRows && PageView(env.db, n).Rows?
    && exists i :: 0 <= i < |PageView(env.db, n).pointers| && k in CellAt(env.db, n, i).touched && Reached(env.db, n, i)
  }

  ghost predicate TouchedAlong(env: Env, path: seq<int>, k: int) {
    IsPath(env.db, path) && LeafTouches(env, path[|path| - 1], k)
  }

  /** Some leaf at or below page `n` has page `k` in an overflow chain. */
  ghost predicate TouchedBelow(env: Env, n: int, k: int) {
    exists path :: TouchedAlong(env, path, k) && path[0] == n
  }

  lemma {:induction false} PathsJoin(db: Db, a: seq<int>, b: seq<int>)
    requires IsPath(db, a) && IsPath(db, b) && a[|a| - 1] == b[0]
    ensures IsPath(db, a + b[1..]) && (a + b[1..])[0] == a[0]
    ensures (a + b[1..])[|a + b[1..]| - 1] == b[|b| - 1]
  {
    hide IsChild;
    var c := a + b[1..];
    forall j | 0 <= j < |c| - 1 ensures IsChild(db, c[j], c[j + 1]) {
      if j >= |a| - 1 {
        assert IsChild(db, b[j - (|a| - 1)], b[j - (|a| - 1) + 1]);
      }
    }
  }

  /** What is touched below a page is touched below every page above it. */
  lemma {:induction false} TouchedFromAbove(env: Env, path: seq<int>, k: int)
    requires IsPath(env.db, path) && TouchedBelow(env, path[|path| - 1], k)
    ensures TouchedBelow(env, path[0], k)
  {
    hide IsPath, LeafTouches;
    var below :| TouchedAlong(env, below, k) && below[0] == path[|path| - 1];
    PathsJoin(env.db, path, below);
    assert TouchedAlong(env, path + below[1..], k);
  }

  lemma {:induction false} TouchedByChild(env: Env, n: int, child: int, k: int)
    requires IsChild(env.db, n, child) && TouchedBelow(env, child, k)
    ensures TouchedBelow(env, n, k)
  {
    hide IsChild;
    assert IsPath(env.db, [n, child]);
    TouchedFromAbove(env, [n, child], k);
  }

  lemma {:induction false} TouchedByLeaf(env: Env, n: int, k: int)
    requires LeafTouches(env, n, k)
    ensures TouchedBelow(env, n, k)
  {
    hide LeafTouches;
    assert TouchedAlong(env, [n], k);
  }

  // ----- what a walk does to the pages in status checking

  /** No interior page gets into status checking for good, and one that is in it is taken out of it only by an overflow
      chain of a leaf at or below page `n`. */
  ghost predicate Keeps(env: Env, n: int, before: seq<Status>, after: seq<Status>) {
    forall k :: IsInner(env.db, k) ==>
      && (Get(after, k) == Checking ==> Get(before, k) == Checking)
      && (Get(before, k) == Checking && !TouchedBelow(env, n, k) ==> Get(after, k) == Checking)
  }

  lemma {:induction false} KeepsNothing(env: Env, n: int, st: seq<Status>)
    ensures Keeps(env, n, st, st)
  {
  }

  lemma {:induction false} KeepsMore(env: Env, n: int, a: seq<Status>, b: seq<Status>, c: seq<Status>)
    requires Keeps(env, n, a, b) && Keeps(env, n, b, c)
    ensures Keeps(env, n, a, c)
  {
    hide IsInner, Get, TouchedBelow;
  }

  lemma {:induction false} KeepsAbove(env: Env, n: int, child: int, a: seq<Status>, b: seq<Status>)
    requires IsChild(env.db, n, child) && Keeps(env, child, a, b)
    ensures Keeps(env, n, a, b)
  {
    hide IsInner, IsChild, Get, TouchedBelow;
    forall k | IsInner(env.db, k)
      ensures Get(b, k) == Checking ==> Get(a, k) == Checking
      ensures Get(a, k) == Checking && !TouchedBelow(env, n, k) ==> Get(b, k) == Checking
    {
      if TouchedBelow(env, child, k) {
        TouchedByChild(env, n, child, k);
      }
    }
  }

  lemma {:induction false} CellKeeps(env: Env, st: State, n: int, i: nat)
    requires !env.skipRows && PageView(env.db, n).Rows? && i < |PageView(env.db, n).pointers|
    requires Acquire(env.db, n).Page? && Reached(env.db, n, i)
    ensures Keeps(env, n, st.status, ParseCell(env, st, n, PageView(env.db, n).pointers[i]).st.status)
  {
    hide PageView, ReadCell, Acquire, TouchedBelow;
    var db := env.db;
    var pointer := PageView(db, n).pointers[i];
    var cell := CellAt(db, n, i);
    var after := ParseCell(env, st, n, pointer).st.status;
    forall k | IsInner(db, k)
      ensures Get(after, k) == Checking ==> Get(st.status, k) == Checking
      ensures Get(st.status, k) == Checking && !TouchedBelow(env, n, k) ==> Get(after, k) == Checking
    {
      if k in cell.touched {
        assert LeafTouches(env, n, k);
        TouchedByLeaf(env, n, k);
      }
      TouchAllElsewhere(db, st.status, cell.touched, k);
      var touched := TouchAll(db, st.status, cell.touched);
      DiscardAllElsewhere(Put(touched, n, Discarded), cell.touched, k);
      DiscardedIsDiscarded(Put(touched, n, Discarded), cell.touched, k);
    }
  }

  lemma {:induction false} DiscardedIsDiscarded(st: seq<Status>, ns: seq<int>, k: int)
    ensures k in ns ==> Get(DiscardAll(st, ns), k) != Checking
    decreases |ns|
  {
    DiscardAllElsewhere(st, ns, k);
    assert !(1 <= k <= |st|) ==> Get(DiscardAll(st, ns), k) == Invalid;
  }

  lemma {:induction false} GoodIsAccepted(env: Env, st: State, n: int, i: nat)
    requires PageView(env.db, n).Rows? && i < |PageView(env.db, n).pointers| && Acquire(env.db, n).Page?
    requires ParseCell(env, st, n, PageView(env.db, n).pointers[i]).code == Good
    ensures CellAt(env.db, n, i).record.Accepted?
  {
    hide PageView, ReadCell, Acquire;
    FailuresAreErrors(env.db, Acquire(env.db, n).data, PageView(env.db, n).pointers[i]);
  }

  lemma {:induction false} CellsKeep(env: Env, st: State, n: int, i: nat)
    requires !env.skipRows && PageView(env.db, n).Rows? && i <= |PageView(env.db, n).pointers|
    requires Acquire(env.db, n).Page? && Reached(env.db, n, i)
    ensures Keeps(env, n, st.status, ParseCells(env, st, n, PageView(env.db, n).pointers[i..]).st.status)
    decreases |PageView(env.db, n).pointers| - i
  {
    hide PageView, ParseCell, Keeps, Acquire, ReadCell;
    var pointers := PageView(env.db, n).pointers;
    KeepsNothing(env, n, st.status);
    if i < |pointers| {
      CellKeeps(env, st, n, i);
      var r := ParseCell(env, st, n, pointers[i]);
      assert pointers[i..][1..] == pointers[i + 1..];
      if r.code == Good {
        GoodIsAccepted(env, st, n, i);
        CellsKeep(env, r.st, n, i + 1);
        KeepsMore(env, n, st.status, r.st.status, ParseCells(env, r.st, n, pointers[i + 1..]).st.status);
      }
    }
  }

  lemma {:induction false} ViewOfWholePage(db: Db, n: int)
    ensures PageView(db, n).Inner? || PageView(db, n).Rows? || PageView(db, n).IndexLeaf? ==> Acquire(db, n).Page?
  {
  }

  /** Whatever the file holds and the callback answers, a finished page leaves the interior pages in status checking as
      it found them, but for those that a leaf at or below it has in an overflow chain. */
  lemma {:induction false} PageKeeps(env: Env, st: State, n: int, fuel: nat)
    requires |st.status| == |env.db.pages| && ParsePage(env, st, n, fuel).Walked?
    ensures Keeps(env, n, st.status, ParsePage(env, st, n, fuel).st.status)
    decreases fuel, 1, 0
  {
    hide PageView, ParseCells, ParseChildren, Acquire, Keeps;
    var db := env.db;
    var view := PageView(db, n);
    KeepsNothing(env, n, st.status);
    if n <= |db.pages| && BeginCode(st.status, n) == Good {
      var begun := Begun(st, n);
      var r := ParseBody(env, begun, n, fuel);
      ViewOfWholePage(db, n);
      KeepsNothing(env, n, begun.status);
      if view.Inner? {
        ChildrenKeep(env, begun, n, 0, fuel - 1);
        assert view.children[0..] == view.children;
        ChildrenAreGood(env, begun, view.children, fuel - 1);
      } else if view.Rows? && !env.skipRows {
        assert view.pointers[0..] == view.pointers;
        CellsKeep(env, begun, n, 0);
      }
      BracketKeeps(env, st, n, r);
    }
  }

  lemma {:induction false} BracketKeeps(env: Env, st: State, n: int, r: Walked)
    requires r.Walked? && Keeps(env, n, Begun(st, n).status, r.st.status) && |r.st.status| == |st.status|
    requires BeginCode(st.status, n) == Good && (IsInner(env.db, n) ==> r.code == Good)
    ensures Keeps(env, n, st.status, Ended(r.st, n, r.code).status)
  {
    hide IsInner, TouchedBelow;
  }

  lemma {:induction false} ChildrenKeep(env: Env, st: State, n: int, i: nat, fuel: nat)
    requires |st.status| == |env.db.pages| && IsInner(env.db, n) && i <= |PageView(env.db, n).children|
    requires ParseChildren(env, st, PageView(env.db, n).children[i..], fuel).Walked?
    ensures Keeps(env, n, st.status, ParseChildren(env, st, PageView(env.db, n).children[i..], fuel).st.status)
    decreases fuel, 2, |PageView(env.db, n).children| - i
  {
    hide ParsePage, Keeps, PageView;
    var kids := PageView(env.db, n).children;
    KeepsNothing(env, n, st.status);
    if i < |kids| {
      PageKeeps(env, st, kids[i], fuel);
      var r := ParsePage(env, st, kids[i], fuel);
      KeepsAbove(env, n, kids[i], st.status, r.st.status);
      assert kids[i..][1..] == kids[i + 1..];
      if r.code != Cancelled {
        ChildrenKeep(env, r.st, n, i + 1, fuel);
        KeepsMore(env, n, st.status, r.st.status, ParseChildren(env, r.st, kids[i + 1..], fuel).st.status);
      }
    }
  }

  lemma {:induction false} ChildrenAreGood(env: Env, st: State, kids: seq<int>, fuel: nat)
    requires ParseChildren(env, st, kids, fuel).Walked?
    ensures ParseChildren(env, st, kids, fuel).code == Good
    decreases |kids|
  {
    hide ParsePage;
    if kids != [] {
      var r := ParsePage(env, st, kids[0], fuel);
      if r.code != Cancelled {
        ChildrenAreGood(env, r.st, kids[1..], fuel);
      }
    }
  }
}
