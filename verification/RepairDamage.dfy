/** What a walk saves of a damaged table: whatever is wrong with a page or a cell costs that page, or the rest of that
    leaf, and nothing else. */
module RepairDamage {
  import opened Options
  import opened RepairBytes
  import opened RepairRecord
  import opened RepairPages
  import opened RepairPayload
  import opened RepairWalk
  import opened RepairSafety
  import opened RepairCancel
  import opened RepairEndless
  import RepairTree

  // ----- one leaf, whatever its cells and the callback

  /** The row that cell `i` of leaf `n` holds. */
  function RowAt(db: Db, n: int, i: nat): Row
    requires PageView(db, n).Rows? && i < |PageView(db, n).pointers| && CellAt(db, n, i).record.Accepted?
  {
    var cell := CellAt(db, n, i);
    Row(n, cell.rowid, cell.record.values, cell.touched)
  }

  predicate IsRow(db: Db, n: int, i: int, row: Row) {
    && PageView(db, n).Rows? && 0 <= i < |PageView(db, n).pointers| && CellAt(db, n, i).record.Accepted?
    && row == RowAt(db, n, i)
  }

  predicate FailsAt(db: Db, n: int, i: int, code: Code) {
    PageView(db, n).Rows? && 0 <= i < |PageView(db, n).pointers| && CellAt(db, n, i).record == Failed(code)
  }

  /** These are the rows of the cells from the `i`th on, as far as they go. */
  ghost predicate AreRows(db: Db, n: int, i: nat, rows: seq<Row>) {
    forall j :: 0 <= j < |rows| ==> IsRow(db, n, i + j, rows[j])
  }

  /** The callback takes row `j` of these, after the ones `before`. */
  predicate Takes(env: Env, before: seq<Row>, rows: seq<Row>, j: nat)
    requires j < |rows|
  {
    env.reply(before + rows[..j], rows[j]) == Good
  }

  /** How the cell loop ends that gives these rows: with the last one refused or cancelled by the callback, or all of them
      taken and no cell left, or all taken and the next cell failing. */
  ghost predicate EndsAs(env: Env, n: int, i: nat, before: seq<Row>, rows: seq<Row>, code: Code)
    requires PageView(env.db, n).Rows?
  {
    && (forall j :: 0 <= j < |rows| - 1 ==> Takes(env, before, rows, j))
    && if rows != [] && !Takes(env, before, rows, |rows| - 1) then
         code == env.reply(before + rows[..|rows| - 1], rows[|rows| - 1])
       else if i + |rows| == |PageView(env.db, n).pointers| then code == Good
       else FailsAt(env.db, n, i + |rows|, code)
  }

  /** The cells of a leaf from the `i`th on. */
  lemma {:induction false} CellsAreExact(env: Env, st: State, n: int, i: nat) returns (rows: seq<Row>)
    requires PageView(env.db, n).Rows? && Acquire(env.db, n).Page? && i <= |PageView(env.db, n).pointers|
    ensures
      var r := ParseCells(env, st, n, PageView(env.db, n).pointers[i..]);
      r.st.rows == st.rows + rows && AreRows(env.db, n, i, rows) && EndsAs(env, n, i, st.rows, rows, r.code)
    decreases |PageView(env.db, n).pointers| - i
  {
    hide PageView, ReadCell, Acquire, TouchAll, DiscardAll;
    var pointers := PageView(env.db, n).pointers;
    rows := [];
    assert st.rows + [] == st.rows;
    if i < |pointers| {
      var cell := CellAt(env.db, n, i);
      FailuresAreErrors(env.db, Acquire(env.db, n).data, pointers[i]);
      var r := ParseCell(env, st, n, pointers[i]);
      assert pointers[i..][0] == pointers[i] && pointers[i..][1..] == pointers[i + 1..];
      if cell.record.Accepted? {
        rows := [RowAt(env.db, n, i)];
        assert st.rows + rows[..0] == st.rows;
        if r.code == Good {
          var rest := CellsAreExact(env, r.st, n, i + 1);
          OneRowMore(env, n, i, st.rows, rows[0], rest, ParseCells(env, r.st, n, pointers[i + 1..]).code);
          rows := [rows[0]] + rest;
        }
      }
    }
  }

  lemma {:induction false} OneRowMore(
    env: Env, n: int, i: nat, before: seq<Row>, row: Row, rest: seq<Row>, code: Code)
    requires PageView(env.db, n).Rows? && IsRow(env.db, n, i, row) && env.reply(before, row) == Good
    requires AreRows(env.db, n, i + 1, rest) && EndsAs(env, n, i + 1, before + [row], rest, code)
    ensures before + [row] + rest == before + ([row] + rest)
    ensures AreRows(env.db, n, i, [row] + rest) && EndsAs(env, n, i, before, [row] + rest, code)
  {
    hide PageView, IsRow, FailsAt;
    var rows := [row] + rest;
    forall j | 0 <= j < |rows| ensures IsRow(env.db, n, i + j, rows[j]) {
      if j > 0 {
        assert IsRow(env.db, n, i + 1 + (j - 1), rest[j - 1]);
      }
    }
    assert before + rows[..0] == before;
    forall j: nat | 0 < j < |rows| ensures before + rows[..j] == before + [row] + rest[..j - 1] {
    }
    assert Takes(env, before, rows, 0);
    forall j: nat | 0 < j < |rows| ensures Takes(env, before, rows, j) <==> Takes(env, before + [row], rest, j - 1) {
      assert before + rows[..j] == before + [row] + rest[..j - 1];
    }
  }

  /** On any file and for every callback: a leaf gives the rows of its cells in order, up to the first cell that fails or the
      first row that the callback does not take, and answers with that one's code. */
  lemma {:induction false} LeafIsExact(env: Env, st: State, n: int, fuel: nat) returns (rows: seq<Row>)
    requires PageView(env.db, n).Rows? && !env.skipRows && BeginCode(st.status, n) == Good
    ensures
      var r := ParsePage(env, st, n, fuel);
      r.Walked? && r.st.rows == st.rows + rows && AreRows(env.db, n, 0, rows) && EndsAs(env, n, 0, st.rows, rows, r.code)
  {
    ViewOfWholePage(env.db, n);
    LeafIsInside(env.db, n);
    hide PageView, ParseCells, Acquire, AreRows, EndsAs;
    rows := CellsAreExact(env, Begun(st, n), n, 0);
    assert PageView(env.db, n).pointers[0..] == PageView(env.db, n).pointers;
  }

  /** What a cell does to the status of any page: a refused row discards its page and its overflow pages; other overflow
      pages are checked, or invalid if they cannot be read; nothing else changes. */
  lemma {:induction false} StatusIsExact(env: Env, st: State, n: int, pointer: int, k: int)
    requires Acquire(env.db, n).Page? && |st.status| == |env.db.pages|
    ensures
      var cell := ReadCell(env.db, Acquire(env.db, n).data, pointer);
      var refused := cell.record.Accepted?
                     && env.reply(st.rows, Row(n, cell.rowid, cell.record.values, cell.touched)) !in {Good, Cancelled};
      Get(ParseCell(env, st, n, pointer).st.status, k) ==
        if !ValidNo(env.db, k) then Invalid
        else if refused && (k == n || k in cell.touched) then Discarded
        else if k in cell.touched then (if Acquire(env.db, k).Page? then Checked else Invalid)
        else Get(st.status, k)
  {
    hide ReadCell, TouchAll, DiscardAll;
    var cell := ReadCell(env.db, Acquire(env.db, n).data, pointer);
    var touched := TouchAll(env.db, st.status, cell.touched);
    if ValidNo(env.db, k) {
      TouchAllElsewhere(env.db, st.status, cell.touched, k);
      if k in cell.touched {
        TouchAllIsExact(env.db, st.status, cell.touched, k);
      }
      DiscardAllElsewhere(Put(touched, n, Discarded), cell.touched, k);
    }
  }

  lemma {:induction false} LeafIsInside(db: Db, n: int)
    requires PageView(db, n).Rows?
    ensures n <= |db.pages|
  {
  }

  // ----- a damaged tree

  /** `Gone`: a page that cannot be read or is no page of a table; index leaves too. `Leaf`: `good` cells before the first
      that fails, or all of them. */
  datatype Ruin = Gone(page: int) | Leaf(page: int, good: nat) | Interior(page: int, kids: seq<Ruin>)

  /** The file looks like that below the page. */
  ghost predicate Looks(db: Db, t: Ruin)
    decreases t
  {
    match t
    case Gone(n) => PageView(db, n).Bad? || PageView(db, n).IndexLeaf?
    case Leaf(n, good) =>
      PageView(db, n).Rows? && good <= |PageView(db, n).pointers| && Reached(db, n, good)
      && (good < |PageView(db, n).pointers| ==> CellAt(db, n, good).record.Failed?)
    case Interior(n, kids) => PageView(db, n) == Inner(Roots(kids)) && AllLook(db, kids)
  }

  ghost predicate AllLook(db: Db, kids: seq<Ruin>)
    decreases kids
  {
    forall i :: 0 <= i < |kids| ==> Looks(db, kids[i])
  }

  function Roots(kids: seq<Ruin>): (r: seq<int>)
    ensures |r| == |kids|
  {
    seq(|kids|, i requires 0 <= i < |kids| => kids[i].page)
  }

  function PagesOf(t: Ruin): set<int>
    decreases t
  {
    match t
    case Gone(n) => {n}
    case Leaf(n, _) => {n}
    case Interior(n, kids) => {n} + AllPages(kids)
  }

  function AllPages(kids: seq<Ruin>): set<int>
    decreases kids
  {
    if kids == [] then {} else PagesOf(kids[0]) + AllPages(kids[1..])
  }

  /** No interior page hangs below itself. */
  predicate Acyclic(t: Ruin)
    decreases t
  {
    t.Interior? ==> t.page !in AllPages(t.kids) && AllAcyclic(t.kids)
  }

  predicate AllAcyclic(kids: seq<Ruin>)
    decreases kids
  {
    kids == [] || (Acyclic(kids[0]) && AllAcyclic(kids[1..]))
  }

  function Depth(t: Ruin): nat
    decreases t
  {
    if t.Interior? then 1 + AllDepths(t.kids) else 0
  }

  function AllDepths(kids: seq<Ruin>): nat
    decreases kids
  {
    if kids == [] then 0
    else if Depth(kids[0]) >= AllDepths(kids[1..]) then Depth(kids[0]) else AllDepths(kids[1..])
  }

  /** The rows of the good cells, in order. */
  function Surviving(db: Db, t: Ruin): seq<Row>
    requires Looks(db, t)
    decreases t
  {
    match t
    case Gone(_) => []
    case Leaf(n, good) => seq(good, i requires 0 <= i < good => RowAt(db, n, i))
    case Interior(_, kids) => AllSurviving(db, kids)
  }

  function AllSurviving(db: Db, kids: seq<Ruin>): seq<Row>
    requires AllLook(db, kids)
    decreases kids
  {
    if kids == [] then []
    else
      RestLooks(db, kids);
      Surviving(db, kids[0]) + AllSurviving(db, kids[1..])
  }

  lemma {:induction false} RestLooks(db: Db, kids: seq<Ruin>)
    requires kids != [] && AllLook(db, kids)
    ensures Looks(db, kids[0]) && AllLook(db, kids[1..])
  {
    hide Looks;
  }

  /** What the walk of a damaged tree is to bring about. */
  ghost predicate Saves(st: State, r: Walked, rows: seq<Row>) {
    r.Walked? && r.code != Cancelled && r.st.rows == st.rows + rows && Settled(st.status, r.st.status)
  }

  /** Free to be entered: none of these pages is being parsed. */
  ghost predicate Free(st: seq<Status>, pages: set<int>) {
    forall k :: k in pages ==> Get(st, k) != Checking
  }

  lemma {:induction false} StillFree(before: seq<Status>, after: seq<Status>, pages: set<int>)
    requires Free(before, pages) && Settled(before, after)
    ensures Free(after, pages)
  {
  }

  lemma {:induction false} LeafSaves(env: Env, st: State, n: int, good: nat, fuel: nat)
    requires Looks(env.db, Leaf(n, good)) && RepairTree.TakesAll(env) && BeginCode(st.status, n) == Good
    ensures var r := ParsePage(env, st, n, fuel);
            r.Walked? && r.st.rows == st.rows + Surviving(env.db, Leaf(n, good))
  {
    var rows := LeafIsExact(env, st, n, fuel);
    hide PageView, ParsePage, CellAt, RowAt, IsRow, FailsAt;
    var saved := Surviving(env.db, Leaf(n, good));
    AllTaken(env, st.rows, rows);
    assert |rows| == good by {
      OnlyGood(env.db, n, good, rows);
    }
    forall j | 0 <= j < good ensures rows[j] == saved[j] {
      assert IsRow(env.db, n, 0 + j, rows[j]);
      RowIs(env.db, n, j, rows[j]);
    }
    assert rows == saved;
  }

  lemma {:induction false} AllTaken(env: Env, before: seq<Row>, rows: seq<Row>)
    requires RepairTree.TakesAll(env)
    ensures forall j :: 0 <= j < |rows| ==> Takes(env, before, rows, j)
  {
  }

  lemma {:induction false} RowIs(db: Db, n: int, i: nat, row: Row)
    requires IsRow(db, n, i, row)
    ensures PageView(db, n).Rows? && i < |PageView(db, n).pointers| && CellAt(db, n, i).record.Accepted?
    ensures row == RowAt(db, n, i)
  {
  }

  /** The rows end before the first cell that fails. */
  lemma {:induction false} OnlyGood(db: Db, n: int, good: nat, rows: seq<Row>)
    requires Looks(db, Leaf(n, good)) && AreRows(db, n, 0, rows)
    requires |rows| == |PageView(db, n).pointers| || exists code :: FailsAt(db, n, |rows|, code)
    ensures |rows| == good
  {
    hide PageView, ReadCell;
    if good < |rows| {
      CellIsGood(db, n, good, rows);
    }
  }

  lemma {:induction false} CellIsGood(db: Db, n: int, i: nat, rows: seq<Row>)
    requires AreRows(db, n, 0, rows) && i < |rows|
    ensures PageView(db, n).Rows? && i < |PageView(db, n).pointers| && CellAt(db, n, i).record.Accepted?
  {
    hide PageView, CellAt;
    assert IsRow(db, n, 0 + i, rows[i]);
  }

  lemma {:induction false} PageSaves(env: Env, st: State, t: Ruin, fuel: nat)
    requires Looks(env.db, t) && Acyclic(t) && Depth(t) <= fuel
    requires |st.status| == |env.db.pages| && RepairTree.TakesAll(env) && Free(st.status, PagesOf(t))
    ensures Saves(st, ParsePage(env, st, t.page, fuel), Surviving(env.db, t))
    decreases t
  {
    hide PageView, ParseCells, ParseChildren, Settled, Cancels, ReadCell;
    var r := ParsePage(env, st, t.page, fuel);
    assert st.rows + [] == st.rows;
    match t {
      case Gone(n) => GoneSaves(env, st, n, fuel);
      case Leaf(n, good) => LeafSaves(env, st, n, good, fuel);
      case Interior(n, kids) => InteriorSaves(env, st, n, kids, fuel);
    }
    CancelReportedExactly(env, st, t.page, fuel);
    NoCancel(env, st, t.page, fuel);
    PageSettles(env, st, t.page, fuel);
  }

  lemma {:induction false} GoneSaves(env: Env, st: State, n: int, fuel: nat)
    requires PageView(env.db, n).Bad? || PageView(env.db, n).IndexLeaf?
    ensures var r := ParsePage(env, st, n, fuel); r.Walked? && r.st.rows == st.rows
  {
    hide PageView;
  }

  lemma {:induction false} InteriorSaves(env: Env, st: State, n: int, kids: seq<Ruin>, fuel: nat)
    requires Looks(env.db, Interior(n, kids)) && Acyclic(Interior(n, kids)) && Depth(Interior(n, kids)) <= fuel
    requires |st.status| == |env.db.pages| && RepairTree.TakesAll(env) && Free(st.status, PagesOf(Interior(n, kids)))
    ensures var r := ParsePage(env, st, n, fuel);
            r.Walked? && r.st.rows == st.rows + AllSurviving(env.db, kids)
    decreases kids, 1
  {
    InnerIsBelow(env.db, n);
    hide PageView, ParseChildren, Looks, Acyclic, AllSurviving;
    var begun := Begun(st, n);
    forall k | k in AllPages(kids) ensures Get(begun.status, k) != Checking {
      assert k in PagesOf(Interior(n, kids));
    }
    KidsSave(env, begun, kids, fuel - 1);
  }

  lemma {:induction false} InnerIsBelow(db: Db, n: int)
    requires PageView(db, n).Inner?
    ensures n <= |db.pages|
  {
  }

  lemma {:induction false} KidsSave(env: Env, st: State, kids: seq<Ruin>, fuel: nat)
    requires AllLook(env.db, kids) && AllAcyclic(kids) && AllDepths(kids) <= fuel
    requires |st.status| == |env.db.pages| && RepairTree.TakesAll(env) && Free(st.status, AllPages(kids))
    ensures Saves(st, ParseChildren(env, st, Roots(kids), fuel), AllSurviving(env.db, kids))
    decreases kids, 0
  {
    hide ParsePage, Looks, Acyclic, Surviving, PageView;
    assert st.rows + [] == st.rows;
    if kids != [] {
      RestLooks(env.db, kids);
      PageSaves(env, st, kids[0], fuel);
      var r := ParsePage(env, st, kids[0].page, fuel);
      StillFree(st.status, r.st.status, AllPages(kids[1..]));
      assert Roots(kids)[0] == kids[0].page && Roots(kids)[1..] == Roots(kids[1..]);
      KidsSave(env, r.st, kids[1..], fuel);
      Regroup(st.rows, Surviving(env.db, kids[0]), AllSurviving(env.db, kids[1..]));
    }
  }

  lemma {:induction false} Regroup(a: seq<Row>, b: seq<Row>, c: seq<Row>)
    ensures a + b + c == a + (b + c)
  {
  }

  /** From any state in which none of its pages is being parsed: the rows delivered are exactly those of all good cells, in
      order, however many other pages and cells are damaged. Overflow chains may run anywhere. */
  lemma {:induction false} SurvivorsAreDelivered(env: Env, st: State, t: Ruin, fuel: nat)
    requires Looks(env.db, t) && Acyclic(t) && Depth(t) <= fuel && |st.status| == |env.db.pages|
    requires RepairTree.TakesAll(env) && forall k :: k in PagesOf(t) ==> Get(st.status, k) != Checking
    ensures var r := ParsePage(env, st, t.page, fuel);
            r.Walked? && r.st.rows == st.rows + Surviving(env.db, t)
  {
    hide Looks, Acyclic, Depth, Surviving, ParsePage, PagesOf;
    PageSaves(env, st, t, fuel);
  }
}
