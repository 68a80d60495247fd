/** What the walk delivers from a well-formed table b-tree (section 1.6 of the SQLite Database File Format). */
module RepairTree {
  import opened Options
  import opened Bytes
  import opened RepairBytes
  import opened RepairRecord
  import opened RepairPages
  import opened RepairPayload
  import opened RepairWalk

  // ----- table b-tree pages, as the format has them: every field unsigned

  function U16(data: Data, at: nat): int
    requires at + 2 <= |data|
  {
    Int32(0, 0, data[at], data[at + 1])
  }

  function U32(data: Data, at: nat): int
    requires at + 4 <= |data|
  {
    Int32(data[at], data[at + 1], data[at + 2], data[at + 3])
  }

  /** A cell pointer array of `count` entries from byte `start` on. */
  ghost predicate PointersAt(data: Data, start: nat, pointers: seq<int>) {
    start + 2 * |pointers| <= |data|
    && forall i :: 0 <= i < |pointers| ==> U16(data, start + 2 * i) == pointers[i]
  }

  /** A leaf table page with those cell pointers. The code reads two-byte fields as signed ones, hence the bound. */
  ghost predicate TableLeaf(db: Db, n: int, pointers: seq<int>) {
    Acquire(db, n).Page?
    && var data, h := Acquire(db, n).data, HeaderOffset(n);
       data[h] == LEAF_TABLE && U16(data, h + 3) == |pointers| && 0 < |pointers| < 0x8000
       && PointersAt(data, h + 8, pointers)
       && forall i :: 0 <= i < |pointers| ==> pointers[i] < 0x8000
  }

  /** An interior table page: one child and one key a cell, and the right-most child. */
  ghost predicate TableInterior(db: Db, n: int, pointers: seq<int>, children: seq<int>, keys: seq<int>) {
    Acquire(db, n).Page?
    && var data, h := Acquire(db, n).data, HeaderOffset(n);
       data[h] == INTERIOR_TABLE && U16(data, h + 3) == |pointers| && 0 < |pointers| < 0x8000
       && PointersAt(data, h + 12, pointers)
       && |keys| == |pointers| && |children| == |pointers| + 1
       && (forall i :: 0 <= i < |pointers| ==>
             0 <= pointers[i] < 0x8000 && pointers[i] + 4 <= |data| && U32(data, pointers[i]) == children[i]
             && Decode(data, pointers[i] + 4).Varint? && Decode(data, pointers[i] + 4).value == keys[i])
       && U32(data, h + 8) == children[|pointers|]
       && forall i :: 0 <= i < |children| ==> children[i] < 0x8000_0000
  }

  lemma {:induction false} ReadsU16(data: Data, at: nat)
    requires at + 2 <= |data| && U16(data, at) < 0x8000
    ensures ReadInt(data, at, 2) == Some(U16(data, at))
  {
    var p := data[at..at + 2];
    assert p[0] == data[at] && p[1] == data[at + 1];
  }

  lemma {:induction false} ReadsU32(data: Data, at: nat)
    requires at + 4 <= |data| && U32(data, at) < 0x8000_0000
    ensures ReadInt(data, at, 4) == Some(U32(data, at))
  {
    var p := data[at..at + 4];
    assert p[0] == data[at] && p[1] == data[at + 1] && p[2] == data[at + 2] && p[3] == data[at + 3];
  }

  lemma {:induction false} ReadsAll(data: Data, offsets: seq<int>, n: nat, values: seq<int>)
    requires |offsets| == |values|
    requires forall i :: 0 <= i < |offsets| ==> ReadInt(data, offsets[i], n) == Some(values[i])
    ensures ReadAll(data, offsets, n) == Some(values)
    decreases |offsets|
  {
    hide ReadInt;
    if offsets != [] {
      ReadsAll(data, offsets[1..], n, values[1..]);
      assert values == [values[0]] + values[1..];
    }
  }

  lemma {:induction false} ReadsPointers(data: Data, start: nat, pointers: seq<int>)
    requires PointersAt(data, start, pointers) && forall i :: 0 <= i < |pointers| ==> pointers[i] < 0x8000
    ensures CellPointers(data, start, |pointers|) == Some(pointers)
  {
    hide ReadInt, U16;
    var offsets: seq<int> := seq(|pointers|, i => start + 2 * i);
    forall i | 0 <= i < |offsets| ensures ReadInt(data, offsets[i], 2) == Some(pointers[i]) {
      assert U16(data, start + 2 * i) == pointers[i];
      ReadsU16(data, start + 2 * i);
    }
    ReadsAll(data, offsets, 2, pointers);
  }

  lemma {:induction false} ReadsType(data: Data, at: nat)
    requires at < |data| && data[at] < 128
    ensures ReadInt(data, at, 1) == Some(data[at] as int)
  {
    var p := data[at..at + 1];
    assert p[0] == data[at];
  }

  /** On a leaf table page the code sees the cells of the format. */
  lemma {:induction false} LeafIsSeen(db: Db, n: int, pointers: seq<int>)
    requires TableLeaf(db, n, pointers)
    ensures PageView(db, n) == Rows(pointers)
  {
    hide ReadInt, CellPointers, PointersAt;
    var data, h := Acquire(db, n).data, HeaderOffset(n);
    ReadsType(data, h);
    ReadsU16(data, h + 3);
    ReadsPointers(data, h + 8, pointers);
    PointersFit(data, h + 8, pointers);
  }

  lemma {:induction false} PointersFit(data: Data, start: nat, pointers: seq<int>)
    requires PointersAt(data, start, pointers)
    ensures start + 2 * |pointers| <= |data|
  {
  }

  /** On an interior table page it sees the children of the format, in key order, exactly if bytes 8 to 11 name the
      right-most one. On page 1 they belong to the file header instead. */
  lemma {:induction false} InteriorIsSeen(db: Db, n: int, pointers: seq<int>, children: seq<int>, keys: seq<int>)
    requires TableInterior(db, n, pointers, children, keys)
    ensures PageView(db, n) == Inner(children) <==> ReadInt(Acquire(db, n).data, 8, 4) == Some(children[|pointers|])
    ensures n != 1 ==> PageView(db, n) == Inner(children)
  {
    hide ReadInt, CellPointers, PointersAt, U32, Decode, ReadAll;
    var data, h := Acquire(db, n).data, HeaderOffset(n);
    ReadsType(data, h);
    ReadsU16(data, h + 3);
    ReadsPointers(data, h + 12, pointers);
    PointersFit(data, h + 12, pointers);
    forall i | 0 <= i < |pointers| ensures ReadInt(data, pointers[i], 4) == Some(children[i]) {
      ReadsU32(data, pointers[i]);
    }
    ReadsAll(data, pointers, 4, children[..|pointers|]);
    ReadsU32(data, h + 8);
    LastOne(children, ReadInt(data, 8, 4));
    assert Children(data, pointers, INTERIOR_TABLE)
        == match ReadInt(data, 8, 4) case None => Bad(Outside) case Some(last) => Inner(children[..|pointers|] + [last]);
  }

  lemma {:induction false} LastOne(children: seq<int>, last: Option<int>)
    requires children != []
    ensures children == children[..|children| - 1] + [children[|children| - 1]]
    ensures last.Some? && last.value != children[|children| - 1] ==>
            children != children[..|children| - 1] + [last.value]
  {
    if last.Some? {
      assert (children[..|children| - 1] + [last.value])[|children| - 1] == last.value;
    }
  }

  // ----- trees

  datatype Entry = Entry(rowid: int, values: seq<Value>, overflow: seq<int>)

  datatype Node =
    | Leaf(page: int, cells: seq<Entry>)
    | Interior(page: int, keys: seq<int>, kids: seq<Node>)

  function Roots(kids: seq<Node>): (r: seq<int>)
    ensures |r| == |kids|
  {
    seq(|kids|, i requires 0 <= i < |kids| => kids[i].page)
  }

  /** The cell at a pointer holds an entry. */
  predicate Holds(db: Db, n: int, pointer: int, e: Entry)
    requires Acquire(db, n).Page?
  {
    ReadCell(db, Acquire(db, n).data, pointer) == CellRead(e.overflow, e.rowid, Accepted(e.values))
  }

  /** The file holds the tree. */
  ghost predicate Represents(db: Db, t: Node)
    decreases t
  {
    match t
    case Leaf(page, cells) =>
      exists pointers :: TableLeaf(db, page, pointers) && |pointers| == |cells|
        && (forall i :: 0 <= i < |cells| ==> Holds(db, page, pointers[i], cells[i]))
        && forall k :: k in Overflows(cells) ==> Acquire(db, k).Page?
    case Interior(page, keys, kids) =>
      page != 1 && (exists pointers :: TableInterior(db, page, pointers, Roots(kids), keys))
      && AllRepresented(db, kids)
  }

  ghost predicate AllRepresented(db: Db, kids: seq<Node>)
    decreases kids
  {
    forall i :: 0 <= i < |kids| ==> Represents(db, kids[i])
  }

  function CellRows(page: int, cells: seq<Entry>): seq<Row> {
    if cells == [] then []
    else [Row(page, cells[0].rowid, cells[0].values, cells[0].overflow)] + CellRows(page, cells[1..])
  }

  /** The rows of the leaves, left to right. */
  function InOrder(t: Node): seq<Row>
    decreases t
  {
    match t
    case Leaf(page, cells) => CellRows(page, cells)
    case Interior(_, _, kids) => AllInOrder(kids)
  }

  function AllInOrder(kids: seq<Node>): seq<Row>
    decreases kids
  {
    if kids == [] then [] else InOrder(kids[0]) + AllInOrder(kids[1..])
  }

  function Overflows(cells: seq<Entry>): set<int> {
    if cells == [] then {} else (set k | k in cells[0].overflow) + Overflows(cells[1..])
  }

  /** Every page of a tree, overflow pages included. */
  function PagesOf(t: Node): set<int>
    decreases t
  {
    match t
    case Leaf(page, cells) => {page} + Overflows(cells)
    case Interior(page, _, kids) => {page} + AllPages(kids)
  }

  function AllPages(kids: seq<Node>): set<int>
    decreases kids
  {
    if kids == [] then {} else PagesOf(kids[0]) + AllPages(kids[1..])
  }

  function Height(t: Node): nat
    decreases t
  {
    match t
    case Leaf(_, _) => 0
    case Interior(_, _, kids) => 1 + AllHeights(kids)
  }

  function AllHeights(kids: seq<Node>): nat
    decreases kids
  {
    if kids == [] then 0
    else if Height(kids[0]) >= AllHeights(kids[1..]) then Height(kids[0]) else AllHeights(kids[1..])
  }

  /** No interior page lies below itself. */
  predicate Proper(t: Node)
    decreases t
  {
    t.Interior? ==> t.page !in AllPages(t.kids) && AllProper(t.kids)
  }

  predicate AllProper(kids: seq<Node>)
    decreases kids
  {
    kids == [] || (Proper(kids[0]) && AllProper(kids[1..]))
  }

  /** The statuses after the walk: the pages `done` are checked, all others as before. */
  ghost predicate CheckedExactly(before: seq<Status>, after: seq<Status>, done: set<int>) {
    forall k :: Get(after, k) == if k in done && 1 <= k <= |before| then Checked else Get(before, k)
  }

  /** The callback takes every row. */
  ghost predicate TakesAll(env: Env) {
    !env.skipRows && NeverRefuses(env)
  }

  /** What a walk over the pages `done` has to bring about. */
  ghost predicate Delivered(st: State, r: Walked, rows: seq<Row>, done: set<int>) {
    r.Walked? && r.code == Good && r.st.rows == st.rows + rows && |r.st.status| == |st.status|
    && CheckedExactly(st.status, r.st.status, done)
  }

  ghost predicate NoneChecking(st: seq<Status>, pages: set<int>) {
    forall k :: k in pages ==> Get(st, k) != Checking
  }

  // ----- the walk over a tree

  lemma {:induction false} TouchChecks(db: Db, st: seq<Status>, ns: seq<int>)
    requires |st| == |db.pages| && forall k :: k in ns ==> Acquire(db, k).Page?
    ensures CheckedExactly(st, TouchAll(db, st, ns), set k | k in ns)
    decreases |ns|
  {
    hide Acquire;
    if ns != [] {
      assert ns[0] in ns;
      TouchChecks(db, Touch(db, st, ns[0]), ns[1..]);
    }
  }

  lemma {:induction false} CellDelivers(env: Env, st: State, n: int, pointer: int, e: Entry)
    requires Acquire(env.db, n).Page? && |st.status| == |env.db.pages| && TakesAll(env)
    requires Holds(env.db, n, pointer, e) && forall k :: k in e.overflow ==> Acquire(env.db, k).Page?
    ensures Delivered(st, ParseCell(env, st, n, pointer), [Row(n, e.rowid, e.values, e.overflow)], set k | k in e.overflow)
  {
    hide Acquire, ReadCell;
    TouchChecks(env.db, st.status, e.overflow);
  }

  lemma {:induction false} CellsDeliver(env: Env, st: State, n: int, pointers: seq<int>, cells: seq<Entry>)
    requires Acquire(env.db, n).Page? && |st.status| == |env.db.pages| && TakesAll(env)
    requires |pointers| == |cells|
    requires forall i :: 0 <= i < |cells| ==> Holds(env.db, n, pointers[i], cells[i])
    requires forall k :: k in Overflows(cells) ==> Acquire(env.db, k).Page?
    ensures Delivered(st, ParseCells(env, st, n, pointers), CellRows(n, cells), Overflows(cells))
    decreases |cells|
  {
    hide Acquire, Holds, ParseCell, CheckedExactly, TakesAll;
    if cells == [] {
      NothingDelivered(st);
    } else {
      var e := cells[0];
      var r := ParseCell(env, st, n, pointers[0]);
      CellDelivers(env, st, n, pointers[0], e);
      CellsDeliver(env, r.st, n, pointers[1..], cells[1..]);
      BothDeliver(st, r, ParseCells(env, r.st, n, pointers[1..]), [Row(n, e.rowid, e.values, e.overflow)],
                  CellRows(n, cells[1..]), (set k | k in e.overflow), Overflows(cells[1..]));
    }
  }

  lemma {:induction false} NothingDelivered(st: State)
    ensures Delivered(st, Walked(st, Good), [], {})
  {
  }

  lemma {:induction false} LeafDelivers(env: Env, st: State, t: Node, fuel: nat)
    requires t.Leaf? && Represents(env.db, t) && |st.status| == |env.db.pages| && TakesAll(env)
    requires NoneChecking(st.status, PagesOf(t))
    ensures Delivered(st, ParsePage(env, st, t.page, fuel), InOrder(t), PagesOf(t))
  {
    hide PageView, ParseCells, ReadCell, CellRows, Overflows, Acquire;
    var n := t.page;
    assert n in PagesOf(t);
    var pointers :| TableLeaf(env.db, n, pointers) && |pointers| == |t.cells|
      && forall i :: 0 <= i < |t.cells| ==> Holds(env.db, n, pointers[i], t.cells[i]);
    LeafIsSeen(env.db, n, pointers);
    LeafIsPage(env.db, n, pointers);
    CellsDeliver(env, Begun(st, n), n, pointers, t.cells);
    var r := ParseCells(env, Begun(st, n), n, pointers);
    assert ParseBody(env, Begun(st, n), n, fuel) == r;
    EndChecks(st, n, r, CellRows(n, t.cells), Overflows(t.cells));
  }

  lemma {:induction false} LeafIsPage(db: Db, n: int, pointers: seq<int>)
    requires TableLeaf(db, n, pointers)
    ensures Acquire(db, n).Page? && ValidNo(db, n)
  {
  }

  lemma {:induction false} EndChecks(st: State, n: int, r: Walked, rows: seq<Row>, done: set<int>)
    requires BeginCode(st.status, n) == Good && Delivered(Begun(st, n), r, rows, done)
    ensures Delivered(st, Walked(Ended(r.st, n, r.code), r.code), rows, {n} + done)
  {
  }

  /** A walk over a well-formed tree delivers exactly the rows of its leaves in order, each once, and leaves exactly
      the pages of the tree, overflow pages included, in status checked. */
  lemma {:induction false} TreeDelivers(env: Env, st: State, t: Node, fuel: nat)
    requires Represents(env.db, t) && Proper(t) && Height(t) <= fuel
    requires |st.status| == |env.db.pages| && TakesAll(env) && NoneChecking(st.status, PagesOf(t))
    ensures Delivered(st, ParsePage(env, st, t.page, fuel), InOrder(t), PagesOf(t))
    decreases t
  {
    hide TableInterior, TableLeaf, PageView, ParseChildren, Acquire, TakesAll, Holds, CheckedExactly, BeginStatus, AllRepresented;
    if t.Leaf? {
      LeafDelivers(env, st, t, fuel);
    } else {
      var n, kids := t.page, t.kids;
      assert n in PagesOf(t);
      var pointers :| TableInterior(env.db, n, pointers, Roots(kids), t.keys);
      InteriorIsSeen(env.db, n, pointers, Roots(kids), t.keys);
      InteriorIsPage(env.db, n, pointers, Roots(kids), t.keys);
      var begun := Begun(st, n);
      BegunElsewhere(st, n, AllPages(kids));
      ForestDelivers(env, begun, kids, fuel - 1);
      EndChecks(st, n, ParseChildren(env, begun, Roots(kids), fuel - 1), AllInOrder(kids), AllPages(kids));
    }
  }

  lemma {:induction false} InteriorIsPage(db: Db, n: int, pointers: seq<int>, children: seq<int>, keys: seq<int>)
    requires TableInterior(db, n, pointers, children, keys)
    ensures Acquire(db, n).Page? && ValidNo(db, n)
  {
  }

  lemma {:induction false} BegunElsewhere(st: State, n: int, pages: set<int>)
    requires NoneChecking(st.status, pages) && n !in pages
    ensures NoneChecking(Begun(st, n).status, pages)
  {
  }

  lemma {:induction false} ForestDelivers(env: Env, st: State, kids: seq<Node>, fuel: nat)
    requires AllRepresented(env.db, kids) && AllProper(kids) && AllHeights(kids) <= fuel
    requires |st.status| == |env.db.pages| && TakesAll(env) && NoneChecking(st.status, AllPages(kids))
    ensures Delivered(st, ParseChildren(env, st, Roots(kids), fuel), AllInOrder(kids), AllPages(kids))
    decreases kids
  {
    hide ParsePage, Represents, TakesAll;
    if kids != [] {
      var t, rest := kids[0], kids[1..];
      assert Roots(kids)[1..] == Roots(rest);
      TreeDelivers(env, st, t, fuel);
      var r := ParsePage(env, st, t.page, fuel);
      ForestDelivers(env, r.st, rest, fuel);
      BothDeliver(st, r, ParseChildren(env, r.st, Roots(rest), fuel), InOrder(t), AllInOrder(rest), PagesOf(t), AllPages(rest));
    }
  }

  lemma {:induction false} BothDeliver(
      st: State, r: Walked, s: Walked, rows: seq<Row>, more: seq<Row>, done: set<int>, also: set<int>)
    requires Delivered(st, r, rows, done) && Delivered(r.st, s, more, also)
    ensures Delivered(st, s, rows + more, done + also)
  {
  }

  // ----- order

  /** Search-tree order: the rowids of a subtree lie above `low` and up to `high`; the keys of a page part its children. */
  predicate Ordered(t: Node, low: int, high: int)
    decreases t, 0
  {
    match t
    case Leaf(_, cells) => CellsOrdered(cells, low, high)
    case Interior(_, keys, kids) => |kids| == |keys| + 1 && KidsOrdered(kids, keys, low, high)
  }

  predicate CellsOrdered(cells: seq<Entry>, low: int, high: int)
    decreases |cells|
  {
    cells == [] || (low < cells[0].rowid <= high && CellsOrdered(cells[1..], cells[0].rowid, high))
  }

  predicate KidsOrdered(kids: seq<Node>, keys: seq<int>, low: int, high: int)
    requires |kids| == |keys| + 1
    decreases kids, 1
  {
    if keys == [] then Ordered(kids[0], low, high)
    else low <= keys[0] <= high && Ordered(kids[0], low, keys[0]) && KidsOrdered(kids[1..], keys[1..], keys[0], high)
  }

  predicate Ascending(rows: seq<Row>, low: int, high: int) {
    (forall i :: 0 <= i < |rows| ==> low < rows[i].rowid <= high)
    && forall i, j :: 0 <= i < j < |rows| ==> rows[i].rowid < rows[j].rowid
  }

  lemma {:induction false} CellsAscend(page: int, cells: seq<Entry>, low: int, high: int)
    requires CellsOrdered(cells, low, high)
    ensures Ascending(CellRows(page, cells), low, high)
    decreases |cells|
  {
    if cells != [] {
      CellsAscend(page, cells[1..], cells[0].rowid, high);
    }
  }

  /** The rowids delivered from an ordered tree are strictly ascending. */
  lemma {:induction false} InOrderAscends(t: Node, low: int, high: int)
    requires Ordered(t, low, high)
    ensures Ascending(InOrder(t), low, high)
    decreases t, 0
  {
    match t
    case Leaf(page, cells) => CellsAscend(page, cells, low, high);
    case Interior(_, keys, kids) => KidsAscend(kids, keys, low, high);
  }

  lemma {:induction false} KidsAscend(kids: seq<Node>, keys: seq<int>, low: int, high: int)
    requires |kids| == |keys| + 1 && KidsOrdered(kids, keys, low, high)
    ensures Ascending(AllInOrder(kids), low, high)
    decreases kids, 1
  {
    if keys == [] {
      InOrderAscends(kids[0], low, high);
      assert AllInOrder(kids[1..]) == [];
    } else {
      InOrderAscends(kids[0], low, keys[0]);
      KidsAscend(kids[1..], keys[1..], keys[0], high);
    }
  }

  /** Recovery of an intact table: the rows come out once each, in strictly ascending rowid order. */
  lemma {:induction false} IntactTableRecovered(env: Env, st: State, t: Node, low: int, high: int)
    requires Represents(env.db, t) && Proper(t) && Ordered(t, low, high)
    requires |st.status| == |env.db.pages| && TakesAll(env) && NoneChecking(st.status, PagesOf(t)) && st.rows == []
    ensures var r := ParsePage(env, st, t.page, Height(t));
            r.Walked? && r.code == Good && r.st.rows == InOrder(t) && Ascending(r.st.rows, low, high)
  {
    hide Represents, Proper, Ordered, ParsePage, InOrder;
    TreeDelivers(env, st, t, Height(t));
    InOrderAscends(t, low, high);
    assert [] + InOrder(t) == InOrder(t);
  }

  /** A leaf cell written by the format is one of the cells a tree is made of. */
  lemma {:induction false} WrittenCellHolds(db: Db, n: int, pointer: nat, rowid: nat, fields: seq<Stored>, numbers: seq<int>)
    requires Acquire(db, n).Page? && rowid < Power(128, 8)
    requires (forall i :: 0 <= i < |fields| ==> MayStore(fields[i])) && |WriteRecord(fields)| <= MAX_PAYLOAD
    requires CellStored(db, Acquire(db, n).data, pointer, rowid, WriteRecord(fields), numbers)
    ensures Holds(db, n, pointer, Entry(rowid, StoredValues(fields), numbers))
    ensures forall k :: k in numbers ==> Acquire(db, k).Page?
  {
    hide MayStore, WriteRecord, ReadCell, Acquire;
    LeafCellRoundTrip(db, Acquire(db, n).data, pointer, rowid, fields, numbers);
    ChainIsWhole(db, numbers, WriteRecord(fields)[LocalSize(db.usable, |WriteRecord(fields)|)..]);
  }

  lemma {:induction false} ChainIsWhole(db: Db, numbers: seq<int>, rest: Data)
    requires Chained(db, numbers, rest)
    ensures forall k :: k in numbers ==> Acquire(db, k).Page?
    decreases |numbers|
  {
    hide Acquire, Signed;
    if numbers != [] {
      ChainIsWhole(db, numbers[1..], rest[Min(|rest|, Room(db))..]);
    }
  }
}
