/** The assumptions of RepairTree can be met: a small file that holds an intact tree of three pages. */
module RepairExample {
  import opened Options
  import opened Bytes
  import opened RepairBytes
  import opened RepairRecord
  import opened RepairPages
  import opened RepairPayload
  import opened RepairWalk
  import opened RepairTree

  /** Page 2, the root: one cell at byte 16 with child 3 and key 1; the right-most child is page 4. */
  function RootByte(i: int): Byte {
    if i == 0 then 5
    else if i == 4 then 1
    else if i == 11 then 4
    else if i == 13 then 16
    else if i == 19 then 3
    else if i == 20 then 1
    else 0
  }

  /** Pages 3 and 4: one cell at byte 20, with two bytes of payload, the rowid and a record of one column, the number 1. */
  function LeafByte(rowid: Byte, i: int): Byte {
    if i == 0 then 13
    else if i == 4 then 1
    else if i == 9 then 20
    else if i == 20 then 2
    else if i == 21 then rowid
    else if i == 22 then 2
    else if i == 23 then 9
    else 0
  }

  function RootPage(): (data: Data)
    ensures |data| == 512 && forall i :: 0 <= i < 512 ==> data[i] == RootByte(i)
  {
    seq(512, i => RootByte(i))
  }

  function LeafPage(rowid: Byte): (data: Data)
    ensures |data| == 512 && forall i :: 0 <= i < 512 ==> data[i] == LeafByte(rowid, i)
  {
    seq(512, i => LeafByte(rowid, i))
  }

  function File(): Db {
    Image([HeaderPage(), RootPage(), LeafPage(1), LeafPage(2)], 512, 512)
  }

  /** The pager does cut it into these pages. */
  lemma {:induction false} FileIsCut()
    ensures CutAs(File(), HeaderPage())
  {
    hide HeaderPage, ParseHeader;
    HeaderPageSays512();
  }

  function LeafNode(rowid: Byte): Node {
    Node.Leaf(rowid + 2, [Entry(rowid, [Integer(1)], [])])
  }

  function Tree(): Node {
    Interior(2, [1], [LeafNode(1), LeafNode(2)])
  }

  lemma {:induction false} Pages()
    ensures Acquire(File(), 2) == Page(RootPage())
    ensures Acquire(File(), 3) == Page(LeafPage(1)) && Acquire(File(), 4) == Page(LeafPage(2))
  {
    hide RootPage, LeafPage;
  }

  function OneColumn(): seq<Stored> {
    [Stored(9, Integer(1))]
  }

  lemma {:induction false} Written()
    ensures WriteRecord(OneColumn()) == [2, 9] && StoredValues(OneColumn()) == [Integer(1)]
  {
    var fields := OneColumn();
    assert fields[1..] == [];
    assert ColumnsOf(fields) == [Column(Encode(9), [])];
    assert Encode(9) == [9] && Encode(2) == [2];
    assert ColumnsOf(fields)[1..] == [];
    assert Codes(ColumnsOf(fields)) == [9] && Bodies(ColumnsOf(fields)) == [];
  }

  lemma {:induction false} SmallVarint(v: nat)
    requires v < 128
    ensures Encode(v) == [v]
  {
  }

  lemma {:induction false} CellIsStored(rowid: Byte)
    requires rowid == 1 || rowid == 2
    ensures CellStored(File(), LeafPage(rowid), 20, rowid, [2, 9], [])
  {
    hide LeafPage, Encode, EncodeInt;
    var payload: Data := [2, 9];
    assert LocalSize(512, 2) == 2;
    SmallVarint(2);
    SmallVarint(rowid);
    assert payload[..2] == payload && payload[2..] == [];
    assert CellBytes(512, rowid, payload, 0) == [2, rowid, 2, 9];
    assert LeafPage(rowid)[20..24] == [2, rowid, 2, 9];
    Power256();
  }

  lemma {:induction false} CellHolds(rowid: Byte)
    requires rowid == 1 || rowid == 2
    ensures Acquire(File(), rowid + 2) == Page(LeafPage(rowid))
    ensures Holds(File(), rowid + 2, 20, Entry(rowid, [Integer(1)], []))
  {
    hide LeafPage, RootPage, File, WriteRecord, Acquire, CellStored, Holds, StoredValues, MayStore;
    Pages();
    Written();
    Power128();
    CellIsStored(rowid);
    NumberFits();
    WrittenCellHolds(File(), rowid + 2, 20, rowid, OneColumn(), []);
  }

  /** The cell as the parser reads it. */
  lemma {:induction false} CellReads(rowid: Byte)
    requires rowid == 1 || rowid == 2
    ensures ReadCell(File(), LeafPage(rowid), 20) == CellRead([], rowid, Accepted([Integer(1)]))
  {
    hide LeafPage, File, Acquire, ReadCell;
    CellHolds(rowid);
  }

  lemma {:induction false} LeafHolds(rowid: Byte)
    requires rowid == 1 || rowid == 2
    ensures Represents(File(), LeafNode(rowid))
  {
    hide LeafPage, File, Acquire, Holds, TableLeaf;
    CellHolds(rowid);
    LeafShape(rowid);
    assert TableLeaf(File(), rowid + 2, [20]) && Holds(File(), rowid + 2, [20][0], LeafNode(rowid).cells[0]);
  }

  lemma {:induction false} NumberFits()
    ensures forall i :: 0 <= i < |OneColumn()| ==> MayStore(OneColumn()[i])
  {
  }

  lemma {:induction false} LeafShape(rowid: Byte)
    requires rowid == 1 || rowid == 2
    ensures TableLeaf(File(), rowid + 2, [20])
  {
    hide LeafPage, RootPage, File, Acquire;
    Pages();
    var data := LeafPage(rowid);
    assert data[0] == 13 && U16(data, 3) == 1 && U16(data, 8) == 20;
  }

  lemma {:induction false} RootFields()
    ensures var data := RootPage();
            data[0] == 5 && U16(data, 3) == 1 && U16(data, 12) == 16 && U32(data, 16) == 3 && U32(data, 8) == 4
  {
    hide RootPage;
    var data := RootPage();
    assert data[3] == 0 && data[4] == 1 && data[12] == 0 && data[13] == 16;
    assert data[16] == 0 && data[17] == 0 && data[18] == 0 && data[19] == 3;
    assert data[8] == 0 && data[9] == 0 && data[10] == 0 && data[11] == 4;
  }

  lemma {:induction false} RootKey()
    ensures Decode(RootPage(), 20) == Varint(1, 1)
  {
    hide RootPage;
    var s := RootPage()[20..];
    assert s[0] == 1;
    ContinuedOver(s, 0, 0);
    Fold7Take(s, 0);
  }

  lemma {:induction false} RootShape()
    ensures TableInterior(File(), 2, [16], [3, 4], [1])
  {
    hide Acquire, RootPage, LeafPage, File, Decode, U16, U32, RootByte;
    Pages();
    RootFields();
    RootKey();
  }

  /** The file holds the tree. */
  lemma {:induction false} TreeIsHeld()
    ensures Represents(File(), Tree())
  {
    hide File, TableInterior, Represents, AllRepresented;
    LeafHolds(1);
    LeafHolds(2);
    RootShape();
    var kids := [LeafNode(1), LeafNode(2)];
    KidsAreHeld(kids);
    InteriorIsHeld(2, [1], kids, [16]);
  }

  lemma {:induction false} InteriorIsHeld(n: int, keys: seq<int>, kids: seq<Node>, pointers: seq<int>)
    requires |kids| == 2 && n != 1 && TableInterior(File(), n, pointers, [kids[0].page, kids[1].page], keys)
    requires AllRepresented(File(), kids)
    ensures Represents(File(), Interior(n, keys, kids))
  {
    hide File, TableInterior, TableLeaf, Holds, AllRepresented;
    assert Roots(kids) == [kids[0].page, kids[1].page];
  }

  lemma {:induction false} KidsAreHeld(kids: seq<Node>)
    requires |kids| == 2 && Represents(File(), kids[0]) && Represents(File(), kids[1])
    ensures AllRepresented(File(), kids)
  {
    hide File, Represents;
  }

  lemma {:induction false} LeafIsProper(rowid: Byte)
    ensures Proper(LeafNode(rowid)) && PagesOf(LeafNode(rowid)) == {rowid + 2}
    ensures Ordered(LeafNode(rowid), rowid - 1, rowid)
  {
    var cells := LeafNode(rowid).cells;
    assert cells[1..] == [];
    assert cells[0].overflow == [];
    assert Overflows(cells) == {};
    assert CellsOrdered(cells[1..], rowid, rowid);
  }

  lemma {:induction false} TreeIsProper()
    ensures Proper(Tree()) && Ordered(Tree(), 0, 2)
  {
    hide PagesOf;
    var kids := [LeafNode(1), LeafNode(2)];
    var one := kids[1..];
    assert one == [LeafNode(2)] && one[1..] == [];
    LeafIsProper(1);
    LeafIsProper(2);
    assert AllPages(one) == {4};
    assert AllPages(kids) == {3, 4};
    assert AllProper(one) && AllProper(kids);
    var keys := [1];
    assert keys[1..] == [];
    assert KidsOrdered(one, [], 1, 2);
    assert KidsOrdered(kids, keys, 0, 2);
  }

  /** So its two rows are recovered, in order, from any state in which nothing is being parsed. */
  lemma {:induction false} ExampleRecovered(env: Env, st: State)
    requires env.db == File() && TakesAll(env) && |st.status| == 4 && st.rows == []
    requires forall k :: Get(st.status, k) != Checking
    ensures var r := ParsePage(env, st, 2, Height(Tree()));
            r.Walked? && r.st.rows == [Row(3, 1, [Integer(1)], []), Row(4, 2, [Integer(1)], [])]
  {
    hide Represents, Proper, Ordered, ParsePage, TakesAll, PagesOf, Height;
    TreeIsHeld();
    TreeIsProper();
    IntactTableRecovered(env, st, Tree(), 0, 2);
    var kids := Tree().kids;
    assert kids[1..] == [LeafNode(2)] && kids[1..][1..] == [];
    assert LeafNode(1).cells[1..] == [] && LeafNode(2).cells[1..] == [];
    assert InOrder(LeafNode(1)) == [Row(3, 1, [Integer(1)], [])];
    assert InOrder(LeafNode(2)) == [Row(4, 2, [Integer(1)], [])];
  }
}
