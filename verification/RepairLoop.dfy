/** Two files that differ in the order of two children. On both, page 2 is its own child, and the overflow chain of a leaf
    below it runs through it. When the leaf comes first the walk never ends; when it comes last the walk ends. */
module RepairLoop {
  import opened Options
  import opened Bytes
  import opened RepairBytes
  import opened RepairRecord
  import opened RepairPages
  import opened RepairPayload
  import opened RepairWalk
  import opened RepairStack
  import opened RepairEnds
  import opened RepairTree

  /** Page 2, an interior page with two children. */
  function InteriorByte(first: Byte, last: Byte, i: int): Byte {
    if i == 0 then 5
    else if i == 4 then 1
    else if i == 11 then last
    else if i == 13 then 16
    else if i == 19 then first
    else 0
  }

  /** Page 3, a leaf with one cell at byte 20: 512 bytes of payload, rowid 1, 39 local bytes that start with nine
      continuation bytes, and page 2 as its overflow page. */
  function LeafByte(i: int): Byte {
    if i == 0 then 13
    else if i == 4 then 1
    else if i == 9 then 20
    else if i == 20 then 132
    else if i == 22 then 1
    else if 23 <= i < 32 then 128
    else if i == 65 then 2
    else 0
  }

  function InteriorPage(first: Byte, last: Byte): (data: Data)
    ensures |data| == 512 && forall i :: 0 <= i < 512 ==> data[i] == InteriorByte(first, last, i)
  {
    seq(512, i => InteriorByte(first, last, i))
  }

  function LeafPage(): (data: Data)
    ensures |data| == 512 && forall i :: 0 <= i < 512 ==> data[i] == LeafByte(i)
  {
    seq(512, i => LeafByte(i))
  }

  function File(first: Byte, last: Byte): Db {
    Image([HeaderPage(), InteriorPage(first, last), LeafPage()], 512, 512)
  }

  /** The pager does cut it into these pages. */
  lemma {:induction false} FileIsCut(first: Byte, last: Byte)
    ensures CutAs(File(first, last), HeaderPage())
  {
    hide HeaderPage, ParseHeader;
    HeaderPageSays512();
  }

  lemma {:induction false} Pages(first: Byte, last: Byte)
    requires first <= 3 && last <= 3
    ensures Acquire(File(first, last), 2) == Page(InteriorPage(first, last)) && Acquire(File(first, last), 3) == Page(LeafPage())
  {
    hide InteriorPage, LeafPage;
  }

  lemma {:induction false} Views(first: Byte, last: Byte)
    requires first <= 3 && last <= 3
    ensures PageView(File(first, last), 2) == Inner([first, last]) && PageView(File(first, last), 3) == Rows([20])
  {
    hide PageView, TableInterior, TableLeaf;
    InteriorShape(first, last);
    InteriorIsSeen(File(first, last), 2, [16], [first, last], [0]);
    LeafShape(first, last);
    LeafIsSeen(File(first, last), 3, [20]);
  }

  lemma {:induction false} InteriorShape(first: Byte, last: Byte)
    requires first <= 3 && last <= 3
    ensures TableInterior(File(first, last), 2, [16], [first, last], [0])
  {
    hide Acquire, InteriorPage, File, Decode, U16, U32, InteriorByte;
    Pages(first, last);
    InteriorKey(first, last);
    InteriorFields(first, last);
  }

  lemma {:induction false} InteriorFields(first: Byte, last: Byte)
    requires first <= 3 && last <= 3
    ensures var data := InteriorPage(first, last);
            data[0] == 5 && U16(data, 3) == 1 && U16(data, 12) == 16 && U32(data, 16) == first && U32(data, 8) == last
  {
    hide InteriorPage;
    var data := InteriorPage(first, last);
    assert data[3] == 0 && data[4] == 1 && data[12] == 0 && data[13] == 16;
  }

  lemma {:induction false} LeafShape(first: Byte, last: Byte)
    requires first <= 3 && last <= 3
    ensures TableLeaf(File(first, last), 3, [20])
  {
    hide Acquire, LeafPage, File;
    Pages(first, last);
    var data := LeafPage();
    assert data[0] == 13 && U16(data, 3) == 1 && U16(data, 8) == 20;
  }

  lemma {:induction false} InteriorKey(first: Byte, last: Byte)
    requires first <= 3 && last <= 3
    ensures Decode(InteriorPage(first, last), 20) == Varint(0, 1)
  {
    hide InteriorPage;
    var s := InteriorPage(first, last)[20..];
    assert s[0] == 0;
    ContinuedOver(s, 0, 0);
    Fold7Take(s, 0);
  }

  /** The cell of page 3 fails, after its chain has been through page 2. */
  lemma {:induction false} LeafCell(first: Byte, last: Byte)
    requires first <= 3 && last <= 3
    ensures ReadCell(File(first, last), LeafPage(), 20) == CellRead([2], 1, Failed(Damaged))
  {
    hide LeafPage, InteriorPage, Decode, ParseRecord, ReadPayload;
    SizeAndRowid();
    CellPayload(first, last);
    var payload := ReadPayload(File(first, last), LeafPage(), 23, 512);
    StartsDamaged(payload.bytes);
  }

  lemma {:induction false} SizeAndRowid()
    ensures Decode(LeafPage(), 20) == Varint(512, 2) && Decode(LeafPage(), 22) == Varint(1, 1)
  {
    hide LeafPage;
    var s := LeafPage()[20..];
    assert s[0] == 132 && s[1] == 0;
    ContinuedOver(s, 0, 1);
    Fold7Take(s, 0);
    Fold7Take(s, 1);
    var r := LeafPage()[22..];
    assert r[0] == 1;
    ContinuedOver(r, 0, 0);
    Fold7Take(r, 0);
  }

  lemma {:induction false} CellPayload(first: Byte, last: Byte)
    requires first <= 3 && last <= 3
    ensures var p := ReadPayload(File(first, last), LeafPage(), 23, 512);
            p.Payload? && p.touched == [2] && forall i :: 0 <= i < 9 ==> p.bytes[i] == 128
  {
    hide LeafPage, InteriorPage, HeaderPage, Follow, ReadInt, Assemble, U32;
    var db, data := File(first, last), LeafPage();
    Spilled();
    NextOfLeaf();
    var local := data[23..62];
    forall i | 0 <= i < 9 ensures local[i] == 128 {
      assert local[i] == data[23 + i] == LeafByte(23 + i);
    }
    hide LeafByte;
    ChainOfTwo(first, last);
    ReadsSpilled(db, data, 23, 512, 39, 2);
    StartsAlike(db, local, 2, 473);
  }

  lemma {:induction false} Spilled()
    ensures LocalSize(512, 512) == 39
  {
  }

  lemma {:induction false} NextOfLeaf()
    ensures ReadInt(LeafPage(), 62, 4) == Some(2)
  {
    hide LeafPage, ReadInt;
    var data := LeafPage();
    assert data[62] == 0 && data[63] == 0 && data[64] == 0 && data[65] == 2;
    ReadsU32(data, 62);
  }

  lemma {:induction false} ReadsSpilled(db: Db, data: Data, offset: nat, size: nat, local: nat, next: int)
    requires |data| == db.pagesize && 0 < local < size && LocalSize(db.usable, size) == local
    requires offset + local <= db.pagesize && ReadInt(data, offset + local, 4) == Some(next)
    ensures ReadPayload(db, data, offset, size) == Assemble(db, data[offset..offset + local], next, size - local)
  {
    hide LocalSize, ReadInt, Assemble;
  }

  /** A payload starts with its local part. */
  lemma {:induction false} StartsAlike(db: Db, local: Data, n: int, rest: nat)
    ensures forall i :: 0 <= i < |local| ==> Assemble(db, local, n, rest).bytes[i] == local[i]
    ensures Assemble(db, local, n, rest).touched == Follow(db, n, rest).touched
  {
    hide Follow;
  }

  lemma {:induction false} ChainOfTwo(first: Byte, last: Byte)
    requires first <= 3 && last <= 3
    ensures Follow(File(first, last), 2, 473).touched == [2]
  {
    hide LeafPage, InteriorPage;
    var db := File(first, last);
    var data := Acquire(db, 2).data;
    assert NextPage(data) == Int32(5, 0, 0, 0);
    assert Follow(db, NextPage(data), 0) == Chain([], []);
  }

  lemma {:induction false} StartsDamaged(p: Data)
    requires |p| >= 9 && forall i :: 0 <= i < 9 ==> p[i] == 128
    ensures ParseRecord(p) == Failed(Damaged)
  {
    assert p[0..] == p;
    var m := Continued(p, 0);
    assert m == 9;
  }

  /** With no limit on the recursion the walk of the first file does not end, whatever the callback does: the leaf's
      chain takes page 2 out of status checking, so that page 2 is entered again below itself. */
  lemma {:induction false} NeverEnds(env: Env, st: State, fuel: nat)
    requires env.db == File(3, 2) && !env.skipRows && |st.status| == 3
    requires Get(st.status, 2) != Checking && Get(st.status, 3) != Checking
    ensures ParsePage(env, st, 2, fuel) == TooDeep
    decreases fuel
  {
    hide PageView, ReadCell, LeafPage, InteriorPage, ParseCells;
    Views(3, 2);
    if fuel > 0 {
      var begun := Begun(st, 2);
      LeafReleases(env, begun, fuel - 1);
      var r := ParsePage(env, begun, 3, fuel - 1);
      NeverEnds(env, r.st, fuel - 1);
      var kids := [3, 2];
      assert kids[1..] == [2];
      assert ParseChildren(env, r.st, [2], fuel - 1) == TooDeep;
      assert ParseChildren(env, begun, kids, fuel - 1) == TooDeep;
      assert ParseBody(env, begun, 2, fuel) == TooDeep;
    }
  }

  lemma {:induction false} LeafReleases(env: Env, st: State, fuel: nat)
    requires env.db == File(3, 2) && !env.skipRows && |st.status| == 3
    requires Get(st.status, 2) == Checking && Get(st.status, 3) != Checking
    ensures var r := ParsePage(env, st, 3, fuel);
            r.Walked? && r.code == Damaged && Get(r.st.status, 2) == Checked && Get(r.st.status, 3) == Damage
  {
    hide PageView, ReadCell, LeafPage, InteriorPage;
    Views(3, 2);
    LeafCell(3, 2);
    var begun := Begun(st, 3);
    var touched := TouchAll(env.db, begun.status, [2]);
    assert TouchAll(env.db, Touch(env.db, begun.status, 2), []) == touched;
    assert ParseCell(env, begun, 3, 20) == Walked(State(touched, begun.rows), Damaged);
    assert ParseCells(env, begun, 3, [20]) == Walked(State(touched, begun.rows), Damaged);
  }

  /** On both files the leaf has page 2 in its chain. */
  lemma {:induction false} LeafHasPage(env: Env, first: Byte, last: Byte)
    requires first <= 3 && last <= 3 && env.db == File(first, last) && !env.skipRows
    ensures TouchedBelow(env, 3, 2)
  {
    hide PageView, ReadCell, LeafPage, InteriorPage;
    Views(first, last);
    LeafCell(first, last);
    Pages(first, last);
    assert Rows([20]).pointers[0] == 20;
    assert 2 in CellAt(env.db, 3, 0).touched && Reached(env.db, 3, 0);
    TouchedByLeaf(env, 3, 2);
  }

  /** What the first file violates: page 2 is a loop that frees itself. */
  lemma {:induction false} LoopFreesItself(env: Env)
    requires env.db == File(3, 2) && !env.skipRows
    ensures SelfFreeing(env, [Step(2, 1)]) && !NoSelfFreeing(env)
  {
    hide PageView, LeafPage, InteriorPage, TouchedBelow;
    Views(3, 2);
    LeafHasPage(env, 3, 2);
    var loop := [Step(2, 1)];
    assert FreedBelow(env, 2, 0, 2);
    assert Frees(env, loop[0], 2);
    assert StepAt(env.db, loop, 2, 0);
  }

  /** The second file has the same pages on its loops, but there the leaf comes too late, and the walk ends. */
  lemma {:induction false} OtherFileEnds(env: Env, st: State, fuel: nat)
    requires env.db == File(2, 3) && !env.skipRows && |st.status| == 3 && MostLevels(env) <= fuel
    ensures TouchedBelow(env, 2, 2) && NoSelfFreeing(env) && ParsePage(env, st, 2, fuel).Walked?
  {
    hide PageView, LeafPage, InteriorPage, ParsePage, MostLevels, TouchedBelow, SelfFreeing;
    Views(2, 3);
    LeafHasPage(env, 2, 3);
    assert IsChild(env.db, 2, 3);
    TouchedByChild(env, 2, 3, 2);
    forall loop: seq<Step> ensures !SelfFreeing(env, loop) {
      NothingIsFreed(env, loop);
    }
    assert NoSelfFreeing(env);
    WalkTerminates(env, st, 2, fuel);
  }

  /** A step on a loop of the second file is one to its first child. */
  lemma {:induction false} NothingIsFreed(env: Env, loop: seq<Step>)
    requires env.db == File(2, 3)
    ensures !SelfFreeing(env, loop)
  {
    hide PageView, InteriorPage, LeafPage, TouchedBelow, File;
    if SelfFreeing(env, loop) {
      assert FreedAround(env, loop, 0);
      var l: nat :| l < |loop| && Frees(env, loop[l], loop[0].page);
      var next := if l + 1 < |loop| then l + 1 else 0;
      assert StepAt(env.db, loop, loop[0].page, l) && StepAt(env.db, loop, loop[0].page, next);
      Views(2, 3);
      OnlyInner(loop[l].page);
      OnlyInner(loop[next].page);
    }
  }

  lemma {:induction false} OnlyInner(n: int)
    ensures IsInner(File(2, 3), n) ==> n == 2
  {
    hide ViewOf, InteriorPage, LeafPage;
    Views(2, 3);
    if n == 1 {
      HeaderIsNoPage();
    }
  }

  /** Page 1 has no b-tree page behind its file header. */
  lemma {:induction false} HeaderIsNoPage()
    ensures !IsInner(File(2, 3), 1)
  {
    hide InteriorPage, LeafPage;
    assert HeaderPage()[100..101] == [0];
  }
}
