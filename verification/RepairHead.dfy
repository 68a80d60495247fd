/** What a page is to the walk, read off its bytes: when its head is damaged, and what is seen of it otherwise. */
module RepairHead {
  import opened Options
  import opened Bytes
  import opened RepairBytes
  import opened RepairPages
  import opened RepairWalk
  import opened RepairTree

  // ----- the head of a page, in the numbers of section 1.6

  /** The first page starts with the file header. */
  function Start(n: int): nat {
    if n == 1 then 100 else 0
  }

  /** Two-byte and four-byte numbers, which the code reads as signed ones. */
  function S16(data: Data, at: nat): int
    requires at + 2 <= |data|
  {
    Signed(data[at..at + 2])
  }

  function S32(data: Data, at: nat): int
    requires at + 4 <= |data|
  {
    Signed(data[at..at + 4])
  }

  predicate IsType(t: int) {
    t == 2 || t == 5 || t == 10 || t == 13
  }

  /** Where the cell pointer array begins, behind the start of the page. */
  function ArrayAt(t: int): nat {
    if t == 5 then 12 else 8
  }

  function CountOf(data: Data, n: int): int
    requires |data| >= 512
  {
    S16(data, Start(n) + 3)
  }

  function TypeAt(data: Data, n: int): int
    requires |data| >= 512
  {
    data[Start(n)]
  }

  /** A known type, and a positive number of cells whose array is not larger than a page. */
  predicate HeadIsSound(data: Data, n: int)
    requires |data| >= 512
  {
    IsType(TypeAt(data, n)) && 0 < CountOf(data, n) && 2 * CountOf(data, n) + ArrayAt(TypeAt(data, n)) <= |data|
  }

  /** The array lies inside the page; on page 1 it may not. */
  predicate ArrayFits(data: Data, n: int)
    requires |data| >= 512
  {
    Start(n) + ArrayAt(TypeAt(data, n)) + 2 * CountOf(data, n) <= |data|
  }

  ghost predicate ArePointers(data: Data, n: int, pointers: seq<int>)
    requires |data| >= 512
  {
    var a := Start(n) + ArrayAt(TypeAt(data, n));
    && ArrayFits(data, n) && |pointers| == CountOf(data, n)
    && forall i :: 0 <= i < |pointers| ==> pointers[i] == S16(data, a + 2 * i)
  }

  predicate Points(data: Data, pointer: int) {
    0 <= pointer && pointer + 4 <= |data|
  }

  /** A child for each cell, and for table pages the right-most one, which is taken from byte 8. */
  ghost predicate AreChildren(data: Data, n: int, pointers: seq<int>, children: seq<int>)
    requires |data| >= 512
  {
    && |children| == |pointers| + (if TypeAt(data, n) == 5 then 1 else 0)
    && (forall i :: 0 <= i < |pointers| ==> Points(data, pointers[i]) && children[i] == S32(data, pointers[i]))
    && (|children| > |pointers| ==> children[|pointers|] == S32(data, 8))
  }

  ghost predicate ChildrenLie(data: Data, pointers: seq<int>) {
    forall i :: 0 <= i < |pointers| ==> Points(data, pointers[i])
  }

  /** What is seen of the page. `Outside` is a read past the end of the page. */
  ghost predicate Shows(data: Data, n: int, view: View)
    requires |data| >= 512
  {
    var t := TypeAt(data, n);
    if !HeadIsSound(data, n) then view == Bad(Damaged)
    else if !ArrayFits(data, n) then view == Bad(Outside)
    else
      match view
      case Rows(pointers) => t == 13 && ArePointers(data, n, pointers)
      case IndexLeaf => t == 10
      case Inner(children) =>
        (t == 2 || t == 5) && exists p :: ArePointers(data, n, p) && AreChildren(data, n, p, children)
      case Bad(code) =>
        code == Outside && (t == 2 || t == 5) && exists p :: ArePointers(data, n, p) && !ChildrenLie(data, p)
  }

  // ----- the code sees just that

  lemma {:induction false} ReadsSigned(data: Data, at: nat, n: nat)
    requires at + n <= |data| && (n == 2 || n == 4)
    ensures ReadInt(data, at, n) == Some(Signed(data[at..at + n]))
  {
    hide ParseInt64, Signed;
    IntIsBigEndian(data[at..at + n]);
  }

  lemma {:induction false} ReadsTypeByte(data: Data, at: nat)
    requires at < |data|
    ensures ReadInt(data, at, 1) == Some(Int8(data[at]))
  {
    assert data[at..at + 1][0] == data[at];
  }

  lemma {:induction false} ReadsArray(data: Data, start: nat, count: nat) returns (pointers: seq<int>)
    requires start + 2 * count <= |data|
    ensures CellPointers(data, start, count) == Some(pointers) && |pointers| == count
    ensures forall i :: 0 <= i < count ==> pointers[i] == S16(data, start + 2 * i)
  {
    hide ReadInt, Signed, ReadAll;
    var offsets: seq<int> := seq(count, i => start + 2 * i);
    pointers := seq(count, i requires 0 <= i < count => S16(data, start + 2 * i));
    forall i | 0 <= i < count ensures ReadInt(data, offsets[i], 2) == Some(pointers[i]) {
      ReadsSigned(data, start + 2 * i, 2);
    }
    ReadsAll(data, offsets, 2, pointers);
  }

  /** One value that cannot be read is enough. */
  lemma {:induction false} ReadsNone(data: Data, offsets: seq<int>, n: nat, i: nat)
    requires i < |offsets| && ReadInt(data, offsets[i], n) == None
    ensures ReadAll(data, offsets, n) == None
    decreases i
  {
    hide ReadInt;
    if i > 0 {
      ReadsNone(data, offsets[1..], n, i - 1);
    }
  }

  lemma {:induction false} ArrayRunsOut(data: Data, start: nat, count: nat)
    requires start <= |data| < start + 2 * count
    ensures CellPointers(data, start, count) == None
  {
    hide ReadAll;
    var offsets: seq<int> := seq(count, i => start + 2 * i);
    ReadsNone(data, offsets, 2, count - 1);
  }

  lemma {:induction false} ReadsChildren(data: Data, n: int, pointers: seq<int>) returns (view: View)
    requires |data| >= 512 && (TypeAt(data, n) == 2 || TypeAt(data, n) == 5)
    ensures view == Children(data, pointers, TypeAt(data, n))
    ensures ChildrenLie(data, pointers) ==> view.Inner? && AreChildren(data, n, pointers, view.children)
    ensures !ChildrenLie(data, pointers) ==> view == Bad(Outside)
  {
    hide ReadAll, Signed;
    view := Children(data, pointers, TypeAt(data, n));
    if ChildrenLie(data, pointers) {
      var kids: seq<int> := seq(|pointers|, i requires 0 <= i < |pointers| => S32(data, pointers[i]));
      forall i | 0 <= i < |pointers| ensures ReadInt(data, pointers[i], 4) == Some(kids[i]) {
        ReadsSigned(data, pointers[i], 4);
      }
      ReadsAll(data, pointers, 4, kids);
      ReadsSigned(data, 8, 4);
    } else {
      var i :| 0 <= i < |pointers| && !Points(data, pointers[i]);
      ReadsNone(data, pointers, 4, i);
    }
  }

  /** On every whole page the walk sees exactly what its bytes show. */
  lemma {:induction false} ViewIsExact(db: Db, n: int, data: Data)
    requires Acquire(db, n) == Page(data)
    ensures Shows(data, n, PageView(db, n))
    ensures forall view :: Shows(data, n, view) ==> view == PageView(db, n)
  {
    ViewShows(db, n, data);
    forall view | Shows(data, n, view) ensures view == PageView(db, n) {
      OneView(data, n, view, PageView(db, n));
    }
  }

  lemma {:induction false} ViewShows(db: Db, n: int, data: Data)
    requires Acquire(db, n) == Page(data)
    ensures Shows(data, n, PageView(db, n))
  {
    hide ReadInt, CellPointers, Children, AreChildren, ChildrenLie, Signed;
    HeadIsRead(db, n, data);
    if HeadIsSound(data, n) {
      var t, a := TypeAt(data, n), Start(n) + ArrayAt(TypeAt(data, n));
      if ArrayFits(data, n) {
        var pointers := ReadsArray(data, a, CountOf(data, n));
        assert ArePointers(data, n, pointers);
        if t == 2 || t == 5 {
          var view := ReadsChildren(data, n, pointers);
        }
      } else {
        ArrayRunsOut(data, a, CountOf(data, n));
      }
    }
  }

  /** The tests at the start of sqliterkBtreeParsePage. */
  lemma {:induction false} HeadIsRead(db: Db, n: int, data: Data)
    requires Acquire(db, n) == Page(data)
    ensures !HeadIsSound(data, n) ==> PageView(db, n) == Bad(Damaged)
    ensures HeadIsSound(data, n) ==>
              var t, count := TypeAt(data, n), CountOf(data, n);
              var pointers := CellPointers(data, Start(n) + ArrayAt(t), count);
              PageView(db, n) == if pointers == None then Bad(Outside)
                                 else if t == 13 then Rows(pointers.value)
                                 else if t == 10 then IndexLeaf
                                 else Children(data, pointers.value, t)
  {
    hide ReadInt, CellPointers, Children, Signed;
    ReadsTypeByte(data, Start(n));
    ReadsSigned(data, Start(n) + 3, 2);
  }

  lemma {:induction false} OneView(data: Data, n: int, a: View, b: View)
    requires |data| >= 512 && Shows(data, n, a) && Shows(data, n, b)
    ensures a == b
  {
    hide Signed, ArePointers, AreChildren, ChildrenLie;
    if a.Inner? && b.Inner? {
      var p :| ArePointers(data, n, p) && AreChildren(data, n, p, a.children);
      var q :| ArePointers(data, n, q) && AreChildren(data, n, q, b.children);
      OneArray(data, n, p, q, a.children);
      SameChildren(data, n, p, a.children, b.children);
    } else if a.Rows? && b.Rows? {
      SameArray(data, n, a.pointers, b.pointers);
    } else {
      forall p, q, children | ArePointers(data, n, p) && ArePointers(data, n, q) && AreChildren(data, n, p, children)
        ensures ChildrenLie(data, q)
      {
        OneArray(data, n, p, q, children);
      }
    }
  }

  lemma {:induction false} SameArray(data: Data, n: int, p: seq<int>, q: seq<int>)
    requires |data| >= 512 && ArePointers(data, n, p) && ArePointers(data, n, q)
    ensures p == q
  {
    hide S16;
  }

  lemma {:induction false} SameChildren(data: Data, n: int, p: seq<int>, a: seq<int>, b: seq<int>)
    requires |data| >= 512 && AreChildren(data, n, p, a) && AreChildren(data, n, p, b)
    ensures a == b
  {
    hide Signed;
    forall i | 0 <= i < |a| ensures a[i] == b[i] {
      if i < |p| {
        assert Points(data, p[i]);
      }
    }
  }

  lemma {:induction false} OneArray(data: Data, n: int, p: seq<int>, q: seq<int>, children: seq<int>)
    requires |data| >= 512 && ArePointers(data, n, p) && ArePointers(data, n, q) && AreChildren(data, n, p, children)
    ensures p == q && ChildrenLie(data, q)
  {
    hide S16, S32;
  }

  // ----- how the walk of such a page ends

  /** A page whose head is damaged ends in status damaged with that code, and nothing else changes. */
  lemma {:induction false} DamagedHeadIsMarked(env: Env, st: State, n: int, data: Data, fuel: nat)
    requires Acquire(env.db, n) == Page(data) && |st.status| == |env.db.pages| && Get(st.status, n) != Checking
    requires !HeadIsSound(data, n)
    ensures ParsePage(env, st, n, fuel) == Walked(State(Put(st.status, n, Damage), st.rows), Damaged)
  {
    ViewIsExact(env.db, n, data);
    hide PageView, HeadIsSound;
    assert Put(Put(st.status, n, Checking), n, Damage) == Put(st.status, n, Damage);
  }

  /** An index leaf ends checked, and gives no rows; so does any leaf of a system table other than sqlite_master. */
  lemma {:induction false} SkippedLeafIsMarked(env: Env, st: State, n: int, data: Data, fuel: nat)
    requires Acquire(env.db, n) == Page(data) && |st.status| == |env.db.pages| && Get(st.status, n) != Checking
    requires HeadIsSound(data, n) && ArrayFits(data, n)
    requires TypeAt(data, n) == 10 || (TypeAt(data, n) == 13 && env.skipRows)
    ensures ParsePage(env, st, n, fuel) == Walked(State(Put(st.status, n, Checked), st.rows), Good)
  {
    ViewIsExact(env.db, n, data);
    hide PageView, HeadIsSound, ArrayFits, ArePointers, AreChildren, ChildrenLie;
    assert Put(Put(st.status, n, Checking), n, Checked) == Put(st.status, n, Checked);
  }

  /** A page that the file cuts short ends invalid; a number outside of the file changes nothing. */
  lemma {:induction false} UnreadablePage(env: Env, st: State, n: int, fuel: nat)
    requires |st.status| == |env.db.pages| && Get(st.status, n) != Checking && !Acquire(env.db, n).Page?
    ensures ParsePage(env, st, n, fuel)
         == if 1 <= n <= |env.db.pages| then Walked(State(Put(st.status, n, Invalid), st.rows), Refused(5))
            else Walked(st, Misuse)
  {
    if 1 <= n <= |env.db.pages| {
      assert Put(Put(st.status, n, Checking), n, Invalid) == Put(st.status, n, Invalid);
    }
  }

  // ----- interior pages of indexes

  /** An interior page of an index as the format has it: a twelve-byte head, as on interior table pages. */
  ghost predicate IndexInterior(data: Data, n: int, pointers: seq<int>, children: seq<int>)
    requires |data| >= 512
  {
    && TypeAt(data, n) == 2 && HeadIsSound(data, n) && Start(n) + 12 + 2 * CountOf(data, n) <= |data|
    && |pointers| == CountOf(data, n) && |children| == |pointers| + 1
    && (forall i :: 0 <= i < |pointers| ==> pointers[i] == S16(data, Start(n) + 12 + 2 * i))
    && (forall i :: 0 <= i < |pointers| ==> Points(data, pointers[i]) && children[i] == S32(data, pointers[i]))
    && children[|pointers|] == S32(data, Start(n) + 8)
  }

  /** The code takes its array to begin at byte 8, where the right-most child is: the two halves of that number are its
      first two cell pointers, and the children of the last two cells and the right-most one are never visited. */
  lemma {:induction false} IndexInteriorIsMisread(db: Db, n: int, data: Data, pointers: seq<int>, children: seq<int>)
    requires Acquire(db, n) == Page(data) && IndexInterior(data, n, pointers, children)
    ensures PageView(db, n) != Inner(children)
    ensures PageView(db, n).Inner? ==>
              var seen := PageView(db, n).children;
              |seen| == |children| - 1 && forall i :: 2 <= i < |seen| ==> seen[i] == children[i - 2]
  {
    ViewIsExact(db, n, data);
    hide PageView, HeadIsSound, ArePointers, AreChildren, IndexInterior, ChildrenLie;
    if PageView(db, n).Inner? {
      var seen := PageView(db, n).children;
      var p :| ArePointers(data, n, p) && AreChildren(data, n, p, seen);
      ShiftedByTwo(data, n, pointers, children, p, seen);
    }
  }

  lemma {:induction false} ShiftedByTwo(
    data: Data, n: int, pointers: seq<int>, children: seq<int>, p: seq<int>, seen: seq<int>)
    requires |data| >= 512 && IndexInterior(data, n, pointers, children)
    requires ArePointers(data, n, p) && AreChildren(data, n, p, seen)
    ensures |seen| == |children| - 1 && forall i :: 2 <= i < |seen| ==> seen[i] == children[i - 2]
  {
    hide S16, S32, HeadIsSound;
    forall i | 2 <= i < |seen| ensures seen[i] == children[i - 2] {
      assert p[i] == S16(data, Start(n) + 8 + 2 * i) && pointers[i - 2] == S16(data, Start(n) + 12 + 2 * (i - 2));
    }
  }
}
