/** When the page walk does not end: a loop that frees itself traps the walk if only leaves are walked on the way round it.
    On files without branches of interior pages that makes the condition of RepairEnds exact. */
module RepairEndless {
  import opened Options
  import opened RepairBytes
  import opened RepairRecord
  import opened RepairPages
  import opened RepairPayload
  import opened RepairWalk
  import opened RepairStack
  import opened RepairCancel
  import opened RepairEnds

  /** The children further left are no interior pages. */
  predicate LeavesFirst(db: Db, s: Step)
    requires IsInner(db, s.page) && s.child <= |PageView(db, s.page).children|
  {
    forall j :: 0 <= j < s.child ==> !IsInner(db, PageView(db, s.page).children[j])
  }

  /** A loop that frees itself, on which each page comes once, and only leaves come before the child. */
  ghost predicate Trap(env: Env, loop: seq<Step>) {
    && SelfFreeing(env, loop) && (forall i, j :: 0 <= i < j < |loop| ==> loop[i].page != loop[j].page)
    && forall i :: 0 <= i < |loop| ==> Plain(env.db, loop[i])
  }

  predicate Plain(db: Db, s: Step) {
    IsInner(db, s.page) && s.child < |PageView(db, s.page).children| && LeavesFirst(db, s)
  }

  /** Only interior pages are in status checking. */
  ghost predicate OnlyInner(db: Db, st: seq<Status>) {
    forall k :: Get(st, k) == Checking ==> IsInner(db, k)
  }

  // ----- what leaves do

  lemma {:induction false} CellsFree(env: Env, st: State, n: int, i: nat, l: nat, k: int)
    requires NeverRefuses(env) && PageView(env.db, n).Rows? && Acquire(env.db, n).Page?
    requires i <= l < |PageView(env.db, n).pointers| && Reached(env.db, n, l) && k in CellAt(env.db, n, l).touched
    ensures Get(ParseCells(env, st, n, PageView(env.db, n).pointers[i..]).st.status, k) != Checking
    decreases l - i
  {
    hide PageView, ReadCell, Acquire, ParseCells;
    var pointers := PageView(env.db, n).pointers;
    var rest := pointers[i..];
    assert rest[1..] == pointers[i + 1..];
    var r := ParseCell(env, st, n, rest[0]);
    CellsGoOn(env, st, n, rest);
    TouchAllElsewhere(env.db, st.status, CellAt(env.db, n, i).touched, k);
    if i < l {
      assert CellAt(env.db, n, i).record.Accepted?;
      CellsFree(env, r.st, n, i + 1, l, k);
    } else {
      CellsSettle(env, r.st, n, rest[1..]);
    }
  }

  lemma {:induction false} CellsGoOn(env: Env, st: State, n: int, pointers: seq<int>)
    requires pointers != [] && Acquire(env.db, n).Page?
    ensures var r := ParseCell(env, st, n, pointers[0]);
            ParseCells(env, st, n, pointers) == if r.code != Good then r else ParseCells(env, r.st, n, pointers[1..])
  {
    hide ParseCell, Acquire;
  }

  /** A page that is no interior page is walked without recursion, and takes what it touches out of status checking. */
  lemma {:induction false} LeafFrees(env: Env, st: State, n: int, fuel: nat)
    requires NeverRefuses(env) && !IsInner(env.db, n) && OnlyInner(env.db, st.status)
    ensures
      var r := ParsePage(env, st, n, fuel);
      && r.Walked? && r.code != Cancelled && Settled(st.status, r.st.status)
      && forall k :: LeafTouches(env, n, k) ==> Get(r.st.status, k) != Checking
  {
    ViewOfWholePage(env.db, n);
    hide PageView, ParseCells, Acquire, ReadCell, Cancels, Reached;
    CancelReportedExactly(env, st, n, fuel);
    NoCancel(env, st, n, fuel);
    PageSettles(env, st, n, fuel);
    var r := ParsePage(env, st, n, fuel);
    forall k | LeafTouches(env, n, k) ensures Get(r.st.status, k) != Checking {
      var pointers := PageView(env.db, n).pointers;
      var l: nat :| l < |pointers| && k in CellAt(env.db, n, l).touched && Reached(env.db, n, l);
      CellsFree(env, Begun(st, n), n, 0, l, k);
      assert pointers[0..] == pointers;
    }
  }

  lemma {:induction false} NoCancel(env: Env, st: State, n: int, fuel: nat)
    requires NeverRefuses(env) && ParsePage(env, st, n, fuel).Walked?
    ensures !Cancels(env, st.rows, ParsePage(env, st, n, fuel).st.rows)
  {
    hide ParsePage;
  }

  /** Nothing is below such a page but itself. */
  lemma {:induction false} TouchedByItself(env: Env, n: int, k: int)
    requires !IsInner(env.db, n) && TouchedBelow(env, n, k)
    ensures LeafTouches(env, n, k)
  {
    hide LeafTouches, PageView;
    var path :| TouchedAlong(env, path, k) && path[0] == n;
    assert |path| > 1 ==> IsChild(env.db, path[0], path[1]);
  }

  /** The children from `i` up to the one of step `s`. */
  lemma {:induction false} LeavesFree(env: Env, st: State, s: Step, i: nat, fuel: nat)
    requires NeverRefuses(env) && OnlyInner(env.db, st.status) && Plain(env.db, s) && i <= s.child
    ensures
      var kids := PageView(env.db, s.page).children;
      var after := After(env, st, kids[i..s.child], fuel);
      && after.Some? && Settled(st.status, after.value.status)
      && forall j, k :: i <= j < s.child && TouchedBelow(env, kids[j], k) ==> Get(after.value.status, k) != Checking
    decreases s.child - i
  {
    hide PageView, ParsePage, TouchedBelow, LeafTouches;
    var kids := PageView(env.db, s.page).children;
    if i < s.child {
      LeafFrees(env, st, kids[i], fuel);
      var r := ParsePage(env, st, kids[i], fuel);
      assert kids[i..s.child][1..] == kids[i + 1..s.child];
      LeavesFree(env, r.st, s, i + 1, fuel);
      forall k | TouchedBelow(env, kids[i], k) ensures LeafTouches(env, kids[i], k) {
        TouchedByItself(env, kids[i], k);
      }
    }
  }

  // ----- once round the loop

  function Turned(loop: seq<Step>): (r: seq<Step>)
    requires loop != []
    ensures |r| == |loop|
  {
    loop[1..] + [loop[0]]
  }

  /** Where the step at `i` of the turned loop is in the loop. */
  function Next(loop: seq<Step>, i: nat): (j: nat)
    requires i < |loop|
    ensures j < |loop| && Turned(loop)[i] == loop[j]
  {
    if i + 1 < |loop| then i + 1 else 0
  }

  lemma {:induction false} TurnedIsTrap(env: Env, loop: seq<Step>)
    requires Trap(env, loop)
    ensures Trap(env, Turned(loop)) && Turned(loop)[0].page == PageAt(loop, loop[0].page, 1)
  {
    TurnedIsLoop(env.db, loop);
    TurnedFreesItself(env, loop);
    TurnedIsSimple(env.db, loop);
    hide SelfFreeing, Plain, IsLoop, Turned, PageAt;
  }

  lemma {:induction false} TurnedIsSimple(db: Db, loop: seq<Step>)
    requires loop != [] && (forall i, j :: 0 <= i < j < |loop| ==> loop[i].page != loop[j].page)
    requires forall i :: 0 <= i < |loop| ==> Plain(db, loop[i])
    ensures
      var r := Turned(loop);
      && (forall i, j :: 0 <= i < j < |r| ==> r[i].page != r[j].page) && forall i :: 0 <= i < |r| ==> Plain(db, r[i])
  {
    hide Plain;
    var r := Turned(loop);
    forall i, j | 0 <= i < j < |r| ensures r[i].page != r[j].page {
      assert r[i] == loop[i + 1];
      assert r[j] == loop[if j + 1 < |loop| then j + 1 else 0];
    }
    forall i | 0 <= i < |r| ensures Plain(db, r[i]) {
      assert r[i] == loop[if i + 1 < |loop| then i + 1 else 0];
    }
  }

  lemma {:induction false} TurnedIsLoop(db: Db, loop: seq<Step>)
    requires IsLoop(db, loop)
    ensures IsLoop(db, Turned(loop)) && Turned(loop)[0].page == PageAt(loop, loop[0].page, 1)
  {
    hide IsStep;
    var r := Turned(loop);
    forall i: nat | i < |r| ensures StepAt(db, r, r[0].page, i) {
      assert r[i] == loop[Next(loop, i)];
      assert StepAt(db, loop, loop[0].page, Next(loop, i));
    }
  }

  lemma {:induction false} TurnedFreesItself(env: Env, loop: seq<Step>)
    requires SelfFreeing(env, loop) && IsLoop(env.db, Turned(loop))
    ensures SelfFreeing(env, Turned(loop))
  {
    hide Frees, IsLoop;
    var r := Turned(loop);
    forall i: nat | i < |r| ensures FreedAround(env, r, i) {
      FreedOnce(env, loop, Next(loop, i));
    }
  }

  lemma {:induction false} FreedOnce(env: Env, loop: seq<Step>, i: nat)
    requires SelfFreeing(env, loop) && i < |loop|
    ensures FreedIn(env, Turned(loop), 0, |loop|, loop[i].page)
  {
    hide Frees, IsLoop;
    assert FreedAround(env, loop, i);
    var l :| 0 <= l < |loop| && Frees(env, loop[l], loop[i].page);
    assert Turned(loop)[if l > 0 then l - 1 else |loop| - 1] == loop[l];
  }

  /** The next page of the loop can be entered: what is in status checking now is freed before the walk comes to it. */
  lemma {:induction false} TurnedIsEntered(env: Env, st: State, loop: seq<Step>, after: seq<Status>)
    requires Trap(env, loop) && WereEntered(env, st.status, loop)
    requires Settled(Begun(st, loop[0].page).status, after)
    requires forall k :: Frees(env, loop[0], k) ==> Get(after, k) != Checking
    ensures WereEntered(env, after, Turned(loop))
  {
    SelfFreeingIsLoop(env, loop);
    hide Frees, Plain, IsInner, Leads, SelfFreeing, FreedIn;
    var r := Turned(loop);
    forall i: nat | i < |r|
      ensures IsInner(env.db, r[i].page) && (Get(after, r[i].page) == Checking ==> FreedIn(env, r, 0, i, r[i].page))
    {
      var k := r[i].page;
      assert r[i] == loop[Next(loop, i)];
      if Get(after, k) == Checking {
        if i + 1 < |r| {
          assert Get(st.status, k) == Checking;
          FreedFurther(env, loop, i, k);
        } else {
          FreedByLoop(env, loop);
          FreedFurther(env, loop, i, k);
        }
      }
    }
  }

  lemma {:induction false} FreedByLoop(env: Env, loop: seq<Step>)
    requires SelfFreeing(env, loop)
    ensures FreedIn(env, loop, 0, |loop|, loop[0].page)
  {
    hide FreedIn, Leads;
    assert FreedAround(env, loop, 0);
  }

  lemma {:induction false} FreedFurther(env: Env, loop: seq<Step>, i: nat, k: int)
    requires i < |loop| && FreedIn(env, loop, 0, i + 1, k) && !Frees(env, loop[0], k)
    ensures FreedIn(env, Turned(loop), 0, i, k)
  {
    hide Frees;
    var l :| 0 <= l < i + 1 && Frees(env, loop[l], k);
    assert Turned(loop)[l - 1] == loop[l];
  }

  lemma {:induction false} ChildTooDeep(env: Env, st: State, kids: seq<int>, i: nat, fuel: nat)
    requires i < |kids| && After(env, st, kids[..i], fuel).Some?
    requires ParsePage(env, After(env, st, kids[..i], fuel).value, kids[i], fuel).TooDeep?
    ensures ParseChildren(env, st, kids, fuel).TooDeep?
    decreases i
  {
    hide ParsePage;
    if i > 0 {
      assert kids[..i][1..] == kids[1..][..i - 1] && kids[..i][0] == kids[0];
      ChildTooDeep(env, ParsePage(env, st, kids[0], fuel).st, kids[1..], i - 1, fuel);
    }
  }

  /** One page of the trap: the walk of the next one, from the statuses `after`, cannot end first. */
  lemma {:induction false} OneStep(env: Env, st: State, loop: seq<Step>, fuel: nat) returns (after: State)
    requires Trap(env, loop) && NeverRefuses(env) && |st.status| == |env.db.pages| && fuel > 0
    requires OnlyInner(env.db, st.status) && WereEntered(env, st.status, loop)
    ensures Trap(env, Turned(loop)) && |after.status| == |env.db.pages|
    ensures OnlyInner(env.db, after.status) && WereEntered(env, after.status, Turned(loop))
    ensures ParsePage(env, after, Turned(loop)[0].page, fuel - 1).TooDeep? ==>
              ParsePage(env, st, loop[0].page, fuel).TooDeep?
  {
    hide Frees, WereEntered, Settled, PageAt, Turned, NeverRefuses, OnlyInner, Begun, Plain, IsStep, ParsePage, After,
         BeginCode, PageView, SelfFreeing;
    SelfFreeingIsLoop(env, loop);
    CanBegin(env, st, loop);
    TurnedIsTrap(env, loop);
    hide Trap;
    after := LeavesBefore(env, st, loop[0], fuel - 1);
    TurnedIsEntered(env, st, loop, after.status);
    if ParsePage(env, after, Turned(loop)[0].page, fuel - 1).TooDeep? {
      PageTooDeep(env, st, loop[0], PageAt(loop, loop[0].page, 1), after, fuel);
    }
  }

  /** The page of the step is begun, and its children before the one of the step are walked. */
  lemma {:induction false} LeavesBefore(env: Env, st: State, s: Step, fuel: nat) returns (after: State)
    requires NeverRefuses(env) && OnlyInner(env.db, st.status) && Plain(env.db, s)
    ensures After(env, Begun(st, s.page), PageView(env.db, s.page).children[..s.child], fuel) == Some(after)
    ensures |after.status| == |st.status| && OnlyInner(env.db, after.status)
    ensures Settled(Begun(st, s.page).status, after.status)
    ensures forall k :: Frees(env, s, k) ==> Get(after.status, k) != Checking
  {
    var begun, kids := Begun(st, s.page), PageView(env.db, s.page).children;
    BegunIsInner(env.db, st, s.page);
    hide PageView, Frees, Settled, After, LeavesFirst, TouchedBelow, NeverRefuses, OnlyInner, Begun;
    LeavesFree(env, begun, s, 0, fuel);
    assert kids[0..s.child] == kids[..s.child];
    after := After(env, begun, kids[..s.child], fuel).value;
    StillOnlyInner(env.db, begun.status, after.status);
    AllFreed(env, s, after.status);
  }

  lemma {:induction false} BegunIsInner(db: Db, st: State, n: int)
    requires IsInner(db, n) && OnlyInner(db, st.status)
    ensures OnlyInner(db, Begun(st, n).status)
  {
    hide IsInner;
  }

  lemma {:induction false} PageTooDeep(env: Env, st: State, s: Step, next: int, after: State, fuel: nat)
    requires IsStep(env.db, s, next) && s.page <= |env.db.pages| && BeginCode(st.status, s.page) == Good && fuel > 0
    requires After(env, Begun(st, s.page), PageView(env.db, s.page).children[..s.child], fuel - 1) == Some(after)
    requires ParsePage(env, after, next, fuel - 1).TooDeep?
    ensures ParsePage(env, st, s.page, fuel).TooDeep?
  {
    hide PageView, ParseChildren, After, Begun;
    ChildTooDeep(env, Begun(st, s.page), PageView(env.db, s.page).children, s.child, fuel - 1);
  }

  /** The walk of a page of a trap does not end, whatever its place in the file and in the run, if the walk can enter it. */
  lemma {:induction false} TrapHolds(env: Env, st: State, loop: seq<Step>, fuel: nat)
    requires Trap(env, loop) && NeverRefuses(env) && |st.status| == |env.db.pages|
    requires OnlyInner(env.db, st.status) && WereEntered(env, st.status, loop)
    ensures ParsePage(env, st, loop[0].page, fuel).TooDeep?
    decreases fuel
  {
    CanBegin(env, st, loop);
    hide PageView, ParseChildren, Trap, WereEntered, OnlyInner, LeavesFirst, PageAt, NeverRefuses;
    if fuel > 0 {
      var after := OneStep(env, st, loop, fuel);
      TrapHolds(env, after, Turned(loop), fuel - 1);
    }
  }

  lemma {:induction false} CanBegin(env: Env, st: State, loop: seq<Step>)
    requires Trap(env, loop) && WereEntered(env, st.status, loop)
    ensures Plain(env.db, loop[0]) && loop[0].page <= |env.db.pages| && BeginCode(st.status, loop[0].page) == Good
    ensures StepAt(env.db, loop, loop[0].page, 0)
  {
    InnerIsValid(env.db, loop[0].page);
    hide Frees, Plain, IsStep, IsInner;
    assert Plain(env.db, loop[0]);
  }

  lemma {:induction false} StillOnlyInner(db: Db, before: seq<Status>, after: seq<Status>)
    requires OnlyInner(db, before) && Settled(before, after)
    ensures OnlyInner(db, after)
  {
    hide IsInner;
  }

  lemma {:induction false} AllFreed(env: Env, s: Step, after: seq<Status>)
    requires Plain(env.db, s)
    requires forall j, k :: 0 <= j < s.child && TouchedBelow(env, PageView(env.db, s.page).children[j], k) ==>
                              Get(after, k) != Checking
    ensures forall k :: Frees(env, s, k) ==> Get(after, k) != Checking
  {
    hide PageView, TouchedBelow;
  }

  // ----- files without branches

  predicate InnerChild(db: Db, n: int, i: nat) {
    IsInner(db, n) && i < |PageView(db, n).children| && IsInner(db, PageView(db, n).children[i])
  }

  /** No interior page has more than one interior child. */
  ghost predicate Unbranched(db: Db) {
    forall n, i: nat, j: nat :: InnerChild(db, n, i) && InnerChild(db, n, j) ==> i == j
  }

  /** Then a page of a loop determines the step from it, and all that follow. */
  lemma {:induction false} SameSteps(env: Env, loop: seq<Step>, i: nat, j: nat, l: nat)
    requires Unbranched(env.db) && IsLoop(env.db, loop) && i + l <= |loop| && j + l <= |loop|
    requires PageAt(loop, loop[0].page, i) == PageAt(loop, loop[0].page, j)
    ensures PageAt(loop, loop[0].page, i + l) == PageAt(loop, loop[0].page, j + l)
    ensures l > 0 ==> loop[i + (l - 1)] == loop[j + (l - 1)]
    decreases l
  {
    hide IsInner, PageView, Unbranched;
    if l > 0 {
      SameSteps(env, loop, i, j, l - 1);
      var a, b := i + l - 1, j + l - 1;
      StepIsInner(env.db, loop, a);
      StepIsInner(env.db, loop, b);
      OneChild(env.db, loop[a].page, loop[a].child, loop[b].child);
    }
  }

  lemma {:induction false} OneChild(db: Db, n: int, i: nat, j: nat)
    requires Unbranched(db) && InnerChild(db, n, i) && InnerChild(db, n, j)
    ensures i == j
  {
    hide InnerChild;
  }

  lemma {:induction false} StepIsInner(db: Db, loop: seq<Step>, i: nat)
    requires IsLoop(db, loop) && i < |loop|
    ensures StepAt(db, loop, loop[0].page, i) && InnerChild(db, loop[i].page, loop[i].child)
  {
    hide PageView, IsInner;
    var next := if i + 1 < |loop| then i + 1 else 0;
    assert StepAt(db, loop, loop[0].page, i);
    assert StepAt(db, loop, loop[0].page, next);
  }

  predicate Returns(loop: seq<Step>, m: nat) {
    0 < m <= |loop| && PageAt(loop, loop[0].page, m) == loop[0].page
  }

  /** Where the loop first comes back to its first page. */
  lemma {:induction false} FirstReturn(loop: seq<Step>, i: nat) returns (m: nat)
    requires 0 < i <= |loop| && forall j :: 0 < j < i ==> loop[j].page != loop[0].page
    ensures Returns(loop, m)
    ensures forall j :: 0 < j < m ==> loop[j].page != loop[0].page
    decreases |loop| - i
  {
    if i == |loop| || loop[i].page == loop[0].page {
      m := i;
    } else {
      m := FirstReturn(loop, i + 1);
    }
  }

  /** Each step is one of the first round. */
  lemma {:induction false} InFirstRound(env: Env, loop: seq<Step>, m: nat, l: nat) returns (j: nat)
    requires Unbranched(env.db) && IsLoop(env.db, loop) && Returns(loop, m) && l < |loop|
    ensures j < m && loop[j] == loop[l]
    decreases l
  {
    hide Unbranched, IsLoop;
    if l < m {
      j := l;
    } else {
      SameSteps(env, loop, m, 0, l - m + 1);
      assert loop[m + (l - m)] == loop[0 + (l - m)] && m + (l - m) == l;
      j := InFirstRound(env, loop, m, l - m);
    }
  }

  lemma {:induction false} SelfFreeingIsLoop(env: Env, loop: seq<Step>)
    requires SelfFreeing(env, loop)
    ensures IsLoop(env.db, loop) && loop != []
  {
  }

  /** The first round of a loop that frees itself is a trap. */
  lemma {:induction false} FirstRoundIsTrap(env: Env, loop: seq<Step>) returns (trap: seq<Step>)
    requires Unbranched(env.db) && SelfFreeing(env, loop)
    ensures Trap(env, trap) && trap != []
  {
    hide Unbranched, IsLoop, PageAt, FreedIn, Plain;
    SelfFreeingIsLoop(env, loop);
    var m := FirstReturn(loop, 1);
    trap := loop[..m];
    RoundIsLoop(env.db, loop, m);
    RoundFreesItself(env, loop, m);
    RoundIsSimple(env, loop, m);
    forall i | 0 <= i < |trap| ensures Plain(env.db, trap[i]) {
      StepIsPlain(env.db, loop, i);
    }
  }

  lemma {:induction false} RoundIsLoop(db: Db, loop: seq<Step>, m: nat)
    requires IsLoop(db, loop) && Returns(loop, m)
    ensures IsLoop(db, loop[..m])
  {
    hide IsStep, Leads;
    assert loop[0..m] == loop[..m];
    PartLeads(db, loop, loop[0].page, 0, m);
  }

  lemma {:induction false} RoundFreesItself(env: Env, loop: seq<Step>, m: nat)
    requires Unbranched(env.db) && SelfFreeing(env, loop) && Returns(loop, m) && IsLoop(env.db, loop[..m])
    ensures SelfFreeing(env, loop[..m])
  {
    hide Unbranched, Frees, IsLoop, PageAt;
    var round := loop[..m];
    forall i | 0 <= i < m ensures FreedAround(env, round, i) {
      assert FreedAround(env, loop, i);
      var l: nat :| l < |loop| && Frees(env, loop[l], loop[i].page);
      var j := InFirstRound(env, loop, m, l);
      assert round[j] == loop[l];
    }
  }

  lemma {:induction false} RoundIsSimple(env: Env, loop: seq<Step>, m: nat)
    requires Unbranched(env.db) && IsLoop(env.db, loop) && Returns(loop, m)
    requires forall j :: 0 < j < m ==> loop[j].page != loop[0].page
    ensures forall i, j :: 0 <= i < j < m ==> loop[i].page != loop[j].page
  {
    hide Unbranched, IsLoop, PageAt;
    forall i: nat, j: nat | i < j < m ensures loop[i].page != loop[j].page {
      if loop[i].page == loop[j].page {
        ReturnsEarlier(env, loop, m, i, j);
      }
    }
  }

  lemma {:induction false} ReturnsEarlier(env: Env, loop: seq<Step>, m: nat, i: nat, j: nat)
    requires Unbranched(env.db) && IsLoop(env.db, loop) && Returns(loop, m)
    requires i < j < m && loop[i].page == loop[j].page
    ensures loop[i + (m - j)].page == loop[0].page
  {
    hide Unbranched, IsLoop;
    SameSteps(env, loop, i, j, m - j);
  }

  lemma {:induction false} StepIsPlain(db: Db, loop: seq<Step>, i: nat)
    requires Unbranched(db) && IsLoop(db, loop) && i < |loop|
    ensures Plain(db, loop[i])
  {
    hide PageView, Unbranched;
    StepIsInner(db, loop, i);
    var s := loop[i];
    forall j: nat | j < s.child ensures !IsInner(db, PageView(db, s.page).children[j]) {
      if IsInner(db, PageView(db, s.page).children[j]) {
        OneChild(db, s.page, j, s.child);
      }
    }
  }

  ghost predicate Ends(env: Env, st: State, n: int) {
    exists fuel: nat :: ParsePage(env, st, n, fuel).Walked?
  }

  /** Exact for files without branches, and a callback that takes all rows: the walks of all pages end if and only if on
      each loop of child pointers is a page that no step of the loop frees. */
  lemma {:induction false} EndsExactly(env: Env, st: State)
    requires Unbranched(env.db) && NeverRefuses(env) && |st.status| == |env.db.pages|
    requires forall k :: Get(st.status, k) != Checking
    ensures (forall n :: Ends(env, st, n)) <==> NoSelfFreeing(env)
  {
    hide ParsePage, Unbranched, NeverRefuses, SelfFreeing, MostLevels;
    if NoSelfFreeing(env) {
      forall n ensures Ends(env, st, n) {
        WalkTerminates(env, st, n, MostLevels(env));
      }
    } else {
      var loop :| SelfFreeing(env, loop);
      var trap := FirstRoundIsTrap(env, loop);
      TrapIsOpen(env, st, trap);
      forall fuel: nat ensures !ParsePage(env, st, trap[0].page, fuel).Walked? {
        TrapHolds(env, st, trap, fuel);
      }
      assert !Ends(env, st, trap[0].page);
    }
  }

  lemma {:induction false} TrapIsOpen(env: Env, st: State, trap: seq<Step>)
    requires Trap(env, trap) && forall k :: Get(st.status, k) != Checking
    ensures WereEntered(env, st.status, trap) && OnlyInner(env.db, st.status)
  {
    hide SelfFreeing, FreedIn, LeavesFirst;
    forall i | 0 <= i < |trap| ensures IsInner(env.db, trap[i].page) {
      assert Plain(env.db, trap[i]);
    }
  }
}
