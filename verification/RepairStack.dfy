/** The recursion stack of the page walk, and what the page statuses say about it at every moment of every run. */
module RepairStack {
  import opened Options
  import opened RepairBytes
  import opened RepairPages
  import opened RepairWalk

  // ----- steps from a page to a child

  /** An entry of the recursion stack: the page, and which of its children is being parsed. */
  datatype Step = Step(page: int, child: nat)

  predicate IsStep(db: Db, s: Step, next: int) {
    IsInner(db, s.page) && s.child < |PageView(db, s.page).children| && PageView(db, s.page).children[s.child] == next
  }

  /** The page at a position; page `n` is the one behind the last step. */
  function PageAt(steps: seq<Step>, n: int, i: nat): int
    requires i <= |steps|
  {
    if i < |steps| then steps[i].page else n
  }

  predicate StepAt(db: Db, steps: seq<Step>, n: int, i: nat)
    requires i < |steps|
  {
    IsStep(db, steps[i], PageAt(steps, n, i + 1))
  }

  /** The steps follow each other and end at page `n`. */
  predicate Leads(db: Db, steps: seq<Step>, n: int) {
    forall i :: 0 <= i < |steps| ==> StepAt(db, steps, n, i)
  }

  function Pages(steps: seq<Step>): set<int> {
    set s | s in steps :: s.page
  }

  ghost predicate FreedBelow(env: Env, n: int, j: nat, k: int) {
    IsInner(env.db, n) && j < |PageView(env.db, n).children| && TouchedBelow(env, PageView(env.db, n).children[j], k)
  }

  /** Some leaf that is walked before the child of the step, from a child further left, has page `k` in an overflow chain. */
  ghost predicate Frees(env: Env, s: Step, k: int) {
    exists j :: 0 <= j < s.child && FreedBelow(env, s.page, j, k)
  }

  /** One of the steps from `i` up to `j` frees page `k`. */
  ghost predicate FreedIn(env: Env, steps: seq<Step>, i: nat, j: nat, k: int)
    requires i <= j <= |steps|
  {
    exists l :: i <= l < j && Frees(env, steps[l], k)
  }

  lemma {:induction false} FreedWithin(env: Env, steps: seq<Step>, i: nat, j: nat, a: nat, b: nat, k: int)
    requires a <= i <= j <= b <= |steps| && FreedIn(env, steps, i, j, k)
    ensures FreedIn(env, steps, a, b, k)
  {
    hide Frees;
  }

  lemma {:induction false} FreedLater(env: Env, s: Step, steps: seq<Step>, i: nat, j: nat, k: int)
    requires i <= j <= |steps| && FreedIn(env, steps, i, j, k)
    ensures FreedIn(env, [s] + steps, i + 1, j + 1, k)
  {
    hide Frees;
    var l :| i <= l < j && Frees(env, steps[l], k);
    assert ([s] + steps)[l + 1] == steps[l];
  }

  lemma {:induction false} FreedFirst(env: Env, s: Step, steps: seq<Step>, j: nat, k: int)
    requires Frees(env, s, k) && j <= |steps|
    ensures FreedIn(env, [s] + steps, 0, j + 1, k)
  {
    hide Frees;
    assert ([s] + steps)[0] == s;
  }

  // ----- moments of a run

  /** The moment when page `n` is about to be parsed, below the pages of `stack`, outermost first. */
  datatype Moment = Moment(st: State, n: int, stack: seq<Step>)

  /** The statuses after the first children of a page, when none of them was cancelled. */
  function After(env: Env, st: State, kids: seq<int>, fuel: nat): (r: Option<State>)
    ensures r.Some? ==> |r.value.status| == |st.status|
    decreases |kids|
  {
    if kids == [] then Some(st)
    else
      var r := ParsePage(env, st, kids[0], fuel);
      if r.TooDeep? || r.code == Cancelled then None else After(env, r.st, kids[1..], fuel)
  }

  /** Follows a run into the recursion: `path` says which child to look at on each level. */
  function Look(env: Env, st: State, n: int, path: seq<nat>, fuel: nat): Option<Moment>
    decreases |path|
  {
    if path == [] then Some(Moment(st, n, []))
    else if n > |env.db.pages| || BeginCode(st.status, n) != Good || !IsInner(env.db, n) || fuel == 0 then None
    else
      var kids := PageView(env.db, n).children;
      if path[0] >= |kids| then None
      else
        var before := After(env, Begun(st, n), kids[..path[0]], fuel - 1);
        if before == None then None
        else
          var m := Look(env, before.value, kids[path[0]], path[1..], fuel - 1);
          if m == None then None
          else Some(Moment(m.value.st, m.value.n, [Step(n, path[0])] + m.value.stack))
  }

  // ----- what the statuses say

  /** The interior pages in status checking stay, but for those that the step frees. */
  ghost predicate Lets(env: Env, s: Step, before: seq<Status>, after: seq<Status>) {
    forall k :: IsInner(env.db, k) ==>
      && (Get(after, k) == Checking ==> Get(before, k) == Checking)
      && (Get(before, k) == Checking && !Frees(env, s, k) ==> Get(after, k) == Checking)
  }

  /** The first `j` children of page `n`. */
  lemma {:induction false} AfterLets(env: Env, st: State, n: int, i: nat, j: nat, fuel: nat)
    requires |st.status| == |env.db.pages| && IsInner(env.db, n) && i <= j <= |PageView(env.db, n).children|
    requires After(env, st, PageView(env.db, n).children[i..j], fuel).Some?
    ensures Lets(env, Step(n, j), st.status, After(env, st, PageView(env.db, n).children[i..j], fuel).value.status)
    decreases j - i
  {
    hide ParsePage, TouchedBelow, PageView, Get;
    var kids := PageView(env.db, n).children;
    if i < j {
      PageKeeps(env, st, kids[i], fuel);
      var r := ParsePage(env, st, kids[i], fuel);
      assert kids[i..j][1..] == kids[i + 1..j];
      AfterLets(env, r.st, n, i + 1, j, fuel);
      forall k | !Frees(env, Step(n, j), k) ensures !TouchedBelow(env, kids[i], k) {
        assert !FreedBelow(env, n, i, k);
      }
    }
  }

  /** No page of the stack was in status checking when it was begun: it was not before the walk, or was freed since. */
  ghost predicate WereEntered(env: Env, st: seq<Status>, stack: seq<Step>) {
    forall i :: 0 <= i < |stack| ==>
      && IsInner(env.db, stack[i].page)
      && (Get(st, stack[i].page) == Checking ==> FreedIn(env, stack, 0, i, stack[i].page))
  }

  /** The interior pages in status checking are on the stack, or were so before; those stay so until they are freed. */
  ghost predicate Others(env: Env, st: seq<Status>, after: seq<Status>, stack: seq<Step>) {
    forall k :: IsInner(env.db, k) ==>
      && (Get(after, k) == Checking ==> Get(st, k) == Checking || k in Pages(stack))
      && (Get(st, k) == Checking ==> Get(after, k) == Checking || FreedIn(env, stack, 0, |stack|, k))
  }

  /** The pages of the stack are in status checking until they are freed. */
  ghost predicate AreHeld(env: Env, after: seq<Status>, stack: seq<Step>) {
    forall i :: 0 <= i < |stack| ==>
      Get(after, stack[i].page) == Checking || FreedIn(env, stack, i, |stack|, stack[i].page)
  }

  /** A page that is on the stack twice was freed in between. */
  ghost predicate FreedBetween(env: Env, stack: seq<Step>) {
    forall i, j :: 0 <= i < j < |stack| && stack[i].page == stack[j].page ==> FreedIn(env, stack, i, j, stack[i].page)
  }

  /** What the statuses say about the stack at moment `m` of a walk of page `n` that began with statuses `st`. */
  ghost predicate StackIsActive(env: Env, st: seq<Status>, n: int, m: Moment) {
    && Leads(env.db, m.stack, m.n) && PageAt(m.stack, m.n, 0) == n
    && WereEntered(env, st, m.stack) && Others(env, st, m.st.status, m.stack)
    && AreHeld(env, m.st.status, m.stack) && FreedBetween(env, m.stack)
  }

  /** At every moment of every run on every file: an interior page in status checking is on the recursion stack, or was
      so before the walk; a page of the stack is in status checking, and on it only once, unless a leaf that was walked
      since from a child further left has it in an overflow chain. */
  lemma {:induction false} StackIsChecking(env: Env, st: State, n: int, path: seq<nat>, fuel: nat)
    requires |st.status| == |env.db.pages| && Look(env, st, n, path, fuel).Some?
    ensures StackIsActive(env, st.status, n, Look(env, st, n, path, fuel).value)
    ensures |Look(env, st, n, path, fuel).value.stack| == |path|
    decreases |path|
  {
    hide PageView, StackIsActive, BeginCode, ParsePage, Lets, TouchedBelow, After;
    if path == [] {
      NoStack(env, st, n);
    } else {
      var kids := PageView(env.db, n).children;
      assert kids[..path[0]] == kids[0..path[0]];
      var before := After(env, Begun(st, n), kids[..path[0]], fuel - 1).value;
      AfterLets(env, Begun(st, n), n, 0, path[0], fuel - 1);
      StackIsChecking(env, before, kids[path[0]], path[1..], fuel - 1);
      Deeper(env, st, Step(n, path[0]), kids[path[0]], before.status,
             Look(env, before, kids[path[0]], path[1..], fuel - 1).value);
    }
  }

  lemma {:induction false} NoStack(env: Env, st: State, n: int)
    ensures StackIsActive(env, st.status, n, Moment(st, n, []))
  {
    hide IsInner;
  }

  /** The statuses one level up: the page of step `s` was begun, and the children further left were walked. */
  lemma {:induction false} Deeper(env: Env, st: State, s: Step, child: int, before: seq<Status>, m: Moment)
    requires IsStep(env.db, s, child) && BeginCode(st.status, s.page) == Good && |st.status| == |env.db.pages|
    requires Lets(env, s, Begun(st, s.page).status, before) && StackIsActive(env, before, child, m)
    ensures StackIsActive(env, st.status, s.page, Moment(m.st, m.n, [s] + m.stack))
  {
    hide Lets, WereEntered, Others, AreHeld, FreedBetween, Leads, PageAt;
    DeeperSteps(env.db, s, child, m);
    DeeperEntered(env, st, s, before, m.stack);
    DeeperOthers(env, st, s, before, m);
    DeeperHeld(env, st, s, before, m);
    DeeperBetween(env, st, s, before, m.stack);
  }

  lemma {:induction false} DeeperSteps(db: Db, s: Step, child: int, m: Moment)
    requires IsStep(db, s, child) && Leads(db, m.stack, m.n) && PageAt(m.stack, m.n, 0) == child
    ensures Leads(db, [s] + m.stack, m.n) && PageAt([s] + m.stack, m.n, 0) == s.page
  {
    hide IsStep;
    var more := [s] + m.stack;
    forall i | 0 <= i < |more| ensures StepAt(db, more, m.n, i) {
      if i > 0 {
        assert StepAt(db, m.stack, m.n, i - 1);
      }
    }
  }

  lemma {:induction false} DeeperEntered(env: Env, st: State, s: Step, before: seq<Status>, stack: seq<Step>)
    requires IsInner(env.db, s.page) && BeginCode(st.status, s.page) == Good
    requires Lets(env, s, Begun(st, s.page).status, before) && WereEntered(env, before, stack)
    ensures WereEntered(env, st.status, [s] + stack)
  {
    hide Frees, FreedIn, IsInner;
    var more := [s] + stack;
    forall i | 0 <= i < |more|
      ensures IsInner(env.db, more[i].page)
              && (Get(st.status, more[i].page) == Checking ==> FreedIn(env, more, 0, i, more[i].page))
    {
      if i > 0 {
        var k := more[i].page;
        assert more[i] == stack[i - 1];
        if FreedIn(env, stack, 0, i - 1, k) {
          FreedLater(env, s, stack, 0, i - 1, k);
          FreedWithin(env, more, 1, i, 0, i, k);
        }
        if Frees(env, s, k) {
          FreedFirst(env, s, stack, i - 1, k);
        }
      }
    }
  }

  lemma {:induction false} DeeperOthers(env: Env, st: State, s: Step, before: seq<Status>, m: Moment)
    requires IsInner(env.db, s.page) && BeginCode(st.status, s.page) == Good
    requires Lets(env, s, Begun(st, s.page).status, before) && Others(env, before, m.st.status, m.stack)
    ensures Others(env, st.status, m.st.status, [s] + m.stack)
  {
    hide Frees, FreedIn, IsInner;
    var more := [s] + m.stack;
    assert more[0] == s && Pages(more) == Pages(m.stack) + {s.page} by {
      assert forall t :: t in more <==> t == s || t in m.stack;
    }
    forall k | IsInner(env.db, k) && Get(st.status, k) == Checking
      ensures Get(m.st.status, k) == Checking || FreedIn(env, more, 0, |more|, k)
    {
      if FreedIn(env, m.stack, 0, |m.stack|, k) {
        FreedLater(env, s, m.stack, 0, |m.stack|, k);
        FreedWithin(env, more, 1, |more|, 0, |more|, k);
      }
      if Frees(env, s, k) {
        FreedFirst(env, s, m.stack, |m.stack|, k);
      }
    }
  }

  lemma {:induction false} DeeperHeld(env: Env, st: State, s: Step, before: seq<Status>, m: Moment)
    requires IsInner(env.db, s.page) && |st.status| == |env.db.pages| && AreHeld(env, m.st.status, m.stack)
    requires Lets(env, s, Begun(st, s.page).status, before) && Others(env, before, m.st.status, m.stack)
    ensures AreHeld(env, m.st.status, [s] + m.stack)
  {
    InnerIsValid(env.db, s.page);
    hide Frees, FreedIn, IsInner;
    var more := [s] + m.stack;
    forall i | 0 <= i < |more|
      ensures Get(m.st.status, more[i].page) == Checking || FreedIn(env, more, i, |more|, more[i].page)
    {
      var k := more[i].page;
      if i > 0 {
        assert more[i] == m.stack[i - 1];
        if FreedIn(env, m.stack, i - 1, |m.stack|, k) {
          FreedLater(env, s, m.stack, i - 1, |m.stack|, k);
        }
      } else if Frees(env, s, k) {
        FreedFirst(env, s, m.stack, |m.stack|, k);
      } else if FreedIn(env, m.stack, 0, |m.stack|, k) {
        FreedLater(env, s, m.stack, 0, |m.stack|, k);
        FreedWithin(env, more, 1, |more|, 0, |more|, k);
      }
    }
  }

  lemma {:induction false} InnerIsValid(db: Db, n: int)
    requires IsInner(db, n)
    ensures ValidNo(db, n)
  {
  }

  lemma {:induction false} DeeperBetween(env: Env, st: State, s: Step, before: seq<Status>, stack: seq<Step>)
    requires IsInner(env.db, s.page) && |st.status| == |env.db.pages| && WereEntered(env, before, stack)
    requires Lets(env, s, Begun(st, s.page).status, before) && FreedBetween(env, stack)
    ensures FreedBetween(env, [s] + stack)
  {
    hide Frees, FreedIn, IsInner, Lets, WereEntered, Begun;
    var more := [s] + stack;
    forall i, j | 0 <= i < j < |more| && more[i].page == more[j].page ensures FreedIn(env, more, i, j, more[i].page) {
      assert more[j] == stack[j - 1];
      if i > 0 {
        assert more[i] == stack[i - 1];
        FreedLater(env, s, stack, i - 1, j - 1, more[i].page);
      } else {
        EnteredAgain(env, st, s, before, stack, j - 1);
      }
    }
  }

  lemma {:induction false} EnteredAgain(env: Env, st: State, s: Step, before: seq<Status>, stack: seq<Step>, j: nat)
    requires IsInner(env.db, s.page) && |st.status| == |env.db.pages| && WereEntered(env, before, stack)
    requires Lets(env, s, Begun(st, s.page).status, before) && j < |stack| && stack[j].page == s.page
    ensures FreedIn(env, [s] + stack, 0, j + 1, s.page)
  {
    InnerIsValid(env.db, s.page);
    hide Frees, FreedIn, IsInner;
    if Frees(env, s, s.page) {
      FreedFirst(env, s, stack, j, s.page);
    } else {
      FreedLater(env, s, stack, 0, j, s.page);
      FreedWithin(env, [s] + stack, 1, j + 1, 0, j + 1, s.page);
    }
  }

  /** No page of the stack is freed by a step of the stack. */
  ghost predicate Undisturbed(env: Env, stack: seq<Step>) {
    forall k :: k in Pages(stack) ==> !FreedIn(env, stack, 0, |stack|, k)
  }

  /** In particular, when no page of the stack is freed, and no page was in status checking before the walk: the interior
      pages in status checking are exactly those of the stack, and none is on it twice. */
  lemma {:induction false} StackIsExact(env: Env, st: State, n: int, path: seq<nat>, fuel: nat)
    requires |st.status| == |env.db.pages| && Look(env, st, n, path, fuel).Some?
    requires forall k :: IsInner(env.db, k) ==> Get(st.status, k) != Checking
    requires Undisturbed(env, Look(env, st, n, path, fuel).value.stack)
    ensures
      var m := Look(env, st, n, path, fuel).value;
      && (forall k :: k in Pages(m.stack) ==> Get(m.st.status, k) == Checking)
      && (forall k :: IsInner(env.db, k) && Get(m.st.status, k) == Checking ==> k in Pages(m.stack))
      && (forall i, j :: 0 <= i < j < |m.stack| ==> m.stack[i].page != m.stack[j].page)
  {
    hide Look, IsInner, FreedIn, Leads;
    StackIsChecking(env, st, n, path, fuel);
    var stack := Look(env, st, n, path, fuel).value.stack;
    forall i, j | 0 <= i <= j <= |stack| && i < |stack| ensures !FreedIn(env, stack, i, j, stack[i].page) {
      assert stack[i].page in Pages(stack);
      if FreedIn(env, stack, i, j, stack[i].page) {
        FreedWithin(env, stack, i, j, 0, |stack|, stack[i].page);
      }
    }
  }
}
