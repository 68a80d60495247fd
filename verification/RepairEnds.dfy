/** When the page walk ends. */
module RepairEnds {
  import opened Options
  import opened Bytes
  import opened RepairBytes
  import opened RepairPages
  import opened RepairPayload
  import opened RepairWalk
  import opened RepairStack

  // ----- loops that free themselves

  ghost predicate IsLoop(db: Db, loop: seq<Step>) {
    loop != [] && Leads(db, loop, loop[0].page)
  }

  /** One of the steps frees the page of the `i`th. */
  ghost predicate FreedAround(env: Env, loop: seq<Step>, i: nat)
    requires i < |loop|
  {
    FreedIn(env, loop, 0, |loop|, loop[i].page)
  }

  /** A loop of child pointers each of whose pages is freed by a step of the loop. */
  ghost predicate SelfFreeing(env: Env, loop: seq<Step>) {
    IsLoop(env.db, loop) && forall i :: 0 <= i < |loop| ==> FreedAround(env, loop, i)
  }

  /** On each loop of child pointers is a page that no step of the loop frees. */
  ghost predicate NoSelfFreeing(env: Env) {
    forall loop :: !SelfFreeing(env, loop)
  }

  ghost predicate FreedOn(env: Env, loop: seq<Step>, k: int) {
    IsLoop(env.db, loop) && loop[0].page == k && FreedIn(env, loop, 0, |loop|, k)
  }

  /** The page is on a loop of child pointers that frees it, and so may be on the stack more than once. */
  ghost predicate Repeats(env: Env, k: int) {
    exists loop :: FreedOn(env, loop, k)
  }

  ghost function Inners(env: Env, repeats: bool): set<int> {
    set k: int | 1 <= k <= |env.db.pages| && IsInner(env.db, k) && Repeats(env, k) == repeats
  }

  /** The most levels of recursion that a walk needs. With no repeating pages: as many as there are interior pages. */
  ghost function MostLevels(env: Env): nat {
    Levels(|Inners(env, false)|, Power(3, |Inners(env, true)|))
  }

  /** Between any two of `plain` pages, and on both ends, there are fewer than `run` others. */
  function Levels(plain: nat, run: nat): (n: nat)
    requires run > 0
  {
    plain * run + (run - 1)
  }

  lemma {:induction false} InnersHas(env: Env, n: int)
    requires IsInner(env.db, n)
    ensures n in Inners(env, Repeats(env, n)) && n !in Inners(env, !Repeats(env, n))
  {
    InnerIsValid(env.db, n);
    hide IsInner, Repeats;
  }

  // ----- how high a stack can get

  /** What RepairStack.StackIsChecking says of stacks. */
  ghost predicate IsStack(env: Env, steps: seq<Step>, n: int) {
    Leads(env.db, steps, n) && FreedBetween(env, steps)
  }

  lemma {:induction false} PartLeads(db: Db, steps: seq<Step>, n: int, i: nat, j: nat)
    requires Leads(db, steps, n) && i <= j <= |steps|
    ensures Leads(db, steps[i..j], PageAt(steps, n, j))
  {
    hide IsStep;
    var part := steps[i..j];
    forall l | 0 <= l < |part| ensures StepAt(db, part, PageAt(steps, n, j), l) {
      assert StepAt(db, steps, n, i + l);
    }
  }

  lemma {:induction false} FreedInPart(env: Env, steps: seq<Step>, i: nat, j: nat, a: nat, b: nat, k: int)
    requires a <= i <= j <= b <= |steps| && FreedIn(env, steps, i, j, k)
    ensures FreedIn(env, steps[a..b], 0, b - a, k)
  {
    hide Frees;
    var l :| i <= l < j && Frees(env, steps[l], k);
    assert steps[a..b][l - a] == steps[l];
  }

  /** A part of a stack that keeps to the pages `s` is shorter than a power of three: of three consecutive parts of a third
      of that length the first two have all of `s`, the second one for the second time, and the last one has the page that
      the first one starts with. That is a loop that frees all its pages. */
  lemma {:induction false} RunIsShort(env: Env, steps: seq<Step>, n: int, a: nat, b: nat, s: set<int>)
    requires NoSelfFreeing(env) && IsStack(env, steps, n) && a <= b <= |steps|
    requires forall i :: a <= i < b ==> steps[i].page in s
    ensures b - a < Power(3, |s|)
    decreases |s|, 1
  {
    hide NoSelfFreeing, IsStack;
    if a < b {
      assert steps[a].page in s;
      var third := Power(3, |s| - 1);
      if b - a >= Power(3, |s|) {
        forall k | k in s
          ensures Has(steps, a, a + third, k) && Has(steps, a + third, a + 2 * third, k)
          ensures Has(steps, a + 2 * third, a + 3 * third, k)
        {
          HasAll(env, steps, n, a, a + third, s, k);
          HasAll(env, steps, n, a + third, a + 2 * third, s, k);
          HasAll(env, steps, n, a + 2 * third, a + 3 * third, s, k);
        }
        assert Has(steps, a + 2 * third, a + 3 * third, steps[a].page);
        var q: nat :| a + 2 * third <= q < a + 3 * third && steps[q].page == steps[a].page;
        LoopFreesItself(env, steps, n, a, third, q, s);
        LoopIsExcluded(env, steps[a..q]);
      }
    }
  }

  lemma {:induction false} LoopIsExcluded(env: Env, loop: seq<Step>)
    requires NoSelfFreeing(env)
    ensures !SelfFreeing(env, loop)
  {
    hide SelfFreeing;
  }

  predicate Has(steps: seq<Step>, a: nat, b: nat, k: int)
    requires a <= b <= |steps|
  {
    exists i :: a <= i < b && steps[i].page == k
  }

  lemma {:induction false} HasAll(env: Env, steps: seq<Step>, n: int, a: nat, b: nat, s: set<int>, k: int)
    requires NoSelfFreeing(env) && IsStack(env, steps, n) && a <= b <= |steps| && k in s
    requires forall i :: a <= i < b ==> steps[i].page in s
    requires b - a >= Power(3, |s| - 1)
    ensures Has(steps, a, b, k)
    decreases |s|, 0
  {
    hide NoSelfFreeing, IsStack, Power;
    if !Has(steps, a, b, k) {
      assert |s - {k}| == |s| - 1;
      RunIsShort(env, steps, n, a, b, s - {k});
    }
  }

  lemma {:induction false} LoopFreesItself(
    env: Env, steps: seq<Step>, n: int, a: nat, third: nat, q: nat, s: set<int>)
    requires IsStack(env, steps, n) && third > 0 && a + 2 * third <= q < |steps|
    requires steps[q].page == steps[a].page && forall i :: a <= i < q ==> steps[i].page in s
    requires forall k :: k in s ==> Has(steps, a, a + third, k) && Has(steps, a + third, a + 2 * third, k)
    ensures SelfFreeing(env, steps[a..q])
  {
    hide Leads, FreedIn;
    var loop := steps[a..q];
    PartLeads(env.db, steps, n, a, q);
    forall l | 0 <= l < |loop| ensures FreedAround(env, loop, l) {
      var k := loop[l].page;
      assert steps[a + l].page == k;
      var i :| a <= i < a + third && steps[i].page == k;
      var j :| a + third <= j < a + 2 * third && steps[j].page == k;
      FreedInPart(env, steps, i, j, a, q, k);
    }
  }

  /** How many pages at the end of the first `i` repeat. */
  ghost function Trail(env: Env, steps: seq<Step>, i: nat): (t: nat)
    requires i <= |steps|
    ensures t <= i
  {
    if i == 0 || !Repeats(env, steps[i - 1].page) then 0 else Trail(env, steps, i - 1) + 1
  }

  /** Every stack is lower than that. */
  lemma {:induction false} StackIsLow(env: Env, steps: seq<Step>, n: int)
    requires NoSelfFreeing(env) && IsStack(env, steps, n)
    ensures |steps| <= MostLevels(env)
  {
    hide NoSelfFreeing, IsStack, Power, Inners, Trail;
    var plain, run := Inners(env, false), Power(3, |Inners(env, true)|);
    PrefixIsLow(env, steps, n, |steps|);
    var seen := plain * Pages(steps[..|steps|]);
    SubsetIsSmaller(seen, plain);
    TimesMore(|seen|, |plain|, run);
    TrailIsShort(env, steps, n, |steps|);
  }

  lemma {:induction false} SubsetIsSmaller(a: set<int>, b: set<int>)
    requires a <= b
    ensures |a| <= |b|
  {
    assert b == a + (b - a);
  }

  lemma {:induction false} TimesMore(a: nat, b: nat, run: nat)
    requires a <= b
    ensures a * run <= b * run
  {
    Distribute(b, a, run);
    if a < b && run > 0 {
      Multiple(b - a, run);
    }
  }

  lemma {:induction false} TrailRepeats(env: Env, steps: seq<Step>, i: nat)
    requires i <= |steps|
    ensures forall j :: i - Trail(env, steps, i) <= j < i ==> Repeats(env, steps[j].page)
    decreases i
  {
    hide Repeats;
    if i > 0 && Repeats(env, steps[i - 1].page) {
      TrailRepeats(env, steps, i - 1);
    }
  }

  lemma {:induction false} TrailIsShort(env: Env, steps: seq<Step>, n: int, i: nat)
    requires NoSelfFreeing(env) && IsStack(env, steps, n) && i <= |steps|
    ensures Trail(env, steps, i) < Power(3, |Inners(env, true)|)
  {
    hide NoSelfFreeing, Repeats, Inners, Power, IsStack, Trail;
    var t := Trail(env, steps, i);
    TrailRepeats(env, steps, i);
    forall j: nat | i - t <= j < i ensures steps[j].page in Inners(env, true) {
      PageIsInner(env, steps, n, j);
    }
    RunIsShort(env, steps, n, i - t, i, Inners(env, true));
  }

  lemma {:induction false} PrefixIsLow(env: Env, steps: seq<Step>, n: int, i: nat)
    requires NoSelfFreeing(env) && IsStack(env, steps, n) && i <= |steps|
    ensures i <= |Inners(env, false) * Pages(steps[..i])| * Power(3, |Inners(env, true)|) + Trail(env, steps, i)
    decreases i
  {
    hide NoSelfFreeing, IsStack, Repeats, Inners, Power, Pages;
    if i > 0 {
      PrefixIsLow(env, steps, n, i - 1);
      TrailIsShort(env, steps, n, i - 1);
      var plain, k := Inners(env, false), steps[i - 1].page;
      var before, now := plain * Pages(steps[..i - 1]), plain * Pages(steps[..i]);
      OneMorePage(steps, i);
      PageIsInner(env, steps, n, i - 1);
      if Repeats(env, k) {
        assert now == before;
      } else {
        NotSeenBefore(env, steps, n, i - 1);
        assert now == before + {k} && k !in before;
        OneTimeMore(|before|, |now|, Power(3, |Inners(env, true)|));
      }
    }
  }

  lemma {:induction false} OneTimeMore(a: nat, b: nat, run: nat)
    requires b == a + 1
    ensures b * run == a * run + run
  {
  }

  lemma {:induction false} OneMorePage(steps: seq<Step>, i: nat)
    requires 0 < i <= |steps|
    ensures Pages(steps[..i]) == Pages(steps[..i - 1]) + {steps[i - 1].page}
  {
    assert steps[..i] == steps[..i - 1] + [steps[i - 1]];
  }

  lemma {:induction false} PageIsInner(env: Env, steps: seq<Step>, n: int, i: nat)
    requires IsStack(env, steps, n) && i < |steps|
    ensures var k := steps[i].page; k in Inners(env, Repeats(env, k)) && k !in Inners(env, !Repeats(env, k))
  {
    hide Inners, Repeats;
    assert StepAt(env.db, steps, n, i);
    InnersHas(env, steps[i].page);
  }

  lemma {:induction false} NotSeenBefore(env: Env, steps: seq<Step>, n: int, i: nat)
    requires IsStack(env, steps, n) && i < |steps| && !Repeats(env, steps[i].page)
    ensures steps[i].page !in Pages(steps[..i])
  {
    hide IsStack, Repeats;
    var k := steps[i].page;
    if j: nat :| j < i && steps[j].page == k {
      ComesAgain(env, steps, n, j, i);
    }
  }

  lemma {:induction false} ComesAgain(env: Env, steps: seq<Step>, n: int, i: nat, j: nat)
    requires IsStack(env, steps, n) && i < j < |steps| && steps[i].page == steps[j].page
    ensures Repeats(env, steps[i].page)
  {
    hide FreedIn, Leads;
    PartLeads(env.db, steps, n, i, j);
    FreedInPart(env, steps, i, j, i, j, steps[i].page);
    assert FreedOn(env, steps[i..j], steps[i].page);
  }

  // ----- termination

  /** A walk that runs out of levels has a page above it on each. */
  lemma {:induction false} DeepStack(env: Env, st: State, n: int, fuel: nat) returns (path: seq<nat>)
    requires ParsePage(env, st, n, fuel).TooDeep?
    ensures |path| == fuel && Look(env, st, n, path, fuel).Some?
    ensures var m := Look(env, st, n, path, fuel).value;
            IsInner(env.db, m.n) && BeginCode(m.st.status, m.n) == Good
    decreases fuel
  {
    hide PageView, ParseCells, ParseChildren, Begun, BeginCode, After;
    path := [];
    if fuel > 0 {
      var begun, kids := Begun(st, n), PageView(env.db, n).children;
      var i := DeepChild(env, begun, kids, fuel - 1);
      var before := After(env, begun, kids[..i], fuel - 1).value;
      var rest := DeepStack(env, before, kids[i], fuel - 1);
      path := [i] + rest;
      assert path[1..] == rest;
    }
  }

  lemma {:induction false} DeepChild(env: Env, st: State, kids: seq<int>, fuel: nat) returns (i: nat)
    requires ParseChildren(env, st, kids, fuel).TooDeep?
    ensures i < |kids| && After(env, st, kids[..i], fuel).Some?
    ensures ParsePage(env, After(env, st, kids[..i], fuel).value, kids[i], fuel).TooDeep?
    decreases |kids|
  {
    hide ParsePage;
    var r := ParsePage(env, st, kids[0], fuel);
    if r.TooDeep? {
      i := 0;
    } else {
      i := DeepChild(env, r.st, kids[1..], fuel);
      i := i + 1;
      assert kids[..i][1..] == kids[1..][..i - 1] && kids[..i][0] == kids[0];
    }
  }

  /** A page that is about to be begun belongs to the stack as well. */
  lemma {:induction false} TopOfStack(env: Env, m: Moment) returns (steps: seq<Step>, next: int)
    requires IsInner(env.db, m.n) && BeginCode(m.st.status, m.n) == Good
    requires Leads(env.db, m.stack, m.n) && AreHeld(env, m.st.status, m.stack) && FreedBetween(env, m.stack)
    ensures |steps| == |m.stack| + 1 && IsStack(env, steps, next)
  {
    InnerHasChild(env.db, m.n);
    next := PageView(env.db, m.n).children[0];
    hide PageView, FreedIn;
    steps := m.stack + [Step(m.n, 0)];
    forall i | 0 <= i < |steps| ensures StepAt(env.db, steps, next, i) {
      assert i < |m.stack| ==> StepAt(env.db, m.stack, m.n, i);
    }
    hide IsStep;
    forall i, j | 0 <= i < j < |steps| && steps[i].page == steps[j].page
      ensures FreedIn(env, steps, i, j, steps[i].page)
    {
      assert steps[i] == m.stack[i];
      assert FreedIn(env, m.stack, i, j, steps[i].page);
      FreedEarlier(env, m.stack, Step(m.n, 0), i, j, steps[i].page);
    }
  }

  lemma {:induction false} FreedEarlier(env: Env, steps: seq<Step>, s: Step, i: nat, j: nat, k: int)
    requires i <= j <= |steps| && FreedIn(env, steps, i, j, k)
    ensures FreedIn(env, steps + [s], i, j, k)
  {
    hide Frees;
    var l :| i <= l < j && Frees(env, steps[l], k);
    assert (steps + [s])[l] == steps[l];
  }

  lemma {:induction false} InnerHasChild(db: Db, n: int)
    requires IsInner(db, n)
    ensures PageView(db, n).children != []
  {
  }

  /** The walk ends on arbitrary, even cyclic, child pointers, from any statuses and for every callback, if on each loop of
      child pointers is a page that no step of the loop frees. */
  lemma {:induction false} WalkTerminates(env: Env, st: State, n: int, fuel: nat)
    requires NoSelfFreeing(env) && |st.status| == |env.db.pages| && MostLevels(env) <= fuel
    ensures ParsePage(env, st, n, fuel).Walked?
  {
    hide NoSelfFreeing, ParsePage, Look, MostLevels, IsInner, IsStack, PageView, BeginCode, Leads, WereEntered, Others,
         AreHeld, FreedBetween;
    if ParsePage(env, st, n, fuel).TooDeep? {
      var path := DeepStack(env, st, n, fuel);
      StackIsChecking(env, st, n, path, fuel);
      var m := Look(env, st, n, path, fuel).value;
      var steps, next := TopOfStack(env, m);
      StackIsLow(env, steps, next);
    }
  }

  /** The recursion is never deeper than that. */
  lemma {:induction false} StackIsBounded(env: Env, st: State, n: int, path: seq<nat>, fuel: nat)
    requires NoSelfFreeing(env) && |st.status| == |env.db.pages| && Look(env, st, n, path, fuel).Some?
    ensures |path| <= MostLevels(env)
  {
    hide NoSelfFreeing, Look, MostLevels;
    StackIsChecking(env, st, n, path, fuel);
    var m := Look(env, st, n, path, fuel).value;
    StackIsLow(env, m.stack, m.n);
  }

  /** Where no page repeats, the recursion is at most as deep as there are interior pages. */
  lemma {:induction false} LevelsOfPlainFiles(env: Env)
    requires forall k :: !Repeats(env, k)
    ensures NoSelfFreeing(env) && MostLevels(env) == |Inners(env, false)|
  {
    assert Inners(env, true) == {} by {
      hide Repeats, IsInner;
    }
    forall loop: seq<Step> ensures !SelfFreeing(env, loop) {
      LoopRepeats(env, loop);
    }
  }

  lemma {:induction false} LoopRepeats(env: Env, loop: seq<Step>)
    ensures SelfFreeing(env, loop) ==> Repeats(env, loop[0].page)
  {
    hide FreedIn, Leads;
    if SelfFreeing(env, loop) {
      assert FreedAround(env, loop, 0);
      assert FreedOn(env, loop, loop[0].page);
    }
  }
}
