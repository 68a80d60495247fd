/** Acceptance by the Lemon engine means derivability: for tables that pass a local validity test, the value of an
    accepting run is a parse tree of the start symbol over exactly the tokens that were fed; every call ends, and no
    assert of the engine fails.

    The test admits what the table generator does with a grammar. A position of a right-hand side may be a choice of
    terminals. A unit rule without an action may be folded: the engine never reduces by it, but treats the symbol on
    its right like the one on its left. */
module LemonSoundness {
  import opened Options
  import opened LemonTables
  import opened LemonMachine

  /** What is known of an entry on the stack and of the one below it: the symbols it may have been pushed for, and the
      states its lower neighbour may be in. */
  datatype Below = Below(symbols: set<nat>, states: set<nat>)

  /** The grammar behind the tables, and the annotation the validity test needs. `below[s]` lists, from the top of the
      stack down, what lies under a stack whose top state is `s`; `gotos` names the goto entries that are used; `rank`
      is zero where it is not defined. */
  datatype Grammar = Grammar(
    rhs: seq<seq<set<nat>>>,
    folded: set<nat>,
    start: nat,
    below: seq<seq<Below>>,
    gotos: set<(nat, nat)>,
    rank: map<nat, nat>)

  // ----- derivations

  /** The root of a tree is symbol `y`; a token may be itself, its fallback or the wildcard. */
  predicate RootIs(t: Tables, tree: Tree, y: nat) {
    match tree
    case Blank => false
    case Leaf(token) => StandsFor(t, token.major, y)
    case Node(rule, _) => rule < |t.ruleLhs| && t.ruleLhs[rule] == y
  }

  /** A folded rule leads from `x` to `y`. */
  ghost predicate UnitStep(t: Tables, g: Grammar, x: nat, y: nat) {
    exists r: nat :: r in g.folded && IsUnit(t, g, r, x, y)
  }

  ghost predicate IsUnit(t: Tables, g: Grammar, r: nat, x: nat, y: nat) {
    r < |g.rhs| == |t.ruleLhs| && t.ruleLhs[r] == x && |g.rhs[r]| == 1 && y in g.rhs[r][0]
  }

  ghost predicate Units(t: Tables, g: Grammar, x: nat, y: nat, n: nat)
    decreases n
  {
    if n == 0 then x == y else exists z: nat :: UnitStep(t, g, x, z) && Units(t, g, z, y, n - 1)
  }

  /** Folded rules lead from `x` to `y`. */
  ghost predicate StandsAs(t: Tables, g: Grammar, x: nat, y: nat) {
    exists n: nat :: Units(t, g, x, y, n)
  }

  /** A symbol `y` is one of these, up to folded rules. */
  ghost predicate Admits(t: Tables, g: Grammar, choice: set<nat>, y: nat) {
    exists x: nat :: x in choice && StandsAs(t, g, x, y)
  }

  ghost predicate Fits(t: Tables, g: Grammar, tree: Tree, choice: set<nat>) {
    exists y: nat :: Admits(t, g, choice, y) && RootIs(t, tree, y)
  }

  ghost predicate AllFit(t: Tables, g: Grammar, trees: seq<Tree>, rhs: seq<set<nat>>) {
    |trees| == |rhs| && forall i :: 0 <= i < |trees| ==> Fits(t, g, trees[i], rhs[i])
  }

  /** Every inner node of the tree is an instance of its rule, up to folded rules; none of these is a node. */
  ghost predicate Derives(t: Tables, g: Grammar, tree: Tree) {
    && !tree.Blank?
    && (tree.Node? ==>
          && tree.rule < |g.rhs| && tree.rule !in g.folded && AllFit(t, g, tree.kids, g.rhs[tree.rule])
          && forall kid :: kid in tree.kids ==> Derives(t, g, kid))
  }

  ghost predicate ParseTree(t: Tables, g: Grammar, tree: Tree) {
    Derives(t, g, tree) && tree.Node? && Fits(t, g, tree, {g.start})
  }

  // ----- the validity test: every clause looks at one table entry

  function Pushed(g: Grammar, state: nat, x: nat): seq<Below>
    requires state < |g.below|
  {
    [Below({x}, {state})] + g.below[state]
  }

  /** All that `after` says is already said by `before`. */
  ghost predicate Weakens(after: seq<Below>, before: seq<Below>) {
    && |after| <= |before|
    && forall k :: 0 <= k < |after| ==> before[k].symbols <= after[k].symbols && before[k].states <= after[k].states
  }

  /** The states that may come to light when `n` entries are popped off a stack described by `b`. */
  function Uncovered(b: seq<Below>, top: nat, n: nat): set<nat>
    requires n <= |b|
  {
    if n == 0 then {top} else b[n - 1].states
  }

  /** The right-hand side, read from its end, is what `b` says of the top of the stack. */
  ghost predicate OnTop(t: Tables, g: Grammar, b: seq<Below>, rhs: seq<set<nat>>) {
    |rhs| <= |b| && forall k :: 0 <= k < |rhs| ==> AllAdmitted(t, g, rhs[|rhs| - 1 - k], b[k].symbols)
  }

  ghost predicate AllAdmitted(t: Tables, g: Grammar, choice: set<nat>, symbols: set<nat>) {
    forall y :: y in symbols ==> Admits(t, g, choice, y)
  }

  function Rank(g: Grammar, stateno: nat): nat {
    if stateno in g.rank then g.rank[stateno] else 0
  }

  /** After a reduction that uncovers state `p` there is a goto. It lowers the rank, unless entries were popped to pay
      for that; and it accepts at the end of the input only. */
  ghost predicate GotoFits(t: Tables, g: Grammar, p: nat, top: nat, rule: nat, ending: bool)
    requires Shaped(t) && rule < |g.rhs| == |t.ruleLhs|
  {
    && (p, t.ruleLhs[rule]) in g.gotos
    && var goto := GotoAction(t, p, t.ruleLhs[rule]);
       goto.Some? && Rank(g, goto.value) + 2 <= Rank(g, top) + |g.rhs[rule]|
       && (goto.value == YY_ACCEPT_ACTION ==> ending)
  }

  /** A rule may be reduced on a stack described by `b`, whose top carries `top`: its right-hand side is there, and
      every state that may come to light has a goto on the left-hand side. */
  ghost predicate RuleFits(t: Tables, g: Grammar, b: seq<Below>, top: nat, rule: nat, ending: bool)
    requires Shaped(t)
  {
    && rule < |g.rhs| == |t.ruleLhs| && rule !in g.folded
    && OnTop(t, g, b, g.rhs[rule])
    && forall p :: p in Uncovered(b, top, |g.rhs[rule]|) ==> GotoFits(t, g, p, top, rule, ending)
  }

  ghost predicate FusedFits(t: Tables, g: Grammar, state: nat, x: nat, rule: nat)
    requires Shaped(t) && state < |g.below|
  {
    RuleFits(t, g, Pushed(g, state, x), YY_MIN_REDUCE + rule, rule, false) && g.rhs[rule] != []
  }

  ghost predicate ReduceOk(t: Tables, g: Grammar, state: nat, act: nat, ending: bool)
    requires Shaped(t) && state < |g.below|
  {
    || act == YY_ERROR_ACTION
    || (act >= YY_MIN_REDUCE && RuleFits(t, g, g.below[state], state, act - YY_MIN_REDUCE, ending))
  }

  ghost predicate TokenActionOk(t: Tables, g: Grammar, state: nat, x: nat, act: nat)
    requires Shaped(t) && state < |g.below| == YYNSTATE
  {
    if act <= YY_MAX_SHIFT then act != 0 && Weakens(g.below[act], Pushed(g, state, x))
    else if YY_MIN_SHIFTREDUCE <= act <= YY_MAX_SHIFTREDUCE then
      FusedFits(t, g, state, x, act - YY_MIN_SHIFTREDUCE)
    else ReduceOk(t, g, state, act, x == END)
  }

  ghost predicate GotoTargetOk(t: Tables, g: Grammar, state: nat, lhs: nat, act: nat)
    requires Shaped(t) && state < |g.below| == YYNSTATE
  {
    if act <= YY_MAX_SHIFT then act != 0 && Weakens(g.below[act], Pushed(g, state, lhs))
    else if act == YY_ACCEPT_ACTION then state == 0 && Admits(t, g, {g.start}, lhs)
    else act >= YY_MIN_REDUCE && FusedFits(t, g, state, lhs, act - YY_MIN_REDUCE)
  }

  ghost predicate GotoOk(t: Tables, g: Grammar, state: nat, lhs: nat)
    requires Shaped(t) && |g.below| == YYNSTATE
  {
    && state < YYNSTATE
    && GotoAction(t, state, lhs).Some?
    && GotoTargetOk(t, g, state, lhs, GotoAction(t, state, lhs).value)
  }

  ghost predicate Framed(t: Tables, g: Grammar) {
    && Shaped(t)
    && |g.rhs| == |t.ruleLhs|
    && |g.below| == YYNSTATE && g.below[0] == []
  }

  ghost predicate Checked(t: Tables, g: Grammar)
    requires Framed(t, g)
  {
    && (forall r :: 0 <= r < |g.rhs| ==> |g.rhs[r]| == -t.ruleNRhs[r])
    && (forall s, x :: 0 <= s < YYNSTATE && 0 <= x < YYNTOKEN && RowEntry(t, t.shiftOfst[s], x).Some? ==>
          TokenActionOk(t, g, s, x, RowEntry(t, t.shiftOfst[s], x).value))
    && (forall s :: 0 <= s < YYNSTATE ==> ReduceOk(t, g, s, t.defaultAction[s], false))
    && (forall s, lhs :: (s, lhs) in g.gotos ==> GotoOk(t, g, s, lhs))
  }

  ghost predicate Valid(t: Tables, g: Grammar) {
    Framed(t, g) && Checked(t, g)
  }

  // ----- the invariant of the stack

  function Top(stack: seq<Entry>): nat
    requires stack != []
  {
    stack[|stack| - 1].stateno
  }

  /** The tree was pushed for one of these symbols. */
  ghost predicate MayBe(t: Tables, tree: Tree, symbols: set<nat>) {
    exists y: nat :: y in symbols && RootIs(t, tree, y)
  }

  /** The entries at the top of the stack are as `b` describes them. */
  ghost predicate Supports(t: Tables, stack: seq<Entry>, b: seq<Below>) {
    && |b| < |stack|
    && forall k :: 0 <= k < |b| ==>
         && MayBe(t, stack[|stack| - 1 - k].minor, b[k].symbols)
         && stack[|stack| - 2 - k].stateno in b[k].states
  }

  ghost predicate TreesMatch(t: Tables, g: Grammar, stack: seq<Entry>, rhs: seq<set<nat>>) {
    && |rhs| < |stack|
    && forall i :: 0 <= i < |rhs| ==> Fits(t, g, stack[|stack| - |rhs| + i].minor, rhs[i])
  }

  /** The right-hand side of the rule is on top of the stack, and the state below it has a goto. */
  ghost predicate Ready(t: Tables, g: Grammar, stack: seq<Entry>, rule: nat, ending: bool)
    requires Shaped(t)
  {
    && rule < |g.rhs| == |t.ruleLhs| && rule !in g.folded
    && TreesMatch(t, g, stack, g.rhs[rule])
    && GotoFits(t, g, stack[|stack| - 1 - |g.rhs[rule]|].stateno, Top(stack), rule, ending)
  }

  ghost predicate StateOk(t: Tables, g: Grammar, stack: seq<Entry>, state: nat)
    requires |g.below| == YYNSTATE && state <= YY_MAX_SHIFT
  {
    state != 0 && Supports(t, stack, g.below[state])
  }

  ghost predicate PendingOk(t: Tables, g: Grammar, stack: seq<Entry>, rule: nat)
    requires Shaped(t)
  {
    Ready(t, g, stack, rule, false) && g.rhs[rule] != []
  }

  ghost predicate TopOk(t: Tables, g: Grammar, stack: seq<Entry>)
    requires Shaped(t) && |stack| > 1 && |g.below| == YYNSTATE
  {
    if Top(stack) <= YY_MAX_SHIFT then StateOk(t, g, stack, Top(stack))
    else if Top(stack) == YY_ACCEPT_ACTION then |stack| == 2 && ParseTree(t, g, stack[1].minor)
    else Top(stack) >= YY_MIN_REDUCE && PendingOk(t, g, stack, Top(stack) - YY_MIN_REDUCE)
  }

  /** Only the top entry may carry a pending action; all others carry states supported by what is below them. */
  ghost predicate Sound(t: Tables, g: Grammar, stack: seq<Entry>): (sound: bool)
    requires Shaped(t) && |g.below| == YYNSTATE
    ensures sound ==> stack != []
  {
    && stack != []
    && if |stack| == 1 then stack[0] == Bottom
       else
         && Sound(t, g, stack[..|stack| - 1])
         && stack[|stack| - 2].stateno <= YY_MAX_SHIFT
         && Derives(t, g, stack[|stack| - 1].minor)
         && TopOk(t, g, stack)
  }

  /** What remains to be spent on reductions. */
  function Potential(g: Grammar, stack: seq<Entry>): nat
    requires stack != []
  {
    |stack| + Rank(g, Top(stack))
  }

  /** The parser is about to accept at the end of the input only. */
  predicate InTime(stack: seq<Entry>, token: Token)
    requires stack != []
  {
    Top(stack) == YY_ACCEPT_ACTION ==> token.major == END
  }

  lemma {:induction false} PrefixSound(t: Tables, g: Grammar, stack: seq<Entry>, k: nat)
    requires Shaped(t) && |g.below| == YYNSTATE && Sound(t, g, stack) && 1 <= k <= |stack|
    ensures Sound(t, g, stack[..k])
    ensures k < |stack| ==> stack[k - 1].stateno <= YY_MAX_SHIFT
    ensures k > 1 ==> Derives(t, g, stack[k - 1].minor) && stack[k - 1].stateno != 0
    ensures stack[0] == Bottom
  {
    hide Derives, PendingOk, ParseTree, Supports;
    if k == |stack| {
      assert stack[..k] == stack;
      if k > 1 { PrefixSound(t, g, stack[..k - 1], 1); }
    } else {
      var front := stack[..|stack| - 1];
      PrefixSound(t, g, front, k);
      assert front[..k] == stack[..k];
    }
  }

  /** A new entry for symbol `x` above a supported state. */
  lemma {:induction false} PushSupports(t: Tables, g: Grammar, stack: seq<Entry>, e: Entry, x: nat)
    requires |g.below| == YYNSTATE && stack != [] && Top(stack) <= YY_MAX_SHIFT
    requires Supports(t, stack, g.below[Top(stack)]) && RootIs(t, e.minor, x)
    ensures Supports(t, stack + [e], Pushed(g, Top(stack), x))
  {
    hide RootIs;
    var b := Pushed(g, Top(stack), x);
    var pushed := stack + [e];
    forall k | 0 <= k < |b|
      ensures MayBe(t, pushed[|pushed| - 1 - k].minor, b[k].symbols) && pushed[|pushed| - 2 - k].stateno in b[k].states
    {
      if k > 0 {
        assert b[k] == g.below[Top(stack)][k - 1];
        assert pushed[|pushed| - 1 - k] == stack[|stack| - 1 - (k - 1)];
      } else {
        assert x in b[0].symbols;
      }
    }
  }

  /** What supports a description supports a weaker one. */
  lemma {:induction false} WeakerSupports(t: Tables, stack: seq<Entry>, after: seq<Below>, before: seq<Below>)
    requires Supports(t, stack, before) && Weakens(after, before)
    ensures Supports(t, stack, after)
  {
    hide RootIs;
    forall k | 0 <= k < |after|
      ensures MayBe(t, stack[|stack| - 1 - k].minor, after[k].symbols)
    {
      assert MayBe(t, stack[|stack| - 1 - k].minor, before[k].symbols);
    }
  }

  lemma {:induction false} StateIsSupported(t: Tables, g: Grammar, stack: seq<Entry>)
    requires Shaped(t) && |g.below| == YYNSTATE && g.below[0] == []
    requires Sound(t, g, stack) && Top(stack) <= YY_MAX_SHIFT
    ensures Supports(t, stack, g.below[Top(stack)])
  {
    hide Derives;
  }

  /** An entry pushed for an admitted symbol fits the position. */
  lemma {:induction false} AdmittedFits(t: Tables, g: Grammar, tree: Tree, choice: set<nat>, symbols: set<nat>)
    requires MayBe(t, tree, symbols) && AllAdmitted(t, g, choice, symbols)
    ensures Fits(t, g, tree, choice)
  {
    hide RootIs, Admits;
  }

  lemma {:induction false} FitsIsReady(t: Tables, g: Grammar, stack: seq<Entry>, b: seq<Below>, rule: nat, ending: bool)
    requires Shaped(t) && stack != [] && Supports(t, stack, b) && RuleFits(t, g, b, Top(stack), rule, ending)
    ensures Ready(t, g, stack, rule, ending)
  {
    hide Fits, AllAdmitted, MayBe, GotoFits;
    var n := |g.rhs[rule]|;
    forall i | 0 <= i < n
      ensures Fits(t, g, stack[|stack| - n + i].minor, g.rhs[rule][i])
    {
      var k := n - 1 - i;
      assert AllAdmitted(t, g, g.rhs[rule][n - 1 - k], b[k].symbols);
      assert stack[|stack| - 1 - k] == stack[|stack| - n + i];
      AdmittedFits(t, g, stack[|stack| - 1 - k].minor, g.rhs[rule][i], b[k].symbols);
    }
  }

  // ----- one pass of the loop keeps the invariant

  lemma {:induction false} PushIsSound(t: Tables, g: Grammar, stack: seq<Entry>, e: Entry, x: nat)
    requires Valid(t, g) && Sound(t, g, stack) && Top(stack) <= YY_MAX_SHIFT
    requires Derives(t, g, e.minor) && RootIs(t, e.minor, x)
    requires
      if e.stateno <= YY_MAX_SHIFT then e.stateno != 0 && Weakens(g.below[e.stateno], Pushed(g, Top(stack), x))
      else e.stateno >= YY_MIN_REDUCE && FusedFits(t, g, Top(stack), x, e.stateno - YY_MIN_REDUCE)
    ensures Sound(t, g, stack + [e])
  {
    hide Derives, Supports, Weakens, RuleFits, Ready, RootIs;
    var pushed := stack + [e];
    assert pushed[..|pushed| - 1] == stack;
    StateIsSupported(t, g, stack);
    PushSupports(t, g, stack, e, x);
    if e.stateno > YY_MAX_SHIFT {
      FitsIsReady(t, g, pushed, Pushed(g, Top(stack), x), e.stateno - YY_MIN_REDUCE, false);
    } else {
      WeakerSupports(t, pushed, g.below[e.stateno], Pushed(g, Top(stack), x));
    }
  }

  lemma {:induction false} ReducedTreeDerives(t: Tables, g: Grammar, stack: seq<Entry>, rule: nat, ending: bool)
    requires Shaped(t) && |g.below| == YYNSTATE && Sound(t, g, stack) && Ready(t, g, stack, rule, ending)
    ensures Derives(t, g, Node(rule, Minors(stack[|stack| - |g.rhs[rule]|..])))
  {
    hide Sound, Fits, GotoFits;
    var n := |g.rhs[rule]|;
    var kids := Minors(stack[|stack| - n..]);
    forall kid | kid in kids
      ensures Derives(t, g, kid)
    {
      var i :| 0 <= i < n && kid == kids[i];
      PrefixSound(t, g, stack, |stack| - n + i + 1);
    }
    assert AllFit(t, g, kids, g.rhs[rule]);
  }

  lemma {:induction false} GotoIsOk(t: Tables, g: Grammar, state: nat, lhs: nat)
    requires Valid(t, g) && (state, lhs) in g.gotos
    ensures GotoOk(t, g, state, lhs)
  {
    hide GotoOk, ReduceOk, TokenActionOk;
  }

  lemma {:induction false} GotoIsSound(t: Tables, g: Grammar, rest: seq<Entry>, lhs: nat, e: Entry)
    requires Valid(t, g) && Sound(t, g, rest) && Top(rest) <= YY_MAX_SHIFT
    requires GotoTargetOk(t, g, Top(rest), lhs, e.stateno)
    requires e.minor.Node? && Derives(t, g, e.minor) && RootIs(t, e.minor, lhs)
    ensures Sound(t, g, rest + [e])
  {
    hide Derives, Weakens, FusedFits, RootIs;
    if e.stateno == YY_ACCEPT_ACTION {
      hide Checked, Admits;
      PrefixSound(t, g, rest, |rest|);
      var pushed := rest + [e];
      assert pushed[..|rest|] == rest;
      assert Fits(t, g, e.minor, {g.start});
      OnlyBottomIsZero(t, g, rest);
    } else {
      PushIsSound(t, g, rest, e, lhs);
    }
  }

  lemma {:induction false} OnlyBottomIsZero(t: Tables, g: Grammar, stack: seq<Entry>)
    requires Shaped(t) && |g.below| == YYNSTATE && Sound(t, g, stack)
    ensures Top(stack) == 0 ==> |stack| == 1
  {
    hide Derives;
  }

  /** What the soundness theorem says of the machine after one pass or one call on a token. */
  ghost predicate Good(t: Tables, g: Grammar, m: Machine, token: Token)
    requires Shaped(t) && |g.below| == YYNSTATE
  {
    && Sound(t, g, m.stack) && m.stack != []
    && (m.Running? ==> InTime(m.stack, token))
    && (m.Stopped? ==>
          && m.outcome != Broken && Top(m.stack) != YY_ACCEPT_ACTION
          && (m.outcome.Accepted? ==> ParseTree(t, g, m.outcome.tree) && token.major == END))
  }

  lemma {:induction false} GivingUpIsSound(t: Tables, g: Grammar, stack: seq<Entry>, token: Token)
    requires Shaped(t) && |g.below| == YYNSTATE && Sound(t, g, stack)
    ensures Good(t, g, GiveUp(stack), token)
  {
    hide Derives, Minors, Reversed;
    PrefixSound(t, g, stack, 1);
    assert stack[..1] == [stack[0]];
  }

  /** What a reduction that does not overflow leaves behind. */
  lemma {:induction false} ReduceLeaves(t: Tables, g: Grammar, stack: seq<Entry>, rule: nat, ending: bool)
    requires Valid(t, g) && Sound(t, g, stack) && Ready(t, g, stack, rule, ending)
    requires Top(stack) <= YY_MAX_SHIFT || g.rhs[rule] != []
    ensures
      var rest := stack[..|stack| - |g.rhs[rule]|];
      && Sound(t, g, rest) && Top(rest) <= YY_MAX_SHIFT
      && GotoOk(t, g, Top(rest), t.ruleLhs[rule])
      && GotoFits(t, g, Top(rest), Top(stack), rule, ending)
  {
    hide Checked, Sound, GotoOk, TreesMatch;
    RestIsShorter(t, g, stack, rule, ending);
    var rest := stack[..|stack| - |g.rhs[rule]|];
    PrefixSound(t, g, stack, |rest|);
    GotoIsOk(t, g, Top(rest), t.ruleLhs[rule]);
  }

  lemma {:induction false} RestIsShorter(t: Tables, g: Grammar, stack: seq<Entry>, rule: nat, ending: bool)
    requires Shaped(t) && Ready(t, g, stack, rule, ending)
    ensures rule < |g.rhs| && |g.rhs[rule]| < |stack|
  {
    hide Fits, GotoFits;
  }

  lemma {:induction false} LengthsAgree(t: Tables, g: Grammar, rule: nat)
    requires Valid(t, g) && rule < |g.rhs|
    ensures rule < |t.ruleLhs| && rule < |t.ruleNRhs| && t.ruleNRhs[rule] == -|g.rhs[rule]|
  {
    hide GotoOk, ReduceOk, TokenActionOk;
  }

  lemma {:induction false} ReduceIsSound(t: Tables, g: Grammar, stack: seq<Entry>, rule: nat, token: Token)
    requires Valid(t, g) && Sound(t, g, stack) && Ready(t, g, stack, rule, token.major == END)
    requires Top(stack) <= YY_MAX_SHIFT || g.rhs[rule] != []
    ensures
      var m := Reduce(t, stack, rule);
      Good(t, g, m, token) && (m.Running? ==> Potential(g, m.stack) < Potential(g, stack))
  {
    hide Sound, Derives, Checked, Ready, GotoTargetOk, Rank, GotoAction;
    RestIsShorter(t, g, stack, rule, token.major == END);
    LengthsAgree(t, g, rule);
    var n := |g.rhs[rule]|;
    if n == 0 && |stack| >= YYSTACKDEPTH {
      GivingUpIsSound(t, g, stack, token);
    } else {
      var rest := stack[..|stack| - n];
      ReduceLeaves(t, g, stack, rule, token.major == END);
      ReducedTreeDerives(t, g, stack, rule, token.major == END);
      var goto := GotoAction(t, Top(rest), t.ruleLhs[rule]).value;
      var node := Node(rule, Minors(stack[|stack| - n..]));
      var e := LemonMachine.Entry(goto, t.ruleLhs[rule], node);
      GotoIsSound(t, g, rest, t.ruleLhs[rule], e);
      TargetIsProper(t, g, Top(rest), t.ruleLhs[rule], goto);
      assert Reduce(t, stack, rule) == Running(rest + [e]);
    }
  }

  lemma {:induction false} TargetIsProper(t: Tables, g: Grammar, state: nat, lhs: nat, act: nat)
    requires Shaped(t) && state < |g.below| == YYNSTATE && GotoTargetOk(t, g, state, lhs, act)
    ensures !(YY_MAX_SHIFT < act <= YY_ERROR_ACTION)
  {
  }

  lemma {:induction false} PendingIsLarge(t: Tables, g: Grammar, stack: seq<Entry>)
    requires Shaped(t) && |g.below| == YYNSTATE && Sound(t, g, stack) && Top(stack) > YY_MAX_SHIFT
    ensures Top(stack) >= YY_ACCEPT_ACTION && Top(stack) != YY_ACCEPT_ACTION + 1
  {
    hide Derives, Ready;
  }

  /** The entry that an action on a token comes from has passed the validity test. */
  lemma {:induction false} ChosenIsOk(t: Tables, g: Grammar, state: nat, token: Terminal)
    requires Valid(t, g) && state <= YY_MAX_SHIFT
    ensures
      var c := Choose(t, state, token);
      if c.InRow? then StandsFor(t, token, c.symbol) && TokenActionOk(t, g, state, c.symbol, c.act)
      else ReduceOk(t, g, state, c.act, false)
  {
    hide TokenActionOk, ReduceOk, GotoOk, Choose;
    ChoiceIsLegal(t, state, token);
    assert ReduceOk(t, g, state, t.defaultAction[state], false);
  }

  /** The end of the input stands for no other token. */
  lemma {:induction false} ChosenReduction(t: Tables, g: Grammar, state: nat, token: Terminal)
    requires Valid(t, g) && state <= YY_MAX_SHIFT && Choose(t, state, token).act > YY_MAX_SHIFTREDUCE
    ensures ReduceOk(t, g, state, Choose(t, state, token).act, token == END)
  {
    hide Checked, Choose, RuleFits;
    ChosenIsOk(t, g, state, token);
    var c := Choose(t, state, token);
    if c.InRow? {
      assert c.symbol == END ==> token == END;
      assert ReduceOk(t, g, state, c.act, c.symbol == END);
    }
    LaterIsEasier(t, g, state, c.act, token == END);
  }

  lemma {:induction false} LaterIsEasier(t: Tables, g: Grammar, state: nat, act: nat, ending: bool)
    requires Shaped(t) && state < |g.below|
    ensures ReduceOk(t, g, state, act, false) ==> ReduceOk(t, g, state, act, ending)
  {
    hide OnTop;
  }

  lemma {:induction false} ShiftIsSound(t: Tables, g: Grammar, stack: seq<Entry>, token: Token)
    requires Valid(t, g) && Sound(t, g, stack) && Top(stack) <= YY_MAX_SHIFT
    requires ShiftAction(t, Top(stack), token.major) <= YY_MAX_SHIFTREDUCE
    ensures Good(t, g, Shift(stack, ShiftAction(t, Top(stack), token.major), token), token)
  {
    hide Checked, Sound, FusedFits, Weakens, Choose, RuleFits;
    var s := Top(stack);
    var act := ShiftAction(t, s, token.major);
    if |stack| < YYSTACKDEPTH {
      ChosenIsOk(t, g, s, token.major);
      var state := if act > YY_MAX_SHIFT then act + (YY_MIN_REDUCE - YY_MIN_SHIFTREDUCE) else act;
      var e := LemonMachine.Entry(state, token.major, Leaf(token));
      PushIsSound(t, g, stack, e, Choose(t, s, token.major).symbol);
    } else {
      GivingUpIsSound(t, g, stack, token);
    }
  }

  lemma {:induction false} ActionIsReady(t: Tables, g: Grammar, stack: seq<Entry>, token: Token)
    requires Valid(t, g) && Sound(t, g, stack)
    requires ShiftAction(t, Top(stack), token.major) >= YY_MIN_REDUCE
    ensures
      var rule := ShiftAction(t, Top(stack), token.major) - YY_MIN_REDUCE;
      Ready(t, g, stack, rule, token.major == END) && (Top(stack) <= YY_MAX_SHIFT || g.rhs[rule] != [])
  {
    var s := Top(stack);
    if s <= YY_MAX_SHIFT {
      hide Sound, Choose, Supports, RuleFits, Ready;
      ChosenReduction(t, g, s, token.major);
      StateIsSupported(t, g, stack);
      FitsIsReady(t, g, stack, g.below[s], Choose(t, s, token.major).act - YY_MIN_REDUCE, token.major == END);
    } else {
      hide Checked, Derives, TreesMatch;
      assert PendingOk(t, g, stack, s - YY_MIN_REDUCE);
    }
  }

  /** An action on a token that is neither a shift nor a reduction is an error; acceptance comes from a goto. */
  lemma {:induction false} OtherActions(t: Tables, g: Grammar, stack: seq<Entry>, token: Token)
    requires Valid(t, g) && Sound(t, g, stack) && InTime(stack, token)
    requires YY_MAX_SHIFTREDUCE < ShiftAction(t, Top(stack), token.major) < YY_MIN_REDUCE
    ensures Good(t, g, MicroStep(t, stack, token), token) && MicroStep(t, stack, token).Stopped?
  {
    var s := Top(stack);
    if s <= YY_MAX_SHIFT {
      hide Sound, Choose, RuleFits;
      ChosenReduction(t, g, s, token.major);
    } else {
      hide Checked, Derives, Ready;
      PendingIsLarge(t, g, stack);
      PrefixSound(t, g, stack, 1);
      assert stack[..1] == [stack[0]];
    }
  }

  lemma {:induction false} SmallActionIsShift(t: Tables, g: Grammar, stack: seq<Entry>, token: Token)
    requires |g.below| == YYNSTATE && Shaped(t) && Sound(t, g, stack)
    requires ShiftAction(t, Top(stack), token.major) <= YY_MAX_SHIFTREDUCE
    ensures Top(stack) <= YY_MAX_SHIFT
  {
    hide Sound, Choose;
    if Top(stack) > YY_MAX_SHIFT {
      PendingIsLarge(t, g, stack);
    }
  }

  /** No assert of the engine fails, the invariant is kept, an accepted value is a parse tree, acceptance comes at the
      end of the input, and a reduction spends potential. */
  lemma {:induction false} StepIsSound(t: Tables, g: Grammar, stack: seq<Entry>, token: Token)
    requires Valid(t, g) && Sound(t, g, stack) && InTime(stack, token)
    ensures
      var m := MicroStep(t, stack, token);
      Good(t, g, m, token) && (m.Running? ==> Potential(g, m.stack) < Potential(g, stack))
  {
    hide Reduce, Shift, Good, Ready, Choose, Sound, Checked, Potential;
    var act := ShiftAction(t, Top(stack), token.major);
    if act >= YY_MIN_REDUCE {
      ActionIsReady(t, g, stack, token);
      ReduceIsSound(t, g, stack, act - YY_MIN_REDUCE, token);
    } else if act <= YY_MAX_SHIFTREDUCE {
      SmallActionIsShift(t, g, stack, token);
      ShiftIsSound(t, g, stack, token);
      ShiftStops(stack, act, token);
    } else {
      OtherActions(t, g, stack, token);
    }
  }

  lemma {:induction false} ShiftStops(stack: seq<Entry>, act: nat, token: Token)
    requires stack != []
    ensures Shift(stack, act, token).Stopped?
  {
  }

  lemma {:induction false} RunIsSound(t: Tables, g: Grammar, stack: seq<Entry>, token: Token, n: nat)
    requires Valid(t, g) && Sound(t, g, stack) && InTime(stack, token)
    ensures Good(t, g, Run(t, stack, token, n), token)
    decreases n
  {
    hide MicroStep, Sound, Checked;
    if n > 0 {
      StepIsSound(t, g, stack, token);
      var m := MicroStep(t, stack, token);
      if m.Running? {
        RunIsSound(t, g, m.stack, token, n - 1);
      }
    }
  }

  /** Every call ends, after no more passes than the potential of its stack and one. */
  lemma {:induction false} CallEnds(t: Tables, g: Grammar, stack: seq<Entry>, token: Token, n: nat)
    requires Valid(t, g) && Sound(t, g, stack) && InTime(stack, token) && Potential(g, stack) < n
    ensures Run(t, stack, token, n).Stopped?
    decreases n
  {
    hide MicroStep, Sound, Checked, Potential;
    StepIsSound(t, g, stack, token);
    var m := MicroStep(t, stack, token);
    if m.Running? {
      CallEnds(t, g, m.stack, token, n - 1);
    }
  }
}
