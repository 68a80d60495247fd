/** The Lemon push parser as a machine on values: one pass of the driver loop, and what it conserves.

    The semantic value on the stack (the "minor") is the derivation itself: a token where a token was shifted,
    a rule over the values it consumed where a rule was reduced. Every semantic action is a function of it. */
module LemonMachine {
  import opened Options
  import opened LemonTables

  datatype Token = Token(major: Terminal, text: string)

  /** `Blank` is the uninitialised value of the bottom entry. */
  datatype Tree = Blank | Leaf(token: Token) | Node(rule: nat, kids: seq<Tree>)

  datatype Entry = Entry(stateno: nat, major: nat, minor: Tree)

  const Bottom := Entry(0, 0, Blank)

  /** How one call of the parser ends. `Broken` stands for a failed assert of the engine. */
  datatype Outcome = Shifted | Accepted(tree: Tree) | SyntaxError | Overflow | Broken

  /** The machine in mid-call, or at the end of a call, with the values given to the destructor in order. */
  datatype Machine =
    | Running(stack: seq<Entry>)
    | Stopped(stack: seq<Entry>, outcome: Outcome, destroyed: seq<Tree>)

  // ----- the values on a stack

  function Minors(stack: seq<Entry>): (trees: seq<Tree>)
    ensures |trees| == |stack| && forall i :: 0 <= i < |stack| ==> trees[i] == stack[i].minor
  {
    seq(|stack|, i requires 0 <= i < |stack| => stack[i].minor)
  }

  /** The tokens of a tree and of a list of trees, left to right. */
  function Yield(tree: Tree): seq<Token> {
    match tree
    case Blank => []
    case Leaf(token) => [token]
    case Node(_, kids) => Yields(kids)
  }

  function Yields(trees: seq<Tree>): seq<Token> {
    if trees == [] then [] else Yields(trees[..|trees| - 1]) + Yield(trees[|trees| - 1])
  }

  /** The rules of a tree in the order a bottom-up parser performs them. */
  function Reductions(tree: Tree): seq<nat> {
    match tree
    case Blank => []
    case Leaf(_) => []
    case Node(rule, kids) => AllReductions(kids) + [rule]
  }

  function AllReductions(trees: seq<Tree>): seq<nat> {
    if trees == [] then [] else AllReductions(trees[..|trees| - 1]) + Reductions(trees[|trees| - 1])
  }

  /** The order in which the destructor meets the entries of a stack that is popped down to its bottom. */
  function Reversed(trees: seq<Tree>): seq<Tree> {
    if trees == [] then [] else [trees[|trees| - 1]] + Reversed(trees[..|trees| - 1])
  }

  ghost predicate OnBottom(stack: seq<Entry>) {
    stack != [] && stack[0] == Bottom
  }

  // ----- one pass of the loop

  /** yyStackOverflow: every entry above the bottom is popped and destroyed. */
  function GiveUp(stack: seq<Entry>): Machine
    requires stack != []
  {
    Stopped([stack[0]], Overflow, Reversed(Minors(stack[1..])))
  }

  /** yy_shift: the new state of a fused action is the number of its pending reduction. */
  function Shift(stack: seq<Entry>, act: nat, token: Token): Machine
    requires stack != []
  {
    if |stack| >= YYSTACKDEPTH then
      GiveUp(stack)
    else
      var state := if act > YY_MAX_SHIFT then act + (YY_MIN_REDUCE - YY_MIN_SHIFTREDUCE) else act;
      Stopped(stack + [Entry(state, token.major, Leaf(token))], Shifted, [])
  }

  /** yy_reduce: pop the right-hand side, look up the goto of the state below it, push the left-hand side. */
  function Reduce(t: Tables, stack: seq<Entry>, rule: nat): Machine
    requires Shaped(t) && stack != []
  {
    if rule >= |t.ruleLhs| then
      Stopped(stack, Broken, [])
    else if t.ruleNRhs[rule] == 0 && |stack| >= YYSTACKDEPTH then
      GiveUp(stack)
    else if -t.ruleNRhs[rule] >= |stack| then
      Stopped(stack, Broken, [])
    else
      var rest := stack[..|stack| + t.ruleNRhs[rule]];
      var kids := Minors(stack[|stack| + t.ruleNRhs[rule]..]);
      var goto := GotoAction(t, rest[|rest| - 1].stateno, t.ruleLhs[rule]);
      if goto == None || YY_MAX_SHIFT < goto.value <= YY_ERROR_ACTION then
        Stopped(stack, Broken, [])
      else
        Running(rest + [Entry(goto.value, t.ruleLhs[rule], Node(rule, kids))])
  }

  /** What the loop of sqlite3Parser does with an action. */
  function Perform(t: Tables, stack: seq<Entry>, act: nat, token: Token): (m: Machine)
    requires Shaped(t) && stack != []
    ensures m.stack != []
  {
    if act >= YY_MIN_REDUCE then
      Reduce(t, stack, act - YY_MIN_REDUCE)
    else if act <= YY_MAX_SHIFTREDUCE then
      Shift(stack, act, token)
    else if act == YY_ACCEPT_ACTION then
      if |stack| == 2 then Stopped([stack[0]], Accepted(stack[1].minor), [])
      else Stopped(stack, Broken, [])
    else if act == YY_ERROR_ACTION then
      Stopped(stack, SyntaxError, [Leaf(token)])
    else
      Stopped(stack, Broken, [])
  }

  /** The body of the do-while loop of sqlite3Parser. */
  function MicroStep(t: Tables, stack: seq<Entry>, token: Token): (m: Machine)
    requires Shaped(t) && stack != []
    ensures m.stack != []
  {
    Perform(t, stack, ShiftAction(t, stack[|stack| - 1].stateno, token.major), token)
  }

  /** At most `n` passes of the loop. */
  function Run(t: Tables, stack: seq<Entry>, token: Token, n: nat): (m: Machine)
    requires Shaped(t) && stack != []
    ensures m.stack != []
    decreases n
  {
    if n == 0 then Running(stack)
    else
      var m := MicroStep(t, stack, token);
      if m.Stopped? then m else Run(t, m.stack, token, n - 1)
  }

  /** The rules by which those passes reduce, in order. */
  function Fired(t: Tables, stack: seq<Entry>, token: Token, n: nat): seq<nat>
    requires Shaped(t) && stack != []
    decreases n
  {
    if n == 0 || MicroStep(t, stack, token).Stopped? then []
    else [RuleOf(t, stack, token)] + Fired(t, MicroStep(t, stack, token).stack, token, n - 1)
  }

  /** The rule of a pass that reduces. */
  function RuleOf(t: Tables, stack: seq<Entry>, token: Token): (rule: nat)
    requires Shaped(t) && stack != []
  {
    var act := ShiftAction(t, stack[|stack| - 1].stateno, token.major);
    if act >= YY_MIN_REDUCE then act - YY_MIN_REDUCE else 0
  }

  lemma {:induction false} RunIsStable(t: Tables, stack: seq<Entry>, token: Token, n: nat, more: nat)
    requires Shaped(t) && stack != []
    requires Run(t, stack, token, n).Stopped? && n <= more
    ensures Run(t, stack, token, more) == Run(t, stack, token, n)
    decreases n
  {
    hide MicroStep;
    var m := MicroStep(t, stack, token);
    if m.Running? {
      RunIsStable(t, m.stack, token, n - 1, more - 1);
    }
  }

  lemma {:induction false} RunUnfolds(t: Tables, stack: seq<Entry>, token: Token, n: nat)
    requires Shaped(t) && stack != []
    requires Run(t, stack, token, n).Stopped?
    ensures n > 0
    ensures
      var m := MicroStep(t, stack, token);
      Run(t, stack, token, n) == if m.Stopped? then m else Run(t, m.stack, token, n - 1)
  {
  }

  lemma {:induction false} RunComposes(t: Tables, stack: seq<Entry>, token: Token, a: nat, b: nat, mid: seq<Entry>)
    requires Shaped(t) && stack != [] && mid != [] && Run(t, stack, token, a) == Running(mid)
    ensures Run(t, stack, token, a + b) == Run(t, mid, token, b)
    decreases a
  {
    hide MicroStep;
    if a > 0 {
      RunComposes(t, MicroStep(t, stack, token).stack, token, a - 1, b, mid);
    }
  }

  /** How a pass ends, by the number of the action: a shift and a reduction by an empty rule push, and overflow a full
      stack; other reductions go on. */
  lemma {:induction false} OutcomeIsExact(t: Tables, stack: seq<Entry>, token: Token)
    requires Shaped(t) && stack != []
    ensures
      var m := MicroStep(t, stack, token);
      var act := ShiftAction(t, stack[|stack| - 1].stateno, token.major);
      var pushes := act <= 1132 || (1136 <= act < 1136 + |t.ruleNRhs| && t.ruleNRhs[act - 1136] == 0);
      && (m.Running? ==> 1136 <= act < 1136 + |t.ruleLhs|)
      && (m.Stopped? ==>
            && (m.outcome == Overflow <==> |stack| >= 100 && pushes)
            && (m.outcome == Shifted <==> |stack| < 100 && act <= 1132)
            && (m.outcome == SyntaxError <==> act == 1133)
            && (m.outcome.Accepted? <==> act == 1134 && |stack| == 2))
  {
    hide ShiftAction, GotoAction;
  }

  // ----- sequences of trees

  lemma {:induction false} YieldsConcat(a: seq<Tree>, b: seq<Tree>)
    ensures Yields(a + b) == Yields(a) + Yields(b)
    decreases |b|
  {
    hide Yield;
    if b == [] {
      assert a + b == a;
    } else {
      var front := b[..|b| - 1];
      YieldsConcat(a, front);
      assert (a + b)[..|a + b| - 1] == a + front;
    }
  }

  lemma {:induction false} AllReductionsConcat(a: seq<Tree>, b: seq<Tree>)
    ensures AllReductions(a + b) == AllReductions(a) + AllReductions(b)
    decreases |b|
  {
    hide Reductions;
    if b == [] {
      assert a + b == a;
    } else {
      var front := b[..|b| - 1];
      AllReductionsConcat(a, front);
      assert (a + b)[..|a + b| - 1] == a + front;
    }
  }

  lemma {:induction false} OneMore(trees: seq<Tree>, x: Tree)
    ensures Yields(trees + [x]) == Yields(trees) + Yield(x)
    ensures AllReductions(trees + [x]) == AllReductions(trees) + Reductions(x)
  {
    assert (trees + [x])[..|trees + [x]| - 1] == trees;
  }

  lemma {:induction false} ReversedKeepsTokens(trees: seq<Tree>)
    ensures multiset(Yields(Reversed(trees))) == multiset(Yields(trees))
    ensures multiset(AllReductions(Reversed(trees))) == multiset(AllReductions(trees))
  {
    if trees != [] {
      var front, last := trees[..|trees| - 1], trees[|trees| - 1];
      ReversedKeepsTokens(front);
      YieldsConcat([last], Reversed(front));
      AllReductionsConcat([last], Reversed(front));
      OneMore([], last);
      assert [] + [last] == [last];
    }
  }

  // ----- what a pass, and a call, conserve

  lemma {:induction false} FoldConserves(stack: seq<Entry>, below: nat, rule: nat)
    requires below <= |stack|
    ensures
      var folded := Minors(stack[..below]) + [Node(rule, Minors(stack[below..]))];
      && Yields(folded) == Yields(Minors(stack))
      && AllReductions(folded) == AllReductions(Minors(stack)) + [rule]
  {
    var rest, top := Minors(stack[..below]), Minors(stack[below..]);
    assert Minors(stack) == rest + top;
    YieldsConcat(rest, top);
    AllReductionsConcat(rest, top);
    OneMore(rest, Node(rule, top));
  }

  /** A reduction replaces the values of the right-hand side by one value with the same tokens, and is the next
      rule of a bottom-up traversal. */
  lemma {:induction false} ReduceConserves(t: Tables, stack: seq<Entry>, rule: nat)
    requires Shaped(t) && stack != []
    ensures var m := Reduce(t, stack, rule);
            && (m.Running? ==>
                 && 2 <= |m.stack| && m.stack[0] == stack[0]
                 && Yields(Minors(m.stack)) == Yields(Minors(stack))
                 && AllReductions(Minors(m.stack)) == AllReductions(Minors(stack)) + [rule])
            && (m.Stopped? ==> m == GiveUp(stack) || m.outcome == Broken)
  {
    var m := Reduce(t, stack, rule);
    if m.Running? {
      FoldConserves(stack, |stack| + t.ruleNRhs[rule], rule);
      var node := Node(rule, Minors(stack[|stack| + t.ruleNRhs[rule]..]));
      assert Minors(m.stack) == Minors(stack[..|stack| + t.ruleNRhs[rule]]) + [node];
    }
  }

  /** The trees `after` have the tokens and reductions of `before` and these. */
  ghost predicate Adds(before: seq<Tree>, after: seq<Tree>, tokens: seq<Token>, rules: seq<nat>) {
    && Yields(after) == Yields(before) + tokens
    && AllReductions(after) == AllReductions(before) + rules
  }

  /** Two lists of trees with the same tokens and the same reductions. */
  ghost predicate Balances(a: seq<Tree>, b: seq<Tree>) {
    && multiset(Yields(a)) == multiset(Yields(b))
    && multiset(AllReductions(a)) == multiset(AllReductions(b))
  }

  /** Where the tokens and the values made of them are after a call of the parser that reduces by the rules `fired`:
      on the stack, in the accepted tree, or destroyed because the stack overflowed. */
  ghost predicate Conserved(stack: seq<Entry>, token: Token, m: Machine, fired: seq<nat>)
    requires stack != []
  {
    if m.Running? then
      |m.stack| >= 2 && m.stack[0] == stack[0] && Adds(Minors(stack), Minors(m.stack), [], fired)
    else
      match m.outcome
      case Shifted =>
        && m.stack != [] && m.stack[0] == stack[0] && m.destroyed == [] && |m.stack| <= YYSTACKDEPTH
        && Adds(Minors(stack), Minors(m.stack), [token], fired)
      case Accepted(tree) =>
        m.stack == stack[..1] && m.destroyed == [] && Adds(Minors(stack), [stack[0].minor, tree], [], fired)
      case SyntaxError =>
        && m.stack != [] && m.stack[0] == stack[0] && m.destroyed == [Leaf(token)]
        && Adds(Minors(stack), Minors(m.stack), [], fired)
      case Overflow =>
        && m.stack == stack[..1]
        && exists top :: Adds(Minors(stack), top, [], fired) && Balances([stack[0].minor] + m.destroyed, top)
      case Broken => true
  }

  lemma {:induction false} GiveUpConserves(stack: seq<Entry>, token: Token)
    requires stack != []
    ensures Conserved(stack, token, GiveUp(stack), [])
  {
    hide Yields, AllReductions, Reversed;
    var bottom, above := [stack[0].minor], Minors(stack[1..]);
    ReversedKeepsTokens(above);
    assert Minors(stack) == bottom + above;
    YieldsConcat(bottom, above);
    YieldsConcat(bottom, Reversed(above));
    AllReductionsConcat(bottom, above);
    AllReductionsConcat(bottom, Reversed(above));
    assert Adds(Minors(stack), Minors(stack), [], []);
  }

  lemma {:induction false} ShiftConserves(stack: seq<Entry>, act: nat, token: Token)
    requires stack != []
    ensures Conserved(stack, token, Shift(stack, act, token), [])
  {
    hide Yields, AllReductions, Balances;
    GiveUpConserves(stack, token);
    if |stack| < YYSTACKDEPTH {
      OneMore(Minors(stack), Leaf(token));
      assert Minors(Shift(stack, act, token).stack) == Minors(stack) + [Leaf(token)];
    }
  }

  lemma {:induction false} AcceptConserves(stack: seq<Entry>, token: Token)
    requires |stack| == 2
    ensures Conserved(stack, token, Stopped([stack[0]], Accepted(stack[1].minor), []), [])
  {
    assert Minors(stack) == [stack[0].minor, stack[1].minor];
  }

  lemma {:induction false} ReduceIsConserved(t: Tables, stack: seq<Entry>, rule: nat, token: Token)
    requires Shaped(t) && stack != []
    ensures Conserved(stack, token, Reduce(t, stack, rule), if Reduce(t, stack, rule).Running? then [rule] else [])
  {
    ReduceConserves(t, stack, rule);
    GiveUpConserves(stack, token);
  }

  lemma {:induction false} RejectConserves(stack: seq<Entry>, token: Token)
    requires stack != []
    ensures Conserved(stack, token, Stopped(stack, SyntaxError, [Leaf(token)]), [])
    ensures Conserved(stack, token, Stopped(stack, Broken, []), [])
  {
  }

  lemma {:induction false} StepConserves(t: Tables, stack: seq<Entry>, token: Token)
    requires Shaped(t) && stack != []
    ensures
      var m := MicroStep(t, stack, token);
      Conserved(stack, token, m, if m.Running? then [RuleOf(t, stack, token)] else [])
  {
    hide Conserved, Reduce, ShiftAction;
    var act := ShiftAction(t, stack[|stack| - 1].stateno, token.major);
    if act >= YY_MIN_REDUCE {
      ReduceIsConserved(t, stack, act - YY_MIN_REDUCE, token);
    } else if act <= YY_MAX_SHIFTREDUCE {
      ShiftConserves(stack, act, token);
    } else if act == YY_ACCEPT_ACTION && |stack| == 2 {
      AcceptConserves(stack, token);
    } else {
      RejectConserves(stack, token);
    }
  }

  lemma {:induction false} AddsMore(a: seq<Tree>, b: seq<Tree>, c: seq<Tree>, tokens: seq<Token>, r: seq<nat>, s: seq<nat>)
    requires Adds(a, b, [], r) && Adds(b, c, tokens, s)
    ensures Adds(a, c, tokens, r + s)
  {
  }

  /** A reducing pass before a call. */
  lemma {:induction false} ThenConserves(
    stack: seq<Entry>, token: Token, mid: seq<Entry>, rules: seq<nat>, m: Machine, fired: seq<nat>)
    requires stack != [] && Conserved(stack, token, Running(mid), rules) && Conserved(mid, token, m, fired)
    ensures Conserved(stack, token, m, rules + fired)
  {
    hide Adds, Balances, Minors;
    assert mid[..1] == stack[..1];
    var a, b := Minors(stack), Minors(mid);
    if m.Running? {
      AddsMore(a, b, Minors(m.stack), [], rules, fired);
    } else if m.outcome == Shifted {
      AddsMore(a, b, Minors(m.stack), [token], rules, fired);
    } else if m.outcome.Accepted? {
      AddsMore(a, b, [stack[0].minor, m.outcome.tree], [], rules, fired);
    } else if m.outcome == SyntaxError {
      AddsMore(a, b, Minors(m.stack), [], rules, fired);
    } else if m.outcome == Overflow {
      var top :| Adds(b, top, [], fired) && Balances([stack[0].minor] + m.destroyed, top);
      AddsMore(a, b, top, [], rules, fired);
    }
  }

  /** For all tables, stacks and tokens, however many reductions the call performs. */
  lemma {:induction false} RunConserves(t: Tables, stack: seq<Entry>, token: Token, n: nat)
    requires Shaped(t) && stack != []
    requires n > 0
    ensures Conserved(stack, token, Run(t, stack, token, n), Fired(t, stack, token, n))
    decreases n
  {
    hide MicroStep, Conserved, RuleOf;
    StepConserves(t, stack, token);
    var m := MicroStep(t, stack, token);
    var rule := [RuleOf(t, stack, token)];
    if m.Running? {
      if n == 1 {
        assert rule + [] == rule;
      } else {
        RunConserves(t, m.stack, token, n - 1);
        ThenConserves(stack, token, m.stack, rule, Run(t, m.stack, token, n - 1), Fired(t, m.stack, token, n - 1));
      }
    }
  }
}
