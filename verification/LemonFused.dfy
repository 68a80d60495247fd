/** The fused actions of the Lemon engine change nothing: a textbook LR machine that shifts and at once reduces gives
    the same outcome at every token, and builds the same values.

    The engine leaves the second half of a fused action in the state number of the top entry and performs it when
    the next token arrives. The textbook machine below keeps proper states only and knows nothing of pending
    reductions. */
module LemonFused {
  import opened Options
  import opened LemonTables
  import opened LemonMachine

  /** An entry of the textbook machine. */
  datatype Item = Item(state: nat, tree: Tree)

  /** `Unfinished` when the given number of moves did not suffice. */
  datatype Plain = Going(items: seq<Item>) | Ended(items: seq<Item>, outcome: Outcome) | Unfinished

  function Trees(items: seq<Item>): (trees: seq<Tree>)
    ensures |trees| == |items| && forall i :: 0 <= i < |items| ==> trees[i] == items[i].tree
  {
    seq(|items|, i requires 0 <= i < |items| => items[i].tree)
  }

  /** Goto on a nonterminal: a state to go to, or a rule whose right-hand side the nonterminal completes. */
  function Goto(t: Tables, items: seq<Item>, node: Tree, lhs: nat, moves: nat): Plain
    requires Shaped(t) && items != []
    decreases moves, 1
  {
    match GotoAction(t, items[|items| - 1].state, lhs)
    case None => Ended(items, Broken)
    case Some(act) =>
      if act <= YY_MAX_SHIFT || act == YY_ACCEPT_ACTION then Going(items + [Item(act, node)])
      else if act >= YY_MIN_REDUCE then Complete(t, items, node, act - YY_MIN_REDUCE, moves)
      else Ended(items, Broken)
  }

  /** Reduce by a rule whose last symbol is `last`, which is on no stack; the others are on top of the stack. */
  function Complete(t: Tables, items: seq<Item>, last: Tree, rule: nat, moves: nat): Plain
    requires Shaped(t) && items != []
    decreases moves, 0
  {
    if moves == 0 then Unfinished
    else if rule >= |t.ruleLhs| || t.ruleNRhs[rule] == 0 || -t.ruleNRhs[rule] > |items| then Ended(items, Broken)
    else
      var below := |items| + t.ruleNRhs[rule] + 1;
      Goto(t, items[..below], Node(rule, Trees(items[below..]) + [last]), t.ruleLhs[rule], moves - 1)
  }

  /** What the textbook machine does with an action of a state. */
  function PlainPerform(t: Tables, items: seq<Item>, act: nat, token: Token, moves: nat): Plain
    requires Shaped(t) && items != []
  {
    if act <= YY_MAX_SHIFT then
      if |items| >= YYSTACKDEPTH then Ended([items[0]], Overflow)
      else Ended(items + [Item(act, Leaf(token))], Shifted)
    else if YY_MIN_SHIFTREDUCE <= act <= YY_MAX_SHIFTREDUCE then
      if |items| >= YYSTACKDEPTH then Ended([items[0]], Overflow)
      else
        var done := Complete(t, items, Leaf(token), act - YY_MIN_SHIFTREDUCE, moves);
        if done.Going? then Ended(done.items, Shifted) else done
    else if act >= YY_MIN_REDUCE then
      PlainReduce(t, items, act - YY_MIN_REDUCE, moves)
    else if act == YY_ERROR_ACTION then Ended(items, SyntaxError)
    else Ended(items, Broken)
  }

  /** One move of the textbook machine. */
  function PlainStep(t: Tables, items: seq<Item>, token: Token, moves: nat): Plain
    requires Shaped(t) && items != []
  {
    var state := items[|items| - 1].state;
    if state <= YY_MAX_SHIFT then PlainPerform(t, items, Choose(t, state, token.major).act, token, moves)
    else if state == YY_ACCEPT_ACTION && |items| == 2 then Ended([items[0]], Accepted(items[1].tree))
    else Ended(items, Broken)
  }

  function PlainReduce(t: Tables, items: seq<Item>, rule: nat, moves: nat): Plain
    requires Shaped(t) && items != []
  {
    if rule >= |t.ruleLhs| then Ended(items, Broken)
    else if t.ruleNRhs[rule] == 0 && |items| >= YYSTACKDEPTH then Ended([items[0]], Overflow)
    else if -t.ruleNRhs[rule] >= |items| then Ended(items, Broken)
    else
      var below := |items| + t.ruleNRhs[rule];
      Goto(t, items[..below], Node(rule, Trees(items[below..])), t.ruleLhs[rule], moves)
  }

  function PlainRun(t: Tables, items: seq<Item>, token: Token, moves: nat, n: nat): Plain
    requires Shaped(t) && items != []
    decreases n
  {
    if n == 0 then Unfinished
    else
      match PlainStep(t, items, token, moves)
      case Going(next) => if next == [] then Unfinished else PlainRun(t, next, token, moves, n - 1)
      case end => end
  }

  // ----- the simulation relation

  function Strip(stack: seq<Entry>): (items: seq<Item>)
    ensures |items| == |stack| && forall i :: 0 <= i < |stack| ==> items[i] == Item(stack[i].stateno, stack[i].minor)
  {
    seq(|stack|, i requires 0 <= i < |stack| => Item(stack[i].stateno, stack[i].minor))
  }

  predicate Pending(stack: seq<Entry>)
    requires stack != []
  {
    stack[|stack| - 1].stateno >= YY_MIN_REDUCE
  }

  /** The engine's stack, once its pending reduction and all that follow from it are performed, is `items`. */
  ghost predicate Settles(t: Tables, stack: seq<Entry>, moves: nat, items: seq<Item>)
    requires Shaped(t) && stack != []
  {
    if !Pending(stack) then items == Strip(stack)
    else
      && |stack| >= 2
      && Complete(t, Strip(stack[..|stack| - 1]), stack[|stack| - 1].minor,
                  stack[|stack| - 1].stateno - YY_MIN_REDUCE, moves) == Going(items)
  }

  lemma {:induction false} GotoSettles(t: Tables, rest: seq<Entry>, node: Tree, lhs: nat, moves: nat)
    requires Shaped(t) && rest != [] && Goto(t, Strip(rest), node, lhs, moves).Going?
    ensures
      var goto := GotoAction(t, rest[|rest| - 1].stateno, lhs);
      && goto.Some? && !(YY_MAX_SHIFT < goto.value <= YY_ERROR_ACTION)
      && Settles(t, rest + [Entry(goto.value, lhs, node)], moves, Goto(t, Strip(rest), node, lhs, moves).items)
  {
    var e := Entry(GotoAction(t, rest[|rest| - 1].stateno, lhs).value, lhs, node);
    assert (rest + [e])[..|rest|] == rest;
    assert Strip(rest + [e]) == Strip(rest) + [Item(e.stateno, node)];
  }

  /** A pending reduction is performed whatever the token. */
  lemma {:induction false} PendingStep(t: Tables, stack: seq<Entry>, token: Token, moves: nat, items: seq<Item>)
    requires Shaped(t) && stack != [] && Pending(stack) && Settles(t, stack, moves, items)
    ensures moves > 0
    ensures
      var m := MicroStep(t, stack, token);
      m.Running? && m.stack != [] && m.stack[0] == stack[0] && Settles(t, m.stack, moves - 1, items)
  {
    var front, top := stack[..|stack| - 1], stack[|stack| - 1];
    var rule := top.stateno - YY_MIN_REDUCE;
    var below := |front| + t.ruleNRhs[rule] + 1;
    var rest := stack[..below];
    var node := Node(rule, Minors(stack[below..]));
    assert Strip(front)[..below] == Strip(rest);
    assert Trees(Strip(front)[below..]) + [top.minor] == Minors(stack[below..]);
    assert Goto(t, Strip(rest), node, t.ruleLhs[rule], moves - 1) == Going(items);
    GotoSettles(t, rest, node, t.ruleLhs[rule], moves - 1);
  }

  lemma {:induction false} OnePass(t: Tables, stack: seq<Entry>, token: Token)
    requires Shaped(t) && stack != []
    ensures Run(t, stack, token, 1) == MicroStep(t, stack, token)
  {
  }

  lemma {:induction false} AfterOnePass(t: Tables, stack: seq<Entry>, token: Token, next: seq<Entry>, n: nat)
    requires Shaped(t) && stack != [] && next != [] && MicroStep(t, stack, token) == Running(next)
    ensures Run(t, stack, token, 1 + n) == Run(t, next, token, n)
  {
    OnePass(t, stack, token);
    RunComposes(t, stack, token, 1, n, next);
  }

  /** So before it looks at the token, the engine catches up with the textbook machine. */
  lemma {:induction false} CatchUp(t: Tables, stack: seq<Entry>, token: Token, moves: nat, items: seq<Item>)
    returns (passes: nat, settled: seq<Entry>)
    requires Shaped(t) && stack != [] && Settles(t, stack, moves, items)
    ensures settled != [] && settled[0] == stack[0] && !Pending(settled) && Strip(settled) == items
    ensures Run(t, stack, token, passes) == Running(settled)
    decreases moves
  {
    hide MicroStep, Complete;
    if !Pending(stack) {
      passes, settled := 0, stack;
    } else {
      PendingStep(t, stack, token, moves, items);
      var next := MicroStep(t, stack, token).stack;
      var p;
      p, settled := CatchUp(t, next, token, moves - 1, items);
      AfterOnePass(t, stack, token, next, p);
      passes := 1 + p;
    }
  }

  /** What it means that an engine state agrees with a state of the textbook machine. */
  ghost predicate Agrees(t: Tables, m: Machine, plain: Plain, moves: nat)
    requires Shaped(t)
  {
    m.stack != [] &&
    match plain
    case Going(items) => m.Running? && Settles(t, m.stack, moves, items)
    case Ended(items, outcome) => m.Stopped? && m.outcome == outcome && Settles(t, m.stack, moves, items)
    case Unfinished => true
  }

  ghost predicate Fine(plain: Plain) {
    plain.Going? || (plain.Ended? && plain.outcome != Broken)
  }

  lemma {:induction false} ReduceAgrees(t: Tables, stack: seq<Entry>, rule: nat, moves: nat)
    requires Shaped(t) && stack != [] && !Pending(stack) && Fine(PlainReduce(t, Strip(stack), rule, moves))
    requires stack[0].stateno < YY_MIN_REDUCE
    ensures Agrees(t, Reduce(t, stack, rule), PlainReduce(t, Strip(stack), rule, moves), moves)
  {
    hide Goto, Complete, GotoAction, Reversed;
    if t.ruleNRhs[rule] == 0 && |stack| >= YYSTACKDEPTH {
      assert Strip([stack[0]]) == [Strip(stack)[0]];
    } else {
      var below := |stack| + t.ruleNRhs[rule];
      var rest := stack[..below];
      var node := Node(rule, Minors(stack[below..]));
      assert Strip(stack)[..below] == Strip(rest);
      assert Trees(Strip(stack)[below..]) == Minors(stack[below..]);
      GotoEnds(t, Strip(rest), node, t.ruleLhs[rule], moves);
      GotoSettles(t, rest, node, t.ruleLhs[rule], moves);
    }
  }

  /** A goto never ends a call, short of a failed assert. */
  lemma {:induction false} GotoEnds(t: Tables, items: seq<Item>, node: Tree, lhs: nat, moves: nat)
    requires Shaped(t) && items != []
    ensures Goto(t, items, node, lhs, moves).Ended? ==> Goto(t, items, node, lhs, moves).outcome == Broken
    decreases moves
  {
    var goto := GotoAction(t, items[|items| - 1].state, lhs);
    if goto.Some? && goto.value >= YY_MIN_REDUCE {
      CompleteEnds(t, items, node, goto.value - YY_MIN_REDUCE, moves);
    }
  }

  lemma {:induction false} CompleteEnds(t: Tables, items: seq<Item>, last: Tree, rule: nat, moves: nat)
    requires Shaped(t) && items != []
    ensures Complete(t, items, last, rule, moves).Ended? ==> Complete(t, items, last, rule, moves).outcome == Broken
    decreases moves, 0
  {
    if moves > 0 && rule < |t.ruleLhs| && t.ruleNRhs[rule] != 0 && -t.ruleNRhs[rule] <= |items| {
      var below := |items| + t.ruleNRhs[rule] + 1;
      GotoEnds(t, items[..below], Node(rule, Trees(items[below..]) + [last]), t.ruleLhs[rule], moves - 1);
    }
  }

  lemma {:induction false} ShiftAgrees(t: Tables, stack: seq<Entry>, act: nat, token: Token, moves: nat)
    requires Shaped(t) && stack != [] && stack[|stack| - 1].stateno <= YY_MAX_SHIFT && stack[0].stateno < YY_MIN_REDUCE
    requires act <= YY_MAX_SHIFTREDUCE && Fine(PlainPerform(t, Strip(stack), act, token, moves))
    ensures Agrees(t, Shift(stack, act, token), PlainPerform(t, Strip(stack), act, token, moves), moves)
  {
    hide Complete, Minors, Reversed, PlainReduce;
    var m := Shift(stack, act, token);
    if |stack| >= YYSTACKDEPTH {
      assert Strip([stack[0]]) == [Strip(stack)[0]];
    } else {
      assert m.stack[..|stack|] == stack;
      assert Strip(m.stack) == Strip(stack) + [Item(m.stack[|stack|].stateno, Leaf(token))];
      if act > YY_MAX_SHIFT {
        CompleteEnds(t, Strip(stack), Leaf(token), act - YY_MIN_SHIFTREDUCE, moves);
      }
    }
  }

  lemma {:induction false} PerformAgrees(t: Tables, stack: seq<Entry>, act: nat, token: Token, moves: nat)
    requires Shaped(t) && stack != [] && stack[|stack| - 1].stateno <= YY_MAX_SHIFT && stack[0].stateno < YY_MIN_REDUCE
    requires Fine(PlainPerform(t, Strip(stack), act, token, moves))
    ensures Agrees(t, Perform(t, stack, act, token), PlainPerform(t, Strip(stack), act, token, moves), moves)
  {
    if act >= YY_MIN_REDUCE {
      ReduceAgrees(t, stack, act - YY_MIN_REDUCE, moves);
    } else if act <= YY_MAX_SHIFTREDUCE {
      ShiftAgrees(t, stack, act, token, moves);
    }
  }

  /** One move of the textbook machine is one pass of the engine, from a stack without a pending action. */
  lemma {:induction false} StepAgrees(t: Tables, stack: seq<Entry>, token: Token, moves: nat)
    requires Shaped(t) && stack != [] && !Pending(stack) && stack[0].stateno < YY_MIN_REDUCE
    requires Fine(PlainStep(t, Strip(stack), token, moves))
    ensures Agrees(t, MicroStep(t, stack, token), PlainStep(t, Strip(stack), token, moves), moves)
  {
    var state := stack[|stack| - 1].stateno;
    if state <= YY_MAX_SHIFT {
      PerformAgrees(t, stack, Choose(t, state, token.major).act, token, moves);
    } else {
      assert Strip([stack[0]]) == [Strip(stack)[0]];
    }
  }

  lemma {:induction false} BottomStays(t: Tables, stack: seq<Entry>, token: Token)
    requires Shaped(t) && OnBottom(stack)
    ensures OnBottom(MicroStep(t, stack, token).stack)
  {
  }

  lemma {:induction false} EndPass(t: Tables, stack: seq<Entry>, token: Token, p: nat, settled: seq<Entry>)
    requires Shaped(t) && stack != [] && settled != [] && Run(t, stack, token, p) == Running(settled)
    ensures Run(t, stack, token, p + 1) == MicroStep(t, settled, token)
  {
    OnePass(t, settled, token);
    RunComposes(t, stack, token, p, 1, settled);
  }

  /** A call of the engine ends as the run of the textbook machine does, on a stack that settles to its stack. */
  lemma {:induction false} CallAgrees(t: Tables, stack: seq<Entry>, items: seq<Item>, token: Token, moves: nat, n: nat)
    returns (passes: nat)
    requires Shaped(t) && OnBottom(stack) && Settles(t, stack, moves, items) && items != []
    requires PlainRun(t, items, token, moves, n).Ended? && PlainRun(t, items, token, moves, n).outcome != Broken
    ensures OnBottom(Run(t, stack, token, passes).stack)
    ensures Agrees(t, Run(t, stack, token, passes), PlainRun(t, items, token, moves, n), moves)
    decreases n
  {
    hide MicroStep, PlainStep, Complete, Settles;
    var p, settled := CatchUp(t, stack, token, moves, items);
    var plain := PlainStep(t, items, token, moves);
    StepAgrees(t, settled, token, moves);
    BottomStays(t, settled, token);
    if plain.Ended? {
      EndPass(t, stack, token, p, settled);
      passes := p + 1;
    } else {
      var next := MicroStep(t, settled, token).stack;
      var q := CallAgrees(t, next, plain.items, token, moves, n - 1);
      AfterOnePass(t, settled, token, next, q);
      RunComposes(t, stack, token, p, 1 + q, settled);
      passes := p + 1 + q;
    }
  }

  // ----- whole runs

  /** The outcomes of feeding all tokens to the textbook machine, and its last stack; `None` if a call does not end in
      the given number of moves or fails. */
  function PlainAll(t: Tables, items: seq<Item>, tokens: seq<Token>, moves: nat, n: nat): Option<(seq<Outcome>, seq<Item>)>
    requires Shaped(t) && items != []
    decreases |tokens|
  {
    if tokens == [] then Some(([], items))
    else
      var first := PlainRun(t, items, tokens[0], moves, n);
      if !first.Ended? || first.outcome == Broken || first.items == [] then None
      else
        var rest := PlainAll(t, first.items, tokens[1..], moves, n);
        if rest == None then None else Some(([first.outcome] + rest.value.0, rest.value.1))
  }

  /** Fed with all tokens, the engine reports these outcomes and is left with this stack. */
  ghost predicate Reports(t: Tables, stack: seq<Entry>, tokens: seq<Token>, outcomes: seq<Outcome>, end: seq<Entry>)
    requires Shaped(t) && stack != []
    decreases |tokens|, 1
  {
    if tokens == [] then outcomes == [] && end == stack
    else outcomes != [] && exists passes: nat :: Calls(t, stack, tokens, outcomes, end, passes)
  }

  /** The first call takes so many passes. */
  ghost predicate Calls(
    t: Tables, stack: seq<Entry>, tokens: seq<Token>, outcomes: seq<Outcome>, end: seq<Entry>, passes: nat)
    requires Shaped(t) && stack != [] && tokens != [] && outcomes != []
    decreases |tokens|, 0
  {
    var m := Run(t, stack, tokens[0], passes);
    m.Stopped? && m.outcome == outcomes[0] && Reports(t, m.stack, tokens[1..], outcomes[1..], end)
  }

  /** For any run of tokens, the engine with fused actions and the textbook machine accept the same values, report the
      same errors and overflows at the same tokens, and end on agreeing stacks. */
  lemma {:induction false} RunsAgree(t: Tables, stack: seq<Entry>, items: seq<Item>, tokens: seq<Token>, moves: nat, n: nat)
    returns (end: seq<Entry>)
    requires Shaped(t) && OnBottom(stack) && Settles(t, stack, moves, items) && items != []
    requires PlainAll(t, items, tokens, moves, n).Some?
    ensures OnBottom(end)
    ensures
      var plain := PlainAll(t, items, tokens, moves, n).value;
      Reports(t, stack, tokens, plain.0, end) && Settles(t, end, moves, plain.1)
    decreases |tokens|
  {
    hide Run, PlainRun, Settles;
    end := stack;
    if tokens != [] {
      var passes := CallAgrees(t, stack, items, tokens[0], moves, n);
      var m, first := Run(t, stack, tokens[0], passes), PlainRun(t, items, tokens[0], moves, n);
      end := RunsAgree(t, m.stack, first.items, tokens[1..], moves, n);
      var outcomes := PlainAll(t, items, tokens, moves, n).value.0;
      assert outcomes[1..] == PlainAll(t, first.items, tokens[1..], moves, n).value.0;
      assert Calls(t, stack, tokens, outcomes, end, passes);
    }
  }
}
