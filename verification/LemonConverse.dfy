/** The other direction of LemonFused: whatever the engine does with its fused actions, the textbook machine does too.
    It needs tables whose actions are of the defined kinds and whose fused actions name no empty rule. */
module LemonConverse {
  import opened Options
  import opened LemonTables
  import opened LemonMachine
  import opened LemonFused

  // ----- what the table generator promises of the actions

  predicate IsRule(t: Tables, rule: nat) {
    rule < |t.ruleLhs| == |t.ruleNRhs|
  }

  /** A fused action consumes the symbol it was found under. */
  predicate Fusable(t: Tables, rule: nat) {
    IsRule(t, rule) && t.ruleNRhs[rule] != 0
  }

  predicate RegularAction(t: Tables, act: nat) {
    || act <= YY_MAX_SHIFT
    || (YY_MIN_SHIFTREDUCE <= act <= YY_MAX_SHIFTREDUCE && Fusable(t, act - YY_MIN_SHIFTREDUCE))
    || act == YY_ERROR_ACTION
    || (act >= YY_MIN_REDUCE && IsRule(t, act - YY_MIN_REDUCE))
  }

  /** Also what the state number of an entry may be. */
  predicate RegularGoto(t: Tables, act: nat) {
    || act <= YY_MAX_SHIFT
    || act == YY_ACCEPT_ACTION
    || (act >= YY_MIN_REDUCE && Fusable(t, act - YY_MIN_REDUCE))
  }

  ghost predicate Regular(t: Tables) {
    && Shaped(t)
    && (forall s, x :: 0 <= s < YYNSTATE && 0 <= x < YYNTOKEN && RowEntry(t, t.shiftOfst[s], x).Some? ==>
          RegularAction(t, RowEntry(t, t.shiftOfst[s], x).value))
    && (forall s :: 0 <= s < YYNSTATE ==> RegularAction(t, t.defaultAction[s]))
    && (forall s, r :: 0 <= s < YYNSTATE && 0 <= r < |t.ruleLhs| && GotoAction(t, s, t.ruleLhs[r]).Some? ==>
          RegularGoto(t, GotoAction(t, s, t.ruleLhs[r]).value))
  }

  predicate Neat(t: Tables, stack: seq<Entry>)
    requires stack != []
  {
    RegularGoto(t, stack[|stack| - 1].stateno)
  }

  lemma {:induction false} ChoiceIsRegular(t: Tables, state: nat, token: Terminal)
    requires Regular(t) && state <= YY_MAX_SHIFT
    ensures RegularAction(t, Choose(t, state, token).act)
  {
    hide RegularAction, RegularGoto, Choose, Shaped;
    ChoiceIsLegal(t, state, token);
  }

  lemma {:induction false} GotoIsRegular(t: Tables, state: nat, rule: nat)
    requires Regular(t) && rule < |t.ruleLhs| && GotoAction(t, state, t.ruleLhs[rule]).Some?
    ensures RegularGoto(t, GotoAction(t, state, t.ruleLhs[rule]).value)
  {
    hide RegularAction, RegularGoto;
    assert state < |t.reduceOfst| <= YYNSTATE;
  }

  // ----- more moves change nothing

  lemma {:induction false} GotoIsStable(t: Tables, items: seq<Item>, node: Tree, lhs: nat, moves: nat, more: nat)
    requires Shaped(t) && items != [] && moves <= more && !Goto(t, items, node, lhs, moves).Unfinished?
    ensures Goto(t, items, node, lhs, more) == Goto(t, items, node, lhs, moves)
    decreases moves, 1
  {
    hide GotoAction;
    var goto := GotoAction(t, items[|items| - 1].state, lhs);
    if goto.Some? && goto.value >= YY_MIN_REDUCE {
      CompleteIsStable(t, items, node, goto.value - YY_MIN_REDUCE, moves, more);
    }
  }

  lemma {:induction false} CompleteIsStable(t: Tables, items: seq<Item>, last: Tree, rule: nat, moves: nat, more: nat)
    requires Shaped(t) && items != [] && moves <= more && !Complete(t, items, last, rule, moves).Unfinished?
    ensures Complete(t, items, last, rule, more) == Complete(t, items, last, rule, moves)
    decreases moves, 0
  {
    if rule < |t.ruleLhs| && t.ruleNRhs[rule] != 0 && -t.ruleNRhs[rule] <= |items| {
      var below := |items| + t.ruleNRhs[rule] + 1;
      GotoIsStable(t, items[..below], Node(rule, Trees(items[below..]) + [last]), t.ruleLhs[rule], moves - 1, more - 1);
    }
  }

  lemma {:induction false} StepIsStable(t: Tables, items: seq<Item>, token: Token, moves: nat, more: nat)
    requires Shaped(t) && items != [] && moves <= more && !PlainStep(t, items, token, moves).Unfinished?
    ensures PlainStep(t, items, token, more) == PlainStep(t, items, token, moves)
  {
    hide Choose, Complete, Goto;
    var state := items[|items| - 1].state;
    if state <= YY_MAX_SHIFT {
      var act := Choose(t, state, token.major).act;
      if YY_MIN_SHIFTREDUCE <= act <= YY_MAX_SHIFTREDUCE && |items| < YYSTACKDEPTH {
        CompleteIsStable(t, items, Leaf(token), act - YY_MIN_SHIFTREDUCE, moves, more);
      } else if act >= YY_MIN_REDUCE {
        PlainReduceIsStable(t, items, act - YY_MIN_REDUCE, moves, more);
      }
    }
  }

  lemma {:induction false} PlainReduceIsStable(t: Tables, items: seq<Item>, rule: nat, moves: nat, more: nat)
    requires Shaped(t) && items != [] && moves <= more && !PlainReduce(t, items, rule, moves).Unfinished?
    ensures PlainReduce(t, items, rule, more) == PlainReduce(t, items, rule, moves)
  {
    hide Goto;
    if rule < |t.ruleLhs| && -t.ruleNRhs[rule] < |items| {
      var below := |items| + t.ruleNRhs[rule];
      if !(t.ruleNRhs[rule] == 0 && |items| >= YYSTACKDEPTH) {
        GotoIsStable(t, items[..below], Node(rule, Trees(items[below..])), t.ruleLhs[rule], moves, more);
      }
    }
  }

  lemma {:induction false} PlainRunIsStable(t: Tables, items: seq<Item>, token: Token, moves: nat, more: nat, n: nat, longer: nat)
    requires Shaped(t) && items != [] && moves <= more && n <= longer && PlainRun(t, items, token, moves, n).Ended?
    ensures PlainRun(t, items, token, more, longer) == PlainRun(t, items, token, moves, n)
    decreases n
  {
    hide PlainStep;
    StepIsStable(t, items, token, moves, more);
    var step := PlainStep(t, items, token, moves);
    if step.Going? && step.items != [] {
      PlainRunIsStable(t, step.items, token, moves, more, n - 1, longer - 1);
    }
  }

  lemma {:induction false} SettlesIsStable(t: Tables, stack: seq<Entry>, items: seq<Item>, moves: nat, more: nat)
    requires Shaped(t) && stack != [] && moves <= more && Settles(t, stack, moves, items)
    ensures Settles(t, stack, more, items)
  {
    hide Complete, Strip;
    if Pending(stack) && |stack| >= 2 {
      CompleteIsStable(t, Strip(stack[..|stack| - 1]), stack[|stack| - 1].minor,
                       stack[|stack| - 1].stateno - YY_MIN_REDUCE, moves, more);
    }
  }

  // ----- a pass of the engine

  /** What a pass that goes on leaves: an entry with a regular state on top of the rest. */
  ghost predicate Reduces(t: Tables, stack: seq<Entry>, rule: nat, next: seq<Entry>)
    requires Shaped(t)
  {
    && rule < |t.ruleLhs| && -t.ruleNRhs[rule] < |stack|
    && var rest := stack[..|stack| + t.ruleNRhs[rule]];
       var node := Node(rule, Minors(stack[|stack| + t.ruleNRhs[rule]..]));
       var goto := GotoAction(t, rest[|rest| - 1].stateno, t.ruleLhs[rule]);
       && goto.Some? && RegularGoto(t, goto.value)
       && next == rest + [Entry(goto.value, t.ruleLhs[rule], node)]
  }

  lemma {:induction false} ReduceReduces(t: Tables, stack: seq<Entry>, rule: nat)
    requires Regular(t) && stack != [] && Reduce(t, stack, rule).Running?
    ensures Reduces(t, stack, rule, Reduce(t, stack, rule).stack) && Neat(t, Reduce(t, stack, rule).stack)
  {
    hide Regular, RegularGoto, GotoAction, Minors;
    RegularIsShaped(t);
    GotoIsRegular(t, stack[|stack| + t.ruleNRhs[rule] - 1].stateno, rule);
  }

  lemma {:induction false} RegularIsShaped(t: Tables)
    requires Regular(t)
    ensures Shaped(t)
  {
    hide RegularAction, RegularGoto;
  }

  /** The goto after a reduction settles as the new stack does. */
  lemma {:induction false} GotoGoes(t: Tables, rest: seq<Entry>, node: Tree, lhs: nat, e: Entry, moves: nat, items: seq<Item>)
    requires Shaped(t) && rest != [] && GotoAction(t, rest[|rest| - 1].stateno, lhs) == Some(e.stateno)
    requires e.minor == node && RegularGoto(t, e.stateno) && Settles(t, rest + [e], moves, items)
    ensures Goto(t, Strip(rest), node, lhs, moves) == Going(items)
  {
    hide Complete, GotoAction;
    var stack := rest + [e];
    assert stack[..|stack| - 1] == rest && stack[|stack| - 1] == e;
    assert Strip(stack) == Strip(rest) + [Item(e.stateno, node)];
  }

  /** A reduction of a settled stack is a reduction of the textbook machine. */
  lemma {:induction false} PlainReduces(t: Tables, stack: seq<Entry>, rule: nat, next: seq<Entry>, moves: nat, items: seq<Item>)
    requires Shaped(t) && stack != [] && Reduces(t, stack, rule, next) && Settles(t, next, moves, items)
    requires !(t.ruleNRhs[rule] == 0 && |stack| >= YYSTACKDEPTH)
    ensures PlainReduce(t, Strip(stack), rule, moves) == Going(items)
  {
    hide Goto, Settles, GotoAction, RegularGoto;
    var below := |stack| + t.ruleNRhs[rule];
    var rest := stack[..below];
    assert Strip(stack)[..below] == Strip(rest);
    assert Trees(Strip(stack)[below..]) == Minors(stack[below..]);
    GotoGoes(t, rest, next[|next| - 1].minor, t.ruleLhs[rule], next[|next| - 1], moves, items);
  }

  /** A pending reduction of the engine is a completion of the textbook machine. */
  lemma {:induction false} PlainCompletes(t: Tables, stack: seq<Entry>, rule: nat, next: seq<Entry>, moves: nat, items: seq<Item>)
    requires Shaped(t) && |stack| >= 2 && Pending(stack) && stack[|stack| - 1].stateno == YY_MIN_REDUCE + rule
    requires Reduces(t, stack, rule, next) && t.ruleNRhs[rule] != 0 && Settles(t, next, moves, items)
    ensures Settles(t, stack, moves + 1, items)
  {
    hide Goto, GotoAction, RegularGoto;
    var front, top := stack[..|stack| - 1], stack[|stack| - 1];
    var below := |stack| + t.ruleNRhs[rule];
    var rest := stack[..below];
    assert Strip(front)[..below] == Strip(rest);
    assert Trees(Strip(front)[below..]) + [top.minor] == Minors(stack[below..]);
    GotoGoes(t, rest, next[|next| - 1].minor, t.ruleLhs[rule], next[|next| - 1], moves, items);
  }

  /** What the pass does with a pending reduction. */
  lemma {:induction false} PendingReduces(t: Tables, stack: seq<Entry>, token: Token)
    requires Regular(t) && OnBottom(stack) && Neat(t, stack) && Pending(stack)
    requires MicroStep(t, stack, token).Running? || MicroStep(t, stack, token).outcome != Broken
    ensures |stack| >= 2 && MicroStep(t, stack, token).Running? && Neat(t, MicroStep(t, stack, token).stack)
    ensures
      var rule := stack[|stack| - 1].stateno - YY_MIN_REDUCE;
      rule < |t.ruleNRhs| && t.ruleNRhs[rule] != 0 && Reduces(t, stack, rule, MicroStep(t, stack, token).stack)
  {
    hide Regular, Reduces, GotoAction, Minors, Reversed;
    RegularIsShaped(t);
    var rule := stack[|stack| - 1].stateno - YY_MIN_REDUCE;
    assert MicroStep(t, stack, token) == Reduce(t, stack, rule);
    ReduceReduces(t, stack, rule);
  }

  // ----- a call

  /** Before a call that ends, the engine's stack settles. */
  lemma {:induction false} StoppedSettles(t: Tables, stack: seq<Entry>, token: Token, n: nat) returns (moves: nat, items: seq<Item>)
    requires Regular(t) && OnBottom(stack) && Neat(t, stack)
    requires Run(t, stack, token, n).Stopped? && Run(t, stack, token, n).outcome != Broken
    ensures Settles(t, stack, moves, items)
    decreases n
  {
    hide Regular, MicroStep, Neat, Reduces;
    RegularIsShaped(t);
    if !Pending(stack) {
      moves, items := 0, Strip(stack);
    } else {
      RunUnfolds(t, stack, token, n);
      PendingReduces(t, stack, token);
      BottomStays(t, stack, token);
      var next := MicroStep(t, stack, token).stack;
      moves, items := StoppedSettles(t, next, token, n - 1);
      PlainCompletes(t, stack, stack[|stack| - 1].stateno - YY_MIN_REDUCE, next, moves, items);
      moves := moves + 1;
    }
  }

  /** A pass from a settled stack that goes on is a move of the textbook machine. */
  lemma {:induction false} PassIsMove(t: Tables, stack: seq<Entry>, token: Token, moves: nat, items: seq<Item>)
    requires Regular(t) && OnBottom(stack) && Neat(t, stack) && !Pending(stack) && MicroStep(t, stack, token).Running?
    requires Settles(t, MicroStep(t, stack, token).stack, moves, items)
    ensures PlainStep(t, Strip(stack), token, moves) == Going(items) && Neat(t, MicroStep(t, stack, token).stack)
  {
    hide Regular, Settles, Choose, Reduces, GotoAction, Minors, PlainReduce;
    RegularIsShaped(t);
    var state := stack[|stack| - 1].stateno;
    assert state <= YY_MAX_SHIFT;
    var act := Choose(t, state, token.major).act;
    assert MicroStep(t, stack, token) == Reduce(t, stack, act - YY_MIN_REDUCE);
    ReduceReduces(t, stack, act - YY_MIN_REDUCE);
    PlainReduces(t, stack, act - YY_MIN_REDUCE, MicroStep(t, stack, token).stack, moves, items);
  }

  /** A pass from a settled stack that ends the call ends the run of the textbook machine in the same way. */
  lemma {:induction false} LastPassIsMove(t: Tables, stack: seq<Entry>, token: Token, moves: nat, items: seq<Item>)
    requires Regular(t) && OnBottom(stack) && Neat(t, stack) && !Pending(stack)
    requires MicroStep(t, stack, token).Stopped? && MicroStep(t, stack, token).outcome != Broken
    requires Settles(t, MicroStep(t, stack, token).stack, moves, items)
    ensures PlainStep(t, Strip(stack), token, moves) == Ended(items, MicroStep(t, stack, token).outcome)
    ensures Neat(t, MicroStep(t, stack, token).stack)
  {
    hide Regular, Complete, Choose, GotoAction, Minors, Reversed, Reduce, Fusable, Goto;
    RegularIsShaped(t);
    var state := stack[|stack| - 1].stateno;
    var m := MicroStep(t, stack, token);
    if state <= YY_MAX_SHIFT {
      ChoiceIsRegular(t, state, token.major);
      var act := Choose(t, state, token.major).act;
      if act >= YY_MIN_REDUCE {
        OverflowIsMove(t, stack, act - YY_MIN_REDUCE, moves, items);
      } else if act <= YY_MAX_SHIFTREDUCE {
        ShiftIsMove(t, stack, act, token, moves, items);
      }
    } else {
      assert Strip([stack[0]]) == [Strip(stack)[0]];
    }
  }

  /** The only reduction that ends a call: an empty rule on a full stack. */
  lemma {:induction false} OverflowIsMove(t: Tables, stack: seq<Entry>, rule: nat, moves: nat, items: seq<Item>)
    requires Shaped(t) && OnBottom(stack) && Reduce(t, stack, rule).Stopped? && Reduce(t, stack, rule).outcome != Broken
    requires Settles(t, Reduce(t, stack, rule).stack, moves, items)
    ensures PlainReduce(t, Strip(stack), rule, moves) == Ended(items, Reduce(t, stack, rule).outcome)
    ensures Neat(t, Reduce(t, stack, rule).stack)
  {
    hide Complete, GotoAction, Minors, Reversed, Goto;
    assert Strip([stack[0]]) == [Strip(stack)[0]];
  }

  lemma {:induction false} ShiftIsMove(t: Tables, stack: seq<Entry>, act: nat, token: Token, moves: nat, items: seq<Item>)
    requires Shaped(t) && OnBottom(stack) && RegularAction(t, act) && act <= YY_MAX_SHIFTREDUCE
    requires Settles(t, Shift(stack, act, token).stack, moves, items)
    ensures PlainPerform(t, Strip(stack), act, token, moves) == Ended(items, Shift(stack, act, token).outcome)
    ensures Neat(t, Shift(stack, act, token).stack)
  {
    hide Complete, Minors, Reversed, PlainReduce;
    var m := Shift(stack, act, token);
    if |stack| >= YYSTACKDEPTH {
      assert Strip([stack[0]]) == [Strip(stack)[0]];
    } else {
      assert m.stack[..|m.stack| - 1] == stack;
      assert Strip(m.stack) == Strip(stack) + [Item(m.stack[|stack|].stateno, Leaf(token))];
    }
  }

  function Max(a: nat, b: nat): nat {
    if a >= b then a else b
  }

  /** If a call of the engine ends, on a stack that settles, the textbook machine ends in the same way on that. */
  lemma {:induction false} CallIsRun(
    t: Tables, stack: seq<Entry>, items: seq<Item>, token: Token, n: nat, before: nat, after: nat, settled: seq<Item>)
    returns (moves: nat, k: nat)
    requires Regular(t) && OnBottom(stack) && Neat(t, stack) && Settles(t, stack, before, items) && items != []
    requires Run(t, stack, token, n).Stopped? && Run(t, stack, token, n).outcome != Broken
    requires Settles(t, Run(t, stack, token, n).stack, after, settled)
    ensures PlainRun(t, items, token, moves, k) == Ended(settled, Run(t, stack, token, n).outcome)
    ensures OnBottom(Run(t, stack, token, n).stack) && Neat(t, Run(t, stack, token, n).stack)
    decreases n
  {
    hide Regular, MicroStep, Neat, Settles, PlainStep, Run, Strip;
    RegularIsShaped(t);
    RunUnfolds(t, stack, token, n);
    BottomStays(t, stack, token);
    var m := MicroStep(t, stack, token);
    if Pending(stack) {
      PendingReduces(t, stack, token);
      PendingStep(t, stack, token, before, items);
      moves, k := CallIsRun(t, m.stack, items, token, n - 1, before - 1, after, settled);
    } else {
      SettledIsStrip(t, stack, before, items);
      if m.Stopped? {
        LastPassIsMove(t, stack, token, after, settled);
        moves, k := after, 1;
      } else {
        var mv, next := SettlesNext(t, stack, token, n);
        PassIsMove(t, stack, token, mv, next);
        moves, k := CallIsRun(t, m.stack, next, token, n - 1, mv, after, settled);
        StepIsStable(t, items, token, mv, Max(mv, moves));
        PlainRunIsStable(t, next, token, moves, Max(mv, moves), k, k);
        moves, k := Max(mv, moves), k + 1;
      }
    }
  }

  lemma {:induction false} SettledIsStrip(t: Tables, stack: seq<Entry>, moves: nat, items: seq<Item>)
    requires Shaped(t) && stack != [] && !Pending(stack) && Settles(t, stack, moves, items)
    ensures items == Strip(stack)
  {
  }

  /** After a pass that goes on, the new stack settles, since the call ends. */
  lemma {:induction false} SettlesNext(t: Tables, stack: seq<Entry>, token: Token, n: nat) returns (moves: nat, items: seq<Item>)
    requires Regular(t) && OnBottom(stack) && Neat(t, stack) && !Pending(stack)
    requires Run(t, stack, token, n).Stopped? && Run(t, stack, token, n).outcome != Broken
    requires MicroStep(t, stack, token).Running?
    ensures Settles(t, MicroStep(t, stack, token).stack, moves, items) && items != []
  {
    hide Regular, MicroStep, Settles;
    RegularIsShaped(t);
    RunUnfolds(t, stack, token, n);
    BottomStays(t, stack, token);
    NextIsNeat(t, stack, token);
    moves, items := StoppedSettles(t, MicroStep(t, stack, token).stack, token, n - 1);
    SettledIsNonempty(t, MicroStep(t, stack, token).stack, moves, items);
  }

  lemma {:induction false} NextIsNeat(t: Tables, stack: seq<Entry>, token: Token)
    requires Regular(t) && stack != [] && Neat(t, stack) && MicroStep(t, stack, token).Running?
    ensures Neat(t, MicroStep(t, stack, token).stack)
  {
    hide Regular, RegularGoto, ShiftAction, Reduces;
    RegularIsShaped(t);
    ReduceReduces(t, stack, ShiftAction(t, stack[|stack| - 1].stateno, token.major) - YY_MIN_REDUCE);
  }

  lemma {:induction false} SettledIsNonempty(t: Tables, stack: seq<Entry>, moves: nat, items: seq<Item>)
    requires Shaped(t) && stack != [] && Settles(t, stack, moves, items)
    ensures items != []
  {
    hide Goto, GotoAction;
    if Pending(stack) && |stack| >= 2 {
      CompletedIsNonempty(t, Strip(stack[..|stack| - 1]), stack[|stack| - 1].minor,
                          stack[|stack| - 1].stateno - YY_MIN_REDUCE, moves);
    }
  }

  lemma {:induction false} CompletedIsNonempty(t: Tables, items: seq<Item>, last: Tree, rule: nat, moves: nat)
    requires Shaped(t) && items != [] && Complete(t, items, last, rule, moves).Going?
    ensures Complete(t, items, last, rule, moves).items != []
    decreases moves
  {
    var below := |items| + t.ruleNRhs[rule] + 1;
    var goto := GotoAction(t, items[..below][below - 1].state, t.ruleLhs[rule]);
    var node := Node(rule, Trees(items[below..]) + [last]);
    if goto.Some? && goto.value >= YY_MIN_REDUCE {
      CompletedIsNonempty(t, items[..below], node, goto.value - YY_MIN_REDUCE, moves - 1);
    }
  }

  // ----- whole runs

  lemma {:induction false} PlainAllIsStable(t: Tables, items: seq<Item>, tokens: seq<Token>, moves: nat, more: nat, n: nat, longer: nat)
    requires Shaped(t) && items != [] && moves <= more && n <= longer && PlainAll(t, items, tokens, moves, n).Some?
    ensures PlainAll(t, items, tokens, more, longer) == PlainAll(t, items, tokens, moves, n)
    decreases |tokens|
  {
    hide PlainRun;
    if tokens != [] {
      PlainRunIsStable(t, items, tokens[0], moves, more, n, longer);
      PlainAllIsStable(t, PlainRun(t, items, tokens[0], moves, n).items, tokens[1..], moves, more, n, longer);
    }
  }

  /** One token more in front. */
  lemma {:induction false} PlainAllMore(
    t: Tables, items: seq<Item>, mid: seq<Item>, tokens: seq<Token>, outcome: Outcome,
    moves: nat, k: nat, more: nat, n: nat) returns (m: nat, l: nat)
    requires Shaped(t) && items != [] && mid != [] && tokens != [] && outcome != Broken
    requires PlainRun(t, items, tokens[0], moves, k) == Ended(mid, outcome)
    requires PlainAll(t, mid, tokens[1..], more, n).Some?
    ensures
      var rest := PlainAll(t, mid, tokens[1..], more, n).value;
      PlainAll(t, items, tokens, m, l) == Some(([outcome] + rest.0, rest.1))
  {
    hide PlainRun;
    m, l := Max(moves, more), Max(k, n);
    PlainRunIsStable(t, items, tokens[0], moves, m, k, l);
    PlainAllIsStable(t, mid, tokens[1..], more, m, n, l);
  }

  /** For any run of tokens: if the calls of the engine end in these ways without a failed assert, and its last stack
      settles, then the textbook machine ends its calls in the same ways and with that stack. */
  lemma {:induction false} EngineIsPlain(
    t: Tables, stack: seq<Entry>, items: seq<Item>, before: nat, tokens: seq<Token>, outcomes: seq<Outcome>,
    end: seq<Entry>, settled: seq<Item>, after: nat)
    returns (moves: nat, n: nat)
    requires Regular(t) && OnBottom(stack) && Neat(t, stack) && Settles(t, stack, before, items) && items != []
    requires Reports(t, stack, tokens, outcomes, end) && Broken !in outcomes
    requires end != [] && Settles(t, end, after, settled)
    ensures PlainAll(t, items, tokens, moves, n) == Some((outcomes, settled))
    decreases |tokens|
  {
    hide Regular, Run, PlainRun, Settles, Neat;
    RegularIsShaped(t);
    moves, n := 0, 0;
    if tokens == [] {
      SettlesOnce(t, stack, before, items, after, settled);
    } else {
      var passes: nat :| Calls(t, stack, tokens, outcomes, end, passes);
      var m := Run(t, stack, tokens[0], passes);
      assert outcomes[0] in outcomes && forall o :: o in outcomes[1..] ==> o in outcomes;
      CallIsNeat(t, stack, tokens[0], passes);
      var mv, mid := NextSettles(t, m.stack, tokens[1..], outcomes[1..], end, after, settled);
      SettledIsNonempty(t, m.stack, mv, mid);
      var a, k := CallIsRun(t, stack, items, tokens[0], passes, before, mv, mid);
      var b, l := EngineIsPlain(t, m.stack, mid, mv, tokens[1..], outcomes[1..], end, settled, after);
      moves, n := PlainAllMore(t, items, mid, tokens, outcomes[0], a, k, b, l);
      assert [outcomes[0]] + outcomes[1..] == outcomes;
    }
  }

  lemma {:induction false} SettlesOnce(t: Tables, stack: seq<Entry>, a: nat, items: seq<Item>, b: nat, others: seq<Item>)
    requires Shaped(t) && stack != [] && Settles(t, stack, a, items) && Settles(t, stack, b, others)
    ensures items == others
  {
    hide Complete, Strip;
    SettlesIsStable(t, stack, items, a, Max(a, b));
    SettlesIsStable(t, stack, others, b, Max(a, b));
  }

  lemma {:induction false} CallIsNeat(t: Tables, stack: seq<Entry>, token: Token, n: nat)
    requires Regular(t) && OnBottom(stack) && Neat(t, stack)
    requires Run(t, stack, token, n).Stopped? && Run(t, stack, token, n).outcome != Broken
    ensures OnBottom(Run(t, stack, token, n).stack) && Neat(t, Run(t, stack, token, n).stack)
    decreases n
  {
    hide Regular, MicroStep, Neat, Run;
    RegularIsShaped(t);
    RunUnfolds(t, stack, token, n);
    BottomStays(t, stack, token);
    var m := MicroStep(t, stack, token);
    if m.Running? {
      NextIsNeat(t, stack, token);
      CallIsNeat(t, m.stack, token, n - 1);
    } else {
      StopIsNeat(t, stack, token);
    }
  }

  lemma {:induction false} StopIsNeat(t: Tables, stack: seq<Entry>, token: Token)
    requires Regular(t) && OnBottom(stack) && Neat(t, stack)
    requires MicroStep(t, stack, token).Stopped? && MicroStep(t, stack, token).outcome != Broken
    ensures Neat(t, MicroStep(t, stack, token).stack)
  {
    hide Regular, Choose, GotoAction, Minors, Reversed, Fusable;
    RegularIsShaped(t);
    var state := stack[|stack| - 1].stateno;
    if state <= YY_MAX_SHIFT {
      ChoiceIsRegular(t, state, token.major);
    }
  }

  /** Between two calls that end, and after the last one, the stack settles. */
  lemma {:induction false} NextSettles(
    t: Tables, stack: seq<Entry>, tokens: seq<Token>, outcomes: seq<Outcome>, end: seq<Entry>, after: nat, settled: seq<Item>)
    returns (moves: nat, items: seq<Item>)
    requires Regular(t) && OnBottom(stack) && Neat(t, stack)
    requires Reports(t, stack, tokens, outcomes, end) && Broken !in outcomes
    requires end != [] && Settles(t, end, after, settled)
    ensures Settles(t, stack, moves, items) && (tokens == [] ==> moves == after && items == settled)
  {
    hide Regular, Run, Settles, Neat;
    RegularIsShaped(t);
    if tokens == [] {
      moves, items := after, settled;
    } else {
      var passes: nat :| Calls(t, stack, tokens, outcomes, end, passes);
      assert outcomes[0] in outcomes;
      moves, items := StoppedSettles(t, stack, tokens[0], passes);
    }
  }

  /** Both directions, from a fresh parser: with regular tables the engine gets through the tokens with certain outcomes
      and a last stack that settles, if and only if the textbook machine does. */
  lemma {:induction false} FusedIsFaithful(t: Tables, tokens: seq<Token>, outcomes: seq<Outcome>, settled: seq<Item>)
    requires Regular(t) && Broken !in outcomes
    ensures
      (exists end: seq<Entry>, after: nat :: EngineDoes(t, tokens, outcomes, end, after, settled))
      <==> (exists moves: nat, n: nat :: PlainDoes(t, tokens, outcomes, moves, n, settled))
  {
    hide Regular, Reports, Settles, PlainAll;
    RegularIsShaped(t);
    FreshSettles(t);
    if end: seq<Entry>, after: nat :| EngineDoes(t, tokens, outcomes, end, after, settled) {
      var moves, n := EngineIsPlain(t, [Bottom], Strip([Bottom]), 0, tokens, outcomes, end, settled, after);
      assert PlainDoes(t, tokens, outcomes, moves, n, settled);
    }
    if moves: nat, n: nat :| PlainDoes(t, tokens, outcomes, moves, n, settled) {
      FreshSettlesLater(t, moves);
      var end := RunsAgree(t, [Bottom], Strip([Bottom]), tokens, moves, n);
      assert EngineDoes(t, tokens, outcomes, end, moves, settled);
    }
  }

  ghost predicate EngineDoes(
    t: Tables, tokens: seq<Token>, outcomes: seq<Outcome>, end: seq<Entry>, after: nat, settled: seq<Item>)
    requires Shaped(t)
  {
    Reports(t, [Bottom], tokens, outcomes, end) && end != [] && Settles(t, end, after, settled)
  }

  ghost predicate PlainDoes(t: Tables, tokens: seq<Token>, outcomes: seq<Outcome>, moves: nat, n: nat, settled: seq<Item>)
    requires Shaped(t)
  {
    PlainAll(t, Strip([Bottom]), tokens, moves, n) == Some((outcomes, settled))
  }

  lemma {:induction false} FreshSettles(t: Tables)
    requires Shaped(t)
    ensures OnBottom([Bottom]) && Neat(t, [Bottom]) && Settles(t, [Bottom], 0, Strip([Bottom])) && Strip([Bottom]) != []
  {
  }

  lemma {:induction false} FreshSettlesLater(t: Tables, moves: nat)
    requires Shaped(t)
    ensures OnBottom([Bottom]) && Settles(t, [Bottom], moves, Strip([Bottom])) && Strip([Bottom]) != []
  {
  }
}
