/** The validity test of LemonSoundness can be met: tables for a grammar with a choice of terminals, an empty rule, a
    folded unit rule, a token d that falls back to c, and a wildcard; and all its runs of two tokens.

        S -> (a or b) T      T -> U, folded      U -> c      U -> (nothing)      I -> S      U -> (any) */
module LemonExample {
  import opened Options
  import opened LemonTables
  import opened LemonMachine
  import opened LemonSoundness
  import LemonConverse

  const A: nat := 1
  const B: nat := 2
  const C: nat := 3
  const D: nat := 4
  const S: nat := 200
  const T: nat := 201
  const U: nat := 202
  const I: nat := 203

  /** One array of actions: state 0 has its tokens at 0 and its gotos at 30, state 1 at 10 and 35, state 2 at 20. The
      wildcard of state 1 is at 101. */
  function Action(i: int): nat {
    if i == A || i == B then 1
    else if i == 10 + C then YY_MIN_SHIFTREDUCE + 2
    else if i == 20 then YY_MIN_REDUCE + 4
    else if i == 30 then 2
    else if i == 33 then YY_ACCEPT_ACTION
    else if i == 35 then YY_MIN_REDUCE
    else if i == 101 then YY_MIN_SHIFTREDUCE + 5
    else 0
  }

  function Lookahead(i: int): nat {
    if i == A || i == B then i
    else if i == 10 + C then C
    else if i == 20 then END
    else if i == 30 then S
    else if i == 33 then I
    else if i == 35 then U
    else if i == 101 then YYWILDCARD
    else YYNOCODE
  }

  function Actions(): (s: seq<nat>)
    ensures |s| == 102 && forall i :: 0 <= i < 102 ==> s[i] == Action(i)
  {
    seq(102, i => Action(i))
  }

  function Lookaheads(): (s: seq<nat>)
    ensures |s| == 102 && forall i :: 0 <= i < 102 ==> s[i] == Lookahead(i)
  {
    seq(102, i => Lookahead(i))
  }

  function Offsets(): (s: seq<nat>)
    ensures |s| == YYNSTATE
    ensures forall i :: 0 <= i < YYNSTATE ==> s[i] == if i == 0 then 0 else if i == 1 then 10 else if i == 2 then 20 else 1000
  {
    seq(YYNSTATE, i => if i == 0 then 0 else if i == 1 then 10 else if i == 2 then 20 else 1000)
  }

  /** State 1 reduces by the empty rule at the end of the input; everything else is an error by default. */
  function Defaults(): (s: seq<nat>)
    ensures |s| == YYNSTATE
    ensures forall i :: 0 <= i < YYNSTATE ==> s[i] == if i == 1 then YY_MIN_REDUCE + 3 else YY_ERROR_ACTION
  {
    seq(YYNSTATE, i => if i == 1 then YY_MIN_REDUCE + 3 else YY_ERROR_ACTION)
  }

  function SmallTables(): Tables {
    Tables(
      Actions(), Lookaheads(), Offsets(), [30 - S, 35 - U], Defaults(), [0, 0, 0, 0, C],
      [S, T, U, U, I, U], [-2, -1, -1, 0, -1, -1])
  }

  function Known(): (s: seq<seq<Below>>)
    ensures |s| == YYNSTATE && s[0] == []
    ensures forall i :: 0 <= i < YYNSTATE ==>
              s[i] == if i == 1 then [Below({A, B}, {0})] else if i == 2 then [Below({S}, {0})] else []
  {
    seq(YYNSTATE, i => if i == 1 then [Below({A, B}, {0})] else if i == 2 then [Below({S}, {0})] else [])
  }

  function SmallGrammar(): Grammar {
    Grammar(
      [[{A, B}, {T}], [{U}], [{C}], [], [{S}], [{YYWILDCARD}]], {1}, I, Known(), {(0, S), (0, I), (1, U)},
      map[1 := 4, 2 := 1, YY_MIN_REDUCE := 2, YY_MIN_REDUCE + 2 := 3, YY_MIN_REDUCE + 5 := 3])
  }

  lemma {:induction false} SmallIsShaped()
    ensures Shaped(SmallTables())
  {
    hide Actions, Lookaheads, Offsets, Defaults;
  }

  /** T stands as U by the folded rule, and every symbol as itself. */
  lemma {:induction false} SmallAdmits(x: nat)
    ensures Admits(SmallTables(), SmallGrammar(), {T}, U) && Admits(SmallTables(), SmallGrammar(), {x}, x)
    ensures forall choice: set<nat> :: x in choice ==> Admits(SmallTables(), SmallGrammar(), choice, x)
  {
    hide Actions, Lookaheads, Offsets, Defaults, Known;
    var t, g := SmallTables(), SmallGrammar();
    assert IsUnit(t, g, 1, T, U);
    assert UnitStep(t, g, T, U);
    assert Units(t, g, U, U, 0);
    assert Units(t, g, T, U, 1);
    assert StandsAs(t, g, T, U);
    assert Units(t, g, x, x, 0);
    assert StandsAs(t, g, x, x);
    forall choice: set<nat> | x in choice ensures Admits(t, g, choice, x) {
      assert x in choice && StandsAs(t, g, x, x);
    }
  }

  lemma {:induction false} SmallGotos()
    ensures Shaped(SmallTables())
    ensures GotoAction(SmallTables(), 0, S) == Some(2) && GotoAction(SmallTables(), 0, I) == Some(YY_ACCEPT_ACTION)
    ensures GotoAction(SmallTables(), 1, U) == Some(YY_MIN_REDUCE)
  {
    hide Actions, Lookaheads, Offsets, Defaults;
    SmallIsShaped();
  }

  /** The six reductions. */
  lemma {:induction false} SmallRulesFit()
    ensures
      var t, g := SmallTables(), SmallGrammar();
      && Shaped(t) && FusedFits(t, g, 1, C, 2) && FusedFits(t, g, 1, U, 0) && FusedFits(t, g, 1, YYWILDCARD, 5)
      && ReduceOk(t, g, 1, YY_MIN_REDUCE + 3, false) && ReduceOk(t, g, 2, YY_MIN_REDUCE + 4, true)
  {
    hide Actions, Lookaheads, Offsets, Defaults, Known, Admits, Shaped, GotoAction;
    SmallGotos();
    SmallAdmits(A);
    SmallAdmits(B);
    SmallAdmits(C);
    SmallAdmits(S);
    SmallAdmits(YYWILDCARD);
    var t, g := SmallTables(), SmallGrammar();
    assert AllAdmitted(t, g, {A, B}, {A, B});
    assert AllAdmitted(t, g, {T}, {U});
    assert AllAdmitted(t, g, {C}, {C});
    assert AllAdmitted(t, g, {YYWILDCARD}, {YYWILDCARD});
    assert AllAdmitted(t, g, {S}, {S});
  }

  lemma {:induction false} SmallIsValid()
    ensures Valid(SmallTables(), SmallGrammar()) && RankLimit(SmallGrammar())
  {
    hide Actions, Lookaheads, Offsets, Defaults, Known, Admits, Shaped, GotoAction, RuleFits;
    SmallGotos();
    SmallRulesFit();
    SmallAdmits(I);
    var t, g := SmallTables(), SmallGrammar();
    forall s, x | 0 <= s < YYNSTATE && 0 <= x < YYNTOKEN && RowEntry(t, t.shiftOfst[s], x).Some?
      ensures TokenActionOk(t, g, s, x, RowEntry(t, t.shiftOfst[s], x).value)
    {
      assert s == 0 || s == 1 || s == 2;
    }
    forall s, lhs | (s, lhs) in g.gotos ensures GotoOk(t, g, s, lhs) {
    }
  }

  predicate RankLimit(g: Grammar) {
    forall s :: s in g.rank ==> g.rank[s] <= 4
  }

  /** The actions are also as LemonConverse wants them. */
  lemma {:induction false} SmallIsRegular()
    ensures LemonConverse.Regular(SmallTables())
  {
    hide Actions, Lookaheads, Offsets, Defaults;
    SmallIsShaped();
    hide Shaped;
    var t := SmallTables();
    forall s, r | 0 <= s < YYNSTATE && 0 <= r < |t.ruleLhs| && GotoAction(t, s, t.ruleLhs[r]).Some?
      ensures LemonConverse.RegularGoto(t, GotoAction(t, s, t.ruleLhs[r]).value)
    {
      assert s == 0 || s == 1;
    }
  }

  /** The rule for the second token: c and what falls back to it, or anything else. */
  function SecondRule(x: Token): nat {
    if x.major == C || x.major == D then 2 else 5
  }

  /** What state 1 makes of it, looked up under its own code, that of its fallback, or as the wildcard. */
  lemma {:induction false} SecondAction(x: Token)
    requires x.major != END
    ensures Shaped(SmallTables()) && ShiftAction(SmallTables(), 1, x.major) == YY_MIN_SHIFTREDUCE + SecondRule(x)
  {
    hide Actions, Lookaheads, Offsets, Defaults, ShiftAction;
    SmallIsShaped();
    hide Shaped;
    ActionIsExact(SmallTables(), 1, x.major);
  }

  /** Fed with b, any other token and the end of the input, the engine accepts the tree of the two rules it has reduced by;
      the folded rule is missing in it, and put back by LemonUnfold. */
  lemma {:induction false} SmallAccepts(b: Token, x: Token, last: Token)
    requires b.major == B && x.major != END && last.major == END
    ensures
      var t := SmallTables();
      var inner := Node(SecondRule(x), [Leaf(x)]);
      Shaped(t)
      && var m := Run(t, [Bottom], b, 1);
         m.Stopped? && m.outcome == Shifted
         && var n := Run(t, m.stack, x, 1);
            n.Stopped? && n.outcome == Shifted
            && var o := Run(t, n.stack, last, 4);
               o.Stopped? && o.outcome == Accepted(Node(4, [Node(0, [Leaf(b), inner])]))
  {
    hide Actions, Lookaheads, Offsets, Defaults;
    SmallIsShaped();
    SecondAction(x);
    hide Shaped;
    var t := SmallTables();
    assert ShiftAction(t, 0, b.major) == 1;
    var one := [Bottom] + [Entry(1, B, Leaf(b))];
    assert Run(t, [Bottom], b, 1) == Stopped(one, Shifted, []);
    hide ShiftAction;
    var two := one + [Entry(YY_MIN_REDUCE + SecondRule(x), x.major, Leaf(x))];
    assert Run(t, one, x, 1) == Stopped(two, Shifted, []);
    SmallEnding(b, x, last);
  }

  lemma {:induction false} SmallEnding(b: Token, x: Token, last: Token)
    requires last.major == END
    ensures Shaped(SmallTables())
    ensures
      var stack := [Bottom] + [Entry(1, B, Leaf(b))] + [Entry(YY_MIN_REDUCE + SecondRule(x), x.major, Leaf(x))];
      var o := Run(SmallTables(), stack, last, 4);
      o.Stopped? && o.outcome == Accepted(Node(4, [Node(0, [Leaf(b), Node(SecondRule(x), [Leaf(x)])])]))
  {
    hide Actions, Lookaheads, Offsets, Defaults;
    SmallIsShaped();
    SmallGotos();
    hide Shaped, GotoAction;
    var t := SmallTables();
    var inner := Node(SecondRule(x), [Leaf(x)]);
    var node := Node(0, [Leaf(b), inner]);
    var one := [Bottom] + [Entry(1, B, Leaf(b))];
    var stack := one + [Entry(YY_MIN_REDUCE + SecondRule(x), x.major, Leaf(x))];
    assert stack[..2] == one && stack[2..] == [Entry(YY_MIN_REDUCE + SecondRule(x), x.major, Leaf(x))];
    assert Minors(stack[2..]) == [Leaf(x)];
    var second := one + [Entry(YY_MIN_REDUCE, U, inner)];
    assert MicroStep(t, stack, last) == Running(second);
    assert second[..1] == [Bottom] && second[1..] == [Entry(1, B, Leaf(b)), Entry(YY_MIN_REDUCE, U, inner)];
    assert Minors(second[1..]) == [Leaf(b), inner];
    var third := [Bottom] + [Entry(2, S, node)];
    assert MicroStep(t, second, last) == Running(third);
    assert ShiftAction(t, 2, last.major) == YY_MIN_REDUCE + 4;
    assert third[..1] == [Bottom] && third[1..] == [Entry(2, S, node)];
    assert Minors(third[1..]) == [node];
    var fourth := [Bottom] + [Entry(YY_ACCEPT_ACTION, I, Node(4, [node]))];
    assert MicroStep(t, third, last) == Running(fourth);
    assert MicroStep(t, fourth, last).outcome == Accepted(Node(4, [node]));
    assert Run(t, third, last, 2) == MicroStep(t, fourth, last);
    assert Run(t, second, last, 3) == Run(t, third, last, 2);
  }
}
