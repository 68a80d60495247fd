/** The Lemon engine as it is written: an array of fixed depth, a top-of-stack index and the driver loop, each
    method proved against the machine on values. */
module LemonParser {
  import opened Options
  import opened LemonTables
  import opened LemonMachine
  import LemonSoundness

  class Parser {
    const tables: Tables
    const yystack: array<Entry>
    var yytos: nat
    /** The values passed to yy_destructor so far. */
    var destroyed: seq<Tree>

    ghost predicate Valid()
      reads this
    {
      Shaped(tables) && yystack.Length == YYSTACKDEPTH && yytos < YYSTACKDEPTH
    }

    ghost function Stack(): seq<Entry>
      requires Valid()
      reads this, yystack
    {
      yystack[..yytos + 1]
    }

    /** sqlite3ParserInit */
    constructor (tables: Tables)
      requires Shaped(tables)
      ensures Valid() && Stack() == [Bottom] && destroyed == [] && this.tables == tables && fresh(yystack)
    {
      this.tables := tables;
      yystack := new Entry[YYSTACKDEPTH](_ => Bottom);
      yytos := 0;
      destroyed := [];
    }

    /** yy_pop_parser_stack */
    method PopParserStack()
      requires Valid() && yytos > 0
      modifies `yytos, `destroyed
      ensures Valid() && Stack() == old(Stack()[..yytos])
      ensures destroyed == old(destroyed + [yystack[yytos].minor])
    {
      destroyed := destroyed + [yystack[yytos].minor];
      yytos := yytos - 1;
    }

    /** The pop loop shared by yyStackOverflow and sqlite3ParserFinalize: one destructor call for every entry above
        the bottom, from the top down. */
    method PopAll()
      requires Valid()
      modifies `yytos, `destroyed
      ensures Valid() && Stack() == [old(Stack()[0])]
      ensures destroyed == old(destroyed + Reversed(Minors(Stack()[1..])))
    {
      while yytos > 0
        invariant Valid() && yytos <= old(yytos)
        invariant destroyed + Reversed(Minors(Stack()[1..])) == old(destroyed + Reversed(Minors(Stack()[1..])))
      {
        ghost var above := Minors(Stack()[1..]);
        assert above[..|above| - 1] == Minors(yystack[..yytos][1..]);
        PopParserStack();
      }
      assert Stack()[1..] == [];
    }

    /** yy_shift */
    method YyShift(newState: nat, token: Token)
      requires Valid()
      modifies `yytos, `destroyed, yystack
      ensures Valid() && Shift(old(Stack()), newState, token).Stopped?
      ensures Stack() == Shift(old(Stack()), newState, token).stack
      ensures destroyed == old(destroyed) + Shift(old(Stack()), newState, token).destroyed
    {
      if yytos + 1 > YYSTACKDEPTH - 1 {
        PopAll();
      } else {
        yytos := yytos + 1;
        var state := newState;
        if state > YY_MAX_SHIFT {
          state := state + YY_MIN_REDUCE - YY_MIN_SHIFTREDUCE;
        }
        yystack[yytos] := Entry(state, token.major, Leaf(token));
      }
    }

    /** yy_reduce, where its asserts hold. On overflow the stack is left with its bottom only and the value returned
        is not used. */
    method YyReduce(rule: nat) returns (act: nat)
      requires Valid()
      requires Reduce(tables, Stack(), rule).Stopped? ==> Reduce(tables, Stack(), rule).outcome != Broken
      modifies `yytos, `destroyed, yystack
      ensures Valid()
      ensures var m := Reduce(tables, old(Stack()), rule);
              && Stack() == m.stack
              && destroyed == old(destroyed) + (if m.Running? then [] else m.destroyed)
              && (m.Running? ==> yytos > 0 && act == Stack()[yytos].stateno)
              && (m.Stopped? ==> yytos == 0)
    {
      ghost var before := Stack();
      if tables.ruleNRhs[rule] == 0 {
        if yytos >= YYSTACKDEPTH - 1 {
          PopAll();
          return 0;
        }
      }
      var yygoto := tables.ruleLhs[rule];
      var yysize := tables.ruleNRhs[rule];
      var p := yytos + yysize;
      assert before[..p + 1] == before[..|before| + yysize];
      act := FindReduceAction(tables, yystack[p].stateno, yygoto);
      var node := Node(rule, Minors(yystack[p + 1..yytos + 1]));
      assert before[p + 1..] == yystack[p + 1..yytos + 1];
      yytos := p + 1;
      yystack[yytos] := Entry(act, yygoto, node);
      assert Stack() == before[..p + 1] + [Entry(act, yygoto, node)];
    }

    /** The body of the driver loop; `Some` when the loop is left, naming the hook that ran. */
    method Pass(token: Token, act: nat) returns (yyact: nat, left: Option<Outcome>)
      requires Valid() && act == yystack[yytos].stateno
      requires
        var m := MicroStep(tables, Stack(), token);
        m.Stopped? ==> m.outcome != Broken
      modifies `yytos, `destroyed, yystack
      ensures Valid()
      ensures Stack() == MicroStep(tables, old(Stack()), token).stack
      ensures
        var m := MicroStep(tables, old(Stack()), token);
        if m.Running? then left == None && yyact == yystack[yytos].stateno && destroyed == old(destroyed)
        else left == Some(m.outcome) && destroyed == old(destroyed) + m.destroyed
    {
      hide Shift, Reduce, Choose, Minors;
      ghost var before := Stack();
      assert before[|before| - 1].stateno == act;
      yyact := FindShiftAction(tables, token.major, act);
      left := None;
      if yyact >= YY_MIN_REDUCE {
        ReduceStops(tables, before, yyact - YY_MIN_REDUCE);
        yyact := YyReduce(yyact - YY_MIN_REDUCE);
        if yytos == 0 {
          left := Some(Overflow);
        }
      } else if yyact <= YY_MAX_SHIFTREDUCE {
        ShiftEnds(before, yyact, token);
        YyShift(yyact, token);
        left := Some(if yytos == 0 then Overflow else Shifted);
      } else if yyact == YY_ACCEPT_ACTION {
        left := Some(Accepted(yystack[yytos].minor));
        yytos := yytos - 1;
        assert Stack() == [before[0]];
      } else {
        destroyed := destroyed + [Leaf(token)];
        left := Some(SyntaxError);
      }
    }

    /** What the machine on values makes of a token from the present stack. */
    ghost function Outlook(token: Token, passes: nat): Machine
      requires Valid()
      reads this, yystack
    {
      Run(tables, Stack(), token, passes)
    }

    /** A pass that is known to be among the last `passes` ones. */
    method NextPass(token: Token, act: nat, ghost passes: nat) returns (yyact: nat, left: Option<Outcome>)
      requires Valid() && act == yystack[yytos].stateno
      requires Outlook(token, passes).Stopped? && Outlook(token, passes).outcome != Broken
      modifies `yytos, `destroyed, yystack
      ensures Valid() && passes > 0
      ensures left == None ==>
                && yyact == yystack[yytos].stateno && destroyed == old(destroyed)
                && Outlook(token, passes - 1) == old(Outlook(token, passes))
      ensures left.Some? ==>
                && Stack() == old(Outlook(token, passes).stack)
                && left == Some(old(Outlook(token, passes).outcome))
                && destroyed == old(destroyed + Outlook(token, passes).destroyed)
    {
      RunUnfolds(tables, Stack(), token, passes);
      yyact, left := Pass(token, act);
    }

    /** The driver loop, for all tables: it ends whenever the machine on values stops within some number of passes. */
    method Loop(token: Token, ghost passes: nat) returns (outcome: Outcome)
      requires Valid()
      requires Outlook(token, passes).Stopped? && Outlook(token, passes).outcome != Broken
      modifies `yytos, `destroyed, yystack
      ensures Valid() && Stack() == old(Outlook(token, passes).stack)
      ensures outcome == old(Outlook(token, passes).outcome)
      ensures destroyed == old(destroyed + Outlook(token, passes).destroyed)
    {
      ghost var passesLeft := passes;
      var yyact := yystack[yytos].stateno;
      while true
        invariant Valid() && yyact == yystack[yytos].stateno
        invariant Outlook(token, passesLeft) == old(Outlook(token, passes))
        invariant destroyed == old(destroyed)
        decreases passesLeft
      {
        var left;
        yyact, left := NextPass(token, yyact, passesLeft);
        if left.Some? {
          return left.value;
        }
        passesLeft := passesLeft - 1;
      }
    }

    /** What holds of a parser for valid tables between two calls. */
    ghost predicate Ready(g: LemonSoundness.Grammar)
      requires Valid()
      reads this, yystack
    {
      LemonSoundness.Valid(tables, g) && LemonSoundness.Sound(tables, g, Stack())
      && yystack[yytos].stateno != YY_ACCEPT_ACTION
    }

    ghost function Passes(g: LemonSoundness.Grammar): nat
      requires Valid()
      reads this, yystack
    {
      LemonSoundness.Potential(g, Stack()) + 1
    }

    /** sqlite3Parser: feed one token to a parser with valid tables. The call ends, no assert fails, the stack is what
        the machine on values makes of it and ready for the next token; a value is accepted at the end of the input
        only, and is a parse tree. */
    method Feed(token: Token, ghost g: LemonSoundness.Grammar) returns (outcome: Outcome, ghost given: seq<Tree>)
      requires Valid() && Ready(g)
      modifies `yytos, `destroyed, yystack
      ensures Valid() && Ready(g)
      ensures old(Outlook(token, Passes(g))) == Stopped(Stack(), outcome, given)
      ensures destroyed == old(destroyed) + given && outcome != Broken
      ensures outcome.Accepted? ==> token.major == END && LemonSoundness.ParseTree(tables, g, outcome.tree)
    {
      hide LemonSoundness.Checked, LemonSoundness.Sound, LemonSoundness.Potential, LemonSoundness.ParseTree, Run;
      LemonSoundness.CallEnds(tables, g, Stack(), token, Passes(g));
      LemonSoundness.RunIsSound(tables, g, Stack(), token, Passes(g));
      given := Outlook(token, Passes(g)).destroyed;
      outcome := Loop(token, Passes(g));
      assert Stack()[|Stack()| - 1] == yystack[yytos];
    }
  }
  lemma {:induction false} ShiftEnds(stack: seq<Entry>, act: nat, token: Token)
    requires 1 <= |stack|
    ensures
      var m := Shift(stack, act, token);
      m.Stopped? && m.outcome == if |m.stack| == 1 then Overflow else Shifted
  {
    hide Minors, Reversed;
  }

  /** A reduction ends the call only if it overflows, short of a failed assert. */
  lemma {:induction false} ReduceStops(t: Tables, stack: seq<Entry>, rule: nat)
    requires Shaped(t) && stack != []
    ensures
      var m := Reduce(t, stack, rule);
      if m.Stopped? then m.outcome == Broken || (m.outcome == Overflow && |m.stack| == 1) else |m.stack| >= 2
  {
    hide Minors, Reversed;
  }
}
