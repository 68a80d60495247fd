/** The compressed tables of the Lemon parser engine (parse.c) and the two table look-ups.

    The numbers are those of parse.c; the tables themselves are parameters. An action number is a state to
    shift to, a fused shift-and-reduce, an error, an accept, or a rule to reduce by. */
module LemonTables {
  import opened Options

  const YYNOCODE: nat := 278
  const YYWILDCARD: nat := 91
  const YYNSTATE: nat := 528
  const YYNTOKEN: nat := 155
  const YY_MAX_SHIFT: nat := 527
  const YY_MIN_SHIFTREDUCE: nat := 764
  const YY_MAX_SHIFTREDUCE: nat := 1132
  const YY_ERROR_ACTION: nat := 1133
  const YY_ACCEPT_ACTION: nat := 1134
  const YY_MIN_REDUCE: nat := 1136
  const YYSTACKDEPTH: nat := 100

  /** The code of a terminal symbol. */
  type Terminal = n: nat | n < YYNTOKEN

  /** The terminal that stands for the end of the input. */
  const END: Terminal := 0

  /** One array of parse.c each. `ruleNRhs` holds the negated length of a rule's right-hand side. */
  datatype Tables = Tables(
    action: seq<nat>,
    lookahead: seq<nat>,
    shiftOfst: seq<nat>,
    reduceOfst: seq<int>,
    defaultAction: seq<nat>,
    fallback: seq<nat>,
    ruleLhs: seq<nat>,
    ruleNRhs: seq<int>)

  /** What the table generator promises about the shape of the arrays: padding slots of the look-ahead
      array hold no symbol, and a fallback token has no fallback of its own. */
  ghost predicate Shaped(t: Tables) {
    && |t.action| <= |t.lookahead|
    && (forall i :: |t.action| <= i < |t.lookahead| ==> t.lookahead[i] == YYNOCODE)
    && |t.shiftOfst| == |t.defaultAction| == YYNSTATE
    && |t.reduceOfst| <= YYNSTATE
    && (forall x :: 0 <= x < |t.fallback| ==> t.fallback[x] < YYNTOKEN && Fallback(t, t.fallback[x]) == 0)
    && |t.ruleLhs| == |t.ruleNRhs|
    && (forall r :: 0 <= r < |t.ruleNRhs| ==> t.ruleNRhs[r] <= 0)
    && (forall r :: 0 <= r < |t.ruleLhs| ==> t.ruleLhs[r] != YYNOCODE)
  }

  function Fallback(t: Tables, token: nat): nat {
    if token < |t.fallback| then t.fallback[token] else 0
  }

  /** The slot at `i` belongs to symbol `x`. */
  predicate Hit(t: Tables, i: int, x: nat) {
    0 <= i < |t.lookahead| && t.lookahead[i] == x
  }

  /** The action that a row starting at `base` holds for symbol `x`. */
  function RowEntry(t: Tables, base: int, x: nat): Option<nat> {
    if base + x < |t.action| && Hit(t, base + x, x) then Some(t.action[base + x]) else None
  }

  lemma {:induction false} HitHasAction(t: Tables, i: int, x: nat)
    requires Shaped(t) && Hit(t, i, x) && x != YYNOCODE
    ensures i < |t.action|
  {
  }

  /** How an action was found: in the row of the state under some symbol, or as the state's default. */
  datatype Choice = InRow(symbol: nat, act: nat) | Default(act: nat)

  /** The action of a state on a token: the token's own entry; if there is none and the token has a
      fallback, whatever the fallback token gets; otherwise the wildcard's entry; otherwise the default. */
  function Choose(t: Tables, state: nat, token: Terminal): Choice
    requires Shaped(t) && state <= YY_MAX_SHIFT
    decreases Fallback(t, token)
  {
    var row := t.shiftOfst[state];
    if Hit(t, row + token, token) then
      HitHasAction(t, row + token, token);
      InRow(token, t.action[row + token])
    else if Fallback(t, token) != 0 then
      Choose(t, state, Fallback(t, token))
    else if Hit(t, row + YYWILDCARD, YYWILDCARD) && token > 0 then
      HitHasAction(t, row + YYWILDCARD, YYWILDCARD);
      InRow(YYWILDCARD, t.action[row + YYWILDCARD])
    else
      Default(t.defaultAction[state])
  }

  /** The token may stand for symbol `x`: it is `x`, it falls back to `x`, or `x` is the wildcard. */
  predicate StandsFor(t: Tables, token: nat, x: nat) {
    x == token || (x == Fallback(t, token) && x != 0) || x == YYWILDCARD
  }

  /** The symbol under which an action was found is one the token may stand for, and its entry is in the row. */
  lemma {:induction false} ChoiceIsLegal(t: Tables, state: nat, token: Terminal)
    requires Shaped(t) && state <= YY_MAX_SHIFT
    ensures var c := Choose(t, state, token);
            if c.InRow? then
              && c.symbol < YYNTOKEN && StandsFor(t, token, c.symbol)
              && RowEntry(t, t.shiftOfst[state], c.symbol) == Some(c.act)
            else
              c.act == t.defaultAction[state]
  {
    var row := t.shiftOfst[state];
    if Hit(t, row + token, token) {
      HitHasAction(t, row + token, token);
    } else if Fallback(t, token) != 0 {
      var f := Fallback(t, token);
      assert Fallback(t, f) == 0;
      if Hit(t, row + f, f) {
        HitHasAction(t, row + f, f);
      } else if Hit(t, row + YYWILDCARD, YYWILDCARD) && f > 0 {
        HitHasAction(t, row + YYWILDCARD, YYWILDCARD);
      }
    } else if Hit(t, row + YYWILDCARD, YYWILDCARD) && token > 0 {
      HitHasAction(t, row + YYWILDCARD, YYWILDCARD);
    }
  }

  /** yy_find_shift_action: a state above the last shift state is a pending action and is returned as it is. */
  function ShiftAction(t: Tables, stateno: nat, token: Terminal): nat
    requires Shaped(t)
  {
    if stateno > YY_MAX_SHIFT then stateno else Choose(t, stateno, token).act
  }

  /** Which action that is, read off the rows: the token's own entry; without one, the entry of its fallback; without
      that, the entry of the wildcard, except for the end of the input; and without any, the default. */
  lemma {:induction false} ActionIsExact(t: Tables, state: nat, token: Terminal)
    requires Shaped(t)
    ensures
      var act := ShiftAction(t, state, token);
      if state > YY_MAX_SHIFT then act == state
      else
        var row, other := t.shiftOfst[state], Fallback(t, token);
        var own := RowEntry(t, row, token);
        var fallen := if other == 0 then None else RowEntry(t, row, other);
        var wild := if token == END && other == 0 then None else RowEntry(t, row, YYWILDCARD);
        && (own.Some? ==> act == own.value)
        && (own.None? && fallen.Some? ==> act == fallen.value)
        && (own.None? && fallen.None? && wild.Some? ==> act == wild.value)
        && (own.None? && fallen.None? && wild.None? ==> act == t.defaultAction[state])
  {
    if state <= YY_MAX_SHIFT {
      var other := Fallback(t, token);
      HitIsEntry(t, t.shiftOfst[state], token);
      if other == 0 {
        LastTry(t, state, token);
      } else {
        assert other == t.fallback[token];
        LastTry(t, state, other);
      }
    }
  }

  /** A token without fallback. */
  lemma {:induction false} LastTry(t: Tables, state: nat, token: Terminal)
    requires Shaped(t) && state <= YY_MAX_SHIFT && Fallback(t, token) == 0
    ensures
      var row, act := t.shiftOfst[state], Choose(t, state, token).act;
      var own := RowEntry(t, row, token);
      var wild := if token == END then None else RowEntry(t, row, YYWILDCARD);
      act == if own.Some? then own.value else if wild.Some? then wild.value else t.defaultAction[state]
  {
    HitIsEntry(t, t.shiftOfst[state], token);
    HitIsEntry(t, t.shiftOfst[state], YYWILDCARD);
  }

  lemma {:induction false} HitIsEntry(t: Tables, row: nat, x: nat)
    requires Shaped(t) && x != YYNOCODE
    ensures Hit(t, row + x, x) <==> RowEntry(t, row, x).Some?
    ensures Hit(t, row + x, x) ==> row + x < |t.action| && RowEntry(t, row, x) == Some(t.action[row + x])
  {
    if Hit(t, row + x, x) {
      HitHasAction(t, row + x, x);
    }
  }

  /** What an entry of a row is. */
  lemma {:induction false} EntryIsThere(t: Tables, base: int, x: nat, act: nat)
    requires Shaped(t)
    ensures RowEntry(t, base, x) == Some(act) <==>
            0 <= base + x < |t.action| && t.lookahead[base + x] == x && t.action[base + x] == act
  {
  }

  /** yy_find_reduce_action; `None` where one of its asserts fails. */
  function GotoAction(t: Tables, stateno: nat, lhs: nat): Option<nat>
    requires Shaped(t)
  {
    if stateno < |t.reduceOfst| then RowEntry(t, t.reduceOfst[stateno], lhs) else None
  }

  /** The loop of yy_find_shift_action, which overwrites the look-ahead by its fallback at most once. */
  method FindShiftAction(t: Tables, lookahead: Terminal, stateno: nat) returns (act: nat)
    requires Shaped(t)
    ensures act == ShiftAction(t, stateno, lookahead)
  {
    if stateno > YY_MAX_SHIFT {
      return stateno;
    }
    var iLookAhead: Terminal := lookahead;
    while true
      invariant Choose(t, stateno, iLookAhead) == Choose(t, stateno, lookahead)
      decreases Fallback(t, iLookAhead)
    {
      var i: nat := t.shiftOfst[stateno] + iLookAhead;
      if i >= |t.lookahead| || t.lookahead[i] != iLookAhead {
        if iLookAhead < |t.fallback| && t.fallback[iLookAhead] != 0 {
          iLookAhead := t.fallback[iLookAhead];
          continue;
        }
        var j := i - iLookAhead + YYWILDCARD;
        if j < |t.lookahead| && t.lookahead[j] == YYWILDCARD && iLookAhead > 0 {
          return t.action[j];
        }
        return t.defaultAction[stateno];
      } else {
        return t.action[i];
      }
    }
  }

  /** yy_find_reduce_action, where its asserts hold. */
  method FindReduceAction(t: Tables, stateno: nat, lookahead: nat) returns (act: nat)
    requires Shaped(t) && GotoAction(t, stateno, lookahead).Some?
    ensures GotoAction(t, stateno, lookahead) == Some(act)
  {
    var i := t.reduceOfst[stateno] + lookahead;
    act := t.action[i];
  }
}
