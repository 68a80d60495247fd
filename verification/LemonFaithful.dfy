/** For valid tables nothing has to be assumed of the run: every list of tokens is got through by the engine and by the
    textbook machine, in the same way. */
module LemonFaithful {
  import opened Options
  import opened LemonTables
  import opened LemonMachine
  import opened LemonFused
  import opened LemonConverse
  import LemonSoundness

  /** The stack of a valid parser between two calls. */
  ghost predicate Resting(t: Tables, g: LemonSoundness.Grammar, stack: seq<Entry>) {
    LemonSoundness.Valid(t, g) && LemonSoundness.Sound(t, g, stack) && LemonSoundness.Top(stack) != YY_ACCEPT_ACTION
  }

  lemma {:induction false} RestingCallEnds(t: Tables, g: LemonSoundness.Grammar, stack: seq<Entry>, token: Token)
    returns (passes: nat)
    requires Resting(t, g, stack)
    ensures stack != [] && Run(t, stack, token, passes).Stopped? && Run(t, stack, token, passes).outcome != Broken
    ensures Resting(t, g, Run(t, stack, token, passes).stack)
  {
    hide LemonSoundness.Checked, LemonSoundness.Sound, LemonSoundness.ParseTree, LemonSoundness.Potential, Run;
    passes := LemonSoundness.Potential(g, stack) + 1;
    LemonSoundness.CallEnds(t, g, stack, token, passes);
    LemonSoundness.RunIsSound(t, g, stack, token, passes);
  }

  /** The outcomes of a run of a valid parser. */
  lemma {:induction false} EngineGetsThrough(t: Tables, g: LemonSoundness.Grammar, stack: seq<Entry>, tokens: seq<Token>)
    returns (outcomes: seq<Outcome>, end: seq<Entry>)
    requires Resting(t, g, stack)
    ensures stack != [] && Reports(t, stack, tokens, outcomes, end) && Broken !in outcomes && Resting(t, g, end)
    decreases |tokens|
  {
    hide Resting, Run;
    outcomes, end := [], stack;
    RestingIsShaped(t, g, stack);
    if tokens != [] {
      var passes := RestingCallEnds(t, g, stack, tokens[0]);
      var m := Run(t, stack, tokens[0], passes);
      var rest;
      rest, end := EngineGetsThrough(t, g, m.stack, tokens[1..]);
      outcomes := [m.outcome] + rest;
      assert outcomes[1..] == rest;
      assert Calls(t, stack, tokens, outcomes, end, passes);
    }
  }

  lemma {:induction false} RestingIsShaped(t: Tables, g: LemonSoundness.Grammar, stack: seq<Entry>)
    requires Resting(t, g, stack)
    ensures Shaped(t) && stack != []
  {
    hide LemonSoundness.Checked, LemonSoundness.Sound;
  }

  /** The last stack settles, since one more call would end. */
  lemma {:induction false} RestingSettles(t: Tables, g: LemonSoundness.Grammar, stack: seq<Entry>)
    returns (after: nat, settled: seq<Item>)
    requires Resting(t, g, stack) && Regular(t) && OnBottom(stack) && Neat(t, stack)
    ensures Settles(t, stack, after, settled)
  {
    hide Resting, Regular, Run, Settles, Neat;
    var end := Token(END, "");
    var passes := RestingCallEnds(t, g, stack, end);
    after, settled := StoppedSettles(t, stack, end, passes);
  }

  lemma {:induction false} ReportsIsNeat(
    t: Tables, stack: seq<Entry>, tokens: seq<Token>, outcomes: seq<Outcome>, end: seq<Entry>)
    requires Regular(t) && OnBottom(stack) && Neat(t, stack)
    requires Reports(t, stack, tokens, outcomes, end) && Broken !in outcomes
    ensures OnBottom(end) && Neat(t, end)
    decreases |tokens|
  {
    hide Regular, Neat, Run;
    RegularIsShaped(t);
    if tokens != [] {
      var passes: nat :| Calls(t, stack, tokens, outcomes, end, passes);
      assert outcomes[0] in outcomes && forall o :: o in outcomes[1..] ==> o in outcomes;
      CallIsNeat(t, stack, tokens[0], passes);
      ReportsIsNeat(t, Run(t, stack, tokens[0], passes).stack, tokens[1..], outcomes[1..], end);
    }
  }

  /** For valid and regular tables, the engine and the textbook machine get through any list of tokens, and with the same
      outcomes. */
  lemma {:induction false} EveryRunAgrees(t: Tables, g: LemonSoundness.Grammar, tokens: seq<Token>)
    returns (outcomes: seq<Outcome>, end: seq<Entry>, after: nat, settled: seq<Item>, moves: nat, n: nat)
    requires LemonSoundness.Valid(t, g) && Regular(t)
    ensures Broken !in outcomes && EngineDoes(t, tokens, outcomes, end, after, settled)
    ensures PlainDoes(t, tokens, outcomes, moves, n, settled)
  {
    hide LemonSoundness.Checked, Regular, Reports, Settles, PlainAll, Neat;
    FreshRests(t, g);
    FreshSettles(t);
    outcomes, end := EngineGetsThrough(t, g, [Bottom], tokens);
    ReportsIsNeat(t, [Bottom], tokens, outcomes, end);
    after, settled := RestingSettles(t, g, end);
    moves, n := EngineIsPlain(t, [Bottom], Strip([Bottom]), 0, tokens, outcomes, end, settled, after);
  }

  lemma {:induction false} FreshRests(t: Tables, g: LemonSoundness.Grammar)
    requires LemonSoundness.Valid(t, g)
    ensures Resting(t, g, [Bottom])
  {
    hide LemonSoundness.Checked;
  }
}
