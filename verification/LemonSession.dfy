/** Whole runs of the Lemon engine: a list of tokens fed one by one, with errors, overflows and acceptances along
    the way. */
module LemonSession {
  import opened Options
  import opened LemonTables
  import opened LemonMachine
  import opened LemonSoundness
  import opened LemonUnfold

  /** What has become of the tokens and of the values made of them: on the stack, accepted, passed to the destructor,
      or, for the look-ahead at which the parser accepted or overflowed, given up. `fired` are the rules by which the
      parser has reduced. */
  datatype Ledger = Ledger(
    stack: seq<Entry>, accepted: seq<Tree>, destroyed: seq<Tree>, unread: seq<Token>, fired: seq<nat>)

  const Fresh := Ledger([Bottom], [], [], [], [])

  /** The books after one call that stopped and reduced by the rules `fired`. */
  function Book(ledger: Ledger, token: Token, m: Machine, fired: seq<nat>): Ledger
    requires m.Stopped?
  {
    Ledger(
      m.stack,
      if m.outcome.Accepted? then ledger.accepted + [m.outcome.tree] else ledger.accepted,
      ledger.destroyed + m.destroyed,
      if m.outcome.Accepted? || m.outcome == Overflow then ledger.unread + [token] else ledger.unread,
      ledger.fired + fired)
  }

  function Call(t: Tables, ledger: Ledger, token: Token, n: nat): Ledger
    requires Shaped(t) && ledger.stack != [] && Run(t, ledger.stack, token, n).Stopped?
  {
    Book(ledger, token, Run(t, ledger.stack, token, n), Fired(t, ledger.stack, token, n))
  }

  /** Feed all tokens; `None` if a call needs more than `n` passes or fails an assert. */
  function FeedAll(t: Tables, ledger: Ledger, tokens: seq<Token>, n: nat): Option<Ledger>
    requires Shaped(t) && ledger.stack != []
    decreases |tokens|
  {
    if tokens == [] then Some(ledger)
    else
      var m := Run(t, ledger.stack, tokens[0], n);
      if m.Running? || m.outcome == Broken then None else FeedAll(t, Call(t, ledger, tokens[0], n), tokens[1..], n)
  }

  /** The tokens in some trees, and the nonterminals, each under the rule that made it. */
  function Leaves(trees: seq<Tree>): multiset<Token> {
    multiset(Yields(trees))
  }

  function Nodes(trees: seq<Tree>): multiset<nat> {
    multiset(AllReductions(trees))
  }

  function Tokens(ledger: Ledger): multiset<Token> {
    Leaves(Minors(ledger.stack)) + Leaves(ledger.accepted) + Leaves(ledger.destroyed) + multiset(ledger.unread)
  }

  function Nonterminals(ledger: Ledger): multiset<nat> {
    Nodes(Minors(ledger.stack)) + Nodes(ledger.accepted) + Nodes(ledger.destroyed)
  }

  /** From `before` to `after` these tokens came in, and every nonterminal made on the way is accounted for. */
  ghost predicate Accounts(before: Ledger, after: Ledger, tokens: multiset<Token>) {
    && Tokens(after) == Tokens(before) + tokens
    && Nonterminals(after) + multiset(before.fired) == Nonterminals(before) + multiset(after.fired)
  }

  // ----- conservation, for all tables

  lemma {:induction false} AddsCount(before: seq<Tree>, after: seq<Tree>, tokens: seq<Token>, rules: seq<nat>)
    requires Adds(before, after, tokens, rules)
    ensures Leaves(after) == Leaves(before) + multiset(tokens) && Nodes(after) == Nodes(before) + multiset(rules)
  {
    hide Yields, AllReductions;
  }

  lemma {:induction false} ConcatCount(a: seq<Tree>, b: seq<Tree>)
    ensures Leaves(a + b) == Leaves(a) + Leaves(b) && Nodes(a + b) == Nodes(a) + Nodes(b)
  {
    hide Yields, AllReductions;
    YieldsConcat(a, b);
    AllReductionsConcat(a, b);
  }

  lemma {:induction false} SmallCounts(token: Token)
    ensures Leaves([Leaf(token)]) == multiset{token} && Nodes([Leaf(token)]) == multiset{}
    ensures Leaves([Blank]) == multiset{} && Nodes([Blank]) == multiset{}
    ensures Leaves([]) == multiset{} && Nodes([]) == multiset{}
  {
    OneMore([], Leaf(token));
    OneMore([], Blank);
    assert [] + [Leaf(token)] == [Leaf(token)] && [] + [Blank] == [Blank];
  }

  lemma {:induction false} Nothing<T>(m: multiset<T>)
    ensures multiset{} + m == m && m + multiset{} == m && m + multiset([]) == m
  {
  }

  lemma {:induction false} BookShift(ledger: Ledger, token: Token, m: Machine, fired: seq<nat>)
    requires OnBottom(ledger.stack) && m.Stopped? && m.outcome == Shifted && Conserved(ledger.stack, token, m, fired)
    ensures Accounts(ledger, Book(ledger, token, m, fired), multiset{token})
  {
    hide Adds, Minors, Leaves, Nodes;
    AddsCount(Minors(ledger.stack), Minors(m.stack), [token], fired);
    assert ledger.destroyed + [] == ledger.destroyed;
  }

  lemma {:induction false} BookAccept(ledger: Ledger, token: Token, m: Machine, fired: seq<nat>)
    requires OnBottom(ledger.stack) && m.Stopped? && m.outcome.Accepted? && Conserved(ledger.stack, token, m, fired)
    ensures Accounts(ledger, Book(ledger, token, m, fired), multiset{token})
  {
    hide Adds, Leaves, Nodes, Minors;
    var tree := m.outcome.tree;
    BottomOnly(ledger.stack, m.stack);
    AddsCount(Minors(ledger.stack), [Blank, tree], [], fired);
    ConcatCount([Blank], [tree]);
    ConcatCount(ledger.accepted, [tree]);
    SmallCounts(token);
    assert [Blank] + [tree] == [Blank, tree];
    assert ledger.destroyed + [] == ledger.destroyed;
    Nothing(Leaves([tree]));
    Nothing(Nodes([tree]));
    Nothing(Leaves(ledger.accepted + [tree]));
    Nothing(Nodes(ledger.accepted + [tree]));
    Nothing(Leaves(Minors(ledger.stack)));
  }

  lemma {:induction false} BottomOnly(before: seq<Entry>, after: seq<Entry>)
    requires OnBottom(before) && after == before[..1]
    ensures Minors(after) == [Blank] && before[0].minor == Blank
  {
  }

  lemma {:induction false} BookError(ledger: Ledger, token: Token, m: Machine, fired: seq<nat>)
    requires OnBottom(ledger.stack) && m.Stopped? && m.outcome == SyntaxError && Conserved(ledger.stack, token, m, fired)
    ensures Accounts(ledger, Book(ledger, token, m, fired), multiset{token})
  {
    hide Adds, Minors, Leaves, Nodes;
    AddsCount(Minors(ledger.stack), Minors(m.stack), [], fired);
    ConcatCount(ledger.destroyed, m.destroyed);
    SmallCounts(token);
  }

  lemma {:induction false} BookOverflow(ledger: Ledger, token: Token, m: Machine, fired: seq<nat>)
    requires OnBottom(ledger.stack) && m.Stopped? && m.outcome == Overflow && Conserved(ledger.stack, token, m, fired)
    ensures Accounts(ledger, Book(ledger, token, m, fired), multiset{token})
  {
    hide Adds, Leaves, Nodes, Minors, Balances;
    BottomOnly(ledger.stack, m.stack);
    var top :| Adds(Minors(ledger.stack), top, [], fired) && Balances([Blank] + m.destroyed, top);
    AddsCount(Minors(ledger.stack), top, [], fired);
    BalancesCount([Blank] + m.destroyed, top);
    ConcatCount([Blank], m.destroyed);
    ConcatCount(ledger.destroyed, m.destroyed);
    SmallCounts(token);
    Nothing(Leaves(m.destroyed));
    Nothing(Nodes(m.destroyed));
    Nothing(Leaves(ledger.accepted));
    Nothing(Nodes(ledger.accepted));
    Nothing(Leaves(Minors(ledger.stack)));
  }

  lemma {:induction false} BalancesCount(a: seq<Tree>, b: seq<Tree>)
    requires Balances(a, b)
    ensures Leaves(a) == Leaves(b) && Nodes(a) == Nodes(b)
  {
    hide Yields, AllReductions;
  }

  lemma {:induction false} StaysOnBottom(stack: seq<Entry>, token: Token, m: Machine, fired: seq<nat>)
    requires OnBottom(stack) && m.Stopped? && m.outcome != Broken && Conserved(stack, token, m, fired)
    ensures OnBottom(m.stack)
  {
    hide Adds, Balances, Minors;
  }

  /** The books balance over one call. */
  lemma {:induction false} CallConserves(t: Tables, ledger: Ledger, token: Token, n: nat)
    requires Shaped(t) && OnBottom(ledger.stack)
    requires Run(t, ledger.stack, token, n).Stopped? && Run(t, ledger.stack, token, n).outcome != Broken
    ensures OnBottom(Call(t, ledger, token, n).stack)
    ensures Accounts(ledger, Call(t, ledger, token, n), multiset{token})
  {
    hide Conserved, Fired, Accounts, Shaped;
    RunConserves(t, ledger.stack, token, n);
    var m, fired := Run(t, ledger.stack, token, n), Fired(t, ledger.stack, token, n);
    StaysOnBottom(ledger.stack, token, m, fired);
    match m.outcome {
      case Shifted => BookShift(ledger, token, m, fired);
      case Accepted(_) => BookAccept(ledger, token, m, fired);
      case SyntaxError => BookError(ledger, token, m, fired);
      case Overflow => BookOverflow(ledger, token, m, fired);
    }
  }

  lemma {:induction false} HeadAndTail(tokens: seq<Token>)
    requires tokens != []
    ensures multiset(tokens) == multiset{tokens[0]} + multiset(tokens[1..])
  {
    assert tokens == [tokens[0]] + tokens[1..];
  }

  lemma {:induction false} AccountsAdd(a: Ledger, b: Ledger, c: Ledger, x: multiset<Token>, y: multiset<Token>)
    requires Accounts(a, b, x) && Accounts(b, c, y)
    ensures Accounts(a, c, x + y)
  {
    hide Tokens, Nonterminals;
    Cancels(Nonterminals(a), Nonterminals(b), Nonterminals(c), multiset(a.fired), multiset(b.fired), multiset(c.fired));
  }

  lemma {:induction false} Cancels(a: multiset<nat>, b: multiset<nat>, c: multiset<nat>, p: multiset<nat>, q: multiset<nat>, r: multiset<nat>)
    requires b + p == a + q && c + q == b + r
    ensures c + p == a + r
  {
    forall x ensures (c + p)[x] == (a + r)[x] {
      assert (b + p)[x] == (a + q)[x] && (c + q)[x] == (b + r)[x];
    }
  }

  /** Over any run, with any tables, every token that was fed is in exactly one place, and so is every nonterminal that
      a reduction has made: each node of a tree on the stack, accepted or destroyed stands for one reduction. */
  lemma {:induction false} EveryTokenAccountedFor(t: Tables, ledger: Ledger, tokens: seq<Token>, n: nat)
    requires Shaped(t) && OnBottom(ledger.stack) && FeedAll(t, ledger, tokens, n).Some?
    ensures Accounts(ledger, FeedAll(t, ledger, tokens, n).value, multiset(tokens))
    decreases |tokens|
  {
    if tokens == [] {
      assert multiset(tokens) == multiset{};
    } else {
      hide Accounts, Shaped, Call;
      CallConserves(t, ledger, tokens[0], n);
      var next := Call(t, ledger, tokens[0], n);
      EveryTokenAccountedFor(t, next, tokens[1..], n);
      HeadAndTail(tokens);
      AccountsAdd(ledger, next, FeedAll(t, next, tokens[1..], n).value, multiset{tokens[0]}, multiset(tokens[1..]));
    }
  }

  // ----- soundness, for valid tables

  /** The state of a parser between two calls. */
  ghost predicate Sane(t: Tables, g: Grammar, ledger: Ledger)
    requires Framed(t, g)
  {
    && Sound(t, g, ledger.stack) && Top(ledger.stack) != YY_ACCEPT_ACTION && |ledger.stack| <= YYSTACKDEPTH
    && forall tree :: tree in ledger.accepted ==> ParseTree(t, g, tree)
  }

  lemma {:induction false} StepDepth(t: Tables, stack: seq<Entry>, token: Token)
    requires Shaped(t) && stack != [] && |stack| <= YYSTACKDEPTH
    ensures |MicroStep(t, stack, token).stack| <= YYSTACKDEPTH
  {
    hide ShiftAction, GotoAction, Minors, Reversed;
  }

  lemma {:induction false} RunDepth(t: Tables, stack: seq<Entry>, token: Token, n: nat)
    requires Shaped(t) && stack != [] && |stack| <= YYSTACKDEPTH
    ensures |Run(t, stack, token, n).stack| <= YYSTACKDEPTH
    decreases n
  {
    hide MicroStep;
    if n > 0 {
      StepDepth(t, stack, token);
      if MicroStep(t, stack, token).Running? {
        RunDepth(t, MicroStep(t, stack, token).stack, token, n - 1);
      }
    }
  }

  lemma {:induction false} CallIsSane(t: Tables, g: Grammar, ledger: Ledger, token: Token, n: nat)
    requires Valid(t, g) && Sane(t, g, ledger)
    ensures
      var m := Run(t, ledger.stack, token, n);
      m.Stopped? ==> m.outcome != Broken && Sane(t, g, Call(t, ledger, token, n))
  {
    hide Sound, Checked, ParseTree, Run;
    RunIsSound(t, g, ledger.stack, token, n);
    RunDepth(t, ledger.stack, token, n);
  }

  /** Over any run of a valid parser every accepted value is a parse tree, and no assert fails: the run breaks off
      only if a call does not stop. */
  lemma {:induction false} RunsAreSane(t: Tables, g: Grammar, ledger: Ledger, tokens: seq<Token>, n: nat)
    requires Valid(t, g) && Sane(t, g, ledger)
    ensures FeedAll(t, ledger, tokens, n).Some? ==> Sane(t, g, FeedAll(t, ledger, tokens, n).value)
    decreases |tokens|
  {
    hide Sane, Checked, Call;
    SaneIsNonempty(t, g, ledger);
    if tokens != [] {
      var m := Run(t, ledger.stack, tokens[0], n);
      CallIsSane(t, g, ledger, tokens[0], n);
      if m.Stopped? {
        SaneIsNonempty(t, g, Call(t, ledger, tokens[0], n));
        RunsAreSane(t, g, Call(t, ledger, tokens[0], n), tokens[1..], n);
      }
    }
  }

  lemma {:induction false} SaneIsNonempty(t: Tables, g: Grammar, ledger: Ledger)
    requires Framed(t, g) && Sane(t, g, ledger)
    ensures ledger.stack != []
  {
    hide Sound;
  }

  ghost predicate RanksUpTo(g: Grammar, limit: nat) {
    forall s :: s in g.rank ==> g.rank[s] <= limit
  }

  /** And no call fails to stop: with this many passes a valid parser gets through any list of tokens. */
  lemma {:induction false} RunsEnd(t: Tables, g: Grammar, ledger: Ledger, tokens: seq<Token>, limit: nat, n: nat)
    requires Valid(t, g) && Sane(t, g, ledger) && RanksUpTo(g, limit) && YYSTACKDEPTH + limit < n
    ensures ledger.stack != [] && FeedAll(t, ledger, tokens, n).Some?
    decreases |tokens|
  {
    hide Checked, Call, Sound, Run;
    if tokens != [] {
      CallEnds(t, g, ledger.stack, tokens[0], n);
      CallIsSane(t, g, ledger, tokens[0], n);
      RunsEnd(t, g, Call(t, ledger, tokens[0], n), tokens[1..], limit, n);
    }
  }

  /** From a fresh parser on: any list of tokens is got through; the tokens are on the stack, in accepted values,
      destroyed or unread; the nonterminals made of them are where they are; and accepted values are parse trees. */
  lemma {:induction false} FreshRun(t: Tables, g: Grammar, tokens: seq<Token>, limit: nat, n: nat)
    requires Valid(t, g) && RanksUpTo(g, limit) && YYSTACKDEPTH + limit < n
    ensures FeedAll(t, Fresh, tokens, n).Some?
    ensures
      var end := FeedAll(t, Fresh, tokens, n).value;
      && Tokens(end) == multiset(tokens) && Nonterminals(end) == multiset(end.fired)
      && forall tree :: tree in end.accepted ==> ParseTree(t, g, tree)
  {
    hide FeedAll, Checked, Sound, ParseTree, Tokens, Nonterminals;
    FreshIsSane(t, g);
    RunsEnd(t, g, Fresh, tokens, limit, n);
    EveryTokenAccountedFor(t, Fresh, tokens, n);
    RunsAreSane(t, g, Fresh, tokens, n);
    var end := FeedAll(t, Fresh, tokens, n).value;
    Nothing(Nonterminals(end));
    Nothing(multiset(end.fired));
    Nothing(multiset(tokens));
  }

  lemma {:induction false} FreshIsSane(t: Tables, g: Grammar)
    requires Valid(t, g)
    ensures OnBottom(Fresh.stack) && Sane(t, g, Fresh)
    ensures Tokens(Fresh) == multiset{} && Nonterminals(Fresh) == multiset{}
  {
    hide Checked, Leaves, Nodes;
    assert Minors([Bottom]) == [Blank];
    SmallCounts(Token(END, ""));
  }

  /** The tokens are shifted one after another, and leave this stack. */
  ghost predicate ShiftsTo(t: Tables, stack: seq<Entry>, tokens: seq<Token>, n: nat, end: seq<Entry>)
    requires Shaped(t) && stack != []
    decreases |tokens|
  {
    if tokens == [] then end == stack
    else
      var m := Run(t, stack, tokens[0], n);
      m.Stopped? && m.outcome == Shifted && ShiftsTo(t, m.stack, tokens[1..], n, end)
  }

  lemma {:induction false} CallShifts(t: Tables, stack: seq<Entry>, token: Token, n: nat)
    requires Shaped(t) && OnBottom(stack)
    requires Run(t, stack, token, n).Stopped? && Run(t, stack, token, n).outcome == Shifted
    ensures
      var next := Run(t, stack, token, n).stack;
      OnBottom(next) && Yields(Minors(next)) == Yields(Minors(stack)) + [token]
  {
    hide Yields, AllReductions, Minors;
    RunConserves(t, stack, token, n);
  }

  lemma {:induction false} ShiftedTokens(t: Tables, stack: seq<Entry>, tokens: seq<Token>, n: nat, end: seq<Entry>)
    requires Shaped(t) && OnBottom(stack) && ShiftsTo(t, stack, tokens, n, end)
    ensures OnBottom(end) && Yields(Minors(end)) == Yields(Minors(stack)) + tokens
    decreases |tokens|
  {
    hide Run, Yields, Minors, Shaped;
    if tokens != [] {
      CallShifts(t, stack, tokens[0], n);
      ShiftedTokens(t, Run(t, stack, tokens[0], n).stack, tokens[1..], n, end);
      assert tokens == [tokens[0]] + tokens[1..];
    }
  }

  lemma {:induction false} ShiftsAreSound(
    t: Tables, g: Grammar, stack: seq<Entry>, tokens: seq<Token>, n: nat, end: seq<Entry>)
    requires Valid(t, g) && Sound(t, g, stack) && Top(stack) != YY_ACCEPT_ACTION && ShiftsTo(t, stack, tokens, n, end)
    ensures Sound(t, g, end) && Top(end) != YY_ACCEPT_ACTION
    decreases |tokens|
  {
    hide Sound, Checked, Run;
    if tokens != [] {
      RunIsSound(t, g, stack, tokens[0], n);
      ShiftsAreSound(t, g, Run(t, stack, tokens[0], n).stack, tokens[1..], n, end);
    }
  }

  lemma {:induction false} AcceptTells(t: Tables, stack: seq<Entry>, token: Token, n: nat)
    requires Shaped(t) && OnBottom(stack)
    requires Run(t, stack, token, n).Stopped? && Run(t, stack, token, n).outcome.Accepted?
    ensures Yield(Run(t, stack, token, n).outcome.tree) == Yields(Minors(stack))
  {
    hide Fired, Minors, MicroStep;
    RunConserves(t, stack, token, n);
    var tree := Run(t, stack, token, n).outcome.tree;
    OneMore([], Blank);
    OneMore([Blank], tree);
    assert [] + [Blank] == [Blank] && [Blank] + [tree] == [Blank, tree];
    assert Adds(Minors(stack), [Blank, tree], [], Fired(t, stack, token, n));
    assert Yields([]) == [] && Yield(Blank) == [];
    assert Yields(Minors(stack)) + [] == Yields(Minors(stack));
    assert [] + [] + Yield(tree) == Yield(tree);
  }

  /** LR soundness: if a fresh parser shifts all of `tokens` and accepts at the next one, that is the end of the input,
      the accepted value is a parse tree of the start symbol whose leaves are those tokens, in order, and with its folded
      rules put back it is a derivation by the grammar as written. */
  lemma {:induction false} AcceptedIsDerived(t: Tables, g: Grammar, tokens: seq<Token>, last: Token, n: nat, end: seq<Entry>)
    returns (full: Tree)
    requires Valid(t, g) && ShiftsTo(t, [Bottom], tokens, n, end)
    requires end != [] && Run(t, end, last, n).Stopped? && Run(t, end, last, n).outcome.Accepted?
    ensures last.major == END
    ensures
      var tree := Run(t, end, last, n).outcome.tree;
      ParseTree(t, g, tree) && Yield(tree) == tokens && Collapse(g, full) == tree
    ensures FullTree(t, g, full) && RootIs(t, full, g.start) && Yield(full) == tokens
  {
    hide Checked, Sound, ParseTree, FullTree, Run, ShiftsTo, RootIs;
    FreshIsSane(t, g);
    ShiftedTokens(t, [Bottom], tokens, n, end);
    BottomYieldsNothing();
    AcceptTells(t, end, last, n);
    ShiftsAreSound(t, g, [Bottom], tokens, n, end);
    RunIsSound(t, g, end, last, n);
    full := ParseTreeUnfolds(t, g, Run(t, end, last, n).outcome.tree);
  }

  lemma {:induction false} BottomYieldsNothing()
    ensures Yields(Minors([Bottom])) == []
  {
    assert Minors([Bottom]) == [Blank];
    OneMore([], Blank);
    assert [] + [Blank] == [Blank];
  }
}
