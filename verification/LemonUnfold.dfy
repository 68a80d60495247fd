/** The values of the Lemon engine are parse trees up to folded rules; putting these back gives a parse tree of the
    grammar as it was written. */
module LemonUnfold {
  import opened LemonTables
  import opened LemonMachine
  import opened LemonSoundness

  /** A derivation by all rules of the grammar, folded or not. */
  ghost predicate FullTree(t: Tables, g: Grammar, tree: Tree) {
    && !tree.Blank?
    && (tree.Node? ==>
          && tree.rule < |g.rhs| && AllMayBe(t, tree.kids, g.rhs[tree.rule])
          && forall kid :: kid in tree.kids ==> FullTree(t, g, kid))
  }

  ghost predicate AllMayBe(t: Tables, trees: seq<Tree>, rhs: seq<set<nat>>) {
    |trees| == |rhs| && forall i :: 0 <= i < |trees| ==> MayBe(t, trees[i], rhs[i])
  }

  /** The tree without its folded rules. */
  function Collapse(g: Grammar, tree: Tree): Tree {
    match tree
    case Blank => tree
    case Leaf(_) => tree
    case Node(rule, kids) =>
      if rule in g.folded && |kids| == 1 then Collapse(g, kids[0]) else Node(rule, CollapseAll(g, kids))
  }

  function CollapseAll(g: Grammar, trees: seq<Tree>): (r: seq<Tree>)
    ensures |r| == |trees|
  {
    if trees == [] then [] else CollapseAll(g, trees[..|trees| - 1]) + [Collapse(g, trees[|trees| - 1])]
  }

  /** What unfolding keeps. */
  ghost predicate Unfolds(t: Tables, g: Grammar, tree: Tree, full: Tree) {
    FullTree(t, g, full) && Yield(full) == Yield(tree) && Collapse(g, full) == tree
  }

  lemma {:induction false} OneUnit(t: Tables, g: Grammar, tree: Tree, full: Tree, rule: nat, x: nat, y: nat)
    requires Unfolds(t, g, tree, full) && RootIs(t, full, y) && rule in g.folded && IsUnit(t, g, rule, x, y)
    ensures Unfolds(t, g, tree, Node(rule, [full])) && RootIs(t, Node(rule, [full]), x)
  {
    OneMore([], full);
    assert [] + [full] == [full];
    assert MayBe(t, [full][0], g.rhs[rule][0]);
  }

  /** Folded rules from `x` to the root of a tree are put on top of it. */
  lemma {:induction false} AddUnits(t: Tables, g: Grammar, tree: Tree, inner: Tree, x: nat, y: nat, n: nat) returns (full: Tree)
    requires Unfolds(t, g, tree, inner) && RootIs(t, inner, y) && Units(t, g, x, y, n)
    ensures Unfolds(t, g, tree, full) && RootIs(t, full, x)
    decreases n
  {
    hide Unfolds, RootIs, IsUnit;
    full := inner;
    if n > 0 {
      var z: nat :| UnitStep(t, g, x, z) && Units(t, g, z, y, n - 1);
      full := AddUnits(t, g, tree, inner, z, y, n - 1);
      var r: nat :| r in g.folded && IsUnit(t, g, r, x, z);
      OneUnit(t, g, tree, full, r, x, z);
      full := Node(r, [full]);
    }
  }

  /** A tree that fits a position becomes a full tree for one of its symbols. */
  lemma {:induction false} Unfold(t: Tables, g: Grammar, tree: Tree, choice: set<nat>) returns (full: Tree)
    requires Derives(t, g, tree) && LemonSoundness.Fits(t, g, tree, choice)
    ensures Unfolds(t, g, tree, full) && MayBe(t, full, choice)
    decreases tree, 1
  {
    hide Derives, RootIs, FullTree, Unfolds;
    var y: nat :| Admits(t, g, choice, y) && RootIs(t, tree, y);
    var x: nat :| x in choice && StandsAs(t, g, x, y);
    var n: nat :| Units(t, g, x, y, n);
    var inner := UnfoldBelow(t, g, tree);
    SameRoot(t, tree, inner, y);
    full := AddUnits(t, g, tree, inner, x, y, n);
  }

  lemma {:induction false} SameRoot(t: Tables, tree: Tree, inner: Tree, y: nat)
    requires tree == inner || (tree.Node? && inner.Node? && inner.rule == tree.rule)
    requires RootIs(t, tree, y)
    ensures RootIs(t, inner, y)
  {
  }

  lemma {:induction false} UnfoldBelow(t: Tables, g: Grammar, tree: Tree) returns (inner: Tree)
    requires Derives(t, g, tree)
    ensures Unfolds(t, g, tree, inner)
    ensures tree == inner || (tree.Node? && inner.Node? && inner.rule == tree.rule)
    decreases tree, 0
  {
    if tree.Leaf? {
      inner := tree;
    } else {
      hide FullTree, LemonSoundness.Fits, MayBe;
      var kids := UnfoldAll(t, g, tree.kids, g.rhs[tree.rule]);
      inner := Node(tree.rule, kids);
      NodeUnfolds(t, g, tree, kids);
    }
  }

  lemma {:induction false} NodeUnfolds(t: Tables, g: Grammar, tree: Tree, kids: seq<Tree>)
    requires tree.Node? && tree.rule < |g.rhs| && tree.rule !in g.folded
    requires AllMayBe(t, kids, g.rhs[tree.rule]) && Yields(kids) == Yields(tree.kids)
    requires CollapseAll(g, kids) == tree.kids && forall kid :: kid in kids ==> FullTree(t, g, kid)
    ensures Unfolds(t, g, tree, Node(tree.rule, kids))
  {
    hide AllMayBe;
  }

  lemma {:induction false} UnfoldAll(t: Tables, g: Grammar, trees: seq<Tree>, rhs: seq<set<nat>>) returns (full: seq<Tree>)
    requires AllFit(t, g, trees, rhs) && forall tree :: tree in trees ==> Derives(t, g, tree)
    ensures AllMayBe(t, full, rhs) && Yields(full) == Yields(trees) && CollapseAll(g, full) == trees
    ensures forall tree :: tree in full ==> FullTree(t, g, tree)
    decreases trees, 0
  {
    hide Derives, FullTree, LemonSoundness.Fits, MayBe, Collapse, CollapseAll, Yield, Yields;
    full := [];
    if trees == [] {
      NothingUnfolds(g);
    } else {
      var n := |trees| - 1;
      var front, last := trees[..n], trees[n];
      assert last in trees && forall tree :: tree in front ==> tree in trees;
      var some := UnfoldAll(t, g, front, rhs[..n]);
      var one := Unfold(t, g, last, rhs[n]);
      full := some + [one];
      OneMoreUnfolds(t, g, some, one, front, last);
      assert trees == front + [last];
    }
  }

  lemma {:induction false} NothingUnfolds(g: Grammar)
    ensures CollapseAll(g, []) == []
  {
  }

  lemma {:induction false} OneMoreUnfolds(t: Tables, g: Grammar, some: seq<Tree>, one: Tree, front: seq<Tree>, last: Tree)
    requires Yields(some) == Yields(front) && CollapseAll(g, some) == front && Unfolds(t, g, last, one)
    ensures Yields(some + [one]) == Yields(front + [last]) && CollapseAll(g, some + [one]) == front + [last]
    ensures FullTree(t, g, one)
  {
    hide FullTree, Yield, Yields, Collapse;
    OneMore(some, one);
    OneMore(front, last);
    assert (some + [one])[..|some|] == some;
  }

  /** An accepted value comes from a parse tree of the whole grammar with the same tokens. */
  lemma {:induction false} ParseTreeUnfolds(t: Tables, g: Grammar, tree: Tree) returns (full: Tree)
    requires ParseTree(t, g, tree)
    ensures FullTree(t, g, full) && RootIs(t, full, g.start)
    ensures Yield(full) == Yield(tree) && Collapse(g, full) == tree
  {
    hide Derives, FullTree, RootIs;
    full := Unfold(t, g, tree, {g.start});
  }
}
