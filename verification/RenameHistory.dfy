/** What the rename-token lists keep over any sequence of steps while a statement is parsed and walked (alter.c). */
module RenameHistory {
  import opened RenameText
  import opened RenameList

  /** sqlite3RenameTokenMap, sqlite3RenameTokenRemap, renameTokenFind. */
  datatype Step = Map(p: Element, t: Token) | Remap(to: Element, from: Element) | Find(p: Element)

  datatype Lists = Lists(parse: List, ctx: List, nList: nat)

  /** The effect of a step, as the methods of `Parse` promise it. */
  function Apply(lists: Lists, step: Step): Lists {
    match step
    case Map(p, t) => lists.(parse := [(p, t)] + lists.parse)
    case Remap(to, from) => lists.(parse := Remapped(lists.parse, to, from))
    case Find(p) =>
      var k := First(lists.parse, p);
      if k < |lists.parse| then
        Lists(Without(lists.parse, k), [lists.parse[k]] + lists.ctx, lists.nList + 1)
      else lists
  }

  function Play(lists: Lists, steps: seq<Step>): Lists
    decreases |steps|
  {
    if steps == [] then lists else Play(Apply(lists, steps[0]), steps[1..])
  }

  function Spelled(list: List): (tokens: seq<Token>)
    ensures |tokens| == |list| && forall i :: 0 <= i < |list| ==> tokens[i] == list[i].1
  {
    seq(|list|, i requires 0 <= i < |list| => list[i].1)
  }

  function Mapped(steps: seq<Step>): seq<Token> {
    if steps == [] then [] else (if steps[0].Map? then [steps[0].t] else []) + Mapped(steps[1..])
  }

  ghost predicate Absent(list: List, p: Element) {
    forall i :: 0 <= i < |list| ==> list[i].0 != p
  }

  /** No parse-tree element owns two tokens; the null element may. */
  ghost predicate NoElementTwice(list: List) {
    forall i, j :: 0 <= i < j < |list| && list[i].0 == list[j].0 ==> list[i].0 == 0
  }

  /** The assumption of renameTokenCheckAll: a new element is not in the list yet. */
  ghost predicate FreshSteps(lists: Lists, steps: seq<Step>)
    decreases |steps|
  {
    steps == [] ||
    (&& (steps[0].Map? ==> Absent(lists.parse, steps[0].p))
     && (steps[0].Remap? ==> steps[0].to == 0 || Absent(lists.parse, steps[0].to))
     && FreshSteps(Apply(lists, steps[0]), steps[1..]))
  }

  lemma {:induction false} TakeOne(list: List, k: nat)
    requires k < |list|
    ensures multiset(Spelled(list)) == multiset(Spelled(Without(list, k))) + multiset{list[k].1}
  {
    var tokens := Spelled(list);
    assert tokens == tokens[..k] + [tokens[k]] + tokens[k + 1..];
    assert Spelled(Without(list, k)) == tokens[..k] + tokens[k + 1..];
  }

  lemma {:induction false} AddOne(e: (Element, Token), list: List)
    ensures multiset(Spelled([e] + list)) == multiset{e.1} + multiset(Spelled(list))
  {
    assert Spelled([e] + list) == [e.1] + Spelled(list);
  }

  function Everything(lists: Lists): multiset<Token> {
    multiset(Spelled(lists.parse)) + multiset(Spelled(lists.ctx))
  }

  lemma {:induction false} StepConserves(lists: Lists, step: Step)
    ensures
      var next := Apply(lists, step);
      && Everything(next) == Everything(lists) + (if step.Map? then multiset{step.t} else multiset{})
      && next.nList - |next.ctx| == lists.nList - |lists.ctx|
  {
    match step {
      case Map(p, t) => AddOne((p, t), lists.parse);
      case Remap(to, from) =>
        assert Spelled(Remapped(lists.parse, to, from)) == Spelled(lists.parse);
      case Find(p) =>
        var k := First(lists.parse, p);
        if k < |lists.parse| {
          TakeOne(lists.parse, k);
          AddOne(lists.parse[k], lists.ctx);
        }
    }
  }

  lemma {:induction false} RemapKeepsElements(list: List, to: Element, from: Element)
    requires NoElementTwice(list) && (to == 0 || Absent(list, to))
    ensures NoElementTwice(Remapped(list, to, from))
  {
  }

  lemma {:induction false} FindKeepsElements(list: List, k: nat)
    requires NoElementTwice(list) && k < |list|
    ensures NoElementTwice(Without(list, k))
  {
    var rest := Without(list, k);
    forall i, j | 0 <= i < j < |rest| && rest[i].0 == rest[j].0
      ensures rest[i].0 == 0
    {
      var i', j' := if i < k then i else i + 1, if j < k then j else j + 1;
      assert rest[i] == list[i'] && rest[j] == list[j'];
    }
  }

  lemma {:induction false} StepKeepsElements(lists: Lists, step: Step)
    requires NoElementTwice(lists.parse) && FreshSteps(lists, [step])
    ensures NoElementTwice(Apply(lists, step).parse)
  {
    hide Remapped, Without;
    match step {
      case Map(p, t) =>
      case Remap(to, from) => RemapKeepsElements(lists.parse, to, from);
      case Find(p) =>
        var k := First(lists.parse, p);
        if k < |lists.parse| {
          FindKeepsElements(lists.parse, k);
        }
    }
  }

  /** Over any sequence of steps with fresh elements: the tokens of both lists are those there were and those mapped
      since, the counter stays in step with the context's list, and no element gets a second token. */
  lemma {:induction false} HistoryConserves(lists: Lists, steps: seq<Step>)
    ensures
      var end := Play(lists, steps);
      && Everything(end) == Everything(lists) + multiset(Mapped(steps))
      && end.nList - |end.ctx| == lists.nList - |lists.ctx|
    ensures NoElementTwice(lists.parse) && FreshSteps(lists, steps) ==> NoElementTwice(Play(lists, steps).parse)
    decreases |steps|
  {
    if steps != [] {
      StepConserves(lists, steps[0]);
      HistoryConserves(Apply(lists, steps[0]), steps[1..]);
      if NoElementTwice(lists.parse) && FreshSteps(lists, steps) {
        assert FreshSteps(lists, [steps[0]]);
        StepKeepsElements(lists, steps[0]);
      }
    } else {
      assert multiset(Mapped(steps)) == multiset{};
    }
  }

  // ----- draining the context

  /** The tokens in the order in which repeated calls of renameColumnTokenNext return them. */
  ghost predicate Drains(list: List, order: seq<Token>)
    decreases |list|
  {
    if list == [] then order == []
    else
      && order != []
      && exists k: nat :: IsLast(list, k) && order[0] == list[k].1 && Drains(Without(list, k), order[1..])
  }

  lemma {:induction false} HeadIsGreatest(list: List, k: nat, order: seq<Token>)
    requires IsLast(list, k) && multiset(order) == multiset(Spelled(list))
    ensures forall j :: 0 <= j < |order| ==> order[j].z <= list[k].1.z
  {
    forall j | 0 <= j < |order|
      ensures order[j].z <= list[k].1.z
    {
      assert order[j] in multiset(Spelled(list));
      var i :| 0 <= i < |list| && Spelled(list)[i] == order[j];
    }
  }

  ghost predicate Descends(order: seq<Token>) {
    forall i, j :: 0 <= i < j < |order| ==> order[i].z >= order[j].z
  }

  lemma {:induction false} DescendsFrom(head: Token, tail: seq<Token>)
    requires Descends(tail) && forall j :: 0 <= j < |tail| ==> tail[j].z <= head.z
    ensures Descends([head] + tail)
  {
  }

  /** They come out from right to left, each exactly once. */
  lemma {:induction false} DrainDescends(list: List, order: seq<Token>)
    requires Drains(list, order)
    ensures multiset(order) == multiset(Spelled(list)) && Descends(order)
    decreases |list|
  {
    if list == [] {
      assert multiset(Spelled(list)) == multiset{};
    } else {
      var k: nat :| IsLast(list, k) && order[0] == list[k].1 && Drains(Without(list, k), order[1..]);
      var tail := order[1..];
      DrainDescends(Without(list, k), tail);
      DrainedFirst(list, k, order);
    }
  }

  /** The token taken out first, before the others. */
  lemma {:induction false} DrainedFirst(list: List, k: nat, order: seq<Token>)
    requires IsLast(list, k) && order != [] && order[0] == list[k].1 && Descends(order[1..])
    requires multiset(order[1..]) == multiset(Spelled(Without(list, k)))
    ensures multiset(order) == multiset(Spelled(list)) && Descends(order)
  {
    assert k < |list|;
    hide Without, Descends, IsLast, Spelled;
    var tail := order[1..];
    assert order == [order[0]] + tail;
    TakeOne(list, k);
    assert multiset(order) == multiset{order[0]} + multiset(tail);
    HeadIsGreatest(list, k, order);
    forall j | 0 <= j < |tail| ensures tail[j].z <= order[0].z {
      assert tail[j] == order[j + 1];
    }
    DescendsFrom(order[0], tail);
  }
}
