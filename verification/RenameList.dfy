/** The rename-token lists of alter.c: singly linked, relinked in place. */
module RenameList {
  import opened RenameText

  /** A parse-tree element; 0 stands for the null pointer. */
  type Element = nat

  type List = seq<(Element, Token)>

  // ----- the operations on values

  /** The position of the first token of an element; the length of the list if there is none. */
  function First(list: List, p: Element): (i: nat)
    ensures i <= |list| && (i < |list| ==> list[i].0 == p) && forall j :: 0 <= j < i ==> list[j].0 != p
  {
    if list == [] || list[0].0 == p then 0 else 1 + First(list[1..], p)
  }

  function Remapped(list: List, to: Element, from: Element): List {
    var i := First(list, from);
    if i < |list| then list[i := (to, list[i].1)] else list
  }

  function Without(list: List, i: nat): List
    requires i < |list|
  {
    list[..i] + list[i + 1..]
  }

  /** The index of the first token that starts furthest to the right. */
  predicate IsLast(list: List, i: nat) {
    && i < |list|
    && (forall j :: 0 <= j < |list| ==> list[j].1.z <= list[i].1.z)
    && (forall j :: 0 <= j < i ==> list[j].1.z < list[i].1.z)
  }

  // ----- linked lists

  class RenameToken {
    var p: Element
    const t: Token
    var pNext: RenameToken?

    constructor (p: Element, t: Token, pNext: RenameToken?)
      ensures this.p == p && this.t == t && this.pNext == pNext
    {
      this.p := p;
      this.t := t;
      this.pNext := pNext;
    }
  }

  ghost function At(nodes: seq<RenameToken>, i: int): RenameToken? {
    if 0 <= i < |nodes| then nodes[i] else null
  }

  /** `nodes` is the chain from `head`. */
  ghost predicate Linked(head: RenameToken?, nodes: seq<RenameToken>)
    reads nodes
  {
    && head == At(nodes, 0)
    && (forall i :: 0 <= i < |nodes| ==> nodes[i].pNext == At(nodes, i + 1))
    && (forall i, j :: 0 <= i < j < |nodes| ==> nodes[i] != nodes[j])
  }

  ghost function Entries(nodes: seq<RenameToken>): (list: List)
    reads nodes
    ensures |list| == |nodes| && forall i :: 0 <= i < |nodes| ==> list[i] == (nodes[i].p, nodes[i].t)
  {
    seq(|nodes|, i requires 0 <= i < |nodes| reads nodes => (nodes[i].p, nodes[i].t))
  }

  /** The assignment through a pointer to a link that takes one token out of a chain. */
  method Unlink(ghost nodes: seq<RenameToken>, ghost k: nat, head: RenameToken?, prev: RenameToken?, target: RenameToken)
    returns (newHead: RenameToken?)
    requires Linked(head, nodes) && k < |nodes| && target == nodes[k] && prev == At(nodes, k - 1)
    modifies prev
    ensures Linked(newHead, nodes[..k] + nodes[k + 1..])
    ensures Entries(nodes[..k] + nodes[k + 1..]) == Without(old(Entries(nodes)), k)
    ensures prev != null ==> prev.p == old(prev.p)
    ensures target.pNext == old(target.pNext)
  {
    hide Without;
    newHead := head;
    if prev == null {
      newHead := target.pNext;
    } else {
      prev.pNext := target.pNext;
    }
    StillLinked(newHead, nodes, k);
    assert Entries(nodes) == old(Entries(nodes));
    EntriesWithout(nodes, k);
  }

  /** A chain with one link led around a node. */
  lemma {:induction false} StillLinked(head: RenameToken?, nodes: seq<RenameToken>, k: nat)
    requires k < |nodes| && head == if k == 0 then At(nodes, 1) else nodes[0]
    requires forall i :: 0 <= i < |nodes| ==> nodes[i].pNext == if i == k - 1 then At(nodes, k + 1) else At(nodes, i + 1)
    requires forall i, j :: 0 <= i < j < |nodes| ==> nodes[i] != nodes[j]
    ensures Linked(head, nodes[..k] + nodes[k + 1..])
  {
    var rest := nodes[..k] + nodes[k + 1..];
    RestAt(nodes, k);
    forall i | 0 <= i < |rest| ensures rest[i].pNext == At(rest, i + 1) {
      assert rest[i] == nodes[Skip(k, i)];
    }
  }

  function Skip(k: nat, i: nat): nat {
    if i < k then i else i + 1
  }

  lemma {:induction false} RestAt(nodes: seq<RenameToken>, k: nat)
    requires k < |nodes|
    ensures
      var rest := nodes[..k] + nodes[k + 1..];
      |rest| == |nodes| - 1 && (forall i :: 0 <= i < |rest| ==> rest[i] == nodes[Skip(k, i)]) && At(rest, 0) == At(nodes, Skip(k, 0))
  {
  }

  lemma {:induction false} EntriesWithout(nodes: seq<RenameToken>, k: nat)
    requires k < |nodes|
    ensures Entries(nodes[..k] + nodes[k + 1..]) == Without(Entries(nodes), k)
  {
  }

  ghost predicate Apart(a: seq<RenameToken>, b: seq<RenameToken>) {
    forall node :: node in a ==> node !in b
  }

  lemma {:induction false} ApartAfterMove(a: seq<RenameToken>, b: seq<RenameToken>, k: nat)
    requires k < |a| && Apart(a, b) && forall i, j :: 0 <= i < j < |a| ==> a[i] != a[j]
    ensures Apart(a[..k] + a[k + 1..], [a[k]] + b) && a[k] !in a[..k] + a[k + 1..] && a[k] !in b
    ensures k > 0 ==> a[k - 1] !in b && a[k - 1] != a[k]
  {
  }

  lemma {:induction false} RestIsInside(nodes: seq<RenameToken>, k: nat)
    requires k < |nodes|
    ensures
      var rest := nodes[..k] + nodes[k + 1..];
      |rest| == |nodes| - 1 && forall i :: 0 <= i < |rest| ==> rest[i] in nodes
  {
  }

  /** RenameCtx: the tokens to overwrite. */
  class RenameCtx {
    var pList: RenameToken?
    var nList: nat
    ghost var nodes: seq<RenameToken>

    ghost predicate Valid()
      reads this, nodes
    {
      Linked(pList, nodes)
    }

    ghost function Tokens(): List
      reads this, nodes
    {
      Entries(nodes)
    }

    constructor ()
      ensures Valid() && Tokens() == [] && nList == 0 && nodes == []
    {
      pList := null;
      nList := 0;
      nodes := [];
    }

    lemma {:induction false} EmptyOrNot()
      requires Valid()
      ensures pList == null <==> nodes == []
    {
    }

    /** Put a token in front. */
    method Push(token: RenameToken)
      requires Valid() && token !in nodes
      modifies this, token`pNext
      ensures Valid() && nodes == [token] + old(nodes) && nList == old(nList) + 1
      ensures Tokens() == [(token.p, token.t)] + old(Tokens())
    {
      token.pNext := pList;
      pList := token;
      nList := nList + 1;
      nodes := [token] + nodes;
    }

    /** The first loop of renameColumnTokenNext: the token that starts furthest to the right. */
    method Best() returns (best: RenameToken, ghost k: nat)
      requires Valid() && nodes != []
      ensures IsLast(Tokens(), k) && best == nodes[k]
    {
      best := pList;
      k := 0;
      ghost var i := 1;
      var pToken := best.pNext;
      while pToken != null
        invariant 1 <= i <= |nodes| && pToken == At(nodes, i)
        invariant k < i && best == nodes[k]
        invariant forall j :: 0 <= j < i ==> nodes[j].t.z <= best.t.z
        invariant forall j :: 0 <= j < k ==> nodes[j].t.z < best.t.z
        decreases |nodes| - i
      {
        if pToken.t.z > best.t.z {
          best, k := pToken, i;
        }
        pToken := pToken.pNext;
        i := i + 1;
      }
    }

    /** Its second loop: the token before the best one. */
    method Before(best: RenameToken, ghost k: nat) returns (prev: RenameToken?)
      requires Valid() && k < |nodes| && best == nodes[k]
      ensures prev == At(nodes, k - 1)
    {
      prev := null;
      var next := pList;
      ghost var m := 0;
      while next != best
        invariant 0 <= m <= k && next == nodes[m] && prev == At(nodes, m - 1)
        decreases k - m
      {
        prev, next := next, next.pNext;
        m := m + 1;
      }
    }

    /** renameColumnTokenNext: unlink and return the token that starts furthest to the right. */
    method TokenNext() returns (best: RenameToken, ghost k: nat)
      requires Valid() && nodes != []
      modifies `pList, `nodes, nodes
      ensures Valid() && k < |old(nodes)| && IsLast(old(Tokens()), k)
      ensures best == old(nodes)[k] && nodes == old(nodes)[..k] + old(nodes)[k + 1..]
      ensures Tokens() == Without(old(Tokens()), k)
    {
      hide IsLast, Without, Linked, Entries;
      best, k := Best();
      var prev := Before(best, k);
      pList := Unlink(nodes, k, pList, prev, best);
      nodes := nodes[..k] + nodes[k + 1..];
    }
  }

  /** The part of the Parse object that maps parse-tree elements to tokens. */
  class Parse {
    var pRename: RenameToken?
    ghost var nodes: seq<RenameToken>

    ghost predicate Valid()
      reads this, nodes
    {
      Linked(pRename, nodes)
    }

    ghost function Tokens(): List
      reads this, nodes
    {
      Entries(nodes)
    }

    constructor ()
      ensures Valid() && Tokens() == [] && nodes == []
    {
      pRename := null;
      nodes := [];
    }

    /** sqlite3RenameTokenMap */
    method TokenMap(pPtr: Element, token: Token)
      requires Valid()
      modifies this
      ensures Valid() && |nodes| > 0 && fresh(nodes[0]) && nodes[1..] == old(nodes)
      ensures Tokens() == [(pPtr, token)] + old(Tokens())
    {
      var pNew := new RenameToken(pPtr, token, pRename);
      assert forall i :: 0 <= i < |nodes| ==> nodes[i] != pNew;
      pRename := pNew;
      nodes := [pNew] + nodes;
      assert nodes[1..] == old(nodes);
    }

    /** sqlite3RenameTokenRemap */
    method TokenRemap(pTo: Element, pFrom: Element)
      requires Valid()
      modifies nodes
      ensures Valid() && Tokens() == Remapped(old(Tokens()), pTo, pFrom)
    {
      var p := pRename;
      ghost var i := 0;
      while p != null
        invariant 0 <= i <= |nodes| && p == At(nodes, i)
        invariant forall j :: 0 <= j < i ==> nodes[j].p != pFrom
        decreases |nodes| - i
      {
        if p.p == pFrom {
          assert First(Tokens(), pFrom) == i;
          p.p := pTo;
          return;
        }
        p := p.pNext;
        i := i + 1;
      }
    }

    /** renameTokenFind: move the first token of an element to the front of the context's list. */
    method TokenFind(ctx: RenameCtx, pPtr: Element)
      requires Valid() && ctx.Valid()
      requires Apart(nodes, ctx.nodes)
      modifies this, ctx, nodes
      ensures Valid() && ctx.Valid()
      ensures Apart(nodes, ctx.nodes)
      ensures
        var list := old(Tokens());
        var k := First(list, pPtr);
        if k < |list| then
          && Tokens() == Without(list, k)
          && ctx.Tokens() == [list[k]] + old(ctx.Tokens()) && ctx.nList == old(ctx.nList) + 1
        else Tokens() == list && ctx.Tokens() == old(ctx.Tokens()) && ctx.nList == old(ctx.nList)
    {
      var prev, pToken, i := Locate(pPtr);
      if pToken != null {
        MoveTo(ctx, prev, pToken, i);
      }
    }

    /** The search of renameTokenFind. */
    method Locate(pPtr: Element) returns (prev: RenameToken?, pToken: RenameToken?, ghost k: nat)
      requires Valid()
      ensures k == First(Tokens(), pPtr) && pToken == At(nodes, k) && prev == At(nodes, k - 1)
    {
      prev, pToken, k := null, pRename, 0;
      while pToken != null && pToken.p != pPtr
        invariant 0 <= k <= |nodes| && pToken == At(nodes, k) && prev == At(nodes, k - 1)
        invariant forall j :: 0 <= j < k ==> nodes[j].p != pPtr
        decreases |nodes| - k
      {
        prev, pToken := pToken, pToken.pNext;
        k := k + 1;
      }
    }

    /** Its relinking: the token goes from this list to the front of the other. */
    method MoveTo(ctx: RenameCtx, prev: RenameToken?, pToken: RenameToken, ghost k: nat)
      requires Valid() && ctx.Valid() && Apart(nodes, ctx.nodes)
      requires k < |nodes| && pToken == nodes[k] && prev == At(nodes, k - 1)
      modifies this, ctx, prev, pToken
      ensures Valid() && ctx.Valid() && Apart(nodes, ctx.nodes)
      ensures Tokens() == Without(old(Tokens()), k)
      ensures ctx.Tokens() == [old(Tokens())[k]] + old(ctx.Tokens()) && ctx.nList == old(ctx.nList) + 1
    {
      ApartAfterMove(nodes, ctx.nodes, k);
      hide Apart, Linked, Without, Entries;
      TakeOut(prev, pToken, k);
      assert ctx.Valid();
      assert ctx.Tokens() == old(ctx.Tokens());
      assert pToken.p == old(pToken.p);
      ctx.Push(pToken);
      assert Valid();
    }

    /** The token leaves this list, and keeps its own link. */
    method TakeOut(prev: RenameToken?, pToken: RenameToken, ghost k: nat)
      requires Valid() && k < |nodes| && pToken == nodes[k] && prev == At(nodes, k - 1)
      modifies this, prev
      ensures Valid() && nodes == old(nodes)[..k] + old(nodes)[k + 1..]
      ensures Tokens() == Without(old(Tokens()), k)
      ensures prev != null ==> prev.p == old(prev.p)
    {
      pRename := Unlink(nodes, k, pRename, prev, pToken);
      nodes := nodes[..k] + nodes[k + 1..];
    }
  }
}
