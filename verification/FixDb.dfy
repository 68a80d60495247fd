/** The mutually recursive routines of attach.c, which overwrite the fields of the nodes as they go; each is proved to
    perform the walk over the nodes of its argument. */
module FixDb {
  import opened Options
  import opened FixWalk
  import opened FixTree

  /** The fields and the message left in the Parse object. */
  datatype Snapshot = Snapshot(fields: Fields, error: Option<FixError>)

  /** A call did the walk over `visits`: zero on success, one and a message on failure. */
  ghost predicate Did(goal: Goal, before: Snapshot, after: Snapshot, visits: seq<Visit>, rc: int) {
    var out := Walk(goal, before.fields, visits);
    && after.fields == out.fields
    && if out.Ok? then rc == 0 && after.error == before.error else rc == 1 && after.error == Some(out.error)
  }

  /** A call after the nodes `seen`: the walk goes on, or stops for good. */
  lemma {:induction false} Next(
    goal: Goal, start: Snapshot, mid: Snapshot, end: Snapshot,
    seen: seq<Visit>, part: seq<Visit>, rest: seq<Visit>, rc: int)
    requires Did(goal, start, mid, seen, 0) && Did(goal, mid, end, part, rc)
    ensures seen + (part + rest) == (seen + part) + rest
    ensures rc == 0 ==> Did(goal, start, end, seen + part, 0)
    ensures rc != 0 ==> Did(goal, start, end, seen + (part + rest), 1)
  {
    WalkConcat(goal, start.fields, seen, part);
    WalkConcat(goal, start.fields, seen + part, rest);
  }

  lemma {:induction false} Nothing(goal: Goal, at: Snapshot)
    ensures Did(goal, at, at, [], 0)
  {
  }

  lemma {:induction false} Done(goal: Goal, start: Snapshot, end: Snapshot, seen: seq<Visit>)
    requires Did(goal, start, end, seen, 0)
    ensures Did(goal, start, end, seen + [], 0)
  {
    assert seen + [] == seen;
  }

  /** A call that is made only if those before it succeeded. */
  lemma {:induction false} Also(
    goal: Goal, start: Snapshot, mid: Snapshot, end: Snapshot, seen: seq<Visit>, part: seq<Visit>, was: int, rc: int)
    requires Did(goal, start, mid, seen, was)
    requires if was == 0 then Did(goal, mid, end, part, rc) else end == mid && rc == was
    ensures Did(goal, start, end, seen + part, rc)
  {
    WalkConcat(goal, start.fields, seen, part);
  }

  /** The same, said of the tree below `root`: zero if and only if it is clean, and then all below is fixed and no more. */
  ghost predicate Achieved(goal: Goal, before: Snapshot, after: Snapshot, root: Part, rc: int) {
    && (rc == 0 <==> Clean(goal, before.fields, root))
    && (rc == 0 ==> FixedBelow(goal, before.fields, after.fields, root) && after.error == before.error)
    && (rc != 0 ==> rc == 1 && after.error.Some? && Blamed(goal, before.fields, root, after.error.value))
  }

  lemma {:induction false} DidAchieves(goal: Goal, before: Snapshot, root: Part)
    ensures forall after, rc :: Did(goal, before, after, Visits(root), rc) ==> Achieved(goal, before, after, root, rc)
  {
    hide Visits, Clean, FixedBelow, Blamed, Walk;
    WalkAchieves(goal, before.fields, root);
  }

  class DbFixer {
    const goal: Goal
    var zDatabase: map<nat, string>
    var pSchema: map<nat, nat>
    var op: map<nat, Op>
    var error: Option<FixError>

    /** sqlite3FixInit; `iDb` 1 is the TEMP database. */
    constructor (iDb: nat, zDbSName: string, schema: nat, busy: bool, fields: Fields)
      ensures goal == Goal(zDbSName, schema, iDb == 1, busy) && Now() == Snapshot(fields, None)
    {
      goal := Goal(zDbSName, schema, iDb == 1, busy);
      zDatabase, pSchema, op := fields.database, fields.schemaOf, fields.op;
      error := None;
    }

    ghost function Now(): Snapshot
      reads this
    {
      Snapshot(Fields(zDatabase, pSchema, op), error)
    }

    /** The test and update of one expression node. */
    method FixNode(id: nat) returns (rc: int)
      modifies this
      ensures Did(goal, old(Now()), Now(), [Node(id)], rc)
    {
      assert [Node(id)][1..] == [];
      if id in op && op[id] == Variable {
        if goal.busy {
          op := op[id := Null];
        } else {
          error := Some(NoVariables);
          return 1;
        }
      }
      return 0;
    }

    /** sqlite3FixExpr */
    method FixExpr(e: Expr) returns (rc: int)
      modifies this
      ensures Did(goal, old(Now()), Now(), VisitExpr(e), rc)
      ensures Achieved(goal, old(Now()), Now(), AnExpr(e), rc)
      decreases e
    {
      hide Achieved, Did;
      DidAchieves(goal, Now(), AnExpr(e));
      Nothing(goal, Now());
      ghost var start := Now();
      ghost var seen: seq<Visit> := [];
      var pExpr := e;
      assert [] + VisitExpr(e) == VisitExpr(e);
      while pExpr.Expr?
        invariant pExpr == e || pExpr < e
        invariant VisitExpr(e) == seen + VisitExpr(pExpr) && Did(goal, start, Now(), seen, 0)
        decreases pExpr
      {
        ghost var rest := if pExpr.small then []
                          else VisitArg(pExpr.arg) + (VisitExpr(pExpr.right) + VisitExpr(pExpr.left));
        assert VisitExpr(pExpr) == [Node(pExpr.id)] + rest;
        ghost var mid := Now();
        rc := FixNode(pExpr.id);
        Next(goal, start, mid, Now(), seen, [Node(pExpr.id)], rest, rc);
        if rc != 0 {
          return 1;
        }
        seen := seen + [Node(pExpr.id)];
        if pExpr.small {
          Done(goal, start, Now(), seen);
          return 0;
        }
        mid := Now();
        if pExpr.arg.SubSelect? {
          rc := FixSelect(pExpr.arg.select);
        } else {
          rc := FixExprList(pExpr.arg.list);
        }
        Next(goal, start, mid, Now(), seen, VisitArg(pExpr.arg), VisitExpr(pExpr.right) + VisitExpr(pExpr.left), rc);
        if rc != 0 {
          return 1;
        }
        seen := seen + VisitArg(pExpr.arg);
        mid := Now();
        rc := FixExpr(pExpr.right);
        Next(goal, start, mid, Now(), seen, VisitExpr(pExpr.right), VisitExpr(pExpr.left), rc);
        if rc != 0 {
          return 1;
        }
        seen := seen + VisitExpr(pExpr.right);
        pExpr := pExpr.left;
      }
      Done(goal, start, Now(), seen);
      return 0;
    }

    /** sqlite3FixExprList */
    method FixExprList(list: seq<Expr>) returns (rc: int)
      modifies this
      ensures Did(goal, old(Now()), Now(), VisitList(list), rc)
      ensures Achieved(goal, old(Now()), Now(), Exprs(list), rc)
      decreases list
    {
      hide Achieved, Did;
      DidAchieves(goal, Now(), Exprs(list));
      Nothing(goal, Now());
      ghost var start := Now();
      ghost var seen: seq<Visit> := [];
      assert [] + VisitList(list) == VisitList(list[0..]);
      for i := 0 to |list|
        invariant VisitList(list) == seen + VisitList(list[i..]) && Did(goal, start, Now(), seen, 0)
      {
        ghost var mid := Now();
        assert list[i..][1..] == list[i + 1..];
        rc := FixExpr(list[i]);
        Next(goal, start, mid, Now(), seen, VisitExpr(list[i]), VisitList(list[i + 1..]), rc);
        if rc != 0 {
          return 1;
        }
        seen := seen + VisitExpr(list[i]);
      }
      Done(goal, start, Now(), seen);
      return 0;
    }

    /** sqlite3FixSelect */
    method FixSelect(s: Select) returns (rc: int)
      modifies this
      ensures Did(goal, old(Now()), Now(), VisitSelect(s), rc)
      ensures Achieved(goal, old(Now()), Now(), ASelect(s), rc)
      decreases s
    {
      hide Achieved, Did;
      DidAchieves(goal, Now(), ASelect(s));
      Nothing(goal, Now());
      ghost var start := Now();
      ghost var seen: seq<Visit> := [];
      var pSelect := s;
      assert [] + VisitSelect(s) == VisitSelect(s);
      while pSelect.Select?
        invariant pSelect == s || pSelect < s
        invariant VisitSelect(s) == seen + VisitSelect(pSelect) && Did(goal, start, Now(), seen, 0)
        decreases pSelect
      {
        ghost var mid := Now();
        rc := FixOne(pSelect);
        Next(goal, start, mid, Now(), seen, VisitOne(pSelect), VisitSelect(pSelect.prior), rc);
        if rc != 0 {
          return 1;
        }
        seen := seen + VisitOne(pSelect);
        pSelect := pSelect.prior;
      }
      Done(goal, start, Now(), seen);
      return 0;
    }

    /** The body of its loop: one member of a compound SELECT. */
    method FixOne(s: Select) returns (rc: int)
      requires s.Select?
      modifies this
      ensures Did(goal, old(Now()), Now(), VisitOne(s), rc)
      decreases s, 0
    {
      hide Did;
      ghost var start := Now();
      ghost var mid: Snapshot;
      ghost var was: int;
      rc := FixExprList(s.eList);
      ghost var seen := VisitList(s.eList);
      was, mid := rc, Now();
      if rc == 0 {
        rc := FixSrcList(s.src);
      }
      Also(goal, start, mid, Now(), seen, VisitSrc(s.src), was, rc);
      seen := seen + VisitSrc(s.src);
      was, mid := rc, Now();
      if rc == 0 {
        rc := FixExpr(s.where_);
      }
      Also(goal, start, mid, Now(), seen, VisitExpr(s.where_), was, rc);
      seen := seen + VisitExpr(s.where_);
      was, mid := rc, Now();
      if rc == 0 {
        rc := FixExprList(s.groupBy);
      }
      Also(goal, start, mid, Now(), seen, VisitList(s.groupBy), was, rc);
      seen := seen + VisitList(s.groupBy);
      was, mid := rc, Now();
      if rc == 0 {
        rc := FixExpr(s.having);
      }
      Also(goal, start, mid, Now(), seen, VisitExpr(s.having), was, rc);
      seen := seen + VisitExpr(s.having);
      was, mid := rc, Now();
      if rc == 0 {
        rc := FixExprList(s.orderBy);
      }
      Also(goal, start, mid, Now(), seen, VisitList(s.orderBy), was, rc);
      seen := seen + VisitList(s.orderBy);
      was, mid := rc, Now();
      if rc == 0 {
        rc := FixExpr(s.limit);
      }
      Also(goal, start, mid, Now(), seen, VisitExpr(s.limit), was, rc);
      seen := seen + VisitExpr(s.limit);
      was, mid := rc, Now();
      if rc == 0 {
        rc := FixWith(s.with_);
      }
      Also(goal, start, mid, Now(), seen, VisitWith(s.with_), was, rc);
      seen := seen + VisitWith(s.with_);
    }

    /** The loop over the common table expressions. */
    method FixWith(selects: seq<Select>) returns (rc: int)
      modifies this
      ensures Did(goal, old(Now()), Now(), VisitWith(selects), rc)
      decreases selects
    {
      ghost var start := Now();
      ghost var seen: seq<Visit> := [];
      assert [] + VisitWith(selects) == VisitWith(selects[0..]);
      for i := 0 to |selects|
        invariant VisitWith(selects) == seen + VisitWith(selects[i..]) && Did(goal, start, Now(), seen, 0)
      {
        ghost var mid := Now();
        assert selects[i..][1..] == selects[i + 1..];
        rc := FixSelect(selects[i]);
        Next(goal, start, mid, Now(), seen, VisitSelect(selects[i]), VisitWith(selects[i + 1..]), rc);
        if rc != 0 {
          return 1;
        }
        seen := seen + VisitSelect(selects[i]);
      }
      Done(goal, start, Now(), seen);
      return 0;
    }

    /** sqlite3FixSrcList */
    method FixSrcList(items: seq<SrcItem>) returns (rc: int)
      modifies this
      ensures Did(goal, old(Now()), Now(), VisitSrc(items), rc)
      ensures Achieved(goal, old(Now()), Now(), Items(items), rc)
      decreases items
    {
      hide Achieved, Did;
      DidAchieves(goal, Now(), Items(items));
      Nothing(goal, Now());
      ghost var start := Now();
      ghost var seen: seq<Visit> := [];
      assert [] + VisitSrc(items) == VisitSrc(items[0..]);
      for i := 0 to |items|
        invariant VisitSrc(items) == seen + VisitSrc(items[i..]) && Did(goal, start, Now(), seen, 0)
      {
        ghost var mid := Now();
        assert items[i..][1..] == items[i + 1..];
        rc := FixItem(items[i]);
        Next(goal, start, mid, Now(), seen, VisitItem(items[i]), VisitSrc(items[i + 1..]), rc);
        if rc != 0 {
          return 1;
        }
        seen := seen + VisitItem(items[i]);
      }
      Done(goal, start, Now(), seen);
      return 0;
    }

    /** The body of its loop. */
    method FixItem(item: SrcItem) returns (rc: int)
      modifies this
      ensures Did(goal, old(Now()), Now(), VisitItem(item), rc)
      decreases item
    {
      hide Did;
      ghost var start := Now();
      ghost var mid: Snapshot;
      ghost var was: int;
      rc := FixName(item.id);
      ghost var seen := [Item(item.id)];
      was, mid := rc, Now();
      if rc == 0 {
        rc := FixSelect(item.select);
      }
      Also(goal, start, mid, Now(), seen, VisitSelect(item.select), was, rc);
      seen := seen + VisitSelect(item.select);
      was, mid := rc, Now();
      if rc == 0 {
        rc := FixExpr(item.on);
      }
      Also(goal, start, mid, Now(), seen, VisitExpr(item.on), was, rc);
      seen := seen + VisitExpr(item.on);
      was, mid := rc, Now();
      ghost var args := if item.isTabFunc then VisitList(item.funcArg) else [];
      if rc == 0 && item.isTabFunc {
        rc := FixExprList(item.funcArg);
      }
      Nothing(goal, mid);
      Also(goal, start, mid, Now(), seen, args, was, rc);
    }

    /** The test and update of the database name of one source item. */
    method FixName(id: nat) returns (rc: int)
      modifies this
      ensures Did(goal, old(Now()), Now(), [Item(id)], rc)
    {
      assert [Item(id)][1..] == [];
      if !goal.temp {
        if id in zDatabase && !SameName(zDatabase[id], goal.zDb) {
          error := Some(WrongDatabase(zDatabase[id]));
          return 1;
        }
        zDatabase := zDatabase - {id};
        pSchema := pSchema[id := goal.schema];
      }
      return 0;
    }

    /** sqlite3FixTriggerStep */
    method FixTriggerStep(step: TriggerStep) returns (rc: int)
      modifies this
      ensures Did(goal, old(Now()), Now(), VisitStep(step), rc)
      ensures Achieved(goal, old(Now()), Now(), AStep(step), rc)
    {
      hide Achieved, Did;
      DidAchieves(goal, Now(), AStep(step));
      Nothing(goal, Now());
      ghost var start := Now();
      ghost var seen: seq<Visit> := [];
      var pStep := step;
      assert [] + VisitStep(step) == VisitStep(step);
      while pStep.TriggerStep?
        invariant VisitStep(step) == seen + VisitStep(pStep) && Did(goal, start, Now(), seen, 0)
        decreases pStep
      {
        ghost var mid := Now();
        rc := FixAction(pStep);
        Next(goal, start, mid, Now(), seen, VisitAction(pStep), VisitStep(pStep.next), rc);
        if rc != 0 {
          return 1;
        }
        seen := seen + VisitAction(pStep);
        pStep := pStep.next;
      }
      Done(goal, start, Now(), seen);
      return 0;
    }

    /** The body of its loop. */
    method FixAction(step: TriggerStep) returns (rc: int)
      requires step.TriggerStep?
      modifies this
      ensures Did(goal, old(Now()), Now(), VisitAction(step), rc)
    {
      hide Did;
      ghost var start := Now();
      ghost var mid: Snapshot;
      ghost var was: int;
      rc := FixSelect(step.select);
      ghost var seen := VisitSelect(step.select);
      was, mid := rc, Now();
      if rc == 0 {
        rc := FixExpr(step.where_);
      }
      Also(goal, start, mid, Now(), seen, VisitExpr(step.where_), was, rc);
      seen := seen + VisitExpr(step.where_);
      was, mid := rc, Now();
      if rc == 0 {
        rc := FixExprList(step.exprList);
      }
      Also(goal, start, mid, Now(), seen, VisitList(step.exprList), was, rc);
      seen := seen + VisitList(step.exprList);
      was, mid := rc, Now();
      if rc == 0 {
        rc := FixUpsert(step.upsert);
      }
      Also(goal, start, mid, Now(), seen, VisitUpsert(step.upsert), was, rc);
      seen := seen + VisitUpsert(step.upsert);
    }

    /** Its treatment of an ON CONFLICT clause. */
    method FixUpsert(u: Upsert) returns (rc: int)
      modifies this
      ensures Did(goal, old(Now()), Now(), VisitUpsert(u), rc)
    {
      if u.NoUpsert? {
        return 0;
      }
      hide Did;
      ghost var start := Now();
      ghost var mid: Snapshot;
      ghost var was: int;
      rc := FixExprList(u.target);
      ghost var seen := VisitList(u.target);
      was, mid := rc, Now();
      if rc == 0 {
        rc := FixExpr(u.targetWhere);
      }
      Also(goal, start, mid, Now(), seen, VisitExpr(u.targetWhere), was, rc);
      seen := seen + VisitExpr(u.targetWhere);
      was, mid := rc, Now();
      if rc == 0 {
        rc := FixExprList(u.set_);
      }
      Also(goal, start, mid, Now(), seen, VisitList(u.set_), was, rc);
      seen := seen + VisitList(u.set_);
      was, mid := rc, Now();
      if rc == 0 {
        rc := FixExpr(u.where_);
      }
      Also(goal, start, mid, Now(), seen, VisitExpr(u.where_), was, rc);
      seen := seen + VisitExpr(u.where_);
    }
  }
}
