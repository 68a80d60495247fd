/** The routines of attach.c that tie a view, trigger or index to one database.

    The shape of a parse tree is a value; the fields the walk overwrites (the database name and the schema of a source
    item, the operator of an expression) are kept in maps by node number, so that one node may be met twice. */
module FixWalk {
  import opened Options

  // ----- parse trees

  /** `small` is the flag EP_TokenOnly|EP_Leaf: such a node has no operands to look at. */
  datatype Expr = NoExpr | Expr(id: nat, small: bool, arg: Arg, right: Expr, left: Expr)

  /** The union x of an expression, told apart by EP_xIsSelect. */
  datatype Arg = SubSelect(select: Select) | Args(list: seq<Expr>)

  datatype Select =
    | NoSelect
    | Select(eList: seq<Expr>, src: seq<SrcItem>, where_: Expr, groupBy: seq<Expr>, having: Expr,
             orderBy: seq<Expr>, limit: Expr, with_: seq<Select>, prior: Select)

  datatype SrcItem = SrcItem(id: nat, select: Select, on: Expr, isTabFunc: bool, funcArg: seq<Expr>)

  datatype Upsert = NoUpsert | Upsert(target: seq<Expr>, targetWhere: Expr, set_: seq<Expr>, where_: Expr)

  datatype TriggerStep =
    | NoStep
    | TriggerStep(select: Select, where_: Expr, exprList: seq<Expr>, upsert: Upsert, next: TriggerStep)

  // ----- the nodes a walk meets, in order

  datatype Visit = Item(id: nat) | Node(id: nat)

  function VisitExpr(e: Expr): seq<Visit>
    decreases e
  {
    if e.NoExpr? then []
    else if e.small then [Node(e.id)]
    else [Node(e.id)] + (VisitArg(e.arg) + (VisitExpr(e.right) + VisitExpr(e.left)))
  }

  function VisitArg(arg: Arg): seq<Visit>
    decreases arg
  {
    match arg
    case SubSelect(select) => VisitSelect(select)
    case Args(list) => VisitList(list)
  }

  function VisitList(list: seq<Expr>): seq<Visit>
    decreases list
  {
    if list == [] then [] else VisitExpr(list[0]) + VisitList(list[1..])
  }

  function VisitSelect(s: Select): seq<Visit>
    decreases s
  {
    if s.NoSelect? then []
    else VisitOne(s) + VisitSelect(s.prior)
  }

  /** One member of a compound SELECT. */
  function VisitOne(s: Select): seq<Visit>
    requires s.Select?
    decreases s, 0
  {
    VisitList(s.eList) + VisitSrc(s.src) + VisitExpr(s.where_) + VisitList(s.groupBy) + VisitExpr(s.having)
    + VisitList(s.orderBy) + VisitExpr(s.limit) + VisitWith(s.with_)
  }

  function VisitSrc(items: seq<SrcItem>): seq<Visit>
    decreases items
  {
    if items == [] then [] else VisitItem(items[0]) + VisitSrc(items[1..])
  }

  function VisitItem(item: SrcItem): seq<Visit>
    decreases item
  {
    [Item(item.id)] + VisitSelect(item.select) + VisitExpr(item.on)
    + (if item.isTabFunc then VisitList(item.funcArg) else [])
  }

  function VisitWith(selects: seq<Select>): seq<Visit>
    decreases selects
  {
    if selects == [] then [] else VisitSelect(selects[0]) + VisitWith(selects[1..])
  }

  function VisitUpsert(u: Upsert): seq<Visit> {
    if u.NoUpsert? then []
    else VisitList(u.target) + VisitExpr(u.targetWhere) + VisitList(u.set_) + VisitExpr(u.where_)
  }

  function VisitStep(step: TriggerStep): seq<Visit> {
    if step.NoStep? then [] else VisitAction(step) + VisitStep(step.next)
  }

  /** The parts of one step. */
  function VisitAction(step: TriggerStep): seq<Visit>
    requires step.TriggerStep?
  {
    VisitSelect(step.select) + VisitExpr(step.where_) + VisitList(step.exprList) + VisitUpsert(step.upsert)
  }

  // ----- what is done at a node

  datatype Op = Variable | Null | Other(code: nat)

  datatype FixError = WrongDatabase(name: string) | NoVariables

  /** `temp` is bVarOnly: in the TEMP database only variables are looked at. `busy` is set while a schema is read. */
  datatype Goal = Goal(zDb: string, schema: nat, temp: bool, busy: bool)

  /** An item not in `database` has no explicit database name. */
  datatype Fields = Fields(database: map<nat, string>, schemaOf: map<nat, nat>, op: map<nat, Op>)

  datatype Outcome = Ok(fields: Fields) | Failed(fields: Fields, error: FixError)

  function Lower(c: char): char {
    if 'A' <= c <= 'Z' then c + 32 as char else c
  }

  /** sqlite3StrICmp yields zero. */
  predicate SameName(a: string, b: string) {
    |a| == |b| && forall i :: 0 <= i < |a| ==> Lower(a[i]) == Lower(b[i])
  }

  predicate IsVariable(fields: Fields, id: nat) {
    id in fields.op && fields.op[id] == Variable
  }

  /** The complaint about a node, if there is one. */
  function Complaint(goal: Goal, fields: Fields, visit: Visit): Option<FixError> {
    match visit
    case Item(id) =>
      if !goal.temp && id in fields.database && !SameName(fields.database[id], goal.zDb)
      then Some(WrongDatabase(fields.database[id])) else None
    case Node(id) =>
      if IsVariable(fields, id) && !goal.busy then Some(NoVariables) else None
  }

  /** The update of a node without complaint. */
  function Fix(goal: Goal, fields: Fields, visit: Visit): Fields {
    match visit
    case Item(id) =>
      if goal.temp then fields
      else fields.(database := fields.database - {id}, schemaOf := fields.schemaOf[id := goal.schema])
    case Node(id) =>
      if IsVariable(fields, id) then fields.(op := fields.op[id := Null]) else fields
  }

  function Walk(goal: Goal, fields: Fields, visits: seq<Visit>): Outcome
    decreases |visits|
  {
    if visits == [] then Ok(fields)
    else
      match Complaint(goal, fields, visits[0])
      case Some(error) => Failed(fields, error)
      case None => Walk(goal, Fix(goal, fields, visits[0]), visits[1..])
  }

  lemma {:induction false} WalkConcat(goal: Goal, fields: Fields, a: seq<Visit>, b: seq<Visit>)
    ensures
      var first := Walk(goal, fields, a);
      Walk(goal, fields, a + b) == if first.Ok? then Walk(goal, first.fields, b) else first
    decreases |a|
  {
    if a == [] {
      assert a + b == b;
    } else {
      assert (a + b)[1..] == a[1..] + b;
      if Complaint(goal, fields, a[0]) == None {
        WalkConcat(goal, Fix(goal, fields, a[0]), a[1..], b);
      }
    }
  }

  // ----- what a walk achieves

  /** Fixing a node takes no complaint away from another and raises none. */
  lemma {:induction false} FixKeepsComplaints(goal: Goal, fields: Fields, done: Visit, other: Visit)
    requires Complaint(goal, fields, done) == None
    ensures Complaint(goal, Fix(goal, fields, done), other) == Complaint(goal, fields, other)
  {
  }

  ghost predicate NoComplaint(goal: Goal, fields: Fields, visits: seq<Visit>) {
    forall visit :: visit in visits ==> Complaint(goal, fields, visit) == None
  }

  /** The first node that gives cause for complaint; the number of nodes if there is none. */
  ghost predicate FirstComplaint(goal: Goal, fields: Fields, visits: seq<Visit>, i: nat) {
    i < |visits| && NoComplaint(goal, fields, visits[..i]) && Complaint(goal, fields, visits[i]).Some?
  }

  lemma {:induction false} ComplaintsAfterFix(goal: Goal, fields: Fields, done: Visit)
    requires Complaint(goal, fields, done) == None
    ensures forall other :: Complaint(goal, Fix(goal, fields, done), other) == Complaint(goal, fields, other)
  {
    forall other
      ensures Complaint(goal, Fix(goal, fields, done), other) == Complaint(goal, fields, other)
    {
      FixKeepsComplaints(goal, fields, done, other);
    }
  }

  /** The walk returns 0 exactly if no node gives cause for complaint, judged on the tree as it was before the walk. */
  lemma {:induction false} Verdict(goal: Goal, fields: Fields, visits: seq<Visit>)
    ensures Walk(goal, fields, visits).Ok? <==> NoComplaint(goal, fields, visits)
    decreases |visits|
  {
    if visits != [] {
      assert visits == [visits[0]] + visits[1..];
      if Complaint(goal, fields, visits[0]) == None {
        ComplaintsAfterFix(goal, fields, visits[0]);
        Verdict(goal, Fix(goal, fields, visits[0]), visits[1..]);
      }
    }
  }

  /** If it fails, it reports the first node that gives cause, and has fixed exactly the nodes before it. */
  lemma {:induction false} Failure(goal: Goal, fields: Fields, visits: seq<Visit>, i: nat)
    requires FirstComplaint(goal, fields, visits, i)
    ensures
      var before := Walk(goal, fields, visits[..i]);
      before.Ok? && Walk(goal, fields, visits) == Failed(before.fields, Complaint(goal, fields, visits[i]).value)
  {
    Verdict(goal, fields, visits[..i]);
    WalkConcat(goal, fields, visits[..i], visits[i..]);
    assert visits == visits[..i] + visits[i..];
    ComplaintsAfterWalk(goal, fields, visits[..i], visits[i]);
  }

  lemma {:induction false} ComplaintsAfterWalk(goal: Goal, fields: Fields, visits: seq<Visit>, other: Visit)
    requires Walk(goal, fields, visits).Ok?
    ensures Complaint(goal, Walk(goal, fields, visits).fields, other) == Complaint(goal, fields, other)
    decreases |visits|
  {
    if visits != [] {
      FixKeepsComplaints(goal, fields, visits[0], other);
      ComplaintsAfterWalk(goal, Fix(goal, fields, visits[0]), visits[1..], other);
    }
  }

  /** What a field is after a successful walk over these nodes. */
  ghost predicate Fixed(goal: Goal, before: Fields, after: Fields, visits: seq<Visit>) {
    && (forall id :: id in after.op <==> id in before.op)
    && (forall id :: id in before.op ==>
          after.op[id] == if Node(id) in visits && before.op[id] == Variable then Null else before.op[id])
    && (if goal.temp then after.database == before.database && after.schemaOf == before.schemaOf
        else ItemsFixed(goal, before, after, visits))
  }

  /** Visited items are unqualified and bound to the target schema; the others are as they were. */
  ghost predicate ItemsFixed(goal: Goal, before: Fields, after: Fields, visits: seq<Visit>) {
    && (forall id :: id in after.database <==> id in before.database && Item(id) !in visits)
    && (forall id :: id in after.database ==> after.database[id] == before.database[id])
    && (forall id :: id in after.schemaOf <==> id in before.schemaOf || Item(id) in visits)
    && (forall id :: id in after.schemaOf ==>
          after.schemaOf[id] == if Item(id) in visits then goal.schema else before.schemaOf[id])
  }

  /** A successful walk changes every visited node as it must be, and nothing else. */
  lemma {:induction false} Effect(goal: Goal, fields: Fields, visits: seq<Visit>)
    requires Walk(goal, fields, visits).Ok?
    ensures Fixed(goal, fields, Walk(goal, fields, visits).fields, visits)
    decreases |visits|
  {
    if visits != [] {
      assert visits == [visits[0]] + visits[1..];
      Effect(goal, Fix(goal, fields, visits[0]), visits[1..]);
    }
  }

  /** After a successful walk no visited node is a variable. */
  lemma {:induction false} NoVariableLeft(goal: Goal, fields: Fields, visits: seq<Visit>, id: nat)
    requires Walk(goal, fields, visits).Ok? && Node(id) in visits
    ensures !IsVariable(Walk(goal, fields, visits).fields, id)
  {
    Effect(goal, fields, visits);
  }

  /** A second walk over the same nodes succeeds and changes nothing. */
  lemma {:induction false} Idempotent(goal: Goal, fields: Fields, visits: seq<Visit>)
    requires Walk(goal, fields, visits).Ok?
    ensures
      var once := Walk(goal, fields, visits).fields;
      Walk(goal, once, visits) == Ok(once)
  {
    var once := Walk(goal, fields, visits).fields;
    forall visit | visit in visits
      ensures Complaint(goal, once, visit) == None
    {
      Verdict(goal, fields, visits);
      ComplaintsAfterWalk(goal, fields, visits, visit);
    }
    Verdict(goal, once, visits);
    Effect(goal, fields, visits);
    Effect(goal, once, visits);
    var twice := Walk(goal, once, visits).fields;
    assert twice.op == once.op;
    assert twice.database == once.database;
    assert twice.schemaOf == once.schemaOf;
  }
}
