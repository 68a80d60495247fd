/** Which nodes of a parse tree the walk of FixWalk meets, by the edges of the tree, and what it does to them. */
module FixTree {
  import opened Options
  import opened FixWalk

  // ----- the tree

  datatype Part =
    | AnExpr(expr: Expr) | Exprs(exprs: seq<Expr>) | ASelect(select: Select) | Selects(selects: seq<Select>)
    | AnItem(item: SrcItem) | Items(items: seq<SrcItem>) | AnUpsert(upsert: Upsert) | AStep(step: TriggerStep)

  /** What hangs below a part, in the order in which the source lists it. An expression that is a token or a leaf has
      no operands, and a source item has arguments only if it is a table-valued function. */
  function Kids(p: Part): seq<Part> {
    match p
    case AnExpr(e) =>
      if e.NoExpr? || e.small then []
      else [if e.arg.SubSelect? then ASelect(e.arg.select) else Exprs(e.arg.list), AnExpr(e.right), AnExpr(e.left)]
    case Exprs(list) => ExprParts(list)
    case ASelect(s) =>
      if s.NoSelect? then []
      else
        [Exprs(s.eList), Items(s.src), AnExpr(s.where_), Exprs(s.groupBy), AnExpr(s.having), Exprs(s.orderBy),
         AnExpr(s.limit), Selects(s.with_), ASelect(s.prior)]
    case Selects(list) => SelectParts(list)
    case AnItem(item) =>
      [ASelect(item.select), AnExpr(item.on)] + (if item.isTabFunc then [Exprs(item.funcArg)] else [])
    case Items(list) => ItemParts(list)
    case AnUpsert(u) =>
      if u.NoUpsert? then [] else [Exprs(u.target), AnExpr(u.targetWhere), Exprs(u.set_), AnExpr(u.where_)]
    case AStep(t) =>
      if t.NoStep? then []
      else [ASelect(t.select), AnExpr(t.where_), Exprs(t.exprList), AnUpsert(t.upsert), AStep(t.next)]
  }

  function ExprParts(list: seq<Expr>): (parts: seq<Part>)
    ensures |parts| == |list| && forall i :: 0 <= i < |list| ==> parts[i] == AnExpr(list[i])
  {
    seq(|list|, i requires 0 <= i < |list| => AnExpr(list[i]))
  }

  function SelectParts(list: seq<Select>): (parts: seq<Part>)
    ensures |parts| == |list| && forall i :: 0 <= i < |list| ==> parts[i] == ASelect(list[i])
  {
    seq(|list|, i requires 0 <= i < |list| => ASelect(list[i]))
  }

  function ItemParts(list: seq<SrcItem>): (parts: seq<Part>)
    ensures |parts| == |list| && forall i :: 0 <= i < |list| ==> parts[i] == AnItem(list[i])
  {
    seq(|list|, i requires 0 <= i < |list| => AnItem(list[i]))
  }

  /** The node that a part is, if it is one. */
  function Own(p: Part): seq<Visit> {
    match p
    case AnExpr(e) => if e.NoExpr? then [] else [Node(e.id)]
    case AnItem(item) => [Item(item.id)]
    case _ => []
  }

  ghost predicate IsPath(path: seq<Part>) {
    path != [] && forall i :: 0 <= i < |path| - 1 ==> path[i + 1] in Kids(path[i])
  }

  ghost predicate LeadsTo(path: seq<Part>, visit: Visit) {
    IsPath(path) && visit in Own(path[|path| - 1])
  }

  /** The node belongs to the tree below `root`. */
  ghost predicate Reaches(root: Part, visit: Visit) {
    exists path :: LeadsTo(path, visit) && path[0] == root
  }

  // ----- the walk

  function Visits(p: Part): seq<Visit> {
    match p
    case AnExpr(e) => VisitExpr(e)
    case Exprs(list) => VisitList(list)
    case ASelect(s) => VisitSelect(s)
    case Selects(list) => VisitWith(list)
    case AnItem(item) => VisitItem(item)
    case Items(list) => VisitSrc(list)
    case AnUpsert(u) => VisitUpsert(u)
    case AStep(t) => VisitStep(t)
  }

  function AllVisits(parts: seq<Part>): seq<Visit> {
    if parts == [] then [] else AllVisits(parts[..|parts| - 1]) + Visits(parts[|parts| - 1])
  }

  lemma {:induction false} OneMore(parts: seq<Part>, p: Part)
    ensures AllVisits(parts + [p]) == AllVisits(parts) + Visits(p)
  {
    assert (parts + [p])[..|parts|] == parts;
  }

  lemma {:induction false} OneFirst(p: Part, parts: seq<Part>)
    ensures AllVisits([p] + parts) == Visits(p) + AllVisits(parts)
    decreases |parts|
  {
    hide Visits;
    if parts == [] {
      assert [p] + parts == [] + [p];
      OneMore([], p);
    } else {
      var front, last := parts[..|parts| - 1], parts[|parts| - 1];
      OneFirst(p, front);
      OneMore([p] + front, last);
      assert [p] + front + [last] == [p] + parts;
    }
  }

  /** The walk is the traversal of the tree in preorder: the node itself, and then its kids from first to last. */
  lemma {:induction false} WalkIsPreorder(p: Part)
    ensures Visits(p) == Own(p) + AllVisits(Kids(p))
  {
    match p {
      case AnExpr(e) => ExprIsPreorder(e);
      case Exprs(list) => ListIsPreorder(list);
      case ASelect(s) => SelectIsPreorder(s);
      case Selects(list) => WithIsPreorder(list);
      case AnItem(item) => ItemIsPreorder(item);
      case Items(list) => SrcIsPreorder(list);
      case AnUpsert(u) => UpsertIsPreorder(u);
      case AStep(t) => StepIsPreorder(t);
    }
  }

  lemma {:induction false} NoKids()
    ensures AllVisits([]) == []
  {
  }

  lemma {:induction false} ThreeKids(a: Part, b: Part, c: Part)
    ensures AllVisits([a, b, c]) == Visits(a) + Visits(b) + Visits(c)
    ensures AllVisits([a, b]) == Visits(a) + Visits(b)
  {
    hide Visits, AllVisits;
    NoKids();
    assert [] + [a] == [a];
    OneMore([], a);
    assert [a] + [b] == [a, b];
    OneMore([a], b);
    assert [a, b] + [c] == [a, b, c];
    OneMore([a, b], c);
    assert [] + Visits(a) == Visits(a);
  }

  lemma {:induction false} ExprIsPreorder(e: Expr)
    ensures VisitExpr(e) == Own(AnExpr(e)) + AllVisits(Kids(AnExpr(e)))
  {
    if e.Expr? && !e.small {
      var arg := if e.arg.SubSelect? then ASelect(e.arg.select) else Exprs(e.arg.list);
      hide AllVisits, VisitList, VisitSelect, VisitArg;
      ThreeKids(arg, AnExpr(e.right), AnExpr(e.left));
      ArgVisits(e.arg);
      Regroup([Node(e.id)], Visits(arg), VisitExpr(e.right), VisitExpr(e.left));
    }
  }

  lemma {:induction false} ArgVisits(arg: Arg)
    ensures VisitArg(arg) == Visits(if arg.SubSelect? then ASelect(arg.select) else Exprs(arg.list))
  {
    hide VisitList, VisitSelect;
  }

  lemma {:induction false} Regroup(a: seq<Visit>, b: seq<Visit>, c: seq<Visit>, d: seq<Visit>)
    ensures a + (b + (c + d)) == a + (b + c + d)
  {
  }

  lemma {:induction false} ListIsPreorder(list: seq<Expr>)
    ensures VisitList(list) == AllVisits(Kids(Exprs(list)))
  {
    hide VisitExpr, AllVisits;
    if list != [] {
      ListIsPreorder(list[1..]);
      OneFirst(AnExpr(list[0]), Kids(Exprs(list[1..])));
      assert ExprParts(list) == [AnExpr(list[0])] + ExprParts(list[1..]);
    } else {
      assert ExprParts(list) == [];
      NoKids();
    }
  }

  lemma {:induction false} WithIsPreorder(list: seq<Select>)
    ensures VisitWith(list) == AllVisits(Kids(Selects(list)))
  {
    hide VisitSelect, AllVisits;
    if list != [] {
      WithIsPreorder(list[1..]);
      OneFirst(ASelect(list[0]), Kids(Selects(list[1..])));
      assert SelectParts(list) == [ASelect(list[0])] + SelectParts(list[1..]);
    } else {
      assert SelectParts(list) == [];
      NoKids();
    }
  }

  lemma {:induction false} SrcIsPreorder(list: seq<SrcItem>)
    ensures VisitSrc(list) == AllVisits(Kids(Items(list)))
  {
    hide VisitItem, AllVisits;
    if list != [] {
      SrcIsPreorder(list[1..]);
      OneFirst(AnItem(list[0]), Kids(Items(list[1..])));
      assert ItemParts(list) == [AnItem(list[0])] + ItemParts(list[1..]);
    } else {
      assert ItemParts(list) == [];
      NoKids();
    }
  }

  lemma {:induction false} SelectIsPreorder(s: Select)
    ensures VisitSelect(s) == AllVisits(Kids(ASelect(s)))
  {
    if s.Select? {
      hide VisitExpr, VisitList, VisitSrc, VisitWith, AllVisits;
      NineKids(Exprs(s.eList), Items(s.src), AnExpr(s.where_), Exprs(s.groupBy), AnExpr(s.having), Exprs(s.orderBy),
               AnExpr(s.limit), Selects(s.with_), ASelect(s.prior));
    } else {
      NoKids();
    }
  }

  lemma {:induction false} NineKids(a: Part, b: Part, c: Part, d: Part, e: Part, f: Part, g: Part, h: Part, i: Part)
    ensures AllVisits([a, b, c, d, e, f, g, h, i])
         == Visits(a) + Visits(b) + Visits(c) + Visits(d) + Visits(e) + Visits(f) + Visits(g) + Visits(h) + Visits(i)
  {
    hide Visits, AllVisits;
    ThreeKids(a, b, c);
    Append([a, b, c], d, [a, b, c, d]);
    Append([a, b, c, d], e, [a, b, c, d, e]);
    Append([a, b, c, d, e], f, [a, b, c, d, e, f]);
    Append([a, b, c, d, e, f], g, [a, b, c, d, e, f, g]);
    Append([a, b, c, d, e, f, g], h, [a, b, c, d, e, f, g, h]);
    Append([a, b, c, d, e, f, g, h], i, [a, b, c, d, e, f, g, h, i]);
  }

  lemma {:induction false} FiveKids(a: Part, b: Part, c: Part, d: Part, e: Part)
    ensures AllVisits([a, b, c, d]) == Visits(a) + Visits(b) + Visits(c) + Visits(d)
    ensures AllVisits([a, b, c, d, e]) == Visits(a) + Visits(b) + Visits(c) + Visits(d) + Visits(e)
  {
    hide Visits, AllVisits;
    ThreeKids(a, b, c);
    Append([a, b, c], d, [a, b, c, d]);
    Append([a, b, c, d], e, [a, b, c, d, e]);
  }

  lemma {:induction false} Append(parts: seq<Part>, p: Part, more: seq<Part>)
    requires more == parts + [p]
    ensures AllVisits(more) == AllVisits(parts) + Visits(p)
  {
    OneMore(parts, p);
  }

  lemma {:induction false} ItemIsPreorder(item: SrcItem)
    ensures VisitItem(item) == Own(AnItem(item)) + AllVisits(Kids(AnItem(item)))
  {
    hide VisitExpr, VisitList, VisitSelect, AllVisits;
    ThreeKids(ASelect(item.select), AnExpr(item.on), Exprs(item.funcArg));
    var two := [ASelect(item.select), AnExpr(item.on)];
    assert Kids(AnItem(item)) == if item.isTabFunc then [two[0], two[1], Exprs(item.funcArg)] else two;
  }

  lemma {:induction false} UpsertIsPreorder(u: Upsert)
    ensures VisitUpsert(u) == AllVisits(Kids(AnUpsert(u)))
  {
    if u.Upsert? {
      hide VisitExpr, VisitList, AllVisits;
      FiveKids(Exprs(u.target), AnExpr(u.targetWhere), Exprs(u.set_), AnExpr(u.where_), AnExpr(NoExpr));
    } else {
      NoKids();
    }
  }

  lemma {:induction false} StepIsPreorder(t: TriggerStep)
    ensures VisitStep(t) == AllVisits(Kids(AStep(t)))
  {
    if t.TriggerStep? {
      hide VisitExpr, VisitList, VisitSelect, VisitUpsert, AllVisits;
      FiveKids(ASelect(t.select), AnExpr(t.where_), Exprs(t.exprList), AnUpsert(t.upsert), AStep(t.next));
    } else {
      NoKids();
    }
  }

  // ----- a node is met exactly if it belongs to the tree

  lemma {:induction false} InAllVisits(parts: seq<Part>, visit: Visit)
    ensures visit in AllVisits(parts) <==> exists p :: p in parts && visit in Visits(p)
  {
    hide Visits;
    if parts != [] {
      var front, last := parts[..|parts| - 1], parts[|parts| - 1];
      assert parts == front + [last];
      InAllVisits(front, visit);
    }
  }

  lemma {:induction false} PathIsListed(path: seq<Part>, visit: Visit)
    requires LeadsTo(path, visit)
    ensures visit in Visits(path[0])
    decreases |path|
  {
    hide Visits, Kids, Own;
    WalkIsPreorder(path[0]);
    if |path| > 1 {
      var rest := path[1..];
      forall i | 0 <= i < |rest| - 1 ensures rest[i + 1] in Kids(rest[i]) {
        assert path[i + 1 + 1] in Kids(path[i + 1]);
      }
      PathIsListed(rest, visit);
      assert path[0 + 1] in Kids(path[0]);
      InAllVisits(Kids(path[0]), visit);
    }
  }

  lemma {:induction false} OneStepDown(p: Part, kid: Part, visit: Visit)
    requires kid in Kids(p) && Reaches(kid, visit)
    ensures Reaches(p, visit)
  {
    hide Kids, Own;
    var path :| LeadsTo(path, visit) && path[0] == kid;
    assert LeadsTo([p] + path, visit);
  }

  /** A node that the walk meets is the part itself, or below one of its kids. */
  lemma {:induction false} Downwards(p: Part, visit: Visit) returns (kid: Option<Part>)
    requires visit in Visits(p)
    ensures kid.None? ==> Reaches(p, visit)
    ensures kid.Some? ==> kid.value in Kids(p) && visit in Visits(kid.value)
  {
    hide Visits, Kids, Own;
    WalkIsPreorder(p);
    if visit in Own(p) {
      kid := None;
      assert LeadsTo([p], visit);
    } else {
      InAllVisits(Kids(p), visit);
      var k :| k in Kids(p) && visit in Visits(k);
      kid := Some(k);
    }
  }

  lemma {:induction false} ExprReached(x: Expr, visit: Visit)
    requires visit in Visits(AnExpr(x))
    ensures Reaches(AnExpr(x), visit)
    decreases x
  {
    hide Visits, Own, Reaches;
    var kid := Downwards(AnExpr(x), visit);
    if kid.Some? {
      match kid.value {
        case AnExpr(e) => ExprReached(e, visit);
        case Exprs(list) => ExprsReached(list, visit);
        case ASelect(s) => SelectReached(s, visit);
      }
      OneStepDown(AnExpr(x), kid.value, visit);
    }
  }

  lemma {:induction false} ExprsReached(x: seq<Expr>, visit: Visit)
    requires visit in Visits(Exprs(x))
    ensures Reaches(Exprs(x), visit)
    decreases x
  {
    hide Visits, Own, Reaches;
    var kid := Downwards(Exprs(x), visit);
    if kid.Some? {
      match kid.value {
        case AnExpr(e) => ExprReached(e, visit);
      }
      OneStepDown(Exprs(x), kid.value, visit);
    }
  }

  lemma {:induction false} SelectReached(x: Select, visit: Visit)
    requires visit in Visits(ASelect(x))
    ensures Reaches(ASelect(x), visit)
    decreases x
  {
    hide Visits, Own, Reaches;
    var kid := Downwards(ASelect(x), visit);
    if kid.Some? {
      match kid.value {
        case AnExpr(e) => ExprReached(e, visit);
        case Exprs(list) => ExprsReached(list, visit);
        case ASelect(s) => SelectReached(s, visit);
        case Selects(list) => SelectsReached(list, visit);
        case Items(list) => ItemsReached(list, visit);
      }
      OneStepDown(ASelect(x), kid.value, visit);
    }
  }

  lemma {:induction false} SelectsReached(x: seq<Select>, visit: Visit)
    requires visit in Visits(Selects(x))
    ensures Reaches(Selects(x), visit)
    decreases x
  {
    hide Visits, Own, Reaches;
    var kid := Downwards(Selects(x), visit);
    if kid.Some? {
      match kid.value {
        case ASelect(s) => SelectReached(s, visit);
      }
      OneStepDown(Selects(x), kid.value, visit);
    }
  }

  lemma {:induction false} ItemReached(x: SrcItem, visit: Visit)
    requires visit in Visits(AnItem(x))
    ensures Reaches(AnItem(x), visit)
    decreases x
  {
    hide Visits, Own, Reaches;
    var kid := Downwards(AnItem(x), visit);
    if kid.Some? {
      match kid.value {
        case AnExpr(e) => ExprReached(e, visit);
        case Exprs(list) => ExprsReached(list, visit);
        case ASelect(s) => SelectReached(s, visit);
      }
      OneStepDown(AnItem(x), kid.value, visit);
    }
  }

  lemma {:induction false} ItemsReached(x: seq<SrcItem>, visit: Visit)
    requires visit in Visits(Items(x))
    ensures Reaches(Items(x), visit)
    decreases x
  {
    hide Visits, Own, Reaches;
    var kid := Downwards(Items(x), visit);
    if kid.Some? {
      match kid.value {
        case AnItem(item) => ItemReached(item, visit);
      }
      OneStepDown(Items(x), kid.value, visit);
    }
  }

  lemma {:induction false} UpsertReached(x: Upsert, visit: Visit)
    requires visit in Visits(AnUpsert(x))
    ensures Reaches(AnUpsert(x), visit)
    decreases x
  {
    hide Visits, Own, Reaches;
    var kid := Downwards(AnUpsert(x), visit);
    if kid.Some? {
      match kid.value {
        case AnExpr(e) => ExprReached(e, visit);
        case Exprs(list) => ExprsReached(list, visit);
      }
      OneStepDown(AnUpsert(x), kid.value, visit);
    }
  }

  lemma {:induction false} StepReached(x: TriggerStep, visit: Visit)
    requires visit in Visits(AStep(x))
    ensures Reaches(AStep(x), visit)
    decreases x
  {
    hide Visits, Own, Reaches;
    var kid := Downwards(AStep(x), visit);
    if kid.Some? {
      match kid.value {
        case AnExpr(e) => ExprReached(e, visit);
        case Exprs(list) => ExprsReached(list, visit);
        case ASelect(s) => SelectReached(s, visit);
        case AnUpsert(u) => UpsertReached(u, visit);
        case AStep(t) => StepReached(t, visit);
      }
      OneStepDown(AStep(x), kid.value, visit);
    }
  }

  /** The walk meets exactly the nodes of the tree. */
  lemma {:induction false} MeetsExactly(root: Part, visit: Visit)
    ensures visit in Visits(root) <==> Reaches(root, visit)
  {
    hide Visits;
    if visit in Visits(root) {
      match root {
        case AnExpr(e) => ExprReached(e, visit);
        case Exprs(list) => ExprsReached(list, visit);
        case ASelect(s) => SelectReached(s, visit);
        case Selects(list) => SelectsReached(list, visit);
        case AnItem(item) => ItemReached(item, visit);
        case Items(list) => ItemsReached(list, visit);
        case AnUpsert(u) => UpsertReached(u, visit);
        case AStep(t) => StepReached(t, visit);
      }
    }
    if Reaches(root, visit) {
      var path :| LeadsTo(path, visit) && path[0] == root;
      PathIsListed(path, visit);
    }
  }

  // ----- verdict and effect

  /** Nothing below is qualified with another database, nor a variable, unless that is allowed. */
  ghost predicate Clean(goal: Goal, fields: Fields, root: Part) {
    && (goal.temp ||
        forall id :: id in fields.database && Reaches(root, Item(id)) ==> SameName(fields.database[id], goal.zDb))
    && (goal.busy || forall id :: id in fields.op && Reaches(root, Node(id)) ==> fields.op[id] != Variable)
  }

  /** What is left of the fields: variables below are NULL; items below are unqualified and bound to the target schema,
      unless that is the TEMP database's; all else is as it was. */
  ghost predicate FixedBelow(goal: Goal, before: Fields, after: Fields, root: Part) {
    && (forall id :: id in after.op <==> id in before.op)
    && (forall id :: id in before.op ==>
          after.op[id] == if before.op[id] == Variable && Reaches(root, Node(id)) then Null else before.op[id])
    && (forall id :: id in after.database <==> id in before.database && (goal.temp || !Reaches(root, Item(id))))
    && (forall id :: id in after.database ==> after.database[id] == before.database[id])
    && (forall id :: id in after.schemaOf <==> id in before.schemaOf || (!goal.temp && Reaches(root, Item(id))))
    && (forall id :: id in after.schemaOf ==>
          after.schemaOf[id] == if !goal.temp && Reaches(root, Item(id)) then goal.schema else before.schemaOf[id])
  }

  /** A node below that is what the message says. */
  ghost predicate Blamed(goal: Goal, fields: Fields, root: Part, error: FixError) {
    match error
    case NoVariables =>
      !goal.busy && exists id :: id in fields.op && fields.op[id] == Variable && Reaches(root, Node(id))
    case WrongDatabase(name) =>
      !goal.temp && !SameName(name, goal.zDb)
      && exists id :: id in fields.database && fields.database[id] == name && Reaches(root, Item(id))
  }

  /** What a walk over the tree achieves. */
  lemma {:induction false} WalkAchieves(goal: Goal, fields: Fields, root: Part)
    ensures var r := Walk(goal, fields, Visits(root));
            && (r.Ok? <==> Clean(goal, fields, root)) && (r.Ok? ==> FixedBelow(goal, fields, r.fields, root))
            && (r.Failed? ==> Blamed(goal, fields, root, r.error))
  {
    hide Visits, Reaches, Walk, SameName;
    forall visit ensures visit in Visits(root) <==> Reaches(root, visit) {
      MeetsExactly(root, visit);
    }
    hide Clean, NoComplaint, FixedBelow, Fixed, Blamed, FirstComplaint;
    var visits := Visits(root);
    Verdict(goal, fields, visits);
    CleanIsNoComplaint(goal, fields, root);
    if Walk(goal, fields, visits).Ok? {
      Effect(goal, fields, visits);
      FixedIsBelow(goal, fields, Walk(goal, fields, visits).fields, root);
    } else {
      var i := FirstOf(goal, fields, visits);
      Failure(goal, fields, visits, i);
      FirstIsBlamed(goal, fields, root, i);
    }
  }

  lemma {:induction false} FixedIsBelow(goal: Goal, before: Fields, after: Fields, root: Part)
    requires forall visit :: visit in Visits(root) <==> Reaches(root, visit)
    requires Fixed(goal, before, after, Visits(root))
    ensures FixedBelow(goal, before, after, root)
  {
    hide Visits, Reaches;
  }

  lemma {:induction false} FirstIsBlamed(goal: Goal, fields: Fields, root: Part, i: nat)
    requires forall visit :: visit in Visits(root) <==> Reaches(root, visit)
    requires FirstComplaint(goal, fields, Visits(root), i)
    ensures Blamed(goal, fields, root, Complaint(goal, fields, Visits(root)[i]).value)
  {
    hide Visits, Reaches, SameName;
    assert Visits(root)[i] in Visits(root);
  }

  lemma {:induction false} CleanIsNoComplaint(goal: Goal, fields: Fields, root: Part)
    requires forall visit :: visit in Visits(root) <==> Reaches(root, visit)
    ensures NoComplaint(goal, fields, Visits(root)) <==> Clean(goal, fields, root)
  {
    hide Visits, Reaches, SameName;
    if NoComplaint(goal, fields, Visits(root)) {
      forall id | Reaches(root, Item(id)) ensures Complaint(goal, fields, Item(id)) == None {
        assert Item(id) in Visits(root);
      }
      forall id | Reaches(root, Node(id)) ensures Complaint(goal, fields, Node(id)) == None {
        assert Node(id) in Visits(root);
      }
    }
  }

  lemma {:induction false} FirstOf(goal: Goal, fields: Fields, visits: seq<Visit>) returns (i: nat)
    requires !NoComplaint(goal, fields, visits)
    ensures FirstComplaint(goal, fields, visits, i)
    decreases |visits|
  {
    hide Complaint;
    var front, last := visits[..|visits| - 1], visits[|visits| - 1];
    assert visits == front + [last];
    if NoComplaint(goal, fields, front) {
      i := |visits| - 1;
    } else {
      i := FirstOf(goal, fields, front);
      assert visits[..i] == front[..i] && visits[i] == front[i];
    }
  }

  // ----- names

  /** The same letter, whatever its case. */
  predicate SameLetter(a: char, b: char) {
    a == b || ('A' <= a <= 'Z' && b as int == a as int + 32) || ('A' <= b <= 'Z' && a as int == b as int + 32)
  }

  lemma {:induction false} NamesIgnoreCase(a: string, b: string)
    ensures SameName(a, b) <==> |a| == |b| && forall i :: 0 <= i < |a| ==> SameLetter(a[i], b[i])
  {
  }
}
