/** expr_eliminate_dups, expr_eliminate_eq and expr_eq as expr.c runs them: on the nodes of
    expressions that are changed in place, through addresses of fields inside them. The two
    arguments of expr_eliminate_dups1 are addresses inside one expression. */
module ExprInPlace {
  import opened Expr
  import opened ExprEq
  import opened ExprPaths
  import opened ExprDups
  import opened ExprDupsPlaces
  import opened ExprDupsComplete
  import opened ExprNodes
  import opened ExprSlots

  /** The global join counter. */
  class Statics {
    var transCount: nat

    constructor ()
      ensures transCount == 0
    {
      transCount := 0;
    }
  }

  /** The nodes after a call: `freed` are no longer in use, all others are, and no node of
      the caller was lost. */
  ghost predicate Kept(before: set<Node>, after: set<Node>, freed: set<Node>) {
    after !! freed && before <= after + freed
  }

  lemma KeptTwice(a: set<Node>, b: set<Node>, c: set<Node>, freed1: set<Node>, freed2: set<Node>)
    requires Kept(a, b, freed1) && Kept(b, c, freed2) && freed1 !! c - b
    ensures Kept(a, c, freed1 + freed2)
  {
  }

  /** expr_eliminate_dups1. The ghost arguments say which level the addresses belong to:
      the one whose top is at `top`; from there they lead along p1 and p2. */
  method EliminateDups1(op: Op, ep1: Path, ep2: Path, e: Variable, statics: Statics, ghost top: Path, ghost p1: Path, ghost p2: Path)
      returns (ghost freed: set<Node>)
    requires e.Valid() && Places(op, e.Whole(), top, p1, p2) && ep1 == top + p1 && ep2 == top + p2
    requires HasPath(e.Whole(), ep1) && HasPath(e.Whole(), ep2)
    modifies e, e.nodes, statics
    ensures e.Valid() && fresh(e.nodes - old(e.nodes)) && Kept(old(e.nodes), e.nodes, freed)
    ensures statics.transCount >= old(statics.transCount)
    ensures Called(op, old(e.Whole()), e.Whole(), top, p1, p2, statics.transCount - old(statics.transCount))
    decreases LevelSize(op, e.Whole(), top), Span(op, e.Whole(), top, p1) + Span(op, e.Whole(), top, p2)
  {
    hide Places, Called, LevelSize, Span, ExprPaths.At, Put, HasPath, OnLevel, Join, Part, Kept;
    hide Tree, Linked, Distinct, Nodes, ExprOf, Variable.Valid, Variable.Whole;
    ghost var r0, nodes0 := e.Whole(), e.nodes;
    freed := {};
    Follow(op, r0, top, p1, p2);
    var n1 := e.At(ep1);
    var n2 := e.At(ep2);
    SameNode(e, ep1, ep2);
    if n1.kind == IsBin(op) {
      DescendLeft(op, r0, top, p1, p2);
      Follow(op, r0, top, p1 + [L], p2);
      ghost var freed1 := EliminateDups1(op, ep1 + [L], ep2, e, statics, top, p1 + [L], p2);
      ghost var r1, nodes1, count1 := e.Whole(), e.nodes, statics.transCount - old(statics.transCount);
      AfterCall(op, r0, r1, top, p1 + [L], p2, count1, p1 + [R], p2);
      ghost var freed2 := EliminateDups1(op, ep1 + [R], ep2, e, statics, top, p1 + [R], p2);
      JoinLeft(op, r0, r1, e.Whole(), top, p1, p2, count1, statics.transCount - old(statics.transCount) - count1);
      freed := freed1 + freed2;
      KeptTwice(nodes0, nodes1, e.nodes, freed1, freed2);
    } else if n2.kind == IsBin(op) {
      DescendRight(op, r0, top, p1, p2);
      Follow(op, r0, top, p1, p2 + [L]);
      ghost var freed1 := EliminateDups1(op, ep1, ep2 + [L], e, statics, top, p1, p2 + [L]);
      ghost var r1, nodes1, count1 := e.Whole(), e.nodes, statics.transCount - old(statics.transCount);
      AfterCall(op, r0, r1, top, p1, p2 + [L], count1, p1, p2 + [R]);
      ghost var freed2 := EliminateDups1(op, ep1, ep2 + [R], e, statics, top, p1, p2 + [R]);
      JoinRight(op, r0, r1, e.Whole(), top, p1, p2, count1, statics.transCount - old(statics.transCount) - count1);
      freed := freed1 + freed2;
      KeptTwice(nodes0, nodes1, e.nodes, freed1, freed2);
    } else if n1 == n2 {
      SamePlace(op, r0, top, p1);
      NothingFreed(nodes0);
    } else {
      NothingFreed(nodes0);
      if n1.kind.IsBin? {
        OwnLevel(op, r0, top, p1, p2);
        freed := EliminateDups1(n1.kind.op, ep1, ep1, e, statics, ep1, [], []);
      }
      ghost var nodes1 := e.nodes;
      PairDone(op, r0, e.Whole(), top, p1, p2, statics.transCount - old(statics.transCount));
      ghost var freed1 := JoinOperands(op, ep1, ep2, e, statics);
      KeptTwice(nodes0, nodes1, e.nodes, freed, freed1);
      freed := freed + freed1;
    }
  }

  /** Two addresses are the same exactly when the nodes there are. */
  lemma SameNode(e: Variable, p: Path, q: Path)
    requires e.Valid() && HasPath(e.Whole(), p) && HasPath(e.Whole(), q)
    ensures HasPlace(e.shape, p) && HasPlace(e.shape, q)
    ensures Part(e.shape, p).node == Part(e.shape, q).node <==> p == q
  {
    PlaceAtTop(e.shape, e.top);
    PartIs(e.shape, p);
    PartIs(e.shape, q);
    PartsDiffer(e.shape, p, q);
  }

  lemma NothingFreed(nodes: set<Node>)
    ensures Kept(nodes, nodes, {})
  {
  }

  /** The end of expr_eliminate_dups1: joins two operands, frees them, and puts the unit and
      the join in their places. */
  method JoinOperands(op: Op, ep1: Path, ep2: Path, e: Variable, statics: Statics) returns (ghost freed: set<Node>)
    requires e.Valid() && HasPath(e.Whole(), ep1) && HasPath(e.Whole(), ep2)
    requires Join(op, ExprPaths.At(e.Whole(), ep1), ExprPaths.At(e.Whole(), ep2)).Some?
             ==> HasPath(Put(e.Whole(), ep1, Symbol(Unit(op))), ep2)
    modifies e, e.nodes, statics
    ensures e.Valid() && fresh(e.nodes - old(e.nodes)) && Kept(old(e.nodes), e.nodes, freed) && freed <= old(e.nodes)
    ensures match Join(op, old(ExprPaths.At(e.Whole(), ep1)), old(ExprPaths.At(e.Whole(), ep2)))
            case None => e.Whole() == old(e.Whole()) && statics.transCount == old(statics.transCount)
            case Some(t) =>
              var c := Put(old(e.Whole()), ep1, Symbol(Unit(op)));
              HasPath(c, ep2) && e.Whole() == Put(c, ep2, t) && statics.transCount == old(statics.transCount) + 1
  {
    hide Put, HasPath, Join, Tree, Linked, Distinct, Nodes, ExprOf, Variable.Valid, Variable.Whole;
    var x := e.Copy(ep1);
    var y := e.Copy(ep2);
    freed := {};
    var tmp := Join(op, x, y);
    if tmp.Some? {
      ghost var nodes0 := e.nodes;
      ghost var freed1 := e.Replace(ep1, Symbol(Unit(op)));
      ghost var freed2 := e.Replace(ep2, tmp.value);
      statics.transCount := statics.transCount + 1;
      freed := freed1 + freed2 * nodes0;
    }
  }

  /** expr_eliminate_yn on the whole expression. */
  method EliminateConstantsOf(e: Variable) returns (ghost freed: set<Node>)
    requires e.Valid()
    modifies e, e.nodes
    ensures e.Valid() && fresh(e.nodes - old(e.nodes)) && Kept(old(e.nodes), e.nodes, freed)
    ensures e.Whole() == EliminateYn(old(e.Whole()))
  {
    hide Tree, Linked, Distinct, Nodes, ExprOf, EliminateYn;
    ghost var r;
    r, freed := EliminateConstants(e.top, e.shape, e.nodes);
    e.shape := r;
    e.nodes := e.nodes - freed;
  }

  /** expr_eliminate_dups. */
  method EliminateDuplicates(e: Variable, statics: Statics) returns (ghost freed: set<Node>)
    requires e.Valid()
    modifies e, e.nodes, statics
    ensures e.Valid() && fresh(e.nodes - old(e.nodes)) && Kept(old(e.nodes), e.nodes, freed)
    ensures e.Whole() == EliminateDups(old(e.Whole())) && Lean(e.Whole())
    ensures statics.transCount == old(statics.transCount)
  {
    hide Lean, Places, Called, LevelSize, Span, PassLevel, Tree, Linked, Distinct, Nodes, ExprOf, Kept, EliminateYn;
    hide Variable.Valid, Variable.Whole;
    var oldcount := statics.transCount;
    freed := {};
    NothingFreed(e.nodes);
    EliminateDupsLean(e.Whole());
    while true
      invariant e.Valid() && fresh(e.nodes - old(e.nodes)) && Kept(old(e.nodes), e.nodes, freed)
      invariant EliminateDups(e.Whole()) == EliminateDups(old(e.Whole()))
      decreases Size(e.Whole())
    {
      statics.transCount := 0;
      ghost var before, nodes0 := e.Whole(), e.nodes;
      ghost var freed1: set<Node> := {};
      WholePath(before);
      var n := e.At([]);
      NothingFreed(nodes0);
      if n.kind.IsBin? {
        WholePlaces(before.op, before);
        freed1 := EliminateDups1(n.kind.op, [], [], e, statics, [], [], []);
        WholeCall(before.op, before, e.Whole(), statics.transCount);
      }
      KeptTwice(old(e.nodes), nodes0, e.nodes, freed, freed1);
      freed := freed + freed1;
      if statics.transCount == 0 {
        break;
      }
      PassShrinks(before);
      ghost var nodes1 := e.nodes;
      ghost var freed2 := EliminateConstantsOf(e);
      KeptTwice(old(e.nodes), nodes1, e.nodes, freed, freed2);
      freed := freed + freed2;
    }
    statics.transCount := oldcount;
  }

  lemma WholePath(e: Expr)
    ensures HasPath(e, []) && ExprPaths.At(e, []) == e
  {
  }

  // ----- expr_eq and expr_eliminate_eq -----

  lemma HalfPlaces(op: Op, e: Expr, p: Path, x: Expr, y: Expr)
    requires HasPath(e, p) && IsOp(At(e, p), op)
    ensures HasPath(e, p + [L]) && At(e, p + [L]) == At(e, p).left
    ensures var f := Put(e, p + [L], x);
            && HasPath(f, p + [R]) && At(f, p + [R]) == At(e, p).right
            && Put(f, p + [R], y) == Put(e, p, Bin(op, x, y))
  {
    var a := At(e, p);
    var b := Bin(op, x, a.right);
    PathAppend(e, p, [L], x);
    PutAt(e, p, b, Bin(op, x, y));
    PathAppend(Put(e, p, b), p, [R], y);
    assert Put(a, [L], x) == b && Put(b, [R], y) == Bin(op, x, y);
  }

  lemma Unmoved(e: Expr, p: Path, x: Expr, y: Expr)
    requires HasPath(e, p)
    ensures Put(e, p, At(e, p)) == e
    ensures HasPath(Put(e, p, x), p) && At(Put(e, p, x), p) == x && Put(Put(e, p, x), p, y) == Put(e, p, y)
  {
    PutAt(e, p, x, y);
  }

  lemma WholePlace(e: Expr)
    ensures HasPath(e, []) && ExprPaths.At(e, []) == e && forall x :: Put(e, [], x) == x
  {
  }

  lemma CancelSizes(a: Expr, b: Expr)
    ensures a.Bin? ==> Size(Cancel(a.op, a, b).0) <= Size(a) && Size(Cancel(a.op, a, b).1) <= Size(b)
  {
  }

  /** __expr_eliminate_eq at the addresses ep1 in the one and ep2 in the other expression. */
  method CancelAt(op: Op, ep1: Path, ep2: Path, a: Variable, b: Variable, statics: Statics)
    requires a != b && a.Valid() && b.Valid() && a.nodes !! b.nodes
    requires HasPath(a.Whole(), ep1) && HasPath(b.Whole(), ep2)
    modifies a, b, a.nodes, b.nodes, statics
    ensures a.Valid() && b.Valid() && a.nodes !! b.nodes
    ensures fresh(a.nodes - old(a.nodes)) && fresh(b.nodes - old(b.nodes))
    ensures statics.transCount >= old(statics.transCount)
    ensures a.Whole() == Put(old(a.Whole()), ep1, Cancel(op, old(ExprPaths.At(a.Whole(), ep1)), old(ExprPaths.At(b.Whole(), ep2))).0)
    ensures b.Whole() == Put(old(b.Whole()), ep2, Cancel(op, old(ExprPaths.At(a.Whole(), ep1)), old(ExprPaths.At(b.Whole(), ep2))).1)
    decreases Size(ExprPaths.At(a.Whole(), ep1)) + Size(ExprPaths.At(b.Whole(), ep2)),
              if IsOp(ExprPaths.At(a.Whole(), ep1), op) || IsOp(ExprPaths.At(b.Whole(), ep2), op) then 0 else 4, 0
  {
    hide Put, HasPath, ExprPaths.At, Equal, EliminateEq, Tree, Linked, Distinct, Nodes, ExprOf, Part;
    hide Variable.Valid, Variable.Whole;
    ghost var x, y := ExprPaths.At(a.Whole(), ep1), ExprPaths.At(b.Whole(), ep2);
    var n1 := a.At(ep1);
    var n2 := b.At(ep2);
    if n1.kind == IsBin(op) {
      ghost var (l, f2) := Cancel(op, x.left, y);
      ghost var (r, g2) := Cancel(op, x.right, f2);
      HalfPlaces(op, a.Whole(), ep1, l, r);
      Unmoved(b.Whole(), ep2, f2, g2);
      CancelAt(op, ep1 + [L], ep2, a, b, statics);
      CancelAt(op, ep1 + [R], ep2, a, b, statics);
    } else if n2.kind == IsBin(op) {
      ghost var (f1, l) := Cancel(op, x, y.left);
      ghost var (g1, r) := Cancel(op, f1, y.right);
      HalfPlaces(op, b.Whole(), ep2, l, r);
      Unmoved(a.Whole(), ep1, f1, g1);
      CancelAt(op, ep1, ep2 + [L], a, b, statics);
      CancelAt(op, ep1, ep2 + [R], a, b, statics);
    } else {
      CancelOperands(op, ep1, ep2, a, b, statics);
    }
  }

  /** The part of __expr_eliminate_eq that compares two operands. */
  method CancelOperands(op: Op, ep1: Path, ep2: Path, a: Variable, b: Variable, statics: Statics)
    requires a != b && a.Valid() && b.Valid() && a.nodes !! b.nodes
    requires HasPath(a.Whole(), ep1) && HasPath(b.Whole(), ep2)
    requires !IsOp(ExprPaths.At(a.Whole(), ep1), op) && !IsOp(ExprPaths.At(b.Whole(), ep2), op)
    modifies a, b, a.nodes, b.nodes, statics
    ensures a.Valid() && b.Valid() && a.nodes !! b.nodes
    ensures fresh(a.nodes - old(a.nodes)) && fresh(b.nodes - old(b.nodes))
    ensures statics.transCount >= old(statics.transCount)
    ensures a.Whole() == Put(old(a.Whole()), ep1, Cancel(op, old(ExprPaths.At(a.Whole(), ep1)), old(ExprPaths.At(b.Whole(), ep2))).0)
    ensures b.Whole() == Put(old(b.Whole()), ep2, Cancel(op, old(ExprPaths.At(a.Whole(), ep1)), old(ExprPaths.At(b.Whole(), ep2))).1)
    decreases Size(ExprPaths.At(a.Whole(), ep1)) + Size(ExprPaths.At(b.Whole(), ep2)), 3, 0
  {
    hide Put, HasPath, ExprPaths.At, Equal, EliminateEq, Tree, Linked, Distinct, Nodes, ExprOf, Part;
    hide Variable.Valid, Variable.Whole;
    ghost var x, y := ExprPaths.At(a.Whole(), ep1), ExprPaths.At(b.Whole(), ep2);
    var n1 := a.At(ep1);
    var n2 := b.At(ep2);
    Unmoved(a.Whole(), ep1, x, x);
    Unmoved(b.Whole(), ep2, y, y);
    NodeIs(a, ep1);
    NodeIs(b, ep2);
    if n1.kind.IsSymbol? && n2.kind.IsSymbol? && n1.leftSym == n2.leftSym && (n1.leftSym == Yes || n1.leftSym == No) {
      return;
    }
    var equal := CompareExprs(n1, n2, statics, Part(a.shape, ep1), Part(b.shape, ep2), a.nodes + b.nodes);
    if !equal {
      return;
    }
    statics.transCount := statics.transCount + 1;
    ghost var freed1 := a.Replace(ep1, Symbol(Unit(op)));
    ghost var freed2 := b.Replace(ep2, Symbol(Unit(op)));
  }

  /** The node at an address is the top of a tree for what is there. */
  lemma NodeIs(e: Variable, p: Path)
    requires e.Valid() && HasPath(e.Whole(), p)
    ensures HasPlace(e.shape, p)
    ensures var part := Part(e.shape, p);
            && Tree(part, part.node) && Nodes(part) <= e.nodes && ExprOf(part) == ExprPaths.At(e.Whole(), p)
            && (part.node.kind.IsSymbol? ==> ExprPaths.At(e.Whole(), p) == Symbol(part.node.leftSym))
  {
    PlaceAtTop(e.shape, e.top);
    PartIs(e.shape, p);
    Open(Part(e.shape, p), Part(e.shape, p).node);
  }

  /** __expr_eliminate_eq on two whole expressions. */
  method CancelLevel(op: Op, a: Variable, b: Variable, statics: Statics)
    requires a != b && a.Valid() && b.Valid() && a.nodes !! b.nodes
    requires IsOp(a.Whole(), op) || IsOp(b.Whole(), op)
    modifies a, b, a.nodes, b.nodes, statics
    ensures a.Valid() && b.Valid() && a.nodes !! b.nodes
    ensures fresh(a.nodes - old(a.nodes)) && fresh(b.nodes - old(b.nodes))
    ensures (a.Whole(), b.Whole()) == Cancel(op, old(a.Whole()), old(b.Whole()))
    decreases Size(a.Whole()) + Size(b.Whole()), 0, 1
  {
    hide Cancel, Tree, Linked, Distinct, Nodes, ExprOf, HasPath, ExprPaths.At, Put, Variable.Valid, Variable.Whole;
    WholePlace(a.Whole());
    WholePlace(b.Whole());
    CancelAt(op, [], [], a, b, statics);
  }

  /** What the two calls of __expr_eliminate_eq leave. */
  function CancelTwice(e1: Expr, e2: Expr): (Expr, Expr) {
    var (a1, a2) := if e1.Bin? then Cancel(e1.op, e1, e2) else (e1, e2);
    if a2.Bin? && !(a1.Bin? && a1.op == a2.op) then Cancel(a2.op, a1, a2) else (a1, a2)
  }

  lemma EliminateEqIs(e1: Expr, e2: Expr)
    ensures EliminateEq(e1, e2) == (EliminateYn(CancelTwice(e1, e2).0), EliminateYn(CancelTwice(e1, e2).1))
  {
  }

  /** The two calls of __expr_eliminate_eq in expr_eliminate_eq. */
  method CancelLevels(a: Variable, b: Variable, statics: Statics)
    requires a != b && a.Valid() && b.Valid() && a.nodes !! b.nodes
    modifies a, b, a.nodes, b.nodes, statics
    ensures a.Valid() && b.Valid() && a.nodes !! b.nodes
    ensures fresh(a.nodes - old(a.nodes)) && fresh(b.nodes - old(b.nodes))
    ensures (a.Whole(), b.Whole()) == CancelTwice(old(a.Whole()), old(b.Whole()))
    decreases Size(a.Whole()) + Size(b.Whole()), 0, 2
  {
    hide Cancel, Tree, Linked, Distinct, Nodes, ExprOf, HasPath, ExprPaths.At, Put, Part, Variable.Valid, Variable.Whole;
    ghost var x, y := a.Whole(), b.Whole();
    WholePath(x);
    var n1 := a.At([]);
    if n1.kind.IsBin? {
      CancelLevel(n1.kind.op, a, b, statics);
    }
    WholePath(a.Whole());
    WholePath(b.Whole());
    n1 := a.At([]);
    var n2 := b.At([]);
    if n2.kind.IsBin? && n1.kind != n2.kind {
      CancelSizes(x, y);
      CancelLevel(n2.kind.op, a, b, statics);
    }
  }

  /** expr_eliminate_eq. */
  method EliminateCommon(a: Variable, b: Variable, statics: Statics)
    requires a != b && a.Valid() && b.Valid() && a.nodes !! b.nodes
    modifies a, b, a.nodes, b.nodes, statics
    ensures a.Valid() && b.Valid() && a.nodes !! b.nodes
    ensures fresh(a.nodes - old(a.nodes)) && fresh(b.nodes - old(b.nodes))
    ensures (a.Whole(), b.Whole()) == EliminateEq(old(a.Whole()), old(b.Whole()))
    decreases Size(a.Whole()) + Size(b.Whole()), 0, 3
  {
    hide CancelTwice, EliminateEq, EliminateYn, Variable.Valid, Variable.Whole;
    EliminateEqIs(a.Whole(), b.Whole());
    CancelLevels(a, b, statics);
    ghost var freed1 := EliminateConstantsOf(a);
    ghost var freed2 := EliminateConstantsOf(b);
  }

  /** expr_eq: works on copies, and the counter is back where it was afterwards. */
  method CompareExprs(n1: Node, n2: Node, statics: Statics, ghost sh1: Shape, ghost sh2: Shape, ghost world: set<Node>)
      returns (equal: bool)
    requires Tree(sh1, n1) && Tree(sh2, n2) && Nodes(sh1) + Nodes(sh2) <= world
    modifies statics
    ensures equal == Equal(old(ExprOf(sh1)), old(ExprOf(sh2)))
    ensures statics.transCount == old(statics.transCount)
    decreases Size(ExprOf(sh1)) + Size(ExprOf(sh2)), 2, 0
  {
    hide EliminateEq, Cancel, Tree, Linked, Distinct, Nodes, ExprOf, Variable.Valid, Variable.Whole;
    Open(sh1, n1);
    Open(sh2, n2);
    match n1.kind {
      case IsSymbol =>
        equal := n2.kind.IsSymbol? && n1.leftSym == n2.leftSym;
      case IsCompare(_) =>
        equal := n1.kind == n2.kind && n1.leftSym == n2.leftSym && n1.rightSym == n2.rightSym;
      case IsNot =>
        if n2.kind.IsNot? {
          equal := CompareExprs(n1.left, n2.left, statics, sh1.sub, sh2.sub, world);
        } else {
          equal := false;
        }
      case IsBin(op) =>
        equal := n2.kind == n1.kind;
        if equal {
          equal := CompareLevels(n1, n2, statics, sh1, sh2, world);
        }
    }
  }

  /** The case of && and ||: what is left of two copies. */
  method CompareLevels(n1: Node, n2: Node, statics: Statics, ghost sh1: Shape, ghost sh2: Shape, ghost world: set<Node>)
      returns (equal: bool)
    requires Tree(sh1, n1) && Tree(sh2, n2) && Nodes(sh1) + Nodes(sh2) <= world
    modifies statics
    ensures var (r1, r2) := EliminateEq(old(ExprOf(sh1)), old(ExprOf(sh2)));
            equal <==> r1.Symbol? && r2.Symbol? && r1.sym == r2.sym
    ensures statics.transCount == old(statics.transCount)
    decreases Size(ExprOf(sh1)) + Size(ExprOf(sh2)), 1, 0
  {
    hide EliminateEq, Tree, Linked, Distinct, Nodes, ExprOf, Variable.Valid, Variable.Whole;
    var x := Read(n1, sh1, world);
    var y := Read(n2, sh2, world);
    var copy1 := new Variable(x);
    var copy2 := new Variable(y);
    var oldCount := statics.transCount;
    EliminateCommon(copy1, copy2, statics);
    WholePlace(copy1.Whole());
    WholePlace(copy2.Whole());
    NodeIs(copy1, []);
    NodeIs(copy2, []);
    var r1 := copy1.At([]);
    var r2 := copy2.At([]);
    equal := r1.kind.IsSymbol? && r2.kind.IsSymbol? && r1.leftSym == r2.leftSym;
    statics.transCount := oldCount;
  }
}
