/** expr_eliminate_yn, expr_transform, expr_trans_bool and rewrite_m on the nodes of an
    expression, which they overwrite, relink and reuse. */
module ExprNodes {
  import opened Expr
  import opened ExprEq
  import opened ExprTransform

  datatype Kind = IsSymbol | IsCompare(rel: Rel) | IsNot | IsBin(op: Op)

  /** struct expr: its type, and the two unions of an expression and a symbol. */
  class Node {
    var kind: Kind
    var left: Node?
    var right: Node?
    var leftSym: Sym
    var rightSym: Sym

    constructor (kind: Kind, left: Node?, right: Node?, leftSym: Sym, rightSym: Sym)
      ensures this.kind == kind && this.left == left && this.right == right
      ensures this.leftSym == leftSym && this.rightSym == rightSym
    {
      this.kind, this.left, this.right, this.leftSym, this.rightSym := kind, left, right, leftSym, rightSym;
    }
  }

  /** The nodes an expression is made of. */
  datatype Shape = Leaf(node: Node) | One(node: Node, sub: Shape) | Two(node: Node, lhs: Shape, rhs: Shape)

  ghost function Nodes(sh: Shape): set<Node> {
    match sh
    case Leaf(n) => {n}
    case One(n, a) => {n} + Nodes(a)
    case Two(n, a, b) => {n} + Nodes(a) + Nodes(b)
  }

  /** No node is used twice. */
  ghost predicate Distinct(sh: Shape) {
    match sh
    case Leaf(_) => true
    case One(n, a) => n !in Nodes(a) && Distinct(a)
    case Two(n, a, b) => n !in Nodes(a) && n !in Nodes(b) && Nodes(a) !! Nodes(b) && Distinct(a) && Distinct(b)
  }

  ghost predicate Linked(sh: Shape)
    reads Nodes(sh)
  {
    match sh
    case Leaf(n) => n.kind.IsSymbol? || n.kind.IsCompare?
    case One(n, a) => n.kind.IsNot? && n.left == a.node && Linked(a)
    case Two(n, a, b) => n.kind.IsBin? && n.left == a.node && n.right == b.node && Linked(a) && Linked(b)
  }

  /** `e` is the top node of the tree `sh`. */
  ghost predicate Tree(sh: Shape, e: Node)
    reads Nodes(sh)
  {
    sh.node == e && Distinct(sh) && Linked(sh)
  }

  /** The expression the nodes stand for. */
  ghost function ExprOf(sh: Shape): Expr
    reads Nodes(sh)
  {
    match sh
    case Leaf(n) => if n.kind.IsCompare? then Compare(n.kind.rel, n.leftSym, n.rightSym) else Symbol(n.leftSym)
    case One(_, a) => Not(ExprOf(a))
    case Two(n, a, b) => Bin(if n.kind.IsBin? then n.kind.op else And, ExprOf(a), ExprOf(b))
  }

  // ----- Taking trees apart and putting them together -----

  lemma LeafTree(e: Node)
    requires e.kind.IsSymbol? || e.kind.IsCompare?
    ensures Tree(Leaf(e), e) && Nodes(Leaf(e)) == {e}
    ensures e.kind.IsSymbol? ==> ExprOf(Leaf(e)) == Symbol(e.leftSym)
    ensures e.kind.IsCompare? ==> ExprOf(Leaf(e)) == Compare(e.kind.rel, e.leftSym, e.rightSym)
  {
  }

  lemma OneTree(e: Node, a: Shape)
    requires e.kind.IsNot? && e.left != null && Tree(a, e.left) && e !in Nodes(a)
    ensures Tree(One(e, a), e) && Nodes(One(e, a)) == {e} + Nodes(a)
    ensures ExprOf(One(e, a)) == Not(ExprOf(a))
  {
  }

  lemma TwoTree(e: Node, a: Shape, b: Shape)
    requires e.kind.IsBin? && e.left != null && e.right != null && Tree(a, e.left) && Tree(b, e.right)
    requires e !in Nodes(a) && e !in Nodes(b) && Nodes(a) !! Nodes(b)
    ensures Tree(Two(e, a, b), e) && Nodes(Two(e, a, b)) == {e} + Nodes(a) + Nodes(b)
    ensures ExprOf(Two(e, a, b)) == Bin(e.kind.op, ExprOf(a), ExprOf(b))
  {
  }

  /** What the type of a node says about its tree. */
  lemma Open(sh: Shape, e: Node)
    requires Tree(sh, e)
    ensures e in Nodes(sh)
    ensures match e.kind
            case IsSymbol => sh == Leaf(e) && ExprOf(sh) == Symbol(e.leftSym) && Nodes(sh) == {e}
            case IsCompare(rel) => sh == Leaf(e) && ExprOf(sh) == Compare(rel, e.leftSym, e.rightSym) && Nodes(sh) == {e}
            case IsNot =>
              && sh.One? && e.left != null && Tree(sh.sub, e.left) && e !in Nodes(sh.sub)
              && Nodes(sh) == {e} + Nodes(sh.sub) && ExprOf(sh) == Not(ExprOf(sh.sub))
            case IsBin(op) =>
              && sh.Two? && e.left != null && e.right != null && Tree(sh.lhs, e.left) && Tree(sh.rhs, e.right)
              && e !in Nodes(sh.lhs) && e !in Nodes(sh.rhs) && Nodes(sh.lhs) !! Nodes(sh.rhs)
              && Nodes(sh) == {e} + Nodes(sh.lhs) + Nodes(sh.rhs) && ExprOf(sh) == Bin(op, ExprOf(sh.lhs), ExprOf(sh.rhs))
  {
  }

  /** The same tree under another top node. */
  ghost function Retop(sh: Shape, e: Node): Shape {
    match sh
    case Leaf(_) => Leaf(e)
    case One(_, a) => One(e, a)
    case Two(_, a, b) => Two(e, a, b)
  }

  // In the methods below `world` is a set of nodes that includes those of the tree, `made`
  // are the nodes that were allocated and `freed` those that were freed. Every node ends up
  // in the result or freed, and none is both.

  /** The nodes after a call. */
  ghost predicate Accounted(before: set<Node>, made: set<Node>, after: set<Node>, freed: set<Node>) {
    after !! freed && after + freed == before + made
  }

  lemma AllKept(before: set<Node>, made: set<Node>, after: set<Node>)
    requires after == before + made
    ensures Accounted(before, made, after, {})
  {
  }

  lemma NothingDone(nodes: set<Node>)
    ensures Accounted(nodes, {}, nodes, {})
  {
  }

  /** One call, on the left operand of `e`; the right one is `b`. */
  lemma LeftDone(e: Node, a0: set<Node>, b: set<Node>, made: set<Node>, a: set<Node>, freed: set<Node>)
    requires Accounted(a0, made, a, freed) && e !in a0 && a0 !! b && made !! {e} + b
    ensures e !in a && a !! b && a <= a0 + made
  {
  }

  /** Both calls, on the operands of `e`. */
  lemma BothDone(e: Node, a0: set<Node>, b0: set<Node>, made1: set<Node>, a: set<Node>, freed1: set<Node>,
                 made2: set<Node>, b: set<Node>, freed2: set<Node>)
    requires Accounted(a0, made1, a, freed1) && Accounted(b0, made2, b, freed2)
    requires e !in a0 && e !in b0 && a0 !! b0
    requires made1 !! {e} + a0 + b0 && made2 !! {e} + a0 + b0 + made1
    ensures e !in a && e !in b && a !! b
    ensures Accounted({e} + a0 + b0, made1 + made2, {e} + a + b, freed1 + freed2)
  {
  }

  /** One call on the operand of `e`, or the second of two calls in a row. */
  lemma OneDone(e: Node, a0: set<Node>, made: set<Node>, a: set<Node>, freed: set<Node>)
    requires Accounted(a0, made, a, freed) && e !in a0 && e !in made
    ensures e !in a && a <= a0 + made && Accounted({e} + a0, made, {e} + a, freed)
  {
  }

  lemma ThenDone(before: set<Node>, made1: set<Node>, mid: set<Node>, freed1: set<Node>,
                 made2: set<Node>, after: set<Node>, freed2: set<Node>)
    requires Accounted(before, made1, mid, freed1) && Accounted(mid, made2, after, freed2)
    requires made2 !! before + made1
    ensures Accounted(before, made1 + made2, after, freed1 + freed2)
  {
  }

  /** e->type = E_SYMBOL, e->left.sym = sym, e->right.expr = NULL. */
  method BecomeSymbol(e: Node, sym: Sym) returns (ghost r: Shape)
    modifies e
    ensures Tree(r, e) && Nodes(r) == {e} && ExprOf(r) == Symbol(sym)
  {
    e.kind := IsSymbol;
    e.leftSym := sym;
    e.right := null;
    r := Leaf(e);
    LeafTree(e);
  }

  /** *e = *other, after which `other` is freed. */
  method Overwrite(e: Node, other: Node, ghost sh: Shape, ghost world: set<Node>) returns (ghost r: Shape)
    requires Tree(sh, other) && e !in Nodes(sh) && Nodes(sh) <= world
    modifies e
    ensures Tree(r, e) && Nodes(r) == {e} + Nodes(sh) - {other} && ExprOf(r) == old(ExprOf(sh))
  {
    hide Tree, Linked, Distinct, Nodes, ExprOf;
    Open(sh, other);
    e.kind := other.kind;
    e.left, e.right := other.left, other.right;
    e.leftSym, e.rightSym := other.leftSym, other.rightSym;
    r := Retop(sh, e);
    match e.kind {
      case IsNot => OneTree(e, sh.sub);
      case IsBin(_) => TwoTree(e, sh.lhs, sh.rhs);
      case _ => LeafTree(e);
    }
  }

  // ----- expr_eliminate_yn -----

  /** expr_eliminate_yn: `e` stays the top node. */
  method EliminateConstants(e: Node, ghost sh: Shape, ghost world: set<Node>)
      returns (ghost r: Shape, ghost freed: set<Node>)
    requires Tree(sh, e) && Nodes(sh) <= world
    modifies Nodes(sh)
    ensures Tree(r, e) && Accounted(Nodes(sh), {}, Nodes(r), freed)
    ensures ExprOf(r) == EliminateYn(old(ExprOf(sh)))
    decreases sh
  {
    hide Tree, Linked, Distinct, Nodes, ExprOf, Combine;
    Open(sh, e);
    r, freed := sh, {};
    if e.kind.IsBin? {
      var op := e.kind.op;
      ghost var a, freed1 := EliminateConstants(e.left, sh.lhs, world);
      ghost var b, freed2 := EliminateConstants(e.right, sh.rhs, world);
      ghost var freed3;
      r, freed3 := CombineConstants(e, op, a, b, world);
      freed := freed1 + freed2 + freed3;
    }
  }

  /** The part of expr_eliminate_yn that follows the recursive calls. */
  method CombineConstants(e: Node, op: Op, ghost a: Shape, ghost b: Shape, ghost world: set<Node>)
      returns (ghost r: Shape, ghost freed: set<Node>)
    requires e.kind == IsBin(op) && e.left != null && e.right != null && Tree(a, e.left) && Tree(b, e.right)
    requires e !in Nodes(a) && e !in Nodes(b) && Nodes(a) !! Nodes(b) && Nodes(a) + Nodes(b) <= world
    modifies e
    ensures Tree(r, e) && Accounted({e} + Nodes(a) + Nodes(b), {}, Nodes(r), freed)
    ensures ExprOf(r) == Combine(op, old(ExprOf(a)), old(ExprOf(b)))
  {
    hide Tree, Linked, Distinct, Nodes, ExprOf;
    Open(a, e.left);
    Open(b, e.right);
    freed := {};
    if e.left.kind.IsSymbol? {
      if e.left.leftSym == Zero(op) {
        freed := Nodes(a) + Nodes(b);
        r := BecomeSymbol(e, Zero(op));
        return;
      } else if e.left.leftSym == Unit(op) {
        freed := {e.left} + {e.right};
        r := Overwrite(e, e.right, b, world);
        return;
      }
    }
    if e.right.kind.IsSymbol? {
      if e.right.leftSym == Zero(op) {
        freed := Nodes(a) + Nodes(b);
        r := BecomeSymbol(e, Zero(op));
        return;
      } else if e.right.leftSym == Unit(op) {
        freed := {e.right} + {e.left};
        r := Overwrite(e, e.left, a, world);
        return;
      }
    }
    TwoTree(e, a, b);
    r := Two(e, a, b);
  }

  // ----- expr_transform -----

  /** expr_transform. */
  method TransformTree(e: Node, ghost sh: Shape, ghost world: set<Node>)
      returns (r: Node, ghost rsh: Shape, ghost made: set<Node>, ghost freed: set<Node>)
    requires Tree(sh, e) && Nodes(sh) <= world
    modifies Nodes(sh)
    ensures Tree(rsh, r) && fresh(made) && Accounted(Nodes(sh), made, Nodes(rsh), freed)
    ensures ExprOf(rsh) == Transform(old(ExprOf(sh)))
    decreases Weight(ExprOf(sh)), 1
  {
    hide Tree, Linked, Distinct, Nodes, ExprOf, Weight, Transform, Accounted;
    Open(sh, e);
    TransformCases(ExprOf(sh));
    r, rsh, made, freed := e, sh, {}, {};
    NothingDone(Nodes(sh));
    match e.kind {
      case IsSymbol =>
      case IsCompare(_) =>
        rsh, made, freed := TransformComparison(e);
      case IsBin(_) =>
        ghost var a, b, made1, freed1, made2, freed2;
        var left, right;
        left, a, made1, freed1 := TransformTree(e.left, sh.lhs, world);
        LeftDone(e, Nodes(sh.lhs), Nodes(sh.rhs), made1, Nodes(a), freed1);
        e.left := left;
        right, b, made2, freed2 := TransformTree(e.right, sh.rhs, world);
        BothDone(e, Nodes(sh.lhs), Nodes(sh.rhs), made1, Nodes(a), freed1, made2, Nodes(b), freed2);
        e.right := right;
        rsh, made, freed := Two(e, a, b), made1 + made2, freed1 + freed2;
        TwoTree(e, a, b);
      case IsNot =>
        ghost var orig := ExprOf(sh.sub);
        ghost var a, made1, freed1;
        var left;
        left, a, made1, freed1 := TransformTree(e.left, sh.sub, world);
        OneDone(e, Nodes(sh.sub), made1, Nodes(a), freed1);
        e.left := left;
        ghost var made2, freed2;
        r, rsh, made2, freed2 := TransformNot(e, orig, a, world + made1);
        made, freed := made1 + made2, freed1 + freed2;
        ThenDone(Nodes(sh), made1, {e} + Nodes(a), freed1, made2, Nodes(rsh), freed2);
    }
  }

  lemma TransformCases(e: Expr)
    ensures match e
            case Symbol(_) => Transform(e) == e
            case Compare(_, _, _) => Transform(e) == TransformCompare(e)
            case Not(a) => Weight(a) < Weight(e)
            case Bin(op, a, b) =>
              Weight(a) < Weight(e) && Weight(b) < Weight(e) && Transform(e) == Bin(op, Transform(a), Transform(b))
  {
  }

  /** The cases of E_EQUAL and E_UNEQUAL. */
  method TransformComparison(e: Node) returns (ghost r: Shape, ghost made: set<Node>, ghost freed: set<Node>)
    requires e.kind.IsCompare?
    modifies e
    ensures Tree(r, e) && fresh(made) && Accounted({e}, made, Nodes(r), freed)
    ensures ExprOf(r) == TransformCompare(Compare(old(e.kind.rel), old(e.leftSym), old(e.rightSym)))
  {
    hide Tree, Linked, Distinct, Nodes, ExprOf;
    r, made, freed := Leaf(e), {}, {};
    LeafTree(e);
    if (e.kind.rel == Eq || e.kind.rel == Ne) && e.leftSym.Type() == Boolean {
      var wanted := if e.kind.rel == Eq then No else Yes;
      if e.rightSym == wanted {
        var symbol := new Node(IsSymbol, null, null, e.leftSym, No);
        e.kind := IsNot;
        e.left := symbol;
        LeafTree(symbol);
        OneTree(e, Leaf(symbol));
        r, made := One(e, Leaf(symbol)), {symbol};
      } else if e.rightSym == Mod {
        r := BecomeSymbol(e, wanted);
      } else if e.rightSym.BuiltIn() {
        r := BecomeSymbol(e, e.leftSym);
      }
    }
  }

  /** The case of E_NOT; `orig` is the operand before it was transformed itself. */
  method TransformNot(e: Node, ghost orig: Expr, ghost a: Shape, ghost world: set<Node>)
      returns (r: Node, ghost rsh: Shape, ghost made: set<Node>, ghost freed: set<Node>)
    requires e.kind == IsNot && e.left != null && Tree(a, e.left) && e !in Nodes(a)
    requires ExprOf(a) == Transform(orig) && Nodes(a) <= world
    modifies e, Nodes(a)
    ensures Tree(rsh, r) && fresh(made) && Accounted({e} + Nodes(a), made, Nodes(rsh), freed)
    ensures ExprOf(rsh) == Transform(Not(orig))
    decreases Weight(Not(orig)), 0
  {
    hide Tree, Linked, Distinct, Nodes, ExprOf, Weight, Transform;
    var tmp := e.left;
    Open(a, tmp);
    TransformNotCases(orig);
    r, rsh, made, freed := tmp, a, {}, {};
    match tmp.kind {
      case IsNot =>
        r, rsh, made, freed := TransformTree(tmp.left, a.sub, world);
        freed := freed + {tmp, e};
      case IsCompare(rel) =>
        freed := {e};
        tmp.kind := IsCompare(Flip(rel));
        LeafTree(tmp);
      case IsBin(op) =>
        rsh, made := PushDown(e, op, a, world);
        ghost var made1;
        r, rsh, made1, freed := TransformTree(e, rsh, world + made + {e});
        made := made + made1;
      case IsSymbol =>
        if !tmp.leftSym.BuiltIn() {
          r, rsh := e, One(e, a);
          OneTree(e, a);
        } else {
          freed := {e};
          rsh := BecomeSymbol(tmp, if tmp.leftSym == Yes then No else if tmp.leftSym == No then Yes else Mod);
        }
    }
  }

  lemma TransformNotCases(orig: Expr)
    ensures match Transform(orig)
            case Not(x) => Transform(Not(orig)) == Transform(x) && Weight(x) < Weight(Not(orig))
            case Compare(rel, s, t) => Transform(Not(orig)) == Compare(Flip(rel), s, t)
            case Bin(op, x, y) =>
              var pushed := Bin(Dual(op), Not(x), Not(y));
              Transform(Not(orig)) == Transform(pushed) && Weight(pushed) < Weight(Not(orig))
            case Symbol(s) =>
              Transform(Not(orig)) == if !s.BuiltIn() then Not(Symbol(s)) else Symbol(if s == Yes then No else if s == No then Yes else Mod)
  {
    match Transform(orig)
    case Bin(op, x, y) => PushDownWeight(op, x, y);
    case _ =>
  }

  /** De Morgan's step: the operator's node becomes the first negation, a new one the second,
      and the old negation the operator. */
  method PushDown(e: Node, op: Op, ghost a: Shape, ghost world: set<Node>) returns (ghost r: Shape, ghost made: set<Node>)
    requires e.kind == IsNot && e.left != null && e.left.kind == IsBin(op) && Tree(a, e.left) && e !in Nodes(a)
    requires Nodes(a) <= world
    modifies e, e.left
    ensures Tree(r, e) && fresh(made) && Nodes(r) == {e} + Nodes(a) + made
    ensures old(ExprOf(a)).Bin? && ExprOf(r) == Bin(Dual(op), Not(old(ExprOf(a)).left), Not(old(ExprOf(a)).right))
  {
    hide Tree, Linked, Distinct, Nodes, ExprOf;
    var tmp := e.left;
    Open(a, tmp);
    var second := new Node(IsNot, tmp.right, null, No, No);
    e.kind := IsBin(Dual(op));
    e.right := second;
    tmp.kind := IsNot;
    tmp.right := null;
    OneTree(tmp, a.lhs);
    OneTree(second, a.rhs);
    r, made := Two(e, One(tmp, a.lhs), One(second, a.rhs)), {second};
    TwoTree(e, One(tmp, a.lhs), One(second, a.rhs));
  }

  // ----- expr_trans_bool and rewrite_m -----

  /** expr_trans_bool: `e` stays the top node, and no other node comes or goes. */
  method TransBoolTree(e: Node, ghost sh: Shape, ghost world: set<Node>) returns (ghost r: Shape)
    requires Tree(sh, e) && Nodes(sh) <= world
    modifies Nodes(sh)
    ensures Tree(r, e) && Nodes(r) == Nodes(sh)
    ensures ExprOf(r) == TransBool(old(ExprOf(sh)))
    decreases sh
  {
    hide Tree, Linked, Distinct, Nodes, ExprOf;
    Open(sh, e);
    r := sh;
    match e.kind {
      case IsSymbol =>
      case IsNot =>
        ghost var a := TransBoolTree(e.left, sh.sub, world);
        r := One(e, a);
        OneTree(e, a);
      case IsBin(_) =>
        ghost var a := TransBoolTree(e.left, sh.lhs, world);
        ghost var b := TransBoolTree(e.right, sh.rhs, world);
        r := Two(e, a, b);
        TwoTree(e, a, b);
      case IsCompare(rel) =>
        if rel == Ne && e.leftSym.Type() == Tri && e.rightSym == No {
          r := BecomeSymbol(e, e.leftSym);
        }
    }
  }

  /** rewrite_m: an `m` gets a new node above it, and its parent a new operand. */
  method RewriteModules(e: Node, modules: Sym, ghost sh: Shape, ghost world: set<Node>)
      returns (r: Node, ghost rsh: Shape, ghost made: set<Node>)
    requires Tree(sh, e) && Nodes(sh) <= world
    modifies Nodes(sh)
    ensures Tree(rsh, r) && fresh(made) && Accounted(Nodes(sh), made, Nodes(rsh), {})
    ensures ExprOf(rsh) == RewriteM(modules, old(ExprOf(sh)))
    decreases sh
  {
    hide Tree, Linked, Distinct, Nodes, ExprOf, Accounted;
    Open(sh, e);
    r, rsh, made := e, sh, {};
    NothingDone(Nodes(sh));
    match e.kind {
      case IsNot =>
        ghost var a;
        var left;
        left, a, made := RewriteModules(e.left, modules, sh.sub, world);
        OneDone(e, Nodes(sh.sub), made, Nodes(a), {});
        e.left := left;
        rsh := One(e, a);
        OneTree(e, a);
      case IsBin(_) =>
        ghost var a, b, made1, made2;
        ghost var none: set<Node> := {};
        var left, right;
        left, a, made1 := RewriteModules(e.left, modules, sh.lhs, world);
        LeftDone(e, Nodes(sh.lhs), Nodes(sh.rhs), made1, Nodes(a), {});
        e.left := left;
        right, b, made2 := RewriteModules(e.right, modules, sh.rhs, world);
        BothDone(e, Nodes(sh.lhs), Nodes(sh.rhs), made1, Nodes(a), none, made2, Nodes(b), none);
        assert none + none == none;
        e.right := right;
        rsh, made := Two(e, a, b), made1 + made2;
        TwoTree(e, a, b);
      case IsSymbol =>
        if e.leftSym == Mod {
          var symbol := new Node(IsSymbol, null, null, modules, No);
          r := new Node(IsBin(And), e, symbol, No, No);
          LeafTree(symbol);
          TwoTree(r, sh, Leaf(symbol));
          rsh, made := Two(r, sh, Leaf(symbol)), {symbol, r};
          assert Accounted(Nodes(sh), made, Nodes(rsh), {}) by { AllKept(Nodes(sh), made, Nodes(rsh)); }
        }
      case IsCompare(_) =>
    }
  }
}
