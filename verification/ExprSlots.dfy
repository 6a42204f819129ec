/** Variables that hold an expression, and the fields inside it: what `*ep` reads and what an
    assignment to it does, for an address `ep` inside the expression. An address is the path
    to it. */
module ExprSlots {
  import opened Expr
  import opened ExprPaths
  import opened ExprNodes

  // ----- Places in a tree of nodes -----

  ghost predicate HasPlace(sh: Shape, p: Path)
    decreases p
  {
    p == [] ||
    match sh
    case Leaf(_) => false
    case One(_, a) => p[0] == L && HasPlace(a, p[1..])
    case Two(_, a, b) => HasPlace(if p[0] == L then a else b, p[1..])
  }

  /** The part of the tree at a place. */
  ghost function Part(sh: Shape, p: Path): Shape
    requires HasPlace(sh, p)
    decreases p
  {
    if p == [] then sh
    else
      match sh
      case One(_, a) => Part(a, p[1..])
      case Two(_, a, b) => Part(if p[0] == L then a else b, p[1..])
  }

  /** It stands for the subexpression there. */
  lemma {:induction false} PartIs(sh: Shape, p: Path)
    requires Tree(sh, sh.node) && HasPath(ExprOf(sh), p)
    ensures HasPlace(sh, p) && Nodes(Part(sh, p)) <= Nodes(sh) && Part(sh, p).node in Nodes(sh)
    ensures Tree(Part(sh, p), Part(sh, p).node) && ExprOf(Part(sh, p)) == At(ExprOf(sh), p)
    decreases p
  {
    hide Tree, Linked, Distinct, ExprOf;
    Open(sh, sh.node);
    if p != [] {
      match sh
      case Leaf(_) =>
      case One(_, a) => PartIs(a, p[1..]);
      case Two(_, a, b) => PartIs(if p[0] == L then a else b, p[1..]);
    }
  }

  /** Different places have different nodes: nothing is shared. */
  lemma {:induction false} PartsDiffer(sh: Shape, p: Path, q: Path)
    requires Distinct(sh) && HasPlace(sh, p) && HasPlace(sh, q)
    ensures Part(sh, p).node == Part(sh, q).node <==> p == q
    decreases p
  {
    PartInside(sh, p);
    PartInside(sh, q);
    if p != [] && q != [] {
      match sh {
        case Leaf(_) =>
        case One(_, a) => PartsDiffer(a, p[1..], q[1..]);
        case Two(_, a, b) =>
          PartInside(if p[0] == L then a else b, p[1..]);
          PartInside(if q[0] == L then a else b, q[1..]);
          if p[0] == q[0] {
            PartsDiffer(if p[0] == L then a else b, p[1..], q[1..]);
          }
      }
      assert p == [p[0]] + p[1..] && q == [q[0]] + q[1..];
    }
  }

  /** The node of a place other than the top is not the top node. */
  lemma {:induction false} PartInside(sh: Shape, p: Path)
    requires Distinct(sh) && HasPlace(sh, p)
    ensures Part(sh, p).node in Nodes(sh) && Nodes(Part(sh, p)) <= Nodes(sh)
    ensures p != [] ==> Part(sh, p).node != sh.node
    decreases p
  {
    if p != [] {
      match sh
      case Leaf(_) =>
      case One(_, a) => PartInside(a, p[1..]);
      case Two(_, a, b) => PartInside(if p[0] == L then a else b, p[1..]);
    }
  }

  lemma KindOf(sh: Shape, e: Node)
    requires Tree(sh, e)
    ensures e.kind.IsSymbol? <==> ExprOf(sh).Symbol?
    ensures e.kind.IsCompare? <==> ExprOf(sh).Compare?
    ensures e.kind.IsNot? <==> ExprOf(sh).Not?
    ensures e.kind.IsBin? <==> ExprOf(sh).Bin?
    ensures e.kind.IsBin? ==> e.kind.op == ExprOf(sh).op
  {
    Open(sh, e);
  }

  /** *ep. */
  method Load(e: Node, p: Path, ghost sh: Shape) returns (n: Node)
    requires Tree(sh, e) && HasPath(ExprOf(sh), p)
    ensures HasPlace(sh, p) && n == Part(sh, p).node
  {
    hide Tree, Linked, Distinct, ExprOf, Nodes;
    n := e;
    var i := 0;
    ghost var at := sh;
    PlaceAtTop(sh, e);
    PartIs(sh, p);
    assert p[0..] == p;
    while i < |p|
      invariant 0 <= i <= |p|
      invariant Tree(at, n) && HasPlace(at, p[i..]) && Part(at, p[i..]) == Part(sh, p)
    {
      Open(at, n);
      assert p[i..][0] == p[i] && p[i..][1..] == p[i + 1..];
      PlaceBelow(at, p[i..]);
      if p[i] == L {
        n := n.left;
        at := if at.One? then at.sub else at.lhs;
      } else {
        n := n.right;
        at := at.rhs;
      }
      i := i + 1;
    }
    assert p[i..] == [];
    PlaceAtTop(at, n);
  }

  lemma PlaceBelow(sh: Shape, p: Path)
    requires HasPlace(sh, p) && p != []
    ensures sh.One? ==> p[0] == L && HasPlace(sh.sub, p[1..]) && Part(sh, p) == Part(sh.sub, p[1..])
    ensures sh.Two? ==>
              var side := if p[0] == L then sh.lhs else sh.rhs;
              HasPlace(side, p[1..]) && Part(sh, p) == Part(side, p[1..])
    ensures !sh.Leaf?
  {
  }

  lemma PlaceAtTop(sh: Shape, e: Node)
    requires Tree(sh, e)
    ensures Part(sh, []) == sh && sh.node == e
  {
  }

  /** *ep = n. */
  method StoreAt(e: Node, p: Path, n: Node, ghost sh: Shape, ghost nsh: Shape, ghost world: set<Node>)
      returns (top: Node, ghost r: Shape)
    requires Tree(sh, e) && HasPath(ExprOf(sh), p) && Tree(nsh, n)
    requires Nodes(sh) !! Nodes(nsh) && Nodes(sh) + Nodes(nsh) <= world
    modifies Nodes(sh)
    ensures Tree(r, top) && ExprOf(r) == Put(old(ExprOf(sh)), p, old(ExprOf(nsh)))
    ensures HasPlace(sh, p) && Nodes(r) == Nodes(sh) - Nodes(Part(sh, p)) + Nodes(nsh)
    decreases p
  {
    hide Tree, Linked, Distinct, ExprOf, Nodes;
    Open(sh, e);
    PlaceAtTop(sh, e);
    PartIs(sh, p);
    if p == [] {
      return n, nsh;
    }
    PlaceBelow(sh, p);
    match e.kind {
      case IsNot =>
        PartIs(sh.sub, p[1..]);
        ghost var a;
        var left;
        left, a := StoreAt(e.left, p[1..], n, sh.sub, nsh, world);
        e.left := left;
        top, r := e, One(e, a);
        OneTree(e, a);
      case IsBin(_) =>
        if p[0] == L {
          PartIs(sh.lhs, p[1..]);
          ghost var a;
          var left;
          left, a := StoreAt(e.left, p[1..], n, sh.lhs, nsh, world);
          e.left := left;
          top, r := e, Two(e, a, sh.rhs);
          TwoTree(e, a, sh.rhs);
        } else {
          PartIs(sh.rhs, p[1..]);
          ghost var b;
          var right;
          right, b := StoreAt(e.right, p[1..], n, sh.rhs, nsh, world);
          e.right := right;
          top, r := e, Two(e, sh.lhs, b);
          TwoTree(e, sh.lhs, b);
        }
      case _ =>
    }
  }

  // ----- Copies -----

  /** expr_alloc_symbol and the like: a tree of new nodes. */
  method Alloc(x: Expr) returns (n: Node, ghost sh: Shape, ghost made: set<Node>)
    ensures Tree(sh, n) && Nodes(sh) == made && fresh(made) && ExprOf(sh) == x
    decreases x
  {
    hide Tree, Linked, Distinct, ExprOf, Nodes;
    match x {
      case Symbol(s) =>
        n := new Node(IsSymbol, null, null, s, No);
        sh, made := Leaf(n), {n};
        LeafTree(n);
      case Compare(rel, s, t) =>
        n := new Node(IsCompare(rel), null, null, s, t);
        sh, made := Leaf(n), {n};
        LeafTree(n);
      case Not(y) =>
        ghost var a, made1;
        var left;
        left, a, made1 := Alloc(y);
        n := new Node(IsNot, left, null, No, No);
        sh, made := One(n, a), {n} + made1;
        OneTree(n, a);
      case Bin(op, y, z) =>
        ghost var a, b, made1, made2;
        var left, right;
        left, a, made1 := Alloc(y);
        right, b, made2 := Alloc(z);
        n := new Node(IsBin(op), left, right, No, No);
        sh, made := Two(n, a, b), {n} + made1 + made2;
        TwoTree(n, a, b);
    }
  }

  /** What the nodes stand for. */
  method Read(e: Node, ghost sh: Shape, ghost world: set<Node>) returns (x: Expr)
    requires Tree(sh, e) && Nodes(sh) <= world
    ensures x == old(ExprOf(sh))
    decreases sh
  {
    hide Tree, Linked, Distinct, ExprOf, Nodes;
    Open(sh, e);
    match e.kind {
      case IsSymbol => x := Symbol(e.leftSym);
      case IsCompare(rel) => x := Compare(rel, e.leftSym, e.rightSym);
      case IsNot =>
        var y := Read(e.left, sh.sub, world);
        x := Not(y);
      case IsBin(op) =>
        var y := Read(e.left, sh.lhs, world);
        var z := Read(e.right, sh.rhs, world);
        x := Bin(op, y, z);
    }
  }

  // ----- Variables -----

  /** A variable of type struct expr *, and the nodes that are its own. */
  class Variable {
    var top: Node
    ghost var shape: Shape
    ghost var nodes: set<Node>

    ghost predicate Valid()
      reads this, nodes
    {
      nodes == Nodes(shape) && Tree(shape, top)
    }

    /** The expression it holds. */
    ghost function Whole(): Expr
      requires Valid()
      reads this, nodes
    {
      ExprOf(shape)
    }

    /** A new tree for the expression. */
    constructor (x: Expr)
      ensures Valid() && Whole() == x && fresh(nodes)
    {
      var n;
      ghost var sh, made;
      n, sh, made := Alloc(x);
      top, shape, nodes := n, sh, made;
    }

    /** The node at an address. */
    method At(p: Path) returns (n: Node)
      requires Valid() && HasPath(Whole(), p)
      ensures n in nodes && HasPlace(shape, p) && n == Part(shape, p).node
      ensures n.kind.IsSymbol? <==> ExprPaths.At(Whole(), p).Symbol?
      ensures n.kind.IsBin? <==> ExprPaths.At(Whole(), p).Bin?
      ensures n.kind.IsBin? ==> n.kind.op == ExprPaths.At(Whole(), p).op
    {
      hide Tree, Linked, Distinct, ExprOf, Nodes;
      n := Load(top, p, shape);
      PlaceAtTop(shape, top);
      PartIs(shape, p);
      KindOf(Part(shape, p), n);
    }

    /** A copy of what is at an address. */
    method Copy(p: Path) returns (x: Expr)
      requires Valid() && HasPath(Whole(), p)
      ensures x == old(ExprPaths.At(Whole(), p))
    {
      hide Tree, Linked, Distinct, ExprOf, Nodes;
      var n := At(p);
      PlaceAtTop(shape, top);
      PartIs(shape, p);
      x := Read(n, Part(shape, p), nodes);
    }

    /** Frees what is at an address and puts a new tree there. */
    method Replace(p: Path, x: Expr) returns (ghost freed: set<Node>)
      requires Valid() && HasPath(Whole(), p)
      modifies this, nodes
      ensures Valid() && Whole() == Put(old(Whole()), p, x)
      ensures fresh(nodes - old(nodes)) && freed <= old(nodes) && nodes !! freed && old(nodes) <= nodes + freed
    {
      hide Tree, Linked, Distinct, ExprOf, Nodes;
      PlaceAtTop(shape, top);
      PartIs(shape, p);
      freed := Nodes(Part(shape, p));
      var n;
      ghost var nsh, made;
      n, nsh, made := Alloc(x);
      top, shape := StoreAt(top, p, n, shape, nsh, nodes + made);
      nodes := nodes - freed + made;
    }
  }
}
