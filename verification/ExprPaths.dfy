/** Places inside an expression: a path stands for the address of a pointer to a
    subexpression. */
module ExprPaths {
  import opened Expr
  import opened ExprLevel

  datatype Dir = L | R

  type Path = seq<Dir>

  predicate HasPath(e: Expr, p: Path)
    decreases p
  {
    p == [] ||
    match e
    case Not(a) => p[0] == L && HasPath(a, p[1..])
    case Bin(_, a, b) => HasPath(if p[0] == L then a else b, p[1..])
    case _ => false
  }

  /** The subexpression at a place, and the expression with another one put there. */
  function At(e: Expr, p: Path): (r: Expr)
    requires HasPath(e, p)
    ensures Size(r) <= Size(e)
    decreases p
  {
    if p == [] then e
    else
      match e
      case Not(a) => At(a, p[1..])
      case Bin(_, a, b) => At(if p[0] == L then a else b, p[1..])
  }

  function Put(e: Expr, p: Path, x: Expr): Expr
    requires HasPath(e, p)
    decreases p
  {
    if p == [] then x
    else
      match e
      case Not(a) => Not(Put(a, p[1..], x))
      case Bin(op, a, b) =>
        if p[0] == L then Bin(op, Put(a, p[1..], x), b) else Bin(op, a, Put(b, p[1..], x))
  }

  lemma {:induction false} PutAt(e: Expr, p: Path, x: Expr, y: Expr)
    requires HasPath(e, p)
    ensures HasPath(Put(e, p, x), p) && At(Put(e, p, x), p) == x
    ensures Put(Put(e, p, x), p, y) == Put(e, p, y)
    ensures Put(e, p, At(e, p)) == e
    decreases p
  {
    if p != [] {
      match e
      case Not(a) => PutAt(a, p[1..], x, y);
      case Bin(_, a, b) => PutAt(if p[0] == L then a else b, p[1..], x, y);
    }
  }

  /** A place below a place. */
  lemma {:induction false} PathAppend(e: Expr, p: Path, q: Path, x: Expr)
    requires HasPath(e, p)
    ensures HasPath(e, p + q) <==> HasPath(At(e, p), q)
    ensures HasPath(e, p + q) ==> At(e, p + q) == At(At(e, p), q) && Put(e, p + q, x) == Put(e, p, Put(At(e, p), q, x))
    decreases p
  {
    if p == [] {
      assert p + q == q;
    } else {
      assert (p + q)[0] == p[0] && (p + q)[1..] == p[1..] + q;
      match e
      case Not(a) => PathAppend(a, p[1..], q, x);
      case Bin(_, a, b) => PathAppend(if p[0] == L then a else b, p[1..], q, x);
    }
  }

  // ----- Places at one level -----

  /** The path leads through nodes of `op` only. */
  predicate OnLevel(op: Op, e: Expr, p: Path)
    decreases p
  {
    p == [] || (IsOp(e, op) && OnLevel(op, if p[0] == L then e.left else e.right, p[1..]))
  }

  /** How many operands of the level come before the place. */
  function Offset(op: Op, e: Expr, p: Path): nat
    requires OnLevel(op, e, p)
    decreases p
  {
    if p == [] then 0
    else if p[0] == L then Offset(op, e.left, p[1..])
    else |Leaves(op, e.left)| + Offset(op, e.right, p[1..])
  }

  /** The operands at and below the place are a stretch of those of the level. */
  lemma {:induction false} LevelStretch(op: Op, e: Expr, p: Path)
    requires OnLevel(op, e, p) && HasPath(e, p)
    ensures var i, n := Offset(op, e, p), |Leaves(op, At(e, p))|;
            i + n <= |Leaves(op, e)| && Leaves(op, e)[i..i + n] == Leaves(op, At(e, p))
    decreases p
  {
    if p == [] {
      assert Leaves(op, e)[0..|Leaves(op, e)|] == Leaves(op, e);
    } else if p[0] == L {
      LevelStretch(op, e.left, p[1..]);
      SliceLeft(Leaves(op, e.left), Leaves(op, e.right), Offset(op, e.left, p[1..]), |Leaves(op, At(e, p))|);
    } else {
      LevelStretch(op, e.right, p[1..]);
      SliceRight(Leaves(op, e.left), Leaves(op, e.right), Offset(op, e.right, p[1..]), |Leaves(op, At(e, p))|);
    }
  }

  lemma SliceLeft<T>(a: seq<T>, b: seq<T>, i: nat, n: nat)
    requires i + n <= |a|
    ensures (a + b)[i..i + n] == a[i..i + n]
  {
  }

  lemma SliceRight<T>(a: seq<T>, b: seq<T>, i: nat, n: nat)
    requires i + n <= |b|
    ensures (a + b)[|a| + i..|a| + i + n] == b[i..i + n]
  {
  }

  /** The same nodes of `op` at the top, with whatever operands. */
  predicate SameSpine(op: Op, e: Expr, f: Expr) {
    if IsOp(e, op) then IsOp(f, op) && SameSpine(op, e.left, f.left) && SameSpine(op, e.right, f.right)
    else !IsOp(f, op)
  }

  lemma {:induction false} SameSpineRefl(op: Op, e: Expr)
    ensures SameSpine(op, e, e)
  {
    if IsOp(e, op) {
      SameSpineRefl(op, e.left);
      SameSpineRefl(op, e.right);
    }
  }

  lemma {:induction false} SameSpineTrans(op: Op, e: Expr, f: Expr, g: Expr)
    requires SameSpine(op, e, f) && SameSpine(op, f, g)
    ensures SameSpine(op, e, g)
  {
    if IsOp(e, op) {
      SameSpineTrans(op, e.left, f.left, g.left);
      SameSpineTrans(op, e.right, f.right, g.right);
    }
  }

  lemma {:induction false} SameSpineLeaves(op: Op, e: Expr, f: Expr)
    requires SameSpine(op, e, f)
    ensures |Leaves(op, e)| == |Leaves(op, f)| && Rebuild(op, e, Leaves(op, f)) == f
  {
    if IsOp(e, op) {
      SameSpineLeaves(op, e.left, f.left);
      SameSpineLeaves(op, e.right, f.right);
      var n := |Leaves(op, e.left)|;
      assert Leaves(op, f)[..n] == Leaves(op, f.left) && Leaves(op, f)[n..] == Leaves(op, f.right);
    }
  }

  /** Places keep their meaning while only operands change. */
  lemma {:induction false} SameSpinePlaces(op: Op, e: Expr, f: Expr, p: Path)
    requires SameSpine(op, e, f) && OnLevel(op, e, p)
    ensures HasPath(e, p) && OnLevel(op, f, p) && HasPath(f, p) && Offset(op, f, p) == Offset(op, e, p)
    ensures SameSpine(op, At(e, p), At(f, p)) && |Leaves(op, At(e, p))| == |Leaves(op, At(f, p))|
    decreases p
  {
    if p == [] {
      SameSpineLeaves(op, e, f);
    } else {
      SameSpineLeaves(op, e.left, f.left);
      SameSpinePlaces(op, if p[0] == L then e.left else e.right, if p[0] == L then f.left else f.right, p[1..]);
    }
  }

  /** Writing an operand changes one element of the list of operands. */
  lemma {:induction false} PutLeaf(op: Op, e: Expr, p: Path, x: Expr)
    requires OnLevel(op, e, p) && HasPath(e, p) && !IsOp(At(e, p), op) && !IsOp(x, op)
    ensures SameSpine(op, e, Put(e, p, x)) && Offset(op, e, p) < |Leaves(op, e)|
    ensures Leaves(op, Put(e, p, x)) == Leaves(op, e)[Offset(op, e, p) := x]
    ensures Leaves(op, e)[Offset(op, e, p)] == At(e, p)
    decreases p
  {
    if p != [] {
      if p[0] == L {
        PutLeaf(op, e.left, p[1..], x);
        SameSpineRefl(op, e.right);
      } else {
        PutLeaf(op, e.right, p[1..], x);
        SameSpineRefl(op, e.left);
      }
    }
  }

  /** Operands at different positions are in different places: writing one leaves the
      other alone. */
  lemma {:induction false} PutOther(op: Op, e: Expr, p: Path, q: Path)
    requires OnLevel(op, e, p) && OnLevel(op, e, q) && HasPath(e, p) && HasPath(e, q)
    requires !IsOp(At(e, p), op) && !IsOp(At(e, q), op)
    ensures p == q <==> Offset(op, e, p) == Offset(op, e, q)
    decreases p
  {
    if p == [] || q == [] {
      assert p == [] && q == [];
    } else {
      LevelStretch(op, e.left, if p[0] == L then p[1..] else if q[0] == L then q[1..] else []);
      if p[0] == q[0] {
        PutOther(op, if p[0] == L then e.left else e.right, p[1..], q[1..]);
        assert p == [p[0]] + p[1..] && q == [q[0]] + q[1..];
      }
    }
  }
}
