/** A level of an expression: the operands reached from the top through nodes of one
    operator only. The in-place passes of expr.c change operands and leave the nodes
    above them alone. */
module ExprLevel {
  import opened Expr

  /** The operands of `e` at the `op` level, from left to right. */
  function Leaves(op: Op, e: Expr): (ls: seq<Expr>)
    ensures |ls| >= 1
  {
    if IsOp(e, op) then Leaves(op, e.left) + Leaves(op, e.right) else [e]
  }

  lemma {:induction false} LeavesAreLeaves(op: Op, e: Expr)
    ensures forall l :: l in Leaves(op, e) ==> !IsOp(l, op)
  {
    if IsOp(e, op) {
      LeavesAreLeaves(op, e.left);
      LeavesAreLeaves(op, e.right);
    }
  }

  lemma {:induction false} LeavesAreSmaller(op: Op, e: Expr)
    ensures forall l :: l in Leaves(op, e) ==> Size(l) <= Size(e) && (IsOp(e, op) ==> Size(l) < Size(e))
  {
    if IsOp(e, op) {
      LeavesAreSmaller(op, e.left);
      LeavesAreSmaller(op, e.right);
    }
  }

  /** `e` with the operands at its `op` level replaced by `ls`. */
  function Rebuild(op: Op, e: Expr, ls: seq<Expr>): (r: Expr)
    requires |ls| == |Leaves(op, e)|
  {
    if IsOp(e, op) then
      var n := |Leaves(op, e.left)|;
      Bin(op, Rebuild(op, e.left, ls[..n]), Rebuild(op, e.right, ls[n..]))
    else ls[0]
  }

  lemma {:induction false} RebuildSame(op: Op, e: Expr)
    ensures Rebuild(op, e, Leaves(op, e)) == e
  {
    if IsOp(e, op) {
      var n := |Leaves(op, e.left)|;
      assert Leaves(op, e)[..n] == Leaves(op, e.left);
      assert Leaves(op, e)[n..] == Leaves(op, e.right);
      RebuildSame(op, e.left);
      RebuildSame(op, e.right);
    }
  }

  lemma {:induction false} LeavesOfRebuild(op: Op, e: Expr, ls: seq<Expr>)
    requires |ls| == |Leaves(op, e)|
    requires forall l :: l in ls ==> !IsOp(l, op)
    ensures Leaves(op, Rebuild(op, e, ls)) == ls
  {
    if IsOp(e, op) {
      var n := |Leaves(op, e.left)|;
      LeavesOfRebuild(op, e.left, ls[..n]);
      LeavesOfRebuild(op, e.right, ls[n..]);
      assert ls[..n] + ls[n..] == ls;
    }
  }

  /** Total size and combined value of a list of operands. */
  function Sizes(ls: seq<Expr>): nat {
    if ls == [] then 0 else Size(ls[0]) + Sizes(ls[1..])
  }

  function Values(v: Valuation, op: Op, ls: seq<Expr>): Tristate {
    if ls == [] then v.tri(Unit(op)) else Apply(op, Value(v, ls[0]), Values(v, op, ls[1..]))
  }

  lemma {:induction false} SizesAppend(a: seq<Expr>, b: seq<Expr>)
    ensures Sizes(a + b) == Sizes(a) + Sizes(b)
  {
    if a == [] {
      assert a + b == b;
    } else {
      assert (a + b)[1..] == a[1..] + b;
      SizesAppend(a[1..], b);
    }
  }

  lemma {:induction false} ValuesAppend(v: Valuation, op: Op, a: seq<Expr>, b: seq<Expr>)
    requires Sound(v)
    ensures Values(v, op, a + b) == Apply(op, Values(v, op, a), Values(v, op, b))
  {
    hide Apply, Sound;
    if a == [] {
      assert a + b == b;
      UnitAndZero(v, op, Values(v, op, b));
    } else {
      assert (a + b)[1..] == a[1..] + b;
      ValuesAppend(v, op, a[1..], b);
      ApplyAssociative(op, Value(v, a[0]), Values(v, op, a[1..]), Values(v, op, b));
    }
  }

  /** The level decides the value ... */
  lemma {:induction false} RebuildValue(v: Valuation, op: Op, e: Expr, ls: seq<Expr>)
    requires Sound(v) && |ls| == |Leaves(op, e)|
    ensures Value(v, Rebuild(op, e, ls)) == Values(v, op, ls)
  {
    hide Apply, Sound;
    if IsOp(e, op) {
      var n := |Leaves(op, e.left)|;
      RebuildValue(v, op, e.left, ls[..n]);
      RebuildValue(v, op, e.right, ls[n..]);
      ValuesAppend(v, op, ls[..n], ls[n..]);
      assert ls[..n] + ls[n..] == ls;
    } else {
      assert ls == [ls[0]] && ls[1..] == [];
      UnitAndZero(v, op, Value(v, ls[0]));
    }
  }

  /** ... and the size. */
  lemma SizeOfBin(op: Op, l: Expr, r: Expr)
    ensures Size(Bin(op, l, r)) == 1 + Size(l) + Size(r)
  {
  }

  lemma SizesOne(e: Expr)
    ensures Sizes([e]) == Size(e)
  {
    assert [e][1..] == [];
  }

  lemma {:induction false} RebuildSize(op: Op, e: Expr, ls: seq<Expr>)
    requires |ls| == |Leaves(op, e)|
    ensures Size(Rebuild(op, e, ls)) == Sizes(ls) + |ls| - 1
  {
    if IsOp(e, op) {
      var n := |Leaves(op, e.left)|;
      var a, b := ls[..n], ls[n..];
      RebuildSize(op, e.left, a);
      RebuildSize(op, e.right, b);
      SizesAppend(a, b);
      assert a + b == ls;
      SizeOfBin(op, Rebuild(op, e.left, a), Rebuild(op, e.right, b));
    } else {
      assert Sizes(ls) == Size(ls[0]) by { assert ls == [ls[0]]; SizesOne(ls[0]); }
    }
  }
}
