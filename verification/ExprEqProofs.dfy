/** What expr_eq and expr_eliminate_eq promise. */
module ExprEqProofs {
  import opened Expr
  import opened ExprEq
  import opened ExprLevel

  // ----- Soundness and the common factor -----

  /** Expressions that compare equal have the same value under every valuation. */
  lemma {:induction false} EqualSound(v: Valuation, e1: Expr, e2: Expr)
    requires Sound(v) && Equal(e1, e2)
    ensures Value(v, e1) == Value(v, e2)
    decreases Size(e1) + Size(e2), 2
  {
    match (e1, e2) {
      case (Not(a1), Not(a2)) => EqualSound(v, a1, a2);
      case (Bin(_, _, _), Bin(_, _, _)) =>
        var op, c := EliminateEqFactor(v, e1, e2);
      case _ =>
    }
  }

  /** Under each valuation one value `c` was taken out of both sides. */
  lemma {:induction false} EliminateEqFactor(v: Valuation, e1: Expr, e2: Expr) returns (op: Op, c: Tristate)
    requires Sound(v)
    ensures Value(v, e1) == Apply(op, c, Value(v, EliminateEq(e1, e2).0))
    ensures Value(v, e2) == Apply(op, c, Value(v, EliminateEq(e1, e2).1))
    decreases Size(e1) + Size(e2), 1
  {
    op, c := And, YES;
    var a1, a2 := e1, e2;
    if e1.Bin? {
      op := e1.op;
      c := CancelFactor(v, op, e1, e2);
      a1, a2 := Cancel(op, e1, e2).0, Cancel(op, e1, e2).1;
    }
    var b1, b2 := a1, a2;
    if a2.Bin? && !(a1.Bin? && a1.op == a2.op) {
      if e1.Bin? {
        CancelWhole(op, e1, e2);
      }
      op := a2.op;
      c := CancelFactor(v, op, a1, a2);
      b1, b2 := Cancel(op, a1, a2).0, Cancel(op, a1, a2).1;
    }
    EliminateYnSound(v, b1);
    EliminateYnSound(v, b2);
  }

  /** When an operand of `e1` matches the whole of `e2`, nothing of `e2` is left to
      compare; so if something is left, the first pass changed nothing. */
  lemma {:induction false} CancelWhole(op: Op, e1: Expr, e2: Expr)
    requires !IsOp(e2, op)
    ensures Cancel(op, e1, e2) == (e1, e2) || Cancel(op, e1, e2).1 == Symbol(Unit(op))
    decreases e1
  {
    if IsOp(e1, op) {
      CancelWhole(op, e1.left, e2);
      CancelWhole(op, e1.right, Cancel(op, e1.left, e2).1);
    }
  }

  lemma {:induction false} CancelFactor(v: Valuation, op: Op, e1: Expr, e2: Expr) returns (c: Tristate)
    requires Sound(v)
    ensures Value(v, e1) == Apply(op, c, Value(v, Cancel(op, e1, e2).0))
    ensures Value(v, e2) == Apply(op, c, Value(v, Cancel(op, e1, e2).1))
    decreases Size(e1) + Size(e2), if IsOp(e1, op) || IsOp(e2, op) then 0 else 3
  {
    hide Apply, Sound, Equal;
    if IsOp(e1, op) {
      var (l, f2) := Cancel(op, e1.left, e2);
      var (r, g2) := Cancel(op, e1.right, f2);
      var c1 := CancelFactor(v, op, e1.left, e2);
      var c2 := CancelFactor(v, op, e1.right, f2);
      c := Apply(op, c1, c2);
      ApplyRegroup(op, c1, Value(v, l), c2, Value(v, r));
      ApplyAssociative(op, c1, c2, Value(v, g2));
    } else if IsOp(e2, op) {
      var (f1, l) := Cancel(op, e1, e2.left);
      var (g1, r) := Cancel(op, f1, e2.right);
      var c1 := CancelFactor(v, op, e1, e2.left);
      var c2 := CancelFactor(v, op, f1, e2.right);
      c := Apply(op, c1, c2);
      ApplyRegroup(op, c1, Value(v, l), c2, Value(v, r));
      ApplyAssociative(op, c1, c2, Value(v, g1));
    } else if !(IsYesNo(e1) && e1 == e2) && Equal(e1, e2) {
      EqualSound(v, e1, e2);
      c := Value(v, e1);
      UnitAndZero(v, op, c);
    } else {
      c := v.tri(Unit(op));
      UnitAndZero(v, op, Value(v, e1));
      UnitAndZero(v, op, Value(v, e2));
    }
  }

  /** The superset test of menu_finalize: if nothing but y is left of `e2`, then `e2` is
      at least `e1` under every valuation. */
  lemma ResidueYes(v: Valuation, e1: Expr, e2: Expr)
    requires Sound(v) && EliminateEq(e1, e2).1 == Symbol(Yes)
    ensures Value(v, e1) <= Value(v, e2)
  {
    var op, c := EliminateEqFactor(v, e1, e2);
    FactorOfYes(op, c, Value(v, EliminateEq(e1, e2).0));
  }

  lemma FactorOfYes(op: Op, c: Tristate, t: Tristate)
    ensures Apply(op, c, t) <= Apply(op, c, YES)
  {
  }

  // ----- Reflexivity -----

  /** One comparison of __expr_eliminate_eq, and the two nested walks over the operands. */
  function CancelLeaf(op: Op, x: Expr, y: Expr): (Expr, Expr) {
    if IsYesNo(x) && x == y then (x, y)
    else if !Equal(x, y) then (x, y)
    else (Symbol(Unit(op)), Symbol(Unit(op)))
  }

  function CancelRow(op: Op, x: Expr, ys: seq<Expr>): (r: (Expr, seq<Expr>))
    ensures |r.1| == |ys|
    decreases ys
  {
    if ys == [] then (x, [])
    else
      var (x1, y1) := CancelLeaf(op, x, ys[0]);
      var (x2, rest) := CancelRow(op, x1, ys[1..]);
      (x2, [y1] + rest)
  }

  function CancelRows(op: Op, xs: seq<Expr>, ys: seq<Expr>): (r: (seq<Expr>, seq<Expr>))
    ensures |r.0| == |xs| && |r.1| == |ys|
  {
    if xs == [] then ([], ys)
    else
      var (x, ys1) := CancelRow(op, xs[0], ys);
      var (rest, ys2) := CancelRows(op, xs[1..], ys1);
      ([x] + rest, ys2)
  }

  lemma {:induction false} CancelRowAppend(op: Op, x: Expr, a: seq<Expr>, b: seq<Expr>)
    ensures CancelRow(op, x, a + b) ==
            (CancelRow(op, CancelRow(op, x, a).0, b).0,
             CancelRow(op, x, a).1 + CancelRow(op, CancelRow(op, x, a).0, b).1)
    decreases a
  {
    if a == [] {
      assert a + b == b;
      assert CancelRow(op, x, a) == (x, []);
      assert [] + CancelRow(op, x, b).1 == CancelRow(op, x, b).1;
    } else {
      assert (a + b)[1..] == a[1..] + b;
      var (x1, y1) := CancelLeaf(op, x, a[0]);
      CancelRowAppend(op, x1, a[1..], b);
      var (x2, rest) := CancelRow(op, x1, a[1..]);
      var tail := CancelRow(op, x2, b).1;
      assert [y1] + (rest + tail) == ([y1] + rest) + tail;
    }
  }

  lemma {:induction false} CancelRowsAppend(op: Op, a: seq<Expr>, b: seq<Expr>, ys: seq<Expr>)
    ensures CancelRows(op, a + b, ys) ==
            (CancelRows(op, a, ys).0 + CancelRows(op, b, CancelRows(op, a, ys).1).0,
             CancelRows(op, b, CancelRows(op, a, ys).1).1)
  {
    if a == [] {
      assert a + b == b;
      assert CancelRows(op, a, ys) == ([], ys);
      assert [] + CancelRows(op, b, ys).0 == CancelRows(op, b, ys).0;
    } else {
      assert (a + b)[1..] == a[1..] + b;
      var (x, ys1) := CancelRow(op, a[0], ys);
      CancelRowsAppend(op, a[1..], b, ys1);
      var (rest, ys2) := CancelRows(op, a[1..], ys1);
      var tail := CancelRows(op, b, ys2).0;
      assert [x] + (rest + tail) == ([x] + rest) + tail;
    }
  }

  lemma {:induction false} CancelRowLeaves(op: Op, x: Expr, ys: seq<Expr>)
    requires !IsOp(x, op) && forall y :: y in ys ==> !IsOp(y, op)
    ensures !IsOp(CancelRow(op, x, ys).0, op)
    ensures forall y :: y in CancelRow(op, x, ys).1 ==> !IsOp(y, op)
    decreases ys
  {
    if ys != [] {
      CancelRowLeaves(op, CancelLeaf(op, x, ys[0]).0, ys[1..]);
    }
  }

  /** The recursion over a single operand of `e1` is the inner walk ... */
  lemma {:induction false} CancelIsRow(op: Op, x: Expr, e2: Expr)
    requires !IsOp(x, op)
    ensures var row := CancelRow(op, x, Leaves(op, e2));
            Cancel(op, x, e2) == (row.0, Rebuild(op, e2, row.1))
    ensures !IsOp(Cancel(op, x, e2).0, op)
    decreases e2
  {
    if IsOp(e2, op) {
      var a, b := Leaves(op, e2.left), Leaves(op, e2.right);
      CancelIsRow(op, x, e2.left);
      CancelIsRow(op, Cancel(op, x, e2.left).0, e2.right);
      CancelRowAppend(op, x, a, b);
    } else {
      var (x1, y1) := CancelLeaf(op, x, e2);
      assert [e2][1..] == [];
      assert CancelRow(op, x1, []) == (x1, []);
      assert CancelRow(op, x, [e2]) == (x1, [y1] + []);
    }
  }

  /** ... and the whole recursion the two nested walks. */
  lemma {:induction false} CancelIsRows(op: Op, e1: Expr, e2: Expr)
    ensures var rows := CancelRows(op, Leaves(op, e1), Leaves(op, e2));
            Cancel(op, e1, e2) == (Rebuild(op, e1, rows.0), Rebuild(op, e2, rows.1))
    decreases e1
  {
    if IsOp(e1, op) {
      var a, b, ys := Leaves(op, e1.left), Leaves(op, e1.right), Leaves(op, e2);
      LeavesAreLeaves(op, e1.left);
      LeavesAreLeaves(op, e2);
      CancelIsRows(op, e1.left, e2);
      var rows := CancelRows(op, a, ys);
      var f2 := Cancel(op, e1.left, e2).1;
      CancelRowsLeaves(op, a, ys);
      LeavesOfRebuild(op, e2, rows.1);
      CancelIsRows(op, e1.right, f2);
      CancelRowsAppend(op, a, b, ys);
      RebuildTwice(op, e2, rows.1, CancelRows(op, b, rows.1).1);
    } else {
      var x := e1;
      CancelIsRow(op, x, e2);
      var row := CancelRow(op, x, Leaves(op, e2));
      assert [x][1..] == [];
      assert CancelRows(op, [], row.1) == ([], row.1);
      assert CancelRows(op, [x], Leaves(op, e2)) == ([row.0] + [], row.1);
    }
  }

  lemma {:induction false} CancelRowsLeaves(op: Op, xs: seq<Expr>, ys: seq<Expr>)
    requires (forall x :: x in xs ==> !IsOp(x, op)) && (forall y :: y in ys ==> !IsOp(y, op))
    ensures forall y :: y in CancelRows(op, xs, ys).1 ==> !IsOp(y, op)
  {
    if xs != [] {
      CancelRowLeaves(op, xs[0], ys);
      CancelRowsLeaves(op, xs[1..], CancelRow(op, xs[0], ys).1);
    }
  }

  lemma {:induction false} RebuildTwice(op: Op, e: Expr, ls: seq<Expr>, ms: seq<Expr>)
    requires |ls| == |Leaves(op, e)| == |ms|
    requires forall l :: l in ls ==> !IsOp(l, op)
    ensures |Leaves(op, Rebuild(op, e, ls))| == |ms|
    ensures Rebuild(op, Rebuild(op, e, ls), ms) == Rebuild(op, e, ms)
  {
    LeavesOfRebuild(op, e, ls);
    if IsOp(e, op) {
      var n := |Leaves(op, e.left)|;
      LeavesOfRebuild(op, e.left, ls[..n]);
      RebuildTwice(op, e.left, ls[..n], ms[..n]);
      RebuildTwice(op, e.right, ls[n..], ms[n..]);
    }
  }

  /** A constant matches nothing. */
  lemma {:induction false} RowOfConstant(op: Op, x: Expr, ys: seq<Expr>)
    requires IsYesNo(x)
    ensures CancelRow(op, x, ys) == (x, ys)
  {
    if ys != [] {
      assert CancelLeaf(op, x, ys[0]) == (x, ys[0]);
      RowOfConstant(op, x, ys[1..]);
      assert [ys[0]] + ys[1..] == ys;
    }
  }

  lemma {:induction false} RowOverConstants(op: Op, x: Expr, ys: seq<Expr>)
    requires forall y :: y in ys ==> IsYesNo(y)
    ensures CancelRow(op, x, ys) == (x, ys)
  {
    if ys != [] {
      assert ys[0] in ys;
      assert CancelLeaf(op, x, ys[0]) == (x, ys[0]);
      RowOverConstants(op, x, ys[1..]);
      assert [ys[0]] + ys[1..] == ys;
    }
  }

  function Spent(op: Op, x: Expr): Expr {
    if IsYesNo(x) then x else Symbol(Unit(op))
  }

  function SpentAll(op: Op, xs: seq<Expr>): (r: seq<Expr>)
    ensures |r| == |xs|
    ensures forall r' :: r' in r ==> IsYesNo(r')
  {
    if xs == [] then [] else [Spent(op, xs[0])] + SpentAll(op, xs[1..])
  }

  /** A list of operands walked against itself: operand i skips the spent ones before it
      and then meets itself. */
  lemma {:induction false} RowOfSame(op: Op, done: seq<Expr>, x: Expr, rest: seq<Expr>)
    requires (forall d :: d in done ==> IsYesNo(d)) && Equal(x, x)
    ensures CancelRow(op, x, done + ([x] + rest)) == (Spent(op, x), done + ([Spent(op, x)] + rest))
  {
    var s := Spent(op, x);
    CancelRowAppend(op, x, done, [x] + rest);
    RowOverConstants(op, x, done);
    assert CancelLeaf(op, x, x) == (s, s);
    RowOfConstant(op, s, rest);
    assert ([x] + rest)[0] == x && ([x] + rest)[1..] == rest;
  }

  lemma {:induction false} RowsOfSame(op: Op, done: seq<Expr>, xs: seq<Expr>)
    requires forall d :: d in done ==> IsYesNo(d)
    requires forall x :: x in xs ==> Equal(x, x)
    ensures CancelRows(op, xs, done + xs) == (SpentAll(op, xs), done + SpentAll(op, xs))
    decreases xs
  {
    if xs == [] {
      assert done + xs == done;
    } else {
      var x, rest := xs[0], xs[1..];
      var s := Spent(op, x);
      assert xs == [x] + rest;
      RowOfSame(op, done, x, rest);
      assert done + ([s] + rest) == (done + [s]) + rest;
      RowsOfSame(op, done + [s], rest);
      assert (done + [s]) + SpentAll(op, rest) == done + SpentAll(op, xs);
    }
  }

  lemma {:induction false} ConstantsCollapse(op: Op, e: Expr, ls: seq<Expr>)
    requires |ls| == |Leaves(op, e)| && forall l :: l in ls ==> IsYesNo(l)
    ensures IsYesNo(EliminateYn(Rebuild(op, e, ls)))
  {
    if IsOp(e, op) {
      var n := |Leaves(op, e.left)|;
      var l, r := Rebuild(op, e.left, ls[..n]), Rebuild(op, e.right, ls[n..]);
      ConstantsCollapse(op, e.left, ls[..n]);
      ConstantsCollapse(op, e.right, ls[n..]);
      assert Rebuild(op, e, ls) == Bin(op, l, r);
      var l', r' := EliminateYn(l), EliminateYn(r);
      assert EliminateYn(Bin(op, l, r)) == l' || EliminateYn(Bin(op, l, r)) == r';
    } else {
      assert ls[0] in ls;
    }
  }

  lemma EqualIfSpent(e: Expr, c: Expr)
    requires e.Bin? && IsOp(c, e.op) && Cancel(e.op, e, e) == (c, c) && IsYesNo(EliminateYn(c))
    ensures Equal(e, e)
  {
    assert EliminateEq(e, e) == (EliminateYn(c), EliminateYn(c));
  }

  /** Every expression equals itself. */
  lemma {:induction false} EqualReflexive(e: Expr)
    ensures Equal(e, e)
    decreases Size(e)
  {
    match e {
      case Symbol(_) =>
      case Compare(_, _, _) =>
      case Not(a) => EqualReflexive(a);
      case Bin(op, _, _) =>
        var xs := Leaves(op, e);
        LeavesAreSmaller(op, e);
        forall x | x in xs ensures Equal(x, x) { EqualReflexive(x); }
        CancelIsRows(op, e, e);
        RowsOfSame(op, [], xs);
        assert [] + xs == xs && [] + SpentAll(op, xs) == SpentAll(op, xs);
        ConstantsCollapse(op, e, SpentAll(op, xs));
        EqualIfSpent(e, Rebuild(op, e, SpentAll(op, xs)));
    }
  }
}
