/** expr_eliminate_eq leaves nothing that could still be cancelled. */
module ExprEqComplete {
  import opened Expr
  import opened ExprEq
  import opened ExprLevel
  import opened ExprEqProofs
  import opened ExprEqOrder

  /** An operand without constants, or one that has been cancelled. */
  predicate Kept(op: Op, l: Expr) {
    l == Symbol(Unit(op)) || (NoConstants(l) && !IsYesNo(l) && !IsOp(l, op))
  }

  /** What remains of a level are operands that were not cancelled, or nothing. */
  lemma {:induction false} ResidueLeaves(op: Op, e: Expr, ls: seq<Expr>)
    requires |ls| == |Leaves(op, e)| && forall k :: 0 <= k < |ls| ==> Kept(op, ls[k])
    ensures forall l :: l in Leaves(op, EliminateYn(Rebuild(op, e, ls))) ==> IsYesNo(l) || l in ls
  {
    if IsOp(e, op) {
      var n := |Leaves(op, e.left)|;
      var a, b := ls[..n], ls[n..];
      assert ls == a + b;
      ResidueLeaves(op, e.left, a);
      ResidueLeaves(op, e.right, b);
      var l, r := EliminateYn(Rebuild(op, e.left, a)), EliminateYn(Rebuild(op, e.right, b));
      assert EliminateYn(Rebuild(op, e, ls)) == Combine(op, l, r);
      assert Leaves(op, Bin(op, l, r)) == Leaves(op, l) + Leaves(op, r);
    } else {
      assert ls == [ls[0]];
      if ls[0] != Symbol(Unit(op)) { NoConstantsYnFree(ls[0]); }
    }
  }

  /** Neither expression is y or n, or has such an operand. */
  predicate Free(e1: Expr, e2: Expr) {
    NoConstants(e1) && NoConstants(e2) && !IsYesNo(e1) && !IsYesNo(e2)
  }

  lemma KeptWithin(op: Op, after: seq<Expr>, e: Expr)
    requires NoConstants(e) && !IsYesNo(e) && Within(op, after, Leaves(op, e))
    ensures forall k :: 0 <= k < |after| ==> Kept(op, after[k])
  {
    NoConstantsLeaves(op, e);
  }

  lemma UnmatchedWithin(xs: seq<Expr>, ys: seq<Expr>, ls: seq<Expr>, ms: seq<Expr>)
    requires Unmatched(xs, ys)
    requires (forall l :: l in ls ==> IsYesNo(l) || l in xs) && (forall m :: m in ms ==> IsYesNo(m) || m in ys)
    ensures Unmatched(ls, ms)
  {
    hide Equal;
    forall i, j | 0 <= i < |ls| && 0 <= j < |ms| && !IsYesNo(ls[i]) && !IsYesNo(ms[j]) ensures !Equal(ls[i], ms[j]) {
      assert ls[i] in xs && ms[j] in ys;
    }
  }

  /** One level: nothing on the one side equals anything on the other. */
  lemma CancelUnmatched(op: Op, e1: Expr, e2: Expr)
    requires Free(e1, e2)
    ensures var (c1, c2) := Cancel(op, e1, e2);
            Unmatched(Leaves(op, EliminateYn(c1)), Leaves(op, EliminateYn(c2)))
  {
    hide Equal, Cancel, CancelRows, Equivalent, Unmatched, Within, Kept;
    var xs, ys := Leaves(op, e1), Leaves(op, e2);
    var (xs', ys') := CancelRows(op, xs, ys);
    NoConstantsLeaves(op, e1);
    NoConstantsLeaves(op, e2);
    LeavesAreSmaller(op, e1);
    LeavesAreSmaller(op, e2);
    AllEquivalent(Size(e1) + Size(e2), xs + ys);
    RowsCount(op, xs + ys, xs, ys);
    CancelIsRows(op, e1, e2);
    KeptWithin(op, xs', e1);
    KeptWithin(op, ys', e2);
    ResidueLeaves(op, e1, xs');
    ResidueLeaves(op, e2, ys');
    var (c1, c2) := Cancel(op, e1, e2);
    UnmatchedWithin(xs', ys', Leaves(op, EliminateYn(c1)), Leaves(op, EliminateYn(c2)));
  }

  /** A level against a single operand: the operand is cancelled, or nothing is. */
  lemma {:induction false} RowsAgainstOne(op: Op, xs: seq<Expr>, y: Expr)
    requires !IsYesNo(y) && forall x :: x in xs ==> !IsYesNo(x)
    ensures || CancelRows(op, xs, [y]).1 == [Symbol(Unit(op))]
            || (CancelRows(op, xs, [y]) == (xs, [y]) && Unmatched(xs, [y]))
  {
    hide Equal, CancelRow;
    if xs != [] {
      var x := xs[0];
      assert x in xs;
      var u := Symbol(Unit(op));
      var i := RowTakes(op, x, [y]);
      if i == 0 {
        assert [y][0 := u] == [u];
        RowsOverSpent(op, xs[1..], u);
      } else {
        RowsAgainstOne(op, xs[1..], y);
        assert [x] + xs[1..] == xs;
      }
    }
  }

  lemma {:induction false} RowsOverSpent(op: Op, xs: seq<Expr>, u: Expr)
    requires IsYesNo(u)
    ensures CancelRows(op, xs, [u]).1 == [u]
  {
    hide CancelRow;
    if xs != [] {
      RowOverConstants(op, xs[0], [u]);
      RowsOverSpent(op, xs[1..], u);
    }
  }

  lemma LevelAgainstOne(op: Op, e1: Expr, e2: Expr)
    requires Free(e1, e2) && !IsOp(e2, op)
    ensures var (c1, c2) := Cancel(op, e1, e2);
            c2 == Symbol(Unit(op)) || (c1 == e1 && c2 == e2 && Unmatched(Leaves(op, e1), [e2]))
  {
    hide Equal, Cancel, CancelRows, Unmatched;
    CancelIsRows(op, e1, e2);
    NoConstantsLeaves(op, e1);
    RowsAgainstOne(op, Leaves(op, e1), e2);
    RebuildSame(op, e1);
    RebuildSame(op, e2);
  }

  lemma OneAgainstLevel(op: Op, e1: Expr, e2: Expr)
    requires Free(e1, e2) && !IsOp(e1, op)
    ensures var (c1, c2) := Cancel(op, e1, e2);
            c1 == Symbol(Unit(op)) || (c1 == e1 && c2 == e2)
  {
    hide Equal, Cancel, CancelRow;
    CancelIsRow(op, e1, e2);
    var i := RowTakes(op, e1, Leaves(op, e2));
    RebuildSame(op, e2);
  }

  lemma AgainstConstant(op: Op, a: Expr, c: Expr)
    requires IsYesNo(c)
    ensures Unmatched(Leaves(op, a), Leaves(op, c)) && Unmatched(Leaves(op, c), Leaves(op, a))
    ensures EliminateYn(c) == c
  {
    assert Leaves(op, c) == [c];
  }

  /** Different operators: each expression is a single operand to the other. */
  lemma BothWays(op1: Op, e1: Expr, e2: Expr, op: Op)
    requires Free(e1, e2) && IsOp(e1, op1) && IsOp(e2, Dual(op1))
    ensures var (r1, r2) := EliminateEq(e1, e2); Unmatched(Leaves(op, r1), Leaves(op, r2))
  {
    hide Equal, Cancel, Unmatched;
    var op2 := Dual(op1);
    var (a1, a2) := Cancel(op1, e1, e2);
    LevelAgainstOne(op1, e1, e2);
    if a2 == Symbol(Unit(op1)) {
      AgainstConstant(op, EliminateYn(a1), a2);
    } else {
      var (b1, b2) := Cancel(op2, e1, e2);
      OneAgainstLevel(op2, e1, e2);
      CancelUnmatched(op2, e1, e2);
      if b1 == Symbol(Unit(op2)) {
        AgainstConstant(op, EliminateYn(b2), b1);
      } else {
        NoConstantsYnFree(e1);
        NoConstantsYnFree(e2);
        assert Leaves(op1, e2) == [e2];
      }
    }
  }

  /** At every level there is: no operand left of the one equals one left of the other. */
  lemma NothingCommonLeft(op: Op, e1: Expr, e2: Expr)
    requires Free(e1, e2) && (IsOp(e1, op) || IsOp(e2, op))
    ensures var (r1, r2) := EliminateEq(e1, e2); Unmatched(Leaves(op, r1), Leaves(op, r2))
  {
    hide Equal, Cancel, Unmatched;
    if e1.Bin? && e2.Bin? && e1.op != e2.op {
      BothWays(e1.op, e1, e2, op);
    } else {
      CancelUnmatched(op, e1, e2);
      if !e2.Bin? {
        LevelAgainstOne(op, e1, e2);
      }
    }
  }
}
