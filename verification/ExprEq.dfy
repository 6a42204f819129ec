/** expr_eliminate_yn, expr_eq and expr_eliminate_eq as functions, and what they mean. */
module ExprEq {
  import opened Expr

  // ----- Constant elimination -----

  /** An && or || of two operands, one of which may be y or n. */
  function Combine(op: Op, l: Expr, r: Expr): Expr {
    if l == Symbol(Zero(op)) then l
    else if l == Symbol(Unit(op)) then r
    else if r == Symbol(Zero(op)) then r
    else if r == Symbol(Unit(op)) then l
    else Bin(op, l, r)
  }

  /** expr_eliminate_yn: drops y and n operands of && and ||. */
  function EliminateYn(e: Expr): Expr {
    if e.Bin? then Combine(e.op, EliminateYn(e.left), EliminateYn(e.right)) else e
  }

  lemma CombineSound(v: Valuation, op: Op, l: Expr, r: Expr)
    requires Sound(v)
    ensures Value(v, Combine(op, l, r)) == Apply(op, Value(v, l), Value(v, r))
  {
    hide Apply, Sound;
    UnitAndZero(v, op, Value(v, l));
    UnitAndZero(v, op, Value(v, r));
  }

  /** No operand of a && or || above the first comparison or negation is y or n. */
  predicate YnFree(e: Expr) {
    e.Bin? ==> !IsYesNo(e.left) && !IsYesNo(e.right) && YnFree(e.left) && YnFree(e.right)
  }

  lemma {:induction false} EliminateYnSound(v: Valuation, e: Expr)
    requires Sound(v)
    ensures Value(v, EliminateYn(e)) == Value(v, e)
  {
    if e.Bin? {
      EliminateYnSound(v, e.left);
      EliminateYnSound(v, e.right);
      CombineSound(v, e.op, EliminateYn(e.left), EliminateYn(e.right));
    }
  }

  /** The result is free of constants; it is the input exactly when the input was, and
      strictly smaller otherwise. */
  lemma {:induction false} EliminateYnShrinks(e: Expr)
    ensures YnFree(EliminateYn(e))
    ensures YnFree(e) ==> EliminateYn(e) == e
    ensures !YnFree(e) ==> Size(EliminateYn(e)) < Size(e)
  {
    if e.Bin? {
      EliminateYnShrinks(e.left);
      EliminateYnShrinks(e.right);
    }
  }

  // ----- Equality and cancelling of common operands -----

  /** expr_eq, for expressions that are present. The two operands of a && or || pair are
      copied, stripped of what they share, and equal if the same symbol is left of both. */
  function Equal(e1: Expr, e2: Expr): (r: bool)
    decreases Size(e1) + Size(e2), 2
  {
    match (e1, e2)
    case (Symbol(s1), Symbol(s2)) => s1 == s2
    case (Compare(rel1, a1, b1), Compare(rel2, a2, b2)) => rel1 == rel2 && a1 == a2 && b1 == b2
    case (Not(a1), Not(a2)) => Equal(a1, a2)
    case (Bin(op1, _, _), Bin(op2, _, _)) =>
      if op1 != op2 then false
      else
        var (r1, r2) := EliminateEq(e1, e2);
        r1.Symbol? && r2.Symbol? && r1.sym == r2.sym
    case _ => false
  }

  /** expr_eliminate_eq: removes the operands common to both expressions. */
  function EliminateEq(e1: Expr, e2: Expr): (r: (Expr, Expr))
    decreases Size(e1) + Size(e2), 1
  {
    var (a1, a2) := if e1.Bin? then Cancel(e1.op, e1, e2) else (e1, e2);
    var (b1, b2) := if a2.Bin? && !(a1.Bin? && a1.op == a2.op) then Cancel(a2.op, a1, a2) else (a1, a2);
    (EliminateYn(b1), EliminateYn(b2))
  }

  /** __expr_eliminate_eq: compares every operand at the `op` level of `e1` with every one
      of `e2`, and turns both sides of each equal pair into the unit of `op`. */
  function Cancel(op: Op, e1: Expr, e2: Expr): (r: (Expr, Expr))
    ensures Size(r.0) <= Size(e1) && Size(r.1) <= Size(e2)
    ensures IsOp(e1, op) ==> IsOp(r.0, op)
    ensures IsOp(e2, op) ==> IsOp(r.1, op)
    decreases Size(e1) + Size(e2), if IsOp(e1, op) || IsOp(e2, op) then 0 else 3
  {
    if IsOp(e1, op) then
      var (l, f2) := Cancel(op, e1.left, e2);
      var (r, g2) := Cancel(op, e1.right, f2);
      (Bin(op, l, r), g2)
    else if IsOp(e2, op) then
      var (f1, l) := Cancel(op, e1, e2.left);
      var (g1, r) := Cancel(op, f1, e2.right);
      (g1, Bin(op, l, r))
    else if IsYesNo(e1) && e1 == e2 then (e1, e2)
    else if !Equal(e1, e2) then (e1, e2)
    else (Symbol(Unit(op)), Symbol(Unit(op)))
  }
}
