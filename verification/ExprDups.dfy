/** expr_join_or, expr_join_and and expr_eliminate_dups as functions, and their termination. */
module ExprDups {
  import opened Expr
  import opened ExprEq
  import opened ExprLevel

  // ----- Joining two operands -----

  /** The shapes the join rules look at, and the symbol they speak about. A negated
      comparison is let through on the left side only. */
  predicate Simple(e: Expr) {
    e.Symbol? || e.Not? || (e.Compare? && (e.rel == Eq || e.rel == Ne))
  }

  function LeftSubject(e: Expr): Option<Sym> {
    match e
    case Symbol(s) => Some(s)
    case Compare(_, s, _) => Some(s)
    case Not(Symbol(s)) => Some(s)
    case Not(Compare(rel, s, _)) => if rel == Eq || rel == Ne then Some(s) else None
    case _ => None
  }

  function RightSubject(e: Expr): Option<Sym> {
    match e
    case Symbol(s) => Some(s)
    case Compare(_, s, _) => Some(s)
    case Not(Symbol(s)) => Some(s)
    case _ => None
  }

  /** The boolean or tristate symbol that both operands are about. */
  function CommonSubject(e1: Expr, e2: Expr): Option<Sym> {
    if !Simple(e1) || !Simple(e2) then None
    else if LeftSubject(e1).None? || LeftSubject(e1) != RightSubject(e2) then None
    else if LeftSubject(e1).value.Type() != Boolean && LeftSubject(e1).value.Type() != Tri then None
    else LeftSubject(e1)
  }

  /** `e1` and `e2` compare with `a` and `b`, in either order. */
  predicate Compares(rel: Rel, e1: Expr, e2: Expr, a: Sym, b: Sym) {
    && e1.Compare? && e1.rel == rel && e2.Compare? && e2.rel == rel
    && ((e1.rsym == a && e2.rsym == b) || (e1.rsym == b && e2.rsym == a))
  }

  /** One operand is a bare symbol, the other compares with `b`. */
  predicate SymbolAndCompare(rel: Rel, e1: Expr, e2: Expr, b: Sym) {
    || (e1.Symbol? && e2.Compare? && e2.rel == rel && e2.rsym == b)
    || (e2.Symbol? && e1.Compare? && e1.rel == rel && e1.rsym == b)
  }

  /** expr_join_or. */
  function JoinOr(e1: Expr, e2: Expr): Option<Expr> {
    if Equal(e1, e2) then Some(e1)
    else
      match CommonSubject(e1, e2)
      case None => None
      case Some(s) =>
        if s.Type() == Tri then
          if Compares(Eq, e1, e2, Yes, Mod) then Some(Compare(Ne, s, No))
          else if Compares(Eq, e1, e2, Yes, No) then Some(Compare(Ne, s, Mod))
          else if Compares(Eq, e1, e2, Mod, No) then Some(Compare(Ne, s, Yes))
          else None
        else if (e1.Not? && e1.sub.Symbol? && e2.Symbol?) || (e2.Not? && e2.sub.Symbol? && e1.Symbol?) then
          Some(Symbol(Yes))
        else None
  }

  /** (a='b') && (a!='c') for constants b and c. */
  function JoinConstants(s: Sym, b: Sym, c: Sym): Option<Expr> {
    if !b.Const() || !c.Const() then None
    else if b != c then Some(Compare(Eq, s, b))
    else Some(Symbol(No))
  }

  /** expr_join_and. */
  function JoinAnd(e1: Expr, e2: Expr): Option<Expr> {
    if Equal(e1, e2) then Some(e1)
    else
      match CommonSubject(e1, e2)
      case None => None
      case Some(s) =>
        if SymbolAndCompare(Eq, e1, e2, Yes) then Some(Compare(Eq, s, Yes))
        else if SymbolAndCompare(Ne, e1, e2, No) then Some(Symbol(s))
        else if SymbolAndCompare(Ne, e1, e2, Mod) then Some(Compare(Eq, s, Yes))
        else if s.Type() != Tri then None
        else if e1.Compare? && e1.rel == Eq && e2.Compare? && e2.rel == Ne then JoinConstants(s, e1.rsym, e2.rsym)
        else if e1.Compare? && e1.rel == Ne && e2.Compare? && e2.rel == Eq then JoinConstants(s, e2.rsym, e1.rsym)
        else if Compares(Ne, e1, e2, Yes, No) then Some(Compare(Eq, s, Mod))
        else if Compares(Ne, e1, e2, Yes, Mod) then Some(Compare(Eq, s, No))
        else if Compares(Ne, e1, e2, Mod, No) then Some(Compare(Eq, s, Yes))
        else None
  }

  function Join(op: Op, e1: Expr, e2: Expr): Option<Expr> {
    if op == Or then JoinOr(e1, e2) else JoinAnd(e1, e2)
  }

  lemma JoinShape(op: Op, e1: Expr, e2: Expr)
    requires Join(op, e1, e2).Some?
    ensures Join(op, e1, e2).value == e1 || Size(Join(op, e1, e2).value) == 1
  {
  }

  // ----- One pass over a level -----

  lemma {:induction false} SizesUpdate(ls: seq<Expr>, i: nat, x: Expr)
    requires i < |ls|
    ensures Sizes(ls[i := x]) == Sizes(ls) - Size(ls[i]) + Size(x)
    ensures Size(ls[i]) <= Sizes(ls)
  {
    if i == 0 {
      assert ls[0 := x][1..] == ls[1..];
    } else {
      SizesUpdate(ls[1..], i - 1, x);
      assert ls[i := x][1..] == ls[1..][i - 1 := x];
    }
  }

  lemma SizesPair(ls: seq<Expr>, i: nat, j: nat)
    requires i < |ls| && j < |ls| && i != j
    ensures Size(ls[i]) + Size(ls[j]) <= Sizes(ls)
  {
    SizesUpdate(ls, i, Symbol(Yes));
    SizesUpdate(ls[i := Symbol(Yes)], j, Symbol(Yes));
  }

  lemma LevelSizes(op: Op, e: Expr)
    ensures Size(e) == Sizes(Leaves(op, e)) + |Leaves(op, e)| - 1
  {
    RebuildSize(op, e, Leaves(op, e));
    RebuildSame(op, e);
  }

  /** The operands after comparing number i with number j, and how many joins that took:
      an operand that is itself a && or || is first deduplicated on its own. */
  function PassLeaf(op: Op, ls: seq<Expr>, i: nat, j: nat): (r: (seq<Expr>, nat))
    requires i < |ls| && j < |ls|
    ensures |r.0| == |ls| && Sizes(r.0) <= Sizes(ls)
    decreases Sizes(ls), 0
  {
    if i == j then (ls, 0)
    else
      SizesPair(ls, i, j);
      var (x, n) := if ls[i].Bin? then PassLevel(ls[i].op, ls[i]) else (ls[i], 0);
      var y := ls[j];
      match Join(op, x, y)
      case None => SizesUpdate(ls, i, x); (ls[i := x], n)
      case Some(t) =>
        JoinShape(op, x, y);
        SizesUpdate(ls, i, Symbol(Unit(op)));
        SizesUpdate(ls[i := Symbol(Unit(op))], j, t);
        (ls[i := Symbol(Unit(op))][j := t], n + 1)
  }

  /** Operand i against the operands from j on. */
  function PassRow(op: Op, ls: seq<Expr>, i: nat, j: nat): (r: (seq<Expr>, nat))
    requires i < |ls| && j <= |ls|
    ensures |r.0| == |ls| && Sizes(r.0) <= Sizes(ls)
    decreases Sizes(ls), 1, |ls| - j
  {
    if j == |ls| then (ls, 0)
    else
      var (ls1, n1) := PassLeaf(op, ls, i, j);
      var (ls2, n2) := PassRow(op, ls1, i, j + 1);
      (ls2, n1 + n2)
  }

  /** The operands from i on against all operands. */
  function PassRows(op: Op, ls: seq<Expr>, i: nat): (r: (seq<Expr>, nat))
    requires i <= |ls|
    ensures |r.0| == |ls| && Sizes(r.0) <= Sizes(ls)
    decreases Sizes(ls), 2, |ls| - i
  {
    if i == |ls| then (ls, 0)
    else
      var (ls1, n1) := PassRow(op, ls, i, 0);
      var (ls2, n2) := PassRows(op, ls1, i + 1);
      (ls2, n1 + n2)
  }

  /** expr_eliminate_dups1 on a tree and itself. */
  function PassLevel(op: Op, e: Expr): (r: (Expr, nat))
    ensures Size(r.0) <= Size(e)
    decreases Size(e), 3
  {
    LevelSizes(op, e);
    var (ls, n) := PassRows(op, Leaves(op, e), 0);
    RebuildSize(op, e, ls);
    (Rebuild(op, e, ls), n)
  }

  // ----- Why the passes come to an end -----

  /** No constant is an operand anywhere at or below this level. */
  predicate Clean(ls: seq<Expr>) {
    forall k :: 0 <= k < |ls| ==> !IsYesNo(ls[k]) && YnFree(ls[k])
  }

  lemma {:induction false} CleanLevel(op: Op, e: Expr, ls: seq<Expr>)
    requires |ls| == |Leaves(op, e)| && |ls| >= 2
    ensures YnFree(Rebuild(op, e, ls)) ==> Clean(ls)
  {
    var n := |Leaves(op, e.left)|;
    var a, b := ls[..n], ls[n..];
    assert a + b == ls;
    if |a| >= 2 { CleanLevel(op, e.left, a); }
    if |b| >= 2 { CleanLevel(op, e.right, b); }
    assert |a| == 1 ==> Rebuild(op, e.left, a) == a[0];
    assert |b| == 1 ==> Rebuild(op, e.right, b) == b[0];
  }

  /** A join leaves a constant behind, and constants stay until expr_eliminate_yn runs. */
  lemma {:induction false} PassLeafMarks(op: Op, ls: seq<Expr>, i: nat, j: nat)
    requires i < |ls| && j < |ls|
    ensures PassLeaf(op, ls, i, j).1 > 0 || !Clean(ls) ==> !Clean(PassLeaf(op, ls, i, j).0)
    decreases Sizes(ls), 0
  {
    if i != j {
      SizesPair(ls, i, j);
      var (x, n) := if ls[i].Bin? then PassLevel(ls[i].op, ls[i]) else (ls[i], 0);
      var r := PassLeaf(op, ls, i, j).0;
      if Join(op, x, ls[j]).Some? {
        assert IsYesNo(r[i]);
      } else {
        assert r == ls[i := x];
        if ls[i].Bin? {
          PassLevelMarks(ls[i].op, ls[i]);
        }
        if !Clean(ls) {
          var k :| 0 <= k < |ls| && (IsYesNo(ls[k]) || !YnFree(ls[k]));
          assert k != i ==> r[k] == ls[k];
        }
        assert r[i] == x;
      }
    }
  }

  lemma {:induction false} PassRowMarks(op: Op, ls: seq<Expr>, i: nat, j: nat)
    requires i < |ls| && j <= |ls|
    ensures PassRow(op, ls, i, j).1 > 0 || !Clean(ls) ==> !Clean(PassRow(op, ls, i, j).0)
    decreases Sizes(ls), 1, |ls| - j
  {
    if j < |ls| {
      PassLeafMarks(op, ls, i, j);
      PassRowMarks(op, PassLeaf(op, ls, i, j).0, i, j + 1);
    }
  }

  lemma {:induction false} PassRowsMarks(op: Op, ls: seq<Expr>, i: nat)
    requires i <= |ls|
    ensures PassRows(op, ls, i).1 > 0 || !Clean(ls) ==> !Clean(PassRows(op, ls, i).0)
    decreases Sizes(ls), 2, |ls| - i
  {
    if i < |ls| {
      PassRowMarks(op, ls, i, 0);
      PassRowsMarks(op, PassRow(op, ls, i, 0).0, i + 1);
    }
  }

  lemma {:induction false} PassLevelMarks(op: Op, e: Expr)
    requires IsOp(e, op)
    ensures PassLevel(op, e).1 > 0 || !YnFree(e) ==> !YnFree(PassLevel(op, e).0)
    decreases Size(e), 3
  {
    LevelSizes(op, e);
    var ls := Leaves(op, e);
    var (ms, n) := PassRows(op, ls, 0);
    PassRowsMarks(op, ls, 0);
    CleanLevel(op, e, ms);
    if Clean(ls) {
      CleanLevelBack(op, e);
    }
  }

  lemma {:induction false} CleanLevelBack(op: Op, e: Expr)
    requires IsOp(e, op) && Clean(Leaves(op, e))
    ensures YnFree(e)
  {
    var a, b := Leaves(op, e.left), Leaves(op, e.right);
    var ls := Leaves(op, e);
    assert forall k :: 0 <= k < |a| ==> a[k] == ls[k];
    assert forall k :: 0 <= k < |b| ==> b[k] == ls[|a| + k];
    if IsOp(e.left, op) { CleanLevelBack(op, e.left); } else { assert a[0] == e.left; }
    if IsOp(e.right, op) { CleanLevelBack(op, e.right); } else { assert b[0] == e.right; }
  }

  /** Every pass that joins something makes the expression strictly smaller once
      expr_eliminate_yn has run. */
  lemma PassShrinks(e: Expr)
    requires e.Bin? && PassLevel(e.op, e).1 > 0
    ensures Size(EliminateYn(PassLevel(e.op, e).0)) < Size(e)
  {
    PassLevelMarks(e.op, e);
    EliminateYnShrinks(PassLevel(e.op, e).0);
  }

  /** expr_eliminate_dups: passes until one joins nothing. */
  function EliminateDups(e: Expr): (r: Expr)
    ensures Size(r) <= Size(e)
    decreases Size(e)
  {
    if !e.Bin? then e
    else
      var (pass, n) := PassLevel(e.op, e);
      if n == 0 then pass
      else
        PassShrinks(e);
        EliminateDups(EliminateYn(pass))
  }
}
