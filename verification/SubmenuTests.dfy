/** The dependency tests of menu_finalize, told by what occurs in the conditions. */
module SubmenuTests {
  import opened Expr
  import opened ExprEq
  import opened ExprEqProofs
  import opened ExprEqOrder
  import opened ExprLevel
  import opened ExprDups
  import opened ExprDupsProofs
  import opened ExprTransform
  import opened ExprSigns

  /** `e` with `t` in place of `s`. */
  function Rename(e: Expr, s: Sym, t: Sym): Expr {
    match e
    case Symbol(x) => Symbol(if x == s then t else x)
    case Compare(rel, x, y) => Compare(rel, if x == s then t else x, if y == s then t else y)
    case Not(a) => Not(Rename(a, s, t))
    case Bin(op, a, b) => Bin(op, Rename(a, s, t), Rename(b, s, t))
  }

  /** `sym` occurs in `e`: putting any other symbol in its place changes `e`. */
  ghost predicate Mentions(e: Expr, sym: Sym) {
    forall t :: t != sym ==> Rename(e, sym, t) != e
  }

  /** Contains is exactly occurrence. */
  lemma {:induction false} ContainsExactly(e: Expr, sym: Sym, t: Sym)
    requires t != sym
    ensures Contains(e, sym) <==> Rename(e, sym, t) != e
  {
    match e {
      case Symbol(_) =>
      case Compare(_, _, _) =>
      case Not(a) => ContainsExactly(a, sym, t);
      case Bin(_, a, b) => ContainsExactly(a, sym, t); ContainsExactly(b, sym, t);
    }
  }

  lemma ContainsMentions(e: Expr, sym: Sym)
    ensures Contains(e, sym) <==> Mentions(e, sym)
  {
    hide Contains, Rename;
    forall t | t != sym ensures Contains(e, sym) <==> Rename(e, sym, t) != e {
      ContainsExactly(e, sym, t);
    }
    var other := if sym == Yes then No else Yes;
    assert Contains(e, sym) <==> Rename(e, sym, other) != e;
  }

  // ----- Absolute dependencies -----

  /** An operand that is `sym` itself, or asks a tristate for y, for m or for anything but n. */
  predicate Needs(e: Expr, sym: Sym) {
    e == Symbol(sym) || e == Compare(Eq, sym, Yes) || e == Compare(Eq, sym, Mod) || e == Compare(Ne, sym, No)
  }

  lemma DependsOperand(e: Expr, sym: Sym)
    requires !IsOp(e, And)
    ensures Depends(e, sym) <==> Needs(e, sym)
  {
  }

  /** Depends asks for such an operand among those of the conjunction, and nothing else. */
  lemma {:induction false} DependsExactly(e: Expr, sym: Sym)
    ensures Depends(e, sym) <==> exists l :: l in Leaves(And, e) && Needs(l, sym)
  {
    if IsOp(e, And) {
      var l, r := Leaves(And, e.left), Leaves(And, e.right);
      DependsExactly(e.left, sym);
      DependsExactly(e.right, sym);
      assert Leaves(And, e) == l + r;
      assert forall x :: x in l + r <==> x in l || x in r;
    } else {
      DependsOperand(e, sym);
      assert Leaves(And, e) == [e] && e in [e];
    }
  }

  lemma {:induction false} DependsContains(e: Expr, sym: Sym)
    requires Depends(e, sym)
    ensures Contains(e, sym)
  {
    if e.Bin? {
      if Depends(e.left, sym) { DependsContains(e.left, sym); } else { DependsContains(e.right, sym); }
    }
  }

  // ----- The superset test -----

  /** No two operands compare equal. */
  predicate AllDiffer(ls: seq<Expr>) {
    forall i, j :: 0 <= i < |ls| && 0 <= j < |ls| && i != j ==> !Equal(ls[i], ls[j])
  }

  lemma IrreducibleDiffer(op: Op, e: Expr)
    requires IsOp(e, op) && Irreducible(e)
    ensures AllDiffer(Leaves(op, e))
  {
    hide Equal;
    var ls := Leaves(op, e);
    forall i, j | 0 <= i < |ls| && 0 <= j < |ls| && i != j ensures !Equal(ls[i], ls[j]) {
      assert Join(op, ls[i], ls[j]).None?;
    }
  }

  lemma {:induction false} RowsPass(op: Op, xs: seq<Expr>, ys: seq<Expr>)
    requires forall i, j :: 0 <= i < |xs| && 0 <= j < |ys| ==> !Equal(xs[i], ys[j])
    ensures CancelRows(op, xs, ys) == (xs, ys)
  {
    hide CancelRow, Equal;
    if xs != [] {
      var x := xs[0];
      if IsYesNo(x) {
        RowOfConstant(op, x, ys);
      } else {
        var i := RowTakes(op, x, ys);
        assert i == |ys|;
      }
      RowsPass(op, xs[1..], ys);
      assert [x] + xs[1..] == xs;
    }
  }

  /** A conjunction that ends in `y`, with no two operands equal: cancelling takes all of `y`. */
  lemma CancelConjunct(x: Expr, y: Expr)
    requires AllDiffer(Leaves(And, Bin(And, x, y)))
    ensures Cancel(And, Bin(And, x, y), y).1 == Rebuild(And, y, SpentAll(And, Leaves(And, y)))
  {
    hide Equal, CancelRows, Cancel;
    var xs, ys := Leaves(And, x), Leaves(And, y);
    var all := xs + ys;
    assert Leaves(And, Bin(And, x, y)) == all;
    forall i, j | 0 <= i < |xs| && 0 <= j < |ys| ensures !Equal(xs[i], ys[j]) {
      assert all[i] == xs[i] && all[|xs| + j] == ys[j];
    }
    RowsPass(And, xs, ys);
    forall l | l in ys ensures Equal(l, l) { EqualReflexive(l); }
    RowsOfSame(And, [], ys);
    assert [] + ys == ys && [] + SpentAll(And, ys) == SpentAll(And, ys);
    CancelRowsAppend(And, xs, ys, ys);
    CancelIsRows(And, Bin(And, x, y), y);
  }

  lemma {:induction false} SpentComesDown(op: Op, e: Expr, ls: seq<Expr>)
    requires |ls| == |Leaves(op, e)| && forall k :: 0 <= k < |ls| ==> ls[k] == Symbol(Unit(op))
    ensures EliminateYn(Rebuild(op, e, ls)) == Symbol(Unit(op))
  {
    if IsOp(e, op) {
      var n := |Leaves(op, e.left)|;
      var a, b := ls[..n], ls[n..];
      assert ls == a + b;
      SpentComesDown(op, e.left, a);
      SpentComesDown(op, e.right, b);
    }
  }

  lemma {:induction false} SpentAllUnits(op: Op, xs: seq<Expr>)
    requires forall x :: x in xs ==> !IsYesNo(x)
    ensures forall k :: 0 <= k < |xs| ==> SpentAll(op, xs)[k] == Symbol(Unit(op))
  {
    if xs != [] {
      assert xs[0] in xs;
      SpentAllUnits(op, xs[1..]);
    }
  }

  /** What is left of `y` beside x && y is y. */
  lemma ConjunctCancels(x: Expr, y: Expr)
    requires AllDiffer(Leaves(And, Bin(And, x, y))) && NoConstants(y) && !IsYesNo(y)
    ensures EliminateEq(Bin(And, x, y), y).1 == Symbol(Yes)
  {
    hide Equal, Cancel, AllDiffer, NoConstants;
    var spent := SpentAll(And, Leaves(And, y));
    CancelConjunct(x, y);
    NoConstantsLeaves(And, y);
    SpentAllUnits(And, Leaves(And, y));
    SpentComesDown(And, y, spent);
    var (a1, a2) := Cancel(And, Bin(And, x, y), y);
    assert a2.Bin? ==> IsOp(a2, And);
  }

  /** A condition asked != n, before its duplicates go. */
  function AskedNotNo(e: Expr): Expr {
    Negations(Asked(e, No), false)
  }

  lemma NotNoIs(e: Expr)
    ensures NotNo(Some(e)) == EliminateDups(AskedNotNo(e))
  {
    TransCompareIsAsked(e, false, No);
  }

  lemma IrreducibleStays(e: Expr)
    requires Irreducible(e)
    ensures EliminateDups(e) == e
  {
    if e.Bin? { PassLevelZero(e.op, e); }
  }

  lemma {:induction false} PartIrreducible(x: Expr, y: Expr)
    requires Irreducible(Bin(And, x, y))
    ensures Irreducible(y)
  {
    hide Join;
    var xs, ys, e := Leaves(And, x), Leaves(And, y), Bin(And, x, y);
    assert Leaves(And, e) == xs + ys;
    assert IrreducibleList(And, e, xs + ys);
    forall j | 0 <= j < |ys| ensures Irreducible(ys[j]) { assert (xs + ys)[|xs| + j] == ys[j]; }
    if IsOp(y, And) {
      forall i, j | 0 <= i < |ys| && 0 <= j < |ys| && i != j ensures Join(And, ys[i], ys[j]).None? {
        assert (xs + ys)[|xs| + i] == ys[i] && (xs + ys)[|xs| + j] == ys[j];
      }
      assert IrreducibleList(And, y, ys);
    } else {
      assert ys == [y] && ys[0] == y;
    }
  }

  /** The test passes what it is for: a condition that is the base condition and more, as long
      as no two operands are alike or joined and none is y or n. */
  lemma SupersetOfMore(x: Expr, base: Expr)
    requires var more := AskedNotNo(Bin(And, x, base));
             Irreducible(more) && NoConstants(more)
    ensures Superset(Bin(And, x, base), Some(base))
  {
    hide Irreducible, NoConstants, EliminateDups, EliminateEq, NotNo;
    var l, r := AskedNotNo(x), AskedNotNo(base);
    NotNoIs(Bin(And, x, base));
    NotNoIs(base);
    ConstantsPart(l, r);
    IrreducibleStays(Bin(And, l, r));
    PartIrreducible(l, r);
    IrreducibleStays(r);
    IrreducibleDiffer(And, Bin(And, l, r));
    ConjunctCancels(l, r);
  }

  lemma ConstantsPart(l: Expr, r: Expr)
    requires NoConstants(Bin(And, l, r))
    ensures NoConstants(r) && !IsYesNo(r)
  {
  }

  lemma NothingAsked()
    ensures NotNo(None) == Symbol(Yes)
  {
    assert Transform(Not(Symbol(No))) == Symbol(Yes);
  }

  lemma {:induction false} CancelAgainstYes(op: Op, e: Expr)
    ensures Cancel(op, e, Symbol(Yes)) == (e, Symbol(Yes))
  {
    if IsOp(e, op) {
      CancelAgainstYes(op, e.left);
      CancelAgainstYes(op, e.right);
    }
  }

  /** Without a condition to compare with, every entry passes. */
  lemma SupersetOfNothing(dep: Expr)
    ensures Superset(dep, None)
  {
    hide Cancel, EliminateDups, Transform, TransCompare;
    NothingAsked();
    var e := NotNo(Some(dep));
    if e.Bin? { CancelAgainstYes(e.op, e); }
  }

  lemma ConjunctionIrreducible(sym: Sym, q: Sym, r: Sym)
    requires sym != q && sym != r && q != r
    ensures var a, b, c := Compare(Ne, sym, No), Compare(Ne, q, No), Compare(Ne, r, No);
            Irreducible(Bin(And, Bin(Or, a, b), c))
  {
    hide Equal, Irreducible;
    var a, b, c := Compare(Ne, sym, No), Compare(Ne, q, No), Compare(Ne, r, No);
    ComparesNotEqual(a, b);
    PairIrreducible(Bin(Or, a, b));
    KindsNotEqual(c, Bin(Or, a, b));
    PairIrreducible(Bin(And, Bin(Or, a, b), c));
  }

  lemma AskedSymbol(s: Sym)
    ensures Asked(Symbol(s), No) == Compare(Ne, s, No)
  {
  }

  lemma ConjunctionAsked(sym: Sym, q: Sym, r: Sym)
    requires sym.Type() == Tri && q.Type() == Tri && r.Type() == Tri
    ensures AskedNotNo(Bin(And, Bin(Or, Symbol(sym), Symbol(q)), Symbol(r))) ==
            Bin(And, Bin(Or, Compare(Ne, sym, No), Compare(Ne, q, No)), Compare(Ne, r, No))
    ensures NoConstants(AskedNotNo(Bin(And, Bin(Or, Symbol(sym), Symbol(q)), Symbol(r))))
  {
    var a, b, c := Compare(Ne, sym, No), Compare(Ne, q, No), Compare(Ne, r, No);
    AskedSymbol(sym);
    AskedSymbol(q);
    AskedSymbol(r);
    var asked := Asked(Bin(Or, Symbol(sym), Symbol(q)), No);
    assert asked == Bin(Or, a, b);
    assert Negations(a, false) == a && Negations(b, false) == b && Negations(c, false) == c;
    assert Negations(asked, false) == asked;
    assert NoConstants(a) && NoConstants(b) && NoConstants(c);
    assert NoConstants(Bin(Or, a, b));
  }

  /** '(sym || Q) && R' where the prompt of sym depends on R: the entry passes without
      needing sym. */
  lemma DocumentedSuperset(sym: Sym, q: Sym, r: Sym)
    requires sym.Type() == Tri && q.Type() == Tri && r.Type() == Tri && sym != q && sym != r && q != r
    ensures var dep := Bin(And, Bin(Or, Symbol(sym), Symbol(q)), Symbol(r));
            Mentions(dep, sym) && !Depends(dep, sym) && Superset(dep, Some(Symbol(r)))
  {
    hide Superset, Mentions, Irreducible, Join, Equal, Negations, Asked;
    var either := Bin(Or, Symbol(sym), Symbol(q));
    ContainsMentions(Bin(And, either, Symbol(r)), sym);
    ConjunctionIrreducible(sym, q, r);
    ConjunctionAsked(sym, q, r);
    assert !Depends(either, sym) && !Depends(Symbol(r), sym);
    assert Contains(either, sym);
    SupersetOfMore(either, Symbol(r));
  }
}
