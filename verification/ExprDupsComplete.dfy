/** When expr_join_or and expr_join_and must join, told by what the operands mean; and what
    deduplication therefore leaves no trace of. */
module ExprDupsComplete {
  import opened Expr
  import opened ExprEq
  import opened ExprEqProofs
  import opened ExprLevel
  import opened ExprDups
  import opened ExprDupsProofs

  // ----- Operands about one symbol -----

  /** a, a=t or a!=t for t one of y, m and n. */
  predicate About(a: Sym, e: Expr) {
    || e == Symbol(a)
    || (e.Compare? && (e.rel == Eq || e.rel == Ne) && e.lsym == a && e.rsym.BuiltIn())
  }

  /** The value of a built-in constant. */
  function Fixed(s: Sym): Tristate {
    if s == Yes then YES else if s == Mod then MOD else NO
  }

  /** The value of such an operand where the symbol is `x`. */
  function ValueAt(e: Expr, x: Tristate): Tristate {
    if e.Symbol? then x
    else if e.Compare? then FromBool((x == Fixed(e.rsym)) == (e.rel == Eq))
    else NO
  }

  lemma AboutValue(v: Valuation, a: Sym, e: Expr)
    requires Sound(v) && About(a, e) && (a.Type() == Tri || a.Type() == Boolean)
    ensures Value(v, e) == ValueAt(e, v.tri(a))
  {
    hide Order;
    if e.Compare? {
      BuiltinCompare(v, e);
    }
  }

  /** Some valuation has the symbol at `x`. */
  lemma AtValue(a: Sym, x: Tristate) returns (v: Valuation)
    requires a.Type() == Tri || (a.Type() == Boolean && x != MOD)
    ensures Sound(v) && v.tri(a) == x
  {
    v := SoundExtends((s: Sym) => if s == a then x else if s.Yes? then YES else if s.Mod? then MOD else NO);
  }

  /** `t` is what e1 && e2 comes to under every valuation. */
  ghost predicate Conjunction(e1: Expr, e2: Expr, t: Expr) {
    forall v :: Sound(v) ==> Value(v, t) == Min(Value(v, e1), Value(v, e2))
  }

  /** e1 && e2 is not always n. */
  ghost predicate Possible(e1: Expr, e2: Expr) {
    exists v :: Sound(v) && Min(Value(v, e1), Value(v, e2)) != NO
  }

  /** Two operands about `a` that one operand `t` about it can replace. */
  ghost predicate Replaceable(a: Sym, e1: Expr, e2: Expr, t: Expr) {
    && About(a, e1) && About(a, e2) && About(a, t)
    && (a.Type() == Tri || (a.Type() == Boolean && (e1 == Symbol(a) || e2 == Symbol(a))))
    && Conjunction(e1, e2, t) && Possible(e1, e2)
  }

  /** For one, a=y can replace a and a=y. */
  lemma ReplaceableIsMet(a: Sym)
    requires a.Type() == Tri
    ensures Replaceable(a, Symbol(a), Compare(Eq, a, Yes), Compare(Eq, a, Yes))
  {
    hide Order, Sound;
    var e, t := Symbol(a), Compare(Eq, a, Yes);
    forall v | Sound(v) ensures Value(v, t) == Min(Value(v, e), Value(v, t)) {
      AboutValue(v, a, e);
      AboutValue(v, a, t);
    }
    var v := AtValue(a, YES);
    AboutValue(v, a, e);
    AboutValue(v, a, t);
    assert Min(Value(v, e), Value(v, t)) != NO;
  }

  /** expr_join_and joins whatever one operand can replace. */
  lemma JoinAndComplete(a: Sym, e1: Expr, e2: Expr, t: Expr)
    requires Replaceable(a, e1, e2, t)
    ensures JoinAnd(e1, e2).Some?
  {
    hide Sound, Order, JoinAnd;
    EqualReflexive(e1);
    SameAtAll(a, e1, e2, t);
    if a.Type() == Tri {
      JoinTristate(a, e1, e2, t);
    } else {
      JoinBoolean(a, e1, e2, t);
    }
  }

  /** The same told for the values of the symbol. */
  lemma SameAtAll(a: Sym, e1: Expr, e2: Expr, t: Expr)
    requires Replaceable(a, e1, e2, t)
    ensures forall x: Tristate :: a.Type() == Tri || x != MOD ==> ValueAt(t, x) == Min(ValueAt(e1, x), ValueAt(e2, x))
    ensures exists x: Tristate :: (a.Type() == Tri || x != MOD) && Min(ValueAt(e1, x), ValueAt(e2, x)) != NO
  {
    hide Order, Value;
    forall x: Tristate | a.Type() == Tri || x != MOD
      ensures ValueAt(t, x) == Min(ValueAt(e1, x), ValueAt(e2, x))
    {
      var v := AtValue(a, x);
      AboutValue(v, a, e1);
      AboutValue(v, a, e2);
      AboutValue(v, a, t);
    }
    var v :| Sound(v) && Min(Value(v, e1), Value(v, e2)) != NO;
    AboutValue(v, a, e1);
    AboutValue(v, a, e2);
    assert Min(ValueAt(e1, v.tri(a)), ValueAt(e2, v.tri(a))) != NO;
  }

  lemma JoinTristate(a: Sym, e1: Expr, e2: Expr, t: Expr)
    requires a.Type() == Tri && About(a, e1) && About(a, e2) && About(a, t) && Equal(e1, e1)
    requires forall x: Tristate :: ValueAt(t, x) == Min(ValueAt(e1, x), ValueAt(e2, x))
    ensures JoinAnd(e1, e2).Some?
  {
    hide Equal;
    assert ValueAt(t, NO) == Min(ValueAt(e1, NO), ValueAt(e2, NO));
    assert ValueAt(t, MOD) == Min(ValueAt(e1, MOD), ValueAt(e2, MOD));
    assert ValueAt(t, YES) == Min(ValueAt(e1, YES), ValueAt(e2, YES));
  }

  lemma JoinBoolean(a: Sym, e1: Expr, e2: Expr, t: Expr)
    requires a.Type() == Boolean && About(a, e1) && About(a, e2) && Equal(e1, e1)
    requires e1 == Symbol(a) || e2 == Symbol(a)
    requires exists x: Tristate :: x != MOD && Min(ValueAt(e1, x), ValueAt(e2, x)) != NO
    ensures JoinAnd(e1, e2).Some?
  {
    hide Equal;
  }

  /** Two equalities of a tristate with different values, or a boolean and its negation. */
  predicate Alternatives(a: Sym, e1: Expr, e2: Expr) {
    if a.Type() == Tri then
      && e1.Compare? && e2.Compare? && e1.rel == Eq == e2.rel && e1.lsym == a == e2.lsym
      && e1.rsym.BuiltIn() && e2.rsym.BuiltIn() && e1.rsym != e2.rsym
    else
      a.Type() == Boolean && ((e1 == Symbol(a) && e2 == Not(Symbol(a))) || (e1 == Not(Symbol(a)) && e2 == Symbol(a)))
  }

  /** expr_join_or joins these. */
  lemma JoinOrComplete(a: Sym, e1: Expr, e2: Expr)
    requires Alternatives(a, e1, e2)
    ensures JoinOr(e1, e2).Some?
  {
    hide Equal;
  }

  /** An equality and an inequality of a tristate with constants, quoted ones included. */
  predicate EqualAndUnequal(a: Sym, e1: Expr, e2: Expr) {
    && a.Type() == Tri
    && e1.Compare? && e2.Compare? && e1.lsym == a == e2.lsym && e1.rsym.Const() && e2.rsym.Const()
    && ((e1.rel == Eq && e2.rel == Ne) || (e1.rel == Ne && e2.rel == Eq))
  }

  /** expr_join_and joins these. */
  lemma JoinConstantsComplete(a: Sym, e1: Expr, e2: Expr)
    requires EqualAndUnequal(a, e1, e2)
    ensures JoinAnd(e1, e2).Some?
  {
    hide Equal;
  }

  // ----- What deduplication leaves -----

  /** Two operands that should have been joined: they compare equal, or their meaning is
      that of one operand about the same symbol or of a constant. */
  ghost predicate Redundant(op: Op, e1: Expr, e2: Expr) {
    || Equal(e1, e2)
    || (op == And && exists a, t :: Replaceable(a, e1, e2, t))
    || (op == And && exists a :: EqualAndUnequal(a, e1, e2))
    || (op == Or && exists a :: Alternatives(a, e1, e2))
  }

  /** No two operands of a level are redundant, at any level. */
  ghost predicate Lean(e: Expr)
    decreases Size(e), 1
  {
    !e.Bin? || LeanList(e.op, e, Leaves(e.op, e))
  }

  ghost predicate LeanList(op: Op, e: Expr, ls: seq<Expr>)
    requires IsOp(e, op) && ls == Leaves(op, e)
    decreases Size(e), 0
  {
    LeavesAreSmaller(op, e);
    && (forall i, j :: 0 <= i < |ls| && 0 <= j < |ls| && i != j ==> !Redundant(op, ls[i], ls[j]))
    && (forall i :: 0 <= i < |ls| ==> Lean(ls[i]))
  }

  lemma RedundantJoins(op: Op, e1: Expr, e2: Expr)
    requires Redundant(op, e1, e2)
    ensures Join(op, e1, e2).Some?
  {
    hide Replaceable, Alternatives, EqualAndUnequal, Equal, JoinAnd, JoinOr;
    if Equal(e1, e2) {
      JoinEqual(op, e1, e2);
    } else if op == And && exists a :: EqualAndUnequal(a, e1, e2) {
      var a :| EqualAndUnequal(a, e1, e2);
      JoinConstantsComplete(a, e1, e2);
    } else if op == And {
      var a, t :| Replaceable(a, e1, e2, t);
      JoinAndComplete(a, e1, e2, t);
    } else {
      var a :| Alternatives(a, e1, e2);
      JoinOrComplete(a, e1, e2);
    }
  }

  lemma JoinEqual(op: Op, e1: Expr, e2: Expr)
    requires Equal(e1, e2)
    ensures Join(op, e1, e2) == Some(e1)
  {
  }

  lemma {:induction false} IrreducibleLean(e: Expr)
    requires Irreducible(e)
    ensures Lean(e)
    decreases Size(e)
  {
    hide Join, Redundant;
    if e.Bin? {
      var ls := Leaves(e.op, e);
      LeavesAreSmaller(e.op, e);
      forall i, j | 0 <= i < |ls| && 0 <= j < |ls| && i != j ensures !Redundant(e.op, ls[i], ls[j]) {
        if Redundant(e.op, ls[i], ls[j]) {
          RedundantJoins(e.op, ls[i], ls[j]);
        }
      }
      forall i | 0 <= i < |ls| ensures Lean(ls[i]) { IrreducibleLean(ls[i]); }
      assert LeanList(e.op, e, ls);
    }
  }

  /** Deduplication leaves no redundant pair at any level. */
  lemma EliminateDupsLean(e: Expr)
    ensures Lean(EliminateDups(e))
  {
    EliminateDupsIrreducible(e);
    IrreducibleLean(EliminateDups(e));
  }
}
