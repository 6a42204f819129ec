/** expr_transform, expr_trans_compare, expr_trans_bool, rewrite_m and the dependency tests
    of menu_finalize as functions, and what they mean. */
module ExprTransform {
  import opened Expr
  import opened ExprEq
  import opened ExprEqProofs
  import opened ExprLevel
  import opened ExprDups
  import opened ExprDupsProofs

  // ----- expr_transform -----

  /** Weighs a negation as twice its operand, so that pushing one down costs nothing. */
  function Weight(e: Expr): (w: nat)
    ensures w >= 1
  {
    match e
    case Symbol(_) => 1
    case Compare(_, _, _) => 2
    case Not(a) => 2 * Weight(a)
    case Bin(_, a, b) => 1 + Weight(a) + Weight(b)
  }

  function Flip(rel: Rel): Rel {
    match rel
    case Eq => Ne
    case Ne => Eq
    case Le => Gt
    case Ge => Lt
    case Lt => Ge
    case Gt => Le
  }

  lemma PushDownWeight(op: Op, x: Expr, y: Expr)
    ensures Weight(Bin(Dual(op), Not(x), Not(y))) < 2 * Weight(Bin(op, x, y))
  {
    assert Weight(Not(x)) == 2 * Weight(x) && Weight(Not(y)) == 2 * Weight(y);
  }

  /** A comparison of a boolean with y, m or n needs no comparison. */
  function TransformCompare(e: Expr): Expr
    requires e.Compare?
  {
    if e.lsym.Type() != Boolean || (e.rel != Eq && e.rel != Ne) || !e.rsym.BuiltIn() then e
    else
      var wanted := e.rel == Eq;
      if e.rsym == Mod then Symbol(if wanted then No else Yes)
      else if (e.rsym == Yes) == wanted then Symbol(e.lsym)
      else Not(Symbol(e.lsym))
  }

  /** expr_transform. `sub` below is the operand after its own transformation. */
  function Transform(e: Expr): (r: Expr)
    ensures Weight(r) <= Weight(e)
    decreases Weight(e)
  {
    match e
    case Symbol(_) => e
    case Compare(_, _, _) => TransformCompare(e)
    case Bin(op, a, b) => Bin(op, Transform(a), Transform(b))
    case Not(a) =>
      var sub := Transform(a);
      match sub
      case Not(x) => Transform(x)
      case Compare(rel, s, t) => Compare(Flip(rel), s, t)
      case Bin(op, x, y) => PushDownWeight(op, x, y); Transform(Bin(Dual(op), Not(x), Not(y)))
      case Symbol(s) =>
        if s == Yes then Symbol(No)
        else if s == No then Symbol(Yes)
        else if s == Mod then Symbol(Mod)
        else Not(sub)
  }

  lemma TransformCompareSound(v: Valuation, e: Expr)
    requires Sound(v) && e.Compare?
    ensures Value(v, TransformCompare(e)) == Value(v, e)
  {
    if e.lsym.Type() == Boolean && e.rsym.BuiltIn() {
      CompareWithBuiltin(v, e.lsym, e.rsym);
    }
  }

  lemma FlipNegates(rel: Rel, order: int)
    ensures Holds(Flip(rel), order) == !Holds(rel, order)
  {
  }

  lemma DeMorgan(op: Op, a: Tristate, b: Tristate)
    ensures 2 - Apply(op, a, b) == Apply(Dual(op), 2 - a, 2 - b)
  {
  }

  /** Transformation keeps the value. */
  lemma {:induction false} TransformSound(v: Valuation, e: Expr)
    requires Sound(v)
    ensures Value(v, Transform(e)) == Value(v, e)
    decreases Weight(e)
  {
    match e {
      case Symbol(_) =>
      case Compare(_, _, _) => TransformCompareSound(v, e);
      case Bin(_, a, b) => TransformSound(v, a); TransformSound(v, b);
      case Not(a) =>
        TransformSound(v, a);
        match Transform(a) {
          case Not(x) => TransformSound(v, x);
          case Compare(rel, s, t) => FlipNegates(rel, Order(v, s, t));
          case Bin(op, x, y) =>
            PushDownWeight(op, x, y);
            TransformSound(v, Bin(Dual(op), Not(x), Not(y)));
            DeMorgan(op, Value(v, x), Value(v, y));
          case Symbol(_) =>
        }
    }
  }

  /** It tests nothing that was not tested before. */
  lemma {:induction false} TransformApart(v: Valuation, e: Expr)
    requires Apart(v, e)
    ensures Apart(v, Transform(e))
    decreases Weight(e)
  {
    hide Order, Weight;
    TransformStep(e);
    match e {
      case Symbol(_) =>
      case Compare(_, _, _) =>
      case Bin(_, a, b) => TransformApart(v, a); TransformApart(v, b);
      case Not(a) =>
        TransformApart(v, a);
        match Transform(a) {
          case Not(x) => TransformApart(v, x);
          case Compare(_, _, _) =>
          case Bin(op, x, y) => TransformApart(v, Bin(Dual(op), Not(x), Not(y)));
          case Symbol(_) =>
        }
    }
  }

  /** What the recursion goes down to. */
  lemma TransformStep(e: Expr)
    ensures e.Bin? ==> Weight(e.left) < Weight(e) && Weight(e.right) < Weight(e)
    ensures e.Not? ==> Weight(e.sub) < Weight(e)
    ensures e.Not? ==> match Transform(e.sub)
                       case Not(x) => Weight(x) < Weight(e)
                       case Bin(op, x, y) => Weight(Bin(Dual(op), Not(x), Not(y))) < Weight(e)
                       case _ => true
  {
    if e.Not? && Transform(e.sub).Bin? {
      PushDownWeight(Transform(e.sub).op, Transform(e.sub).left, Transform(e.sub).right);
    }
  }

  /** The normal form: negations sit on symbols other than y, m and n, and no boolean is
      compared with y, m or n. */
  predicate Normal(e: Expr) {
    match e
    case Symbol(_) => true
    case Compare(rel, s, t) => !(s.Type() == Boolean && (rel == Eq || rel == Ne) && t.BuiltIn())
    case Not(a) => a.Symbol? && !a.sym.BuiltIn()
    case Bin(_, a, b) => Normal(a) && Normal(b)
  }

  lemma {:induction false} TransformNormal(e: Expr)
    ensures Normal(Transform(e))
    decreases Weight(e)
  {
    match e {
      case Symbol(_) =>
      case Compare(_, _, _) =>
      case Bin(_, a, b) => TransformNormal(a); TransformNormal(b);
      case Not(a) =>
        TransformNormal(a);
        match Transform(a) {
          case Not(x) => TransformNormal(x);
          case Compare(_, _, _) =>
          case Bin(op, x, y) => PushDownWeight(op, x, y); TransformNormal(Bin(Dual(op), Not(x), Not(y)));
          case Symbol(_) =>
        }
    }
  }

  /** A quoted constant is an operand under an odd number of negations, of which `odd` says
      whether those above are one. */
  predicate NegatedConstant(e: Expr, odd: bool) {
    match e
    case Symbol(s) => odd && s.Constant?
    case Compare(_, _, _) => false
    case Not(a) => NegatedConstant(a, !odd)
    case Bin(_, a, b) => NegatedConstant(a, odd) || NegatedConstant(b, odd)
  }

  /** Transformation negates the same constants. */
  lemma {:induction false} TransformNegatesSame(e: Expr, odd: bool)
    ensures NegatedConstant(Transform(e), odd) <==> NegatedConstant(e, odd)
    decreases Weight(e)
  {
    hide Weight;
    TransformStep(e);
    match e {
      case Symbol(_) =>
      case Compare(_, _, _) =>
      case Bin(_, a, b) => TransformNegatesSame(a, odd); TransformNegatesSame(b, odd);
      case Not(a) =>
        TransformNegatesSame(a, !odd);
        match Transform(a) {
          case Not(x) => TransformNegatesSame(x, odd);
          case Compare(_, _, _) =>
          case Bin(op, x, y) => TransformNegatesSame(Bin(Dual(op), Not(x), Not(y)), odd);
          case Symbol(_) =>
        }
    }
  }

  /** Every negation sits on a declared symbol. */
  predicate NotOnDeclared(e: Expr) {
    match e
    case Symbol(_) => true
    case Compare(_, _, _) => true
    case Not(a) => a.Symbol? && a.sym.Declared?
    case Bin(_, a, b) => NotOnDeclared(a) && NotOnDeclared(b)
  }

  lemma {:induction false} NormalNegations(e: Expr)
    requires Normal(e)
    ensures NotOnDeclared(e) <==> !NegatedConstant(e, false)
  {
    if e.Bin? {
      NormalNegations(e.left);
      NormalNegations(e.right);
    }
  }

  /** Negations end up on declared symbols only, exactly if no quoted constant was negated an
      odd number of times. */
  lemma TransformNotOnDeclared(e: Expr)
    ensures NotOnDeclared(Transform(e)) <==> !NegatedConstant(e, false)
  {
    TransformNormal(e);
    NormalNegations(Transform(e));
    TransformNegatesSame(e, false);
  }

  /** !"foo" is left as it is. */
  lemma NegatedConstantStays()
    ensures var e := Not(Symbol(Constant("foo")));
            Transform(e) == e && !NotOnDeclared(e)
  {
    assert Transform(Symbol(Constant("foo"))) == Symbol(Constant("foo"));
  }

  lemma {:induction false} NormalUnchanged(e: Expr)
    requires Normal(e)
    ensures Transform(e) == e
  {
    if e.Bin? {
      NormalUnchanged(e.left);
      NormalUnchanged(e.right);
    }
  }

  /** Exactly the normal forms are left alone; in particular a second run changes nothing. */
  lemma TransformFixpoints(e: Expr)
    ensures Transform(e) == e <==> Normal(e)
    ensures Transform(Transform(e)) == Transform(e)
  {
    TransformNormal(e);
    NormalUnchanged(Transform(e));
    if Normal(e) {
      NormalUnchanged(e);
    }
  }

  // ----- expr_trans_compare -----

  /** expr_trans_compare for a present expression; `equal` is whether E_EQUAL was asked
      for, and `sym` is one of y, m and n. */
  function TransCompare(e: Expr, equal: bool, sym: Sym): Expr
    requires sym.BuiltIn()
  {
    match e
    case Bin(op, a, b) =>
      var e1, e2 := TransCompare(a, true, sym), TransCompare(b, true, sym);
      var r := if sym == Yes then Bin(op, e1, e2)
               else if sym == No then Bin(Dual(op), e1, e2)
               else e;
      if equal then r else Not(r)
    case Not(a) => TransCompare(a, !equal, sym)
    case Compare(_, _, _) =>
      if sym == Mod then Symbol(if equal then No else Yes)
      else if (sym == Yes) == equal then e
      else Not(e)
    case Symbol(s) => Compare(if equal then Eq else Ne, s, sym)
  }

  function TransCompareOpt(e: Option<Expr>, equal: bool, sym: Sym): Expr
    requires sym.BuiltIn()
  {
    match e
    case None => if equal then Symbol(sym) else Not(Symbol(sym))
    case Some(x) => TransCompare(x, equal, sym)
  }

  lemma {:induction false} TransCompareApart(v: Valuation, e: Expr, equal: bool, sym: Sym)
    requires sym.BuiltIn() && Apart(v, e)
    ensures Apart(v, TransCompare(e, equal, sym))
  {
    hide Order;
    match e {
      case Symbol(_) =>
      case Compare(_, _, _) =>
      case Not(a) => TransCompareApart(v, a, !equal, sym);
      case Bin(_, a, b) => TransCompareApart(v, a, true, sym); TransCompareApart(v, b, true, sym);
    }
  }

  /** All symbols used as an operand are boolean, tristate or built in. */
  predicate LogicalOperands(e: Expr) {
    match e
    case Symbol(s) => s.Logical()
    case Compare(_, _, _) => true
    case Not(a) => LogicalOperands(a)
    case Bin(_, a, b) => LogicalOperands(a) && LogicalOperands(b)
  }

  /** No operand of a negation is m. */
  predicate NoNegatedMod(v: Valuation, e: Expr) {
    match e
    case Symbol(_) => true
    case Compare(_, _, _) => true
    case Not(a) => Value(v, a) != MOD && NoNegatedMod(v, a)
    case Bin(_, a, b) => NoNegatedMod(v, a) && NoNegatedMod(v, b)
  }

  /** What the rewritten expression tests: whether `e` is `sym`, with every negation read
      as "is not". */
  predicate Tests(v: Valuation, e: Expr, sym: Sym) {
    match e
    case Symbol(s) => v.tri(s) == v.tri(sym)
    case Compare(_, _, _) => Value(v, e) == v.tri(sym)
    case Not(a) => !Tests(v, a, sym)
    case Bin(op, a, b) =>
      if (op == And) == (sym == Yes) then Tests(v, a, sym) && Tests(v, b, sym)
      else Tests(v, a, sym) || Tests(v, b, sym)
  }

  /** For y and n the result is always y or n, and tells `Tests`. */
  lemma {:induction false} TransCompareTests(v: Valuation, e: Expr, equal: bool, sym: Sym)
    requires Sound(v) && LogicalOperands(e) && (sym == Yes || sym == No)
    ensures Value(v, TransCompare(e, equal, sym)) == FromBool(Tests(v, e, sym) == equal)
  {
    match e {
      case Symbol(s) => CompareWithBuiltin(v, s, sym);
      case Compare(_, _, _) =>
      case Not(a) => TransCompareTests(v, a, !equal, sym);
      case Bin(_, a, b) =>
        TransCompareTests(v, a, true, sym);
        TransCompareTests(v, b, true, sym);
    }
  }

  lemma {:induction false} TestsMeans(v: Valuation, e: Expr, sym: Sym)
    requires Sound(v) && NoNegatedMod(v, e) && (sym == Yes || sym == No)
    ensures Tests(v, e, sym) <==> Value(v, e) == v.tri(sym)
  {
    match e {
      case Symbol(_) =>
      case Compare(_, _, _) =>
      case Not(a) => TestsMeans(v, a, sym);
      case Bin(_, a, b) => TestsMeans(v, a, sym); TestsMeans(v, b, sym);
    }
  }

  /** expr_trans_compare says whether the expression has the value y, or n, as long as
      nothing that is m is negated. */
  lemma {:induction false} TransCompareSound(v: Valuation, e: Expr, equal: bool, sym: Sym)
    requires Sound(v) && LogicalOperands(e) && NoNegatedMod(v, e) && (sym == Yes || sym == No)
    ensures Value(v, TransCompare(e, equal, sym)) == FromBool((Value(v, e) == v.tri(sym)) == equal)
  {
    TransCompareTests(v, e, equal, sym);
    TestsMeans(v, e, sym);
  }

  /** The proviso is needed: for a negation it is exact. */
  lemma TransCompareNegation(v: Valuation, e: Expr, equal: bool, sym: Sym)
    requires Sound(v) && LogicalOperands(e) && NoNegatedMod(v, e) && (sym == Yes || sym == No)
    ensures Value(v, TransCompare(Not(e), equal, sym)) == FromBool((Value(v, Not(e)) == v.tri(sym)) == equal)
            <==> Value(v, e) != MOD
  {
    TransCompareTests(v, Not(e), equal, sym);
    TestsMeans(v, e, sym);
  }

  /** Asking for m does not work on && and ||: the expression itself comes back, which is y
      when both operands are y. */
  lemma TransCompareMod(v: Valuation, op: Op, a: Expr, b: Expr)
    requires Sound(v) && Value(v, a) == YES && Value(v, b) == YES
    ensures TransCompare(Bin(op, a, b), true, Mod) == Bin(op, a, b)
    ensures Value(v, TransCompare(Bin(op, a, b), true, Mod)) == YES && Value(v, Bin(op, a, b)) != MOD
  {
  }

  /** It works on symbols and comparisons, and gives the opposite on their negations: !A is m
      where A is. */
  lemma TransCompareModOperand(v: Valuation, e: Expr, equal: bool)
    requires Sound(v) && (e.Compare? || (e.Symbol? && e.sym.Logical()))
    ensures Value(v, TransCompare(e, equal, Mod)) == FromBool((Value(v, e) == MOD) == equal)
    ensures Value(v, TransCompare(Not(e), equal, Mod)) == FromBool((Value(v, Not(e)) == MOD) != equal)
  {
    hide Order;
    if e.Symbol? {
      CompareWithBuiltin(v, e.sym, Mod);
    }
  }

  // ----- expr_trans_bool -----

  /** expr_trans_bool. */
  function TransBool(e: Expr): Expr {
    match e
    case Bin(op, a, b) => Bin(op, TransBool(a), TransBool(b))
    case Not(a) => Not(TransBool(a))
    case Compare(rel, s, t) => if rel == Ne && s.Type() == Tri && t == No then Symbol(s) else e
    case Symbol(_) => e
  }

  /** The tristate symbols whose comparison with n is dropped. */
  predicate DropsAt(v: Valuation, e: Expr) {
    match e
    case Symbol(_) => false
    case Compare(rel, s, t) => rel == Ne && s.Type() == Tri && t == No && v.tri(s) == MOD
    case Not(a) => DropsAt(v, a)
    case Bin(_, a, b) => DropsAt(v, a) || DropsAt(v, b)
  }

  /** FOO!=n becomes FOO, which is m where the comparison was y; nothing else changes. */
  lemma {:induction false} TransBoolSound(v: Valuation, e: Expr)
    requires Sound(v) && !DropsAt(v, e)
    ensures Value(v, TransBool(e)) == Value(v, e)
  {
    match e {
      case Symbol(_) =>
      case Compare(_, s, t) => if s.Type() == Tri && t == No { CompareWithBuiltin(v, s, t); }
      case Not(a) => TransBoolSound(v, a);
      case Bin(_, a, b) => TransBoolSound(v, a); TransBoolSound(v, b);
    }
  }

  /** For a single comparison that proviso is exact. */
  lemma TransBoolExact(v: Valuation, e: Expr)
    requires Sound(v) && e.Compare?
    ensures Value(v, TransBool(e)) == Value(v, e) <==> !DropsAt(v, e)
  {
    if e.lsym.Type() == Tri && e.rsym == No {
      CompareWithBuiltin(v, e.lsym, No);
    }
  }

  /** The symbols that `e` compares != n. */
  predicate UnequalNo(e: Expr, syms: set<Sym>) {
    match e
    case Symbol(_) => true
    case Compare(rel, s, t) => rel == Ne && t == No ==> s in syms
    case Not(a) => UnequalNo(a, syms)
    case Bin(_, a, b) => UnequalNo(a, syms) && UnequalNo(b, syms)
  }

  lemma {:induction false} NothingDrops(v: Valuation, e: Expr, syms: set<Sym>)
    requires UnequalNo(e, syms) && forall s :: s in syms ==> s.Type() != Tri
    ensures !DropsAt(v, e)
  {
    match e {
      case Symbol(_) =>
      case Compare(_, _, _) =>
      case Not(a) => NothingDrops(v, a, syms);
      case Bin(_, a, b) => NothingDrops(v, a, syms); NothingDrops(v, b, syms);
    }
  }

  /** Exactly the comparisons of tristates are the trouble: over the symbols compared != n,
      every expression keeps its value if and only if none of them is a tristate. */
  lemma TransBoolExactly(syms: set<Sym>)
    ensures (forall v, e :: Sound(v) && UnequalNo(e, syms) ==> Value(v, TransBool(e)) == Value(v, e))
            <==> (forall s :: s in syms ==> s.Type() != Tri)
  {
    hide Sound, Order, TransBool;
    if forall s :: s in syms ==> s.Type() != Tri {
      forall v, e | Sound(v) && UnequalNo(e, syms) ensures Value(v, TransBool(e)) == Value(v, e) {
        NothingDrops(v, e, syms);
        TransBoolSound(v, e);
      }
    } else {
      var s :| s in syms && s.Type() == Tri;
      var v := SoundExists(s, MOD, s, MOD);
      var e := Compare(Ne, s, No);
      TransBoolExact(v, e);
      assert UnequalNo(e, syms) && Value(v, TransBool(e)) != Value(v, e);
    }
  }

  /** The value with A!=n read as A for every tristate A. */
  function ValueDropped(v: Valuation, e: Expr): Tristate {
    match e
    case Symbol(s) => v.tri(s)
    case Compare(rel, s, t) => if rel == Ne && s.Type() == Tri && t == No then v.tri(s) else Value(v, e)
    case Not(a) => 2 - ValueDropped(v, a)
    case Bin(op, a, b) => Apply(op, ValueDropped(v, a), ValueDropped(v, b))
  }

  lemma {:induction false} TransBoolMeaning(v: Valuation, e: Expr)
    ensures Value(v, TransBool(e)) == ValueDropped(v, e)
  {
    hide Order;
    match e {
      case Symbol(_) =>
      case Compare(_, _, _) =>
      case Not(a) => TransBoolMeaning(v, a);
      case Bin(_, a, b) => TransBoolMeaning(v, a); TransBoolMeaning(v, b);
    }
  }

  lemma {:induction false} TransBoolApart(v: Valuation, e: Expr)
    requires Apart(v, e)
    ensures Apart(v, TransBool(e))
  {
    hide Order;
    match e {
      case Symbol(_) =>
      case Compare(_, _, _) =>
      case Not(a) => TransBoolApart(v, a);
      case Bin(_, a, b) => TransBoolApart(v, a); TransBoolApart(v, b);
    }
  }

  predicate NegationFree(e: Expr) {
    match e
    case Symbol(_) => true
    case Compare(_, _, _) => true
    case Not(_) => false
    case Bin(_, a, b) => NegationFree(a) && NegationFree(b)
  }

  /** Without negations, where the value changes it only drops from y to m: a prompt that
      was visible stays visible. */
  lemma {:induction false} TransBoolVisible(v: Valuation, e: Expr)
    requires Sound(v) && NegationFree(e)
    ensures Value(v, TransBool(e)) <= Value(v, e)
    ensures Value(v, TransBool(e)) != NO <==> Value(v, e) != NO
  {
    match e {
      case Symbol(_) =>
      case Compare(_, s, t) => if s.Type() == Tri && t == No { CompareWithBuiltin(v, s, t); }
      case Bin(_, a, b) => TransBoolVisible(v, a); TransBoolVisible(v, b);
    }
  }

  // ----- rewrite_m -----

  /** rewrite_m: `m` becomes `m && MODULES`. */
  function RewriteM(modules: Sym, e: Expr): Expr {
    match e
    case Symbol(s) => if s == Mod then Bin(And, e, Symbol(modules)) else e
    case Compare(_, _, _) => e
    case Not(a) => Not(RewriteM(modules, a))
    case Bin(op, a, b) => Bin(op, RewriteM(modules, a), RewriteM(modules, b))
  }

  /** The value with `m` read as `limit`. */
  function ValueLimited(v: Valuation, limit: Tristate, e: Expr): Tristate {
    match e
    case Symbol(s) => if s == Mod then limit else v.tri(s)
    case Compare(_, _, _) => Value(v, e)
    case Not(a) => 2 - ValueLimited(v, limit, a)
    case Bin(op, a, b) => Apply(op, ValueLimited(v, limit, a), ValueLimited(v, limit, b))
  }

  /** Without modules an `m` outside a comparison counts as n; with modules nothing changes. */
  lemma {:induction false} RewriteMSound(v: Valuation, modules: Sym, e: Expr)
    requires Sound(v)
    ensures Value(v, RewriteM(modules, e)) == ValueLimited(v, Min(MOD, v.tri(modules)), e)
    ensures v.tri(modules) != NO ==> Value(v, RewriteM(modules, e)) == Value(v, e)
  {
    match e {
      case Symbol(_) =>
      case Compare(_, _, _) =>
      case Not(a) => RewriteMSound(v, modules, a);
      case Bin(_, a, b) => RewriteMSound(v, modules, a); RewriteMSound(v, modules, b);
    }
  }

  lemma {:induction false} RewriteMApart(v: Valuation, modules: Sym, e: Expr)
    requires Apart(v, e)
    ensures Apart(v, RewriteM(modules, e))
  {
    hide Order;
    match e {
      case Symbol(_) =>
      case Compare(_, _, _) =>
      case Not(a) => RewriteMApart(v, modules, a);
      case Bin(_, a, b) => RewriteMApart(v, modules, a); RewriteMApart(v, modules, b);
    }
  }

  // ----- The dependency tests of menu_finalize -----

  /** expr_contains_symbol. */
  predicate Contains(e: Expr, sym: Sym) {
    match e
    case Symbol(s) => s == sym
    case Compare(_, s, t) => s == sym || t == sym
    case Not(a) => Contains(a, sym)
    case Bin(_, a, b) => Contains(a, sym) || Contains(b, sym)
  }

  /** expr_depends_symbol. */
  predicate Depends(e: Expr, sym: Sym) {
    match e
    case Symbol(s) => s == sym
    case Compare(rel, s, t) => s == sym && ((rel == Eq && (t == Yes || t == Mod)) || (rel == Ne && t == No))
    case Not(_) => false
    case Bin(op, a, b) => op == And && (Depends(a, sym) || Depends(b, sym))
  }

  /** An expression that depends on a logical symbol is n whenever the symbol is. */
  lemma {:induction false} DependsSound(v: Valuation, e: Expr, sym: Sym)
    requires Sound(v) && sym.Logical() && Depends(e, sym) && v.tri(sym) == NO
    ensures Value(v, e) == NO
  {
    match e {
      case Symbol(_) =>
      case Compare(_, s, t) => CompareWithBuiltin(v, s, t);
      case Bin(_, a, b) => if Depends(a, sym) { DependsSound(v, a, sym); } else { DependsSound(v, b, sym); }
    }
  }

  /** Contains is syntactic occurrence: the value of an expression without the symbol
      does not depend on it. */
  lemma {:induction false} ContainsComplete(v: Valuation, w: Valuation, e: Expr, sym: Sym)
    requires !Contains(e, sym)
    requires forall s: Sym :: s != sym ==> v.tri(s) == w.tri(s) && v.str(s) == w.str(s)
    ensures Value(v, e) == Value(w, e)
  {
    match e {
      case Symbol(_) =>
      case Compare(_, _, _) =>
      case Not(a) => ContainsComplete(v, w, a, sym);
      case Bin(_, a, b) => ContainsComplete(v, w, a, sym); ContainsComplete(v, w, b, sym);
    }
  }

  /** `e` != n, simplified as menu_finalize does before it compares. */
  function NotNo(e: Option<Expr>): Expr {
    EliminateDups(Transform(TransCompareOpt(e, false, No)))
  }

  /** The superset test: cancelling the common operands leaves nothing of `base`. */
  predicate Superset(dep: Expr, base: Option<Expr>) {
    EliminateEq(NotNo(Some(dep)), NotNo(base)).1 == Symbol(Yes)
  }

  predicate LogicalOperandsOpt(e: Option<Expr>) {
    e.None? || LogicalOperands(e.value)
  }

  predicate ApartOpt(v: Valuation, e: Option<Expr>) {
    e.None? || Apart(v, e.value)
  }

  predicate NoNegatedModOpt(v: Valuation, e: Option<Expr>) {
    e.None? || NoNegatedMod(v, e.value)
  }

  /** What the test compares, on every expression: whether it reads as n, with negations read
      as "is not". */
  predicate ReadsAsNo(v: Valuation, e: Option<Expr>) {
    e.Some? && Tests(v, e.value, No)
  }

  lemma NotNoValue(v: Valuation, e: Option<Expr>)
    requires Sound(v) && ApartOpt(v, e) && LogicalOperandsOpt(e)
    ensures Value(v, NotNo(e)) == FromBool(!ReadsAsNo(v, e))
  {
    hide Apart, Sound, Tests, Transform, EliminateDups, LogicalOperands;
    var t := TransCompareOpt(e, false, No);
    NoneApart(v, t);
    if e.Some? {
      TransCompareTests(v, e.value, false, No);
      TransCompareApart(v, e.value, false, No);
    }
    TransformSound(v, t);
    TransformApart(v, t);
    EliminateDupsSound(v, Transform(t));
    BuiltInValues(v);
  }

  lemma NoneApart(v: Valuation, t: Expr)
    ensures t == Not(Symbol(No)) ==> Apart(v, t)
  {
  }

  lemma BuiltInValues(v: Valuation)
    requires Sound(v)
    ensures v.tri(Yes) == YES && v.tri(Mod) == MOD && v.tri(No) == NO
  {
  }

  lemma NotNoSound(v: Valuation, e: Option<Expr>)
    requires Sound(v) && ApartOpt(v, e) && LogicalOperandsOpt(e) && NoNegatedModOpt(v, e)
    ensures Value(v, NotNo(e)) == FromBool(ValueOpt(v, e) != NO)
  {
    hide Apart, NotNo;
    NotNoValue(v, e);
    if e.Some? {
      TestsMeans(v, e.value, No);
    }
  }

  /** The chain of four simplifications, whatever is negated: where `base` reads as n, so
      does an entry that passes the superset test. */
  lemma SupersetReads(v: Valuation, dep: Expr, base: Option<Expr>)
    requires Sound(v) && Superset(dep, base)
    requires Apart(v, dep) && ApartOpt(v, base) && LogicalOperands(dep) && LogicalOperandsOpt(base)
    ensures ReadsAsNo(v, base) ==> ReadsAsNo(v, Some(dep))
  {
    hide Apart, NotNo, Sound, EliminateEq;
    NotNoValue(v, Some(dep));
    NotNoValue(v, base);
    ResidueYes(v, NotNo(Some(dep)), NotNo(base));
  }

  /** As long as nothing that is m is negated, that is about values: the entry is only
      available where the symbol's own prompt is. */
  lemma SupersetSound(v: Valuation, dep: Expr, base: Option<Expr>)
    requires Sound(v) && Superset(dep, base)
    requires Apart(v, dep) && ApartOpt(v, base) && LogicalOperands(dep) && LogicalOperandsOpt(base)
    requires NoNegatedMod(v, dep) && NoNegatedModOpt(v, base)
    ensures Value(v, dep) != NO ==> ValueOpt(v, base) != NO
  {
    hide Apart, NotNo, Sound, EliminateEq;
    NotNoSound(v, Some(dep));
    NotNoSound(v, base);
    ResidueYes(v, NotNo(Some(dep)), NotNo(base));
  }

  // ----- Exactly when the superset test is sound -----

  /** The symbols that are operands below a negation; `below` says whether one is above. */
  predicate Negates(e: Expr, below: bool, syms: set<Sym>) {
    match e
    case Symbol(s) => below ==> s in syms
    case Compare(_, _, _) => true
    case Not(a) => Negates(a, true, syms)
    case Bin(_, a, b) => Negates(a, below, syms) && Negates(b, below, syms)
  }

  predicate NegatesOpt(e: Option<Expr>, syms: set<Sym>) {
    e.None? || Negates(e.value, false, syms)
  }

  /** None of the symbols is ever m. */
  predicate NeverMod(syms: set<Sym>) {
    forall s :: s in syms ==> s.Type() != Tri && s != Mod
  }

  lemma {:induction false} NegatesNoMod(v: Valuation, e: Expr, below: bool, syms: set<Sym>)
    requires Sound(v) && LogicalOperands(e) && Negates(e, below, syms) && NeverMod(syms)
    ensures NoNegatedMod(v, e) && (below ==> Value(v, e) != MOD)
  {
    hide Order;
    match e {
      case Symbol(_) =>
      case Compare(_, _, _) =>
      case Not(a) => NegatesNoMod(v, a, true, syms);
      case Bin(_, a, b) => NegatesNoMod(v, a, below, syms); NegatesNoMod(v, b, below, syms);
    }
  }

  /** The test for a symbol entry c with the prompt condition A=n, and an entry that needs
      !A && (C || Q). */
  function Prompted(a: Sym): Expr {
    Compare(Eq, a, No)
  }

  function Entry(a: Sym, c: Sym, q: Sym): Expr {
    Bin(And, Not(Symbol(a)), Bin(Or, Symbol(c), Symbol(q)))
  }

  /** Such symbols: `a` can be m, and the others are tristates of their own. */
  predicate CanMislead(a: Sym, c: Sym, q: Sym) {
    (a == Mod || a.Type() == Tri) && c.Type() == Tri && q.Type() == Tri && a != c && a != q && c != q
  }

  /** A negated m defeats the test: the entry mentions c without needing it and passes, but
      where A is m, C is n and Q is y it is m, while C and its prompt condition are n. */
  lemma SupersetCounterexample(a: Sym, c: Sym, q: Sym) returns (v: Valuation)
    requires CanMislead(a, c, q)
    ensures var dep, base := Entry(a, c, q), Prompted(a);
            && Contains(dep, c) && !Depends(dep, c) && Superset(dep, Some(base))
            && Sound(v) && v.tri(c) == NO && Value(v, dep) == MOD && Value(v, base) == NO
            && Apart(v, dep) && Apart(v, base) && LogicalOperands(dep) && LogicalOperands(base)
            && forall syms :: a in syms ==> Negates(dep, false, syms) && Negates(base, false, syms)
  {
    hide Order, Sound, Superset, Apart, Negates, LogicalOperands, Contains, Depends, Entry;
    v := Misled(a, q);
    BuiltInValues(v);
    CompareWithBuiltin(v, a, No);
    assert Value(v, Prompted(a)) == NO;
    EntryValue(v, a, c, q);
    EntryMentions(a, c, q);
    EntryIsLogical(v, a, c, q);
    forall syms: set<Sym> | a in syms
      ensures Negates(Entry(a, c, q), false, syms) && Negates(Prompted(a), false, syms)
    {
      EntryNegates(a, c, q, syms);
    }
    EntryPasses(a, c, q);
  }

  lemma Misled(a: Sym, q: Sym) returns (v: Valuation)
    requires (a == Mod || a.Type() == Tri) && q.Type() == Tri && a != q
    ensures Sound(v) && v.tri(a) == MOD && v.tri(q) == YES
    ensures forall s :: s != a && s != q && s.Type() == Tri ==> v.tri(s) == NO
  {
    v := SoundExtends((s: Sym) => if s == q || s == Yes then YES else if s == a || s == Mod then MOD else NO);
  }

  lemma EntryValue(v: Valuation, a: Sym, c: Sym, q: Sym)
    requires v.tri(a) == MOD && v.tri(c) == NO && v.tri(q) == YES
    ensures Value(v, Entry(a, c, q)) == MOD
  {
    assert Value(v, Symbol(a)) == MOD && Value(v, Symbol(c)) == NO && Value(v, Symbol(q)) == YES;
    assert Value(v, Not(Symbol(a))) == MOD && Value(v, Bin(Or, Symbol(c), Symbol(q))) == YES;
  }

  lemma EntryMentions(a: Sym, c: Sym, q: Sym)
    ensures Contains(Entry(a, c, q), c) && !Depends(Entry(a, c, q), c)
  {
    assert Contains(Symbol(c), c) && Contains(Bin(Or, Symbol(c), Symbol(q)), c);
    assert !Depends(Not(Symbol(a)), c) && !Depends(Bin(Or, Symbol(c), Symbol(q)), c);
  }

  lemma EntryIsLogical(v: Valuation, a: Sym, c: Sym, q: Sym)
    requires CanMislead(a, c, q)
    ensures Apart(v, Entry(a, c, q)) && Apart(v, Prompted(a))
    ensures LogicalOperands(Entry(a, c, q)) && LogicalOperands(Prompted(a))
  {
    var A, C, Q := Symbol(a), Symbol(c), Symbol(q);
    assert Apart(v, A) && Apart(v, C) && Apart(v, Q);
    assert Apart(v, Not(A)) && Apart(v, Bin(Or, C, Q));
    assert LogicalOperands(A) && LogicalOperands(C) && LogicalOperands(Q);
    assert LogicalOperands(Not(A));
    assert LogicalOperands(Bin(Or, C, Q));
  }

  lemma EntryNegates(a: Sym, c: Sym, q: Sym, syms: set<Sym>)
    requires a in syms
    ensures Negates(Entry(a, c, q), false, syms) && Negates(Prompted(a), false, syms)
  {
    assert Negates(Symbol(c), false, syms) && Negates(Symbol(q), false, syms);
    assert Negates(Not(Symbol(a)), false, syms) && Negates(Bin(Or, Symbol(c), Symbol(q)), false, syms);
  }

  /** What the entry comes to before cancelling. */
  function Simplified(a: Sym, c: Sym, q: Sym): Expr {
    Bin(And, Compare(Eq, a, No), Bin(Or, Compare(Ne, c, No), Compare(Ne, q, No)))
  }

  lemma EntryPasses(a: Sym, c: Sym, q: Sym)
    requires CanMislead(a, c, q)
    ensures Superset(Entry(a, c, q), Some(Prompted(a)))
  {
    hide EliminateDups, EliminateEq, Transform;
    EntryCompared(a, c, q);
    EntryTransformed(a, c, q);
    EntryDeduplicated(a, c, q);
    EntryCancelled(a, c, q);
    PromptUnchanged(a);
  }

  lemma PromptUnchanged(a: Sym)
    requires a == Mod || a.Type() == Tri
    ensures NotNo(Some(Prompted(a))) == Prompted(a)
  {
    assert TransCompare(Prompted(a), false, No) == Prompted(a);
    assert Transform(Prompted(a)) == Prompted(a);
  }

  /** !(A!=n || (C=n && Q=n)). */
  function Compared(a: Sym, c: Sym, q: Sym): Expr {
    Not(Bin(Or, Compare(Ne, a, No), Bin(And, Compare(Eq, c, No), Compare(Eq, q, No))))
  }

  lemma EntryCompared(a: Sym, c: Sym, q: Sym)
    ensures TransCompare(Entry(a, c, q), false, No) == Compared(a, c, q)
  {
    assert TransCompare(Symbol(a), false, No) == Compare(Ne, a, No);
    assert TransCompare(Not(Symbol(a)), true, No) == Compare(Ne, a, No);
    assert TransCompare(Symbol(c), true, No) == Compare(Eq, c, No) && TransCompare(Symbol(q), true, No) == Compare(Eq, q, No);
    assert TransCompare(Bin(Or, Symbol(c), Symbol(q)), true, No) == Bin(And, Compare(Eq, c, No), Compare(Eq, q, No));
  }

  lemma EntryTransformed(a: Sym, c: Sym, q: Sym)
    requires CanMislead(a, c, q)
    ensures Transform(Compared(a, c, q)) == Simplified(a, c, q)
  {
    hide Transform, Weight;
    var x, y, z := Compare(Ne, a, No), Compare(Eq, c, No), Compare(Eq, q, No);
    Flipped(x);
    Flipped(y);
    Flipped(z);
    TransformBin(And, y, z);
    TransformBin(Or, x, Bin(And, y, z));
    TransformNotBin(Bin(Or, x, Bin(And, y, z)));
    TransformBin(And, Not(x), Not(Bin(And, y, z)));
    TransformNotBin(Bin(And, y, z));
    TransformBin(Or, Not(y), Not(z));
  }

  lemma Flipped(e: Expr)
    requires e.Compare? && e.lsym.Type() != Boolean
    ensures Transform(e) == e && Transform(Not(e)) == Compare(Flip(e.rel), e.lsym, e.rsym)
  {
  }

  lemma TransformBin(op: Op, x: Expr, y: Expr)
    ensures Transform(Bin(op, x, y)) == Bin(op, Transform(x), Transform(y))
  {
  }

  lemma TransformNotBin(e: Expr)
    requires e.Bin? && Transform(e) == e
    ensures Transform(Not(e)) == Transform(Bin(Dual(e.op), Not(e.left), Not(e.right)))
  {
  }

  lemma EntryDeduplicated(a: Sym, c: Sym, q: Sym)
    requires CanMislead(a, c, q)
    ensures EliminateDups(Simplified(a, c, q)) == Simplified(a, c, q)
  {
    hide Equal, PassLevel;
    var r := Simplified(a, c, q);
    var either := r.right;
    ComparesNotEqual(either.left, either.right);
    PairIrreducible(either);
    KindsNotEqual(r.left, either);
    PairIrreducible(r);
    PassLevelZero(And, r);
  }

  lemma ComparesNotEqual(x: Expr, y: Expr)
    requires x.Compare? && y.Compare? && x != y
    ensures !Equal(x, y) && !Equal(y, x) && Irreducible(x) && Irreducible(y)
  {
  }

  lemma KindsNotEqual(x: Expr, y: Expr)
    requires x.Compare? && y.Bin?
    ensures !Equal(x, y) && !Equal(y, x) && Irreducible(x)
  {
  }

  /** Two operands that cannot be joined. */
  lemma PairIrreducible(e: Expr)
    requires e.Bin? && !IsOp(e.left, e.op) && !IsOp(e.right, e.op) && Irreducible(e.left) && Irreducible(e.right)
    requires Join(e.op, e.left, e.right).None? && Join(e.op, e.right, e.left).None?
    ensures Irreducible(e)
  {
    hide Join;
    assert Leaves(e.op, e.left) == [e.left] && Leaves(e.op, e.right) == [e.right];
    assert Leaves(e.op, e) == [e.left, e.right];
  }

  lemma EntryCancelled(a: Sym, c: Sym, q: Sym)
    requires CanMislead(a, c, q)
    ensures EliminateEq(Simplified(a, c, q), Prompted(a)).1 == Symbol(Yes)
  {
    var e, x, u := Simplified(a, c, q), Prompted(a), Symbol(Yes);
    assert Equal(x, x) && !Equal(e.right, u);
    assert Cancel(And, x, x) == (u, u);
    assert Cancel(And, e.right, u) == (e.right, u);
    assert Cancel(And, e, x) == (Bin(And, u, e.right), u);
    assert EliminateYn(u) == u;
  }

  /** The test is sound for all expressions that negate these symbols only, under all
      valuations, if and only if none of the symbols can be m. */
  lemma SupersetExact(syms: set<Sym>)
    ensures (forall v, dep, base ::
               (Sound(v) && Superset(dep, base) && Apart(v, dep) && ApartOpt(v, base)
                && LogicalOperands(dep) && LogicalOperandsOpt(base) && Negates(dep, false, syms) && NegatesOpt(base, syms))
               ==> (Value(v, dep) != NO ==> ValueOpt(v, base) != NO))
            <==> NeverMod(syms)
  {
    hide Sound, Superset, Apart, LogicalOperands, Negates;
    if NeverMod(syms) {
      forall v, dep, base | Sound(v) && Superset(dep, base) && Apart(v, dep) && ApartOpt(v, base)
          && LogicalOperands(dep) && LogicalOperandsOpt(base) && Negates(dep, false, syms) && NegatesOpt(base, syms)
        ensures Value(v, dep) != NO ==> ValueOpt(v, base) != NO
      {
        NegatesNoMod(v, dep, false, syms);
        if base.Some? { NegatesNoMod(v, base.value, false, syms); }
        SupersetSound(v, dep, base);
      }
    } else {
      var a :| a in syms && (a.Type() == Tri || a == Mod);
      var c, q := Others(a);
      var v := SupersetCounterexample(a, c, q);
      var dep, base := Entry(a, c, q), Some(Prompted(a));
      assert Negates(dep, false, syms) && NegatesOpt(base, syms) && Value(v, dep) != NO && ValueOpt(v, base) == NO;
    }
  }

  /** The same for expr_trans_compare itself, asked for y or n. */
  lemma TransCompareExact(syms: set<Sym>)
    ensures (forall v, e, equal, sym ::
               (Sound(v) && LogicalOperands(e) && Negates(e, false, syms) && (sym == Yes || sym == No))
               ==> Value(v, TransCompare(e, equal, sym)) == FromBool((Value(v, e) == v.tri(sym)) == equal))
            <==> NeverMod(syms)
  {
    hide Sound, Order, TransCompare;
    if NeverMod(syms) {
      forall v, e, equal, sym | Sound(v) && LogicalOperands(e) && Negates(e, false, syms) && (sym == Yes || sym == No)
        ensures Value(v, TransCompare(e, equal, sym)) == FromBool((Value(v, e) == v.tri(sym)) == equal)
      {
        NegatesNoMod(v, e, false, syms);
        TransCompareSound(v, e, equal, sym);
      }
    } else {
      var a :| a in syms && (a.Type() == Tri || a == Mod);
      var c, q := Others(a);
      var v := Misled(a, q);
      var e := Symbol(a);
      assert Value(v, e) == MOD && Negates(e, true, syms);
      assert Negates(Not(e), false, syms) && LogicalOperands(Not(e));
      TransCompareNegation(v, e, true, No);
      assert Value(v, TransCompare(Not(e), true, No)) != FromBool((Value(v, Not(e)) == v.tri(No)) == true);
    }
  }

  /** Two more tristates. */
  lemma Others(a: Sym) returns (c: Sym, q: Sym)
    requires a == Mod || a.Type() == Tri
    ensures CanMislead(a, c, q)
  {
    var n := if a.Declared? then a.id + 1 else 0;
    c, q := Declared(n, Tri), Declared(n + 1, Tri);
  }
}
