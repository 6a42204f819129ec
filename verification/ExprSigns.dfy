/** expr_transform and expr_trans_compare as one walk that carries a sign down. */
module ExprSigns {
  import opened Expr
  import opened ExprTransform

  /** A symbol as an operand, negated or not; y and n are negated by exchanging them. */
  function Signed(s: Sym, neg: bool): Expr {
    if !neg || s == Mod then Symbol(s)
    else if s == Yes then Symbol(No)
    else if s == No then Symbol(Yes)
    else Not(Symbol(s))
  }

  /** A comparison, negated or not. A boolean is =y or !=n exactly if it is the symbol itself,
      =n or !=y exactly if it is the negation, and never =m. */
  function SignedCompare(rel: Rel, s: Sym, t: Sym, neg: bool): Expr {
    if s.Type() == Boolean && rel in {Eq, Ne} && t.BuiltIn() then
      var equal := (rel == Eq) != neg;
      if t == Mod then Symbol(if equal then No else Yes)
      else if equal == (t == Yes) then Symbol(s)
      else Not(Symbol(s))
    else Compare(if neg then Flip(rel) else rel, s, t)
  }

  /** `e`, negated if `neg`, with the negations on the operands. */
  function Negations(e: Expr, neg: bool): Expr {
    match e
    case Symbol(s) => Signed(s, neg)
    case Compare(rel, s, t) => SignedCompare(rel, s, t, neg)
    case Not(a) => Negations(a, !neg)
    case Bin(op, a, b) => Bin(if neg then Dual(op) else op, Negations(a, neg), Negations(b, neg))
  }

  lemma CompareTwice(rel: Rel, s: Sym, t: Sym, m: bool, n: bool)
    ensures Negations(SignedCompare(rel, s, t, m), n) == SignedCompare(rel, s, t, m != n)
  {
  }

  lemma {:induction false} NegationsTwice(e: Expr, m: bool, n: bool)
    ensures Negations(Negations(e, m), n) == Negations(e, m != n)
  {
    match e {
      case Symbol(_) =>
      case Compare(rel, s, t) => CompareTwice(rel, s, t, m, n);
      case Not(a) => NegationsTwice(a, !m, n);
      case Bin(_, a, b) => NegationsTwice(a, m, n); NegationsTwice(b, m, n);
    }
  }

  /** expr_transform, which goes over what it has made again and again, computes that. */
  lemma {:induction false} TransformIsNegations(e: Expr)
    ensures Transform(e) == Negations(e, false)
    decreases Weight(e)
  {
    hide Weight;
    TransformStep(e);
    match e {
      case Symbol(_) =>
      case Compare(_, _, _) =>
      case Bin(_, a, b) => TransformIsNegations(a); TransformIsNegations(b);
      case Not(a) =>
        TransformIsNegations(a);
        NegationsTwice(a, false, true);
        match Transform(a) {
          case Not(x) => TransformIsNegations(x);
          case Compare(_, _, _) => TransformedCompare(Transform(a), a);
          case Bin(op, x, y) => TransformIsNegations(Bin(Dual(op), Not(x), Not(y)));
          case Symbol(_) =>
        }
    }
  }

  /** A comparison that is left is none of a boolean with y, m or n. */
  lemma TransformedCompare(c: Expr, a: Expr)
    requires c.Compare? && c == Transform(a)
    ensures Negations(c, true) == Compare(Flip(c.rel), c.lsym, c.rsym)
  {
    TransformNormal(a);
  }

  /** `e` with every operand s that is no comparison asked s=y, or s!=n. */
  function Asked(e: Expr, sym: Sym): Expr {
    match e
    case Symbol(s) => if sym == Yes then Compare(Eq, s, Yes) else Compare(Ne, s, No)
    case Compare(_, _, _) => e
    case Not(a) => Not(Asked(a, sym))
    case Bin(op, a, b) => Bin(op, Asked(a, sym), Asked(b, sym))
  }

  /** Asking an expression for y or n comes to asking its operands: for y to =y, for n to !=n,
      under the opposite sign if it is not to be y, or is to be n. */
  lemma {:induction false} TransCompareIsAsked(e: Expr, equal: bool, sym: Sym)
    requires sym == Yes || sym == No
    ensures Transform(TransCompare(e, equal, sym)) == Negations(Asked(e, sym), equal != (sym == Yes))
  {
    hide Transform;
    match e {
      case Symbol(s) => TransformIsNegations(TransCompare(e, equal, sym));
      case Compare(_, _, _) => TransformIsNegations(TransCompare(e, equal, sym));
      case Not(a) => TransCompareIsAsked(a, !equal, sym);
      case Bin(_, a, b) =>
        TransCompareIsAsked(a, true, sym);
        TransCompareIsAsked(b, true, sym);
        TransformIsNegations(TransCompare(e, equal, sym));
        TransformIsNegations(TransCompare(a, true, sym));
        TransformIsNegations(TransCompare(b, true, sym));
        if !equal {
          NegationsTwice(TransCompare(a, true, sym), false, true);
          NegationsTwice(TransCompare(b, true, sym), false, true);
          NegationsTwice(Asked(a, sym), sym == No, true);
          NegationsTwice(Asked(b, sym), sym == No, true);
        }
    }
  }
}
