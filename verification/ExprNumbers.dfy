/** Comparisons of symbols that are numbers or text. */
module ExprNumbers {
  import opened CText
  import opened Decimals
  import opened Expr

  predicate Related(rel: Rel, a: int, b: int) {
    match rel
    case Eq => a == b
    case Ne => a != b
    case Lt => a < b
    case Le => a <= b
    case Gt => a > b
    case Ge => a >= b
  }

  lemma DecimalParses(k: nat)
    requires k <= MAX_SIGNED
    ensures ParseValue(Decimal(k), Integer) == PSigned(k)
  {
    hide Decimal, ScanInteger;
    DecimalScans(k);
    DecimalStarts(k);
  }

  /** Integer symbols are compared as numbers, not as text. */
  lemma IntegersCompare(v: Valuation, rel: Rel, s: Sym, t: Sym, a: nat, b: nat)
    requires s.Type() == Integer && t.Type() == Integer && a <= MAX_SIGNED && b <= MAX_SIGNED
    requires v.str(s) == Decimal(a) && v.str(t) == Decimal(b)
    ensures Value(v, Compare(rel, s, t)) == FromBool(Related(rel, a, b))
  {
    hide Decimal, ParseValue;
    DecimalParses(a);
    DecimalParses(b);
  }

  /** Two string symbols are compared as text, also where both spell numbers. */
  lemma TextsCompare(v: Valuation, rel: Rel, s: Sym, t: Sym)
    requires s.Type() == Text && t.Type() == Text
    ensures Value(v, Compare(rel, s, t)) == FromBool(Related(rel, StrCmp(v.str(s), v.str(t)), 0))
  {
    hide ParseValue, StrCmp;
  }
}
