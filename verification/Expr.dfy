/** Kconfig expressions over the tristate values n < m < y, and their meaning. */
module Expr {
  import opened CText

  /** n is 0, m is 1, y is 2, as in `enum tristate`. */
  newtype Tristate = x: int | 0 <= x <= 2

  const NO: Tristate := 0
  const MOD: Tristate := 1
  const YES: Tristate := 2

  datatype SymType = Unknown | Boolean | Tri | Integer | Hex | Text

  /** The name of a quoted constant; sym_lookup takes "y", "m" and "n" for the built-in ones. */
  type ConstName = name: string | name != "y" && name != "m" && name != "n" witness ""

  /** A symbol. Distinct values are distinct addresses. `Yes`, `Mod` and `No` are the
      built-in constants symbol_yes, symbol_mod and symbol_no. Constants have no type: they
      are made by sym_lookup, and only declared symbols are given one. */
  datatype Sym = Yes | Mod | No | Constant(name: ConstName) | Declared(id: nat, stype: SymType) {
    function Type(): SymType {
      if Declared? then stype else Unknown
    }

    predicate BuiltIn() {
      Yes? || Mod? || No?
    }

    predicate Const() {
      !Declared?
    }

    /** A symbol whose tristate value says all there is to know about it. */
    predicate Logical() {
      BuiltIn() || (Declared? && (stype == Boolean || stype == Tri))
    }
  }

  datatype Op = And | Or

  datatype Rel = Eq | Ne | Lt | Le | Gt | Ge

  /** Expressions other than E_LIST, E_RANGE and E_NONE. */
  datatype Expr =
    | Symbol(sym: Sym)
    | Compare(rel: Rel, lsym: Sym, rsym: Sym)
    | Not(sub: Expr)
    | Bin(op: Op, left: Expr, right: Expr)

  datatype Option<T> = None | Some(value: T)

  function Size(e: Expr): nat
    ensures Size(e) >= 1
  {
    match e
    case Symbol(_) => 1
    case Compare(_, _, _) => 1
    case Not(a) => 1 + Size(a)
    case Bin(_, a, b) => 1 + Size(a) + Size(b)
  }

  /** Some assignment of values to all symbols: the tristate value and the string value
      of each. It stands for one outcome of sym_calc_value on every symbol. */
  datatype Valuation = Valuation(tri: Sym -> Tristate, str: Sym -> string)

  function TristateName(t: Tristate): (s: string) {
    if t == NO then "n" else if t == MOD then "m" else "y"
  }

  datatype Parsed = PText | PSigned(s: int) | PUnsigned(u: nat)

  /** expr_parse_string. */
  function ParseValue(str: string, stype: SymType): Parsed {
    match stype
    case Boolean => PSigned(ParseTristate(str))
    case Tri => PSigned(ParseTristate(str))
    case Integer => ParseSigned(str, 10)
    case Hex =>
      var scan := ScanInteger(str, 16);
      if !CompleteNumber(str, scan) || scan.magnitude > MAX_UNSIGNED then PText
      else PUnsigned(AsUnsigned(scan.Value()))
    case Unknown => ParseSigned(str, 0)
    case Text => ParseSigned(str, 0)
  }

  function ParseTristate(str: string): int {
    if str == "n" then 0 else if str == "m" then 1 else if str == "y" then 2 else -1
  }

  predicate CompleteNumber(str: string, scan: Scan)
    requires scan.end <= |str|
  {
    scan.end == |str| && scan.end > 0 && DigitValue(str[scan.end - 1]) < 16
  }

  function ParseSigned(str: string, base: nat): Parsed {
    var scan := ScanInteger(str, base);
    var value := scan.Value();
    if !CompleteNumber(str, scan) || value > MAX_SIGNED || value < -MAX_SIGNED - 1 then PText
    else PSigned(value)
  }

  function Sign(a: int, b: int): int {
    if a < b then -1 else if a > b then 1 else 0
  }

  function Bits(p: Parsed): nat
    requires !p.PText?
  {
    match p
    case PSigned(s) => AsUnsigned(s)
    case PUnsigned(u) => u
  }

  /** The three-way comparison at the heart of expr_calc_value: as numbers if both sides
      parse as one (unsigned if either does), as text otherwise. */
  function Order(v: Valuation, a: Sym, b: Sym): int {
    var str1, str2 := v.str(a), v.str(b);
    var numeric := a.Type() != Text || b.Type() != Text;
    var k1 := if numeric then ParseValue(str1, a.Type()) else PText;
    var k2 := if numeric then ParseValue(str2, b.Type()) else PText;
    if k1.PText? || k2.PText? then StrCmp(str1, str2)
    else if k1.PUnsigned? || k2.PUnsigned? then Sign(Bits(k1), Bits(k2))
    else Sign(k1.s, k2.s)
  }

  predicate Holds(rel: Rel, order: int) {
    match rel
    case Eq => order == 0
    case Ne => order != 0
    case Lt => order < 0
    case Le => order <= 0
    case Gt => order > 0
    case Ge => order >= 0
  }

  function FromBool(b: bool): Tristate {
    if b then YES else NO
  }

  function Max(a: Tristate, b: Tristate): Tristate {
    if a > b then a else b
  }

  function Min(a: Tristate, b: Tristate): Tristate {
    if a < b then a else b
  }

  function Apply(op: Op, a: Tristate, b: Tristate): Tristate {
    match op
    case And => Min(a, b)
    case Or => Max(a, b)
  }

  /** expr_calc_value. */
  function Value(v: Valuation, e: Expr): Tristate {
    match e
    case Symbol(s) => v.tri(s)
    case Compare(rel, a, b) => FromBool(Holds(rel, Order(v, a, b)))
    case Not(a) => 2 - Value(v, a)
    case Bin(op, a, b) => Apply(op, Value(v, a), Value(v, b))
  }

  /** A missing expression counts as y. */
  function ValueOpt(v: Valuation, e: Option<Expr>): Tristate {
    if e.None? then YES else Value(v, e.value)
  }

  /** The operand that changes nothing under `op`, and the one that decides alone. */
  function Unit(op: Op): Sym {
    if op == And then Yes else No
  }

  function Zero(op: Op): Sym {
    if op == And then No else Yes
  }

  function Dual(op: Op): Op {
    if op == And then Or else And
  }

  predicate IsYesNo(e: Expr) {
    e == Symbol(Yes) || e == Symbol(No)
  }

  predicate IsOp(e: Expr, op: Op) {
    e.Bin? && e.op == op
  }

  /** What sym_calc_value guarantees of symbols: the built-in constants mean themselves,
      a constant is n and spells its name, a boolean is never m, and a boolean or tristate
      spells its tristate value. */
  ghost predicate Sound(v: Valuation) {
    && SoundTristates(v.tri)
    && v.str(Yes) == "y" && v.str(Mod) == "m" && v.str(No) == "n"
    && (forall c: Sym :: c.Constant? ==> v.str(c) == c.name)
    && (forall s: Sym :: s.Type() == Boolean || s.Type() == Tri ==> v.str(s) == TristateName(v.tri(s)))
  }

  ghost predicate SoundTristates(tri: Sym -> Tristate) {
    && tri(Yes) == YES && tri(Mod) == MOD && tri(No) == NO
    && (forall c: Sym :: c.Constant? ==> tri(c) == NO)
    && (forall s: Sym :: s.Type() == Boolean ==> tri(s) != MOD)
  }

  /** The assumptions can be met: whatever the tristate values, some strings go with them, ... */
  lemma SoundExtends(tri: Sym -> Tristate) returns (v: Valuation)
    requires SoundTristates(tri)
    ensures Sound(v) && v.tri == tri
  {
    v := Valuation(tri, (s: Sym) => if s.Constant? then s.name else TristateName(tri(s)));
  }

  /** ... and any one tristate can have any value, also together with a second one. */
  lemma SoundExists(a: Sym, x: Tristate, b: Sym, y: Tristate) returns (v: Valuation)
    requires a.Type() == Tri && b.Type() == Tri && (a == b ==> x == y)
    ensures Sound(v) && v.tri(a) == x && v.tri(b) == y
  {
    v := SoundExtends((s: Sym) => if s == a then x else if s == b then y else if s.Yes? then YES else if s.Mod? then MOD else NO);
  }

  /** Comparing a logical symbol with y, m or n asks for its tristate value. */
  lemma CompareWithBuiltin(v: Valuation, a: Sym, b: Sym)
    requires Sound(v) && a.Logical() && b.BuiltIn()
    ensures Order(v, a, b) == 0 <==> v.tri(a) == v.tri(b)
  {
    var str := v.str(b);
    assert |str| == 1;
    assert SkipSpaces(str, 0) == 0;
    assert ScanInteger(str, 0) == Scan(0, false, 0);
    assert ParseValue(str, Unknown) == PText;
    if a.BuiltIn() {
      assert ParseValue(v.str(a), a.Type()) == PText by {
        var s := v.str(a);
        assert |s| == 1 && SkipSpaces(s, 0) == 0;
      }
    }
  }

  /** Value of an operand that is the unit or the zero of `op`. */
  lemma UnitAndZero(v: Valuation, op: Op, t: Tristate)
    requires Sound(v)
    ensures Apply(op, v.tri(Unit(op)), t) == t == Apply(op, t, v.tri(Unit(op)))
    ensures Apply(op, v.tri(Zero(op)), t) == v.tri(Zero(op)) == Apply(op, t, v.tri(Zero(op)))
  {
  }

  lemma ApplyAssociative(op: Op, a: Tristate, b: Tristate, c: Tristate)
    ensures Apply(op, a, Apply(op, b, c)) == Apply(op, Apply(op, a, b), c)
  {
  }

  lemma ApplyRegroup(op: Op, a: Tristate, b: Tristate, c: Tristate, d: Tristate)
    ensures Apply(op, Apply(op, a, b), Apply(op, c, d)) == Apply(op, Apply(op, a, c), Apply(op, b, d))
  {
  }

  /** The tristate value a constant reads as: y, m and n as themselves, and a number of 0, 1
      or 2 as the value of that rank. */
  function ReadsAs(c: Sym): Option<Tristate>
    requires c.Const()
  {
    match c
    case Yes => Some(YES)
    case Mod => Some(MOD)
    case No => Some(NO)
    case Constant(name) =>
      match ParseValue(name, Unknown)
      case PSigned(k) => if 0 <= k <= 2 then Some(k as Tristate) else None
      case _ => None
  }

  /** A boolean or tristate equals a constant exactly when the constant reads as its value. */
  lemma CompareWithConstant(v: Valuation, a: Sym, c: Sym)
    requires Sound(v) && (a.Type() == Boolean || a.Type() == Tri) && c.Const()
    ensures Order(v, a, c) == 0 <==> ReadsAs(c) == Some(v.tri(a))
  {
    if c.Constant? {
      assert v.str(c) == c.name;
      assert ParseValue(v.str(a), a.Type()) == PSigned(v.tri(a) as int);
      assert !ParseValue(c.name, Unknown).PUnsigned?;
    } else {
      CompareWithBuiltin(v, a, c);
    }
  }

  lemma OneReads()
    ensures ReadsAs(Constant("1")) == Some(MOD)
  {
    assert ScanDigits("1", 1, 10, 1) == (1, 1);
    assert ScanDigits("1", 0, 10, 0) == (1, 1);
    assert ParseValue("1", Unknown) == PSigned(1);
  }

  /** The constants `m` and `"1"` are different symbols, and a tristate set to m equals both. */
  lemma ConstantsMayCoincide(v: Valuation, a: Sym)
    requires Sound(v) && a.Type() == Tri && v.tri(a) == MOD
    ensures Order(v, a, Mod) == 0 && Order(v, a, Constant("1")) == 0
  {
    OneReads();
    CompareWithConstant(v, a, Mod);
    CompareWithConstant(v, a, Constant("1"));
  }

  /** A tristate equals no two constants of which one, other than y, m and n, is text and
      not a number. */
  lemma TextualConstantsDiffer(v: Valuation, a: Sym, b: Sym, c: Sym)
    requires Sound(v) && a.Type() == Tri && b.Const() && c.Const() && b != c
    requires forall x :: x in [b, c] && x.Constant? ==> ParseValue(x.name, Unknown).PText?
    ensures !(Order(v, a, b) == 0 && Order(v, a, c) == 0)
  {
    CompareWithConstant(v, a, b);
    CompareWithConstant(v, a, c);
  }
}
