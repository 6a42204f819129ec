/** What joining and deduplicating promise: the value, and that no redundancy is left. */
module ExprDupsProofs {
  import opened Expr
  import opened ExprEq
  import opened ExprEqProofs
  import opened ExprLevel
  import opened ExprDups

  // ----- Joins -----

  /** What a comparison of a symbol that is y, m or n comes to. */
  lemma BuiltinCompare(v: Valuation, e: Expr)
    requires Sound(v) && e.Compare? && (e.rel == Eq || e.rel == Ne)
    requires e.lsym.Logical() && e.rsym.BuiltIn()
    ensures Value(v, e) == FromBool((v.tri(e.lsym) == v.tri(e.rsym)) == (e.rel == Eq))
  {
    CompareWithBuiltin(v, e.lsym, e.rsym);
  }

  lemma JoinOrSound(v: Valuation, e1: Expr, e2: Expr)
    requires Sound(v) && JoinOr(e1, e2).Some?
    ensures Value(v, JoinOr(e1, e2).value) == Max(Value(v, e1), Value(v, e2))
  {
    if Equal(e1, e2) {
      EqualSound(v, e1, e2);
    } else {
      var s := CommonSubject(e1, e2).value;
      if s.Type() == Tri {
        JoinOrTri(v, e1, e2, s);
      } else {
        JoinOrBoolean(v, e1, e2, s);
      }
    }
  }

  /** The rules for a tristate symbol: two values out of three. */
  lemma JoinOrTri(v: Valuation, e1: Expr, e2: Expr, s: Sym)
    requires Sound(v) && !Equal(e1, e2) && CommonSubject(e1, e2) == Some(s) && s.Type() == Tri
    requires JoinOr(e1, e2).Some?
    ensures Value(v, JoinOr(e1, e2).value) == Max(Value(v, e1), Value(v, e2))
  {
    hide Equal, Order;
    BuiltinCompare(v, e1);
    BuiltinCompare(v, e2);
    BuiltinCompare(v, JoinOr(e1, e2).value);
  }

  /** The rule for a boolean: it is on or it is not. */
  lemma JoinOrBoolean(v: Valuation, e1: Expr, e2: Expr, s: Sym)
    requires Sound(v) && !Equal(e1, e2) && CommonSubject(e1, e2) == Some(s) && s.Type() == Boolean
    requires JoinOr(e1, e2).Some?
    ensures Value(v, JoinOr(e1, e2).value) == Max(Value(v, e1), Value(v, e2))
  {
    hide Equal, Order;
  }

  /** The join of (a='b') with (a!='c') for different constants that both equal `a`. */
  ghost predicate Coincide(v: Valuation, e1: Expr, e2: Expr) {
    && e1.Compare? && e2.Compare? && e1.lsym == e2.lsym && e1.lsym.Type() == Tri
    && ((e1.rel == Eq && e2.rel == Ne) || (e1.rel == Ne && e2.rel == Eq))
    && e1.rsym.Const() && e2.rsym.Const() && e1.rsym != e2.rsym
    && Order(v, e1.lsym, e1.rsym) == 0 && Order(v, e1.lsym, e2.rsym) == 0
  }

  /** expr_join_and keeps the value exactly when it does not take two constants apart
      that the symbol equals both. */
  lemma JoinAndSound(v: Valuation, e1: Expr, e2: Expr)
    requires Sound(v) && JoinAnd(e1, e2).Some?
    ensures Value(v, JoinAnd(e1, e2).value) == Min(Value(v, e1), Value(v, e2)) <==> !Coincide(v, e1, e2)
  {
    hide Order;
    if Equal(e1, e2) {
      EqualSound(v, e1, e2);
    } else if e1.Compare? && e2.Compare? && e1.rel != e2.rel {
      JoinAndConstants(v, e1, e2);
    } else if e1.Compare? && e2.Compare? {
      JoinAndUnequal(v, e1, e2);
    } else {
      JoinAndSymbol(v, e1, e2);
    }
  }

  /** (a='b') && (a!='c'). */
  lemma JoinAndConstants(v: Valuation, e1: Expr, e2: Expr)
    requires Sound(v) && JoinAnd(e1, e2).Some? && !Equal(e1, e2)
    requires e1.Compare? && e2.Compare? && e1.rel != e2.rel
    ensures Value(v, JoinAnd(e1, e2).value) == Min(Value(v, e1), Value(v, e2)) <==> !Coincide(v, e1, e2)
  {
    hide Equal, Order;
  }

  /** (a!='b') && (a!='c') for two of y, m and n. */
  lemma JoinAndUnequal(v: Valuation, e1: Expr, e2: Expr)
    requires Sound(v) && JoinAnd(e1, e2).Some? && !Equal(e1, e2)
    requires e1.Compare? && e2.Compare? && e1.rel == e2.rel
    ensures Value(v, JoinAnd(e1, e2).value) == Min(Value(v, e1), Value(v, e2))
  {
    hide Equal, Order;
    BuiltinCompare(v, e1);
    BuiltinCompare(v, e2);
    BuiltinCompare(v, JoinAnd(e1, e2).value);
  }

  /** (a) && (a='b') or (a!='b'). */
  lemma JoinAndSymbol(v: Valuation, e1: Expr, e2: Expr)
    requires Sound(v) && JoinAnd(e1, e2).Some? && !Equal(e1, e2) && !(e1.Compare? && e2.Compare?)
    ensures Value(v, JoinAnd(e1, e2).value) == Min(Value(v, e1), Value(v, e2))
  {
    hide Equal, Order;
    var t := JoinAnd(e1, e2).value;
    if e1.Compare? { BuiltinCompare(v, e1); }
    if e2.Compare? { BuiltinCompare(v, e2); }
    if t.Compare? { BuiltinCompare(v, t); }
  }

  /** A concrete failure: a=m && a!="1" becomes a=m, which is y when a is m; the original is n. */
  lemma JoinAndCounterexample(a: Sym) returns (v: Valuation)
    requires a.Type() == Tri
    ensures var one := Constant("1");
            && Sound(v) && JoinAnd(Compare(Eq, a, Mod), Compare(Ne, a, one)) == Some(Compare(Eq, a, Mod))
            && Value(v, Bin(And, Compare(Eq, a, Mod), Compare(Ne, a, one))) == NO
            && Value(v, Compare(Eq, a, Mod)) == YES
  {
    hide Order;
    v := SoundExists(a, MOD, a, MOD);
    ConstantsMayCoincide(v, a);
    assert Value(v, Compare(Eq, a, Mod)) == YES && Value(v, Compare(Ne, a, Constant("1"))) == NO;
  }

  /** No tristate equals a constant, other than y, m and n, that `e` tests it against. */
  predicate Apart(v: Valuation, e: Expr) {
    match e
    case Symbol(_) => true
    case Compare(rel, a, c) => (rel == Eq || rel == Ne) && a.Type() == Tri && c.Constant? ==> Order(v, a, c) != 0
    case Not(a) => Apart(v, a)
    case Bin(_, a, b) => Apart(v, a) && Apart(v, b)
  }

  predicate AllApart(v: Valuation, ls: seq<Expr>) {
    forall k :: 0 <= k < |ls| ==> Apart(v, ls[k])
  }

  lemma ApartNeverCoincide(v: Valuation, e1: Expr, e2: Expr)
    requires Sound(v) && Apart(v, e1) && Apart(v, e2)
    ensures !Coincide(v, e1, e2)
  {
    hide Order;
    if Coincide(v, e1, e2) {
      CompareWithBuiltin(v, e1.lsym, e1.rsym);
      CompareWithBuiltin(v, e1.lsym, e2.rsym);
    }
  }

  /** A join tests nothing new but y, m and n. */
  lemma JoinApart(v: Valuation, op: Op, e1: Expr, e2: Expr)
    requires Apart(v, e1) && Apart(v, e2) && Join(op, e1, e2).Some?
    ensures Apart(v, Join(op, e1, e2).value)
  {
    hide Order, Equal;
  }

  lemma JoinSound(v: Valuation, op: Op, e1: Expr, e2: Expr)
    requires Sound(v) && Apart(v, e1) && Apart(v, e2) && Join(op, e1, e2).Some?
    ensures Value(v, Join(op, e1, e2).value) == Apply(op, Value(v, e1), Value(v, e2))
    ensures Apart(v, Join(op, e1, e2).value)
  {
    hide Order, Apart, Equal, Coincide;
    JoinApart(v, op, e1, e2);
    if op == Or {
      JoinOrSound(v, e1, e2);
    } else {
      ApartNeverCoincide(v, e1, e2);
      JoinAndSound(v, e1, e2);
    }
  }

  // ----- Value of a pass -----

  lemma {:induction false} ValuesUpdate(v: Valuation, op: Op, ls: seq<Expr>, i: nat, x: Expr)
    requires i < |ls| && Value(v, x) == Value(v, ls[i])
    ensures Values(v, op, ls[i := x]) == Values(v, op, ls)
  {
    if i == 0 {
      assert ls[0 := x][1..] == ls[1..];
    } else {
      ValuesUpdate(v, op, ls[1..], i - 1, x);
      assert ls[i := x][1..] == ls[1..][i - 1 := x];
    }
  }

  /** Taking operand i out of a list leaves its value apart. */
  lemma {:induction false} ValuesTakeOut(v: Valuation, op: Op, ls: seq<Expr>, i: nat)
    requires Sound(v) && i < |ls|
    ensures Values(v, op, ls) == Apply(op, Value(v, ls[i]), Values(v, op, ls[i := Symbol(Unit(op))]))
  {
    var u := Symbol(Unit(op));
    if i == 0 {
      assert ls[0 := u][1..] == ls[1..];
      UnitAndZero(v, op, Values(v, op, ls[1..]));
    } else {
      ValuesTakeOut(v, op, ls[1..], i - 1);
      assert ls[i := u][1..] == ls[1..][i - 1 := u];
      var rest := Values(v, op, ls[1..][i - 1 := u]);
      ApplySwap(op, Value(v, ls[0]), Value(v, ls[i]), rest);
    }
  }

  lemma ApplySwap(op: Op, a: Tristate, b: Tristate, c: Tristate)
    ensures Apply(op, a, Apply(op, b, c)) == Apply(op, b, Apply(op, a, c))
  {
  }

  lemma ValuesMerge(v: Valuation, op: Op, ls: seq<Expr>, i: nat, j: nat, t: Expr)
    requires Sound(v) && i < |ls| && j < |ls| && i != j
    requires Value(v, t) == Apply(op, Value(v, ls[i]), Value(v, ls[j]))
    ensures Values(v, op, ls[i := Symbol(Unit(op))][j := t]) == Values(v, op, ls)
  {
    var u := Symbol(Unit(op));
    var taken := ls[i := u];
    ValuesTakeOut(v, op, ls, i);
    ValuesTakeOut(v, op, taken, j);
    ValuesTakeOut(v, op, taken[j := t], j);
    assert taken[j := t][j := u] == taken[j := u];
    ApplyAssociative(op, Value(v, ls[i]), Value(v, ls[j]), Values(v, op, taken[j := u]));
  }

  lemma {:induction false} PassLeafValue(v: Valuation, op: Op, ls: seq<Expr>, i: nat, j: nat)
    requires Sound(v) && AllApart(v, ls) && i < |ls| && j < |ls|
    ensures Values(v, op, PassLeaf(op, ls, i, j).0) == Values(v, op, ls)
    ensures AllApart(v, PassLeaf(op, ls, i, j).0)
    decreases Sizes(ls), 0
  {
    hide Values, Join, PassLevel, Sound, Sizes;
    if i != j {
      SizesPair(ls, i, j);
      var (x, n) := if ls[i].Bin? then PassLevel(ls[i].op, ls[i]) else (ls[i], 0);
      if ls[i].Bin? {
        PassLevelValue(v, ls[i].op, ls[i]);
      }
      ValuesUpdate(v, op, ls, i, x);
      if Join(op, x, ls[j]).Some? {
        var t := Join(op, x, ls[j]).value;
        JoinSound(v, op, x, ls[j]);
        ValuesMerge(v, op, ls[i := x], i, j, t);
        assert ls[i := x][i := Symbol(Unit(op))] == ls[i := Symbol(Unit(op))];
      }
    }
  }

  lemma {:induction false} PassRowValue(v: Valuation, op: Op, ls: seq<Expr>, i: nat, j: nat)
    requires Sound(v) && AllApart(v, ls) && i < |ls| && j <= |ls|
    ensures Values(v, op, PassRow(op, ls, i, j).0) == Values(v, op, ls)
    ensures AllApart(v, PassRow(op, ls, i, j).0)
    decreases Sizes(ls), 1, |ls| - j
  {
    hide Values, Sound, AllApart, PassLeaf;
    if j < |ls| {
      PassLeafValue(v, op, ls, i, j);
      PassRowValue(v, op, PassLeaf(op, ls, i, j).0, i, j + 1);
    }
  }

  lemma {:induction false} PassRowsValue(v: Valuation, op: Op, ls: seq<Expr>, i: nat)
    requires Sound(v) && AllApart(v, ls) && i <= |ls|
    ensures Values(v, op, PassRows(op, ls, i).0) == Values(v, op, ls)
    ensures AllApart(v, PassRows(op, ls, i).0)
    decreases Sizes(ls), 2, |ls| - i
  {
    hide Values, Sound, AllApart, PassRow;
    if i < |ls| {
      PassRowValue(v, op, ls, i, 0);
      PassRowsValue(v, op, PassRow(op, ls, i, 0).0, i + 1);
    }
  }

  lemma {:induction false} ApartLevel(v: Valuation, op: Op, e: Expr, ls: seq<Expr>)
    requires |ls| == |Leaves(op, e)|
    ensures Apart(v, Rebuild(op, e, ls)) <==> AllApart(v, ls)
  {
    hide Order;
    if IsOp(e, op) {
      var n := |Leaves(op, e.left)|;
      ApartLevel(v, op, e.left, ls[..n]);
      ApartLevel(v, op, e.right, ls[n..]);
      assert ls == ls[..n] + ls[n..];
      assert AllApart(v, ls[..n]) && AllApart(v, ls[n..]) ==> AllApart(v, ls);
    } else {
      assert ls == [ls[0]];
    }
  }

  lemma {:induction false} PassLevelValue(v: Valuation, op: Op, e: Expr)
    requires Sound(v) && Apart(v, e)
    ensures Value(v, PassLevel(op, e).0) == Value(v, e) && Apart(v, PassLevel(op, e).0)
    decreases Size(e), 3
  {
    hide Sound, Apart, AllApart;
    LevelSizes(op, e);
    var ls := Leaves(op, e);
    RebuildSame(op, e);
    ApartLevel(v, op, e, ls);
    PassRowsValue(v, op, ls, 0);
    var ms := PassRows(op, ls, 0).0;
    ApartLevel(v, op, e, ms);
    RebuildValue(v, op, e, ms);
    RebuildValue(v, op, e, ls);
  }

  lemma {:induction false} EliminateYnApart(v: Valuation, e: Expr)
    requires Apart(v, e)
    ensures Apart(v, EliminateYn(e))
  {
    hide Order;
    if e.Bin? {
      EliminateYnApart(v, e.left);
      EliminateYnApart(v, e.right);
    }
  }

  /** Deduplication keeps the value, ... */
  lemma {:induction false} EliminateDupsSound(v: Valuation, e: Expr)
    requires Sound(v) && Apart(v, e)
    ensures Value(v, EliminateDups(e)) == Value(v, e) && Apart(v, EliminateDups(e))
    decreases Size(e)
  {
    hide Apart, Sound;
    if e.Bin? {
      var (pass, n) := PassLevel(e.op, e);
      PassLevelValue(v, e.op, e);
      if n > 0 {
        PassShrinks(e);
        EliminateYnSound(v, pass);
        EliminateYnApart(v, pass);
        EliminateDupsSound(v, EliminateYn(pass));
      }
    }
  }

  /** The constants other than y, m and n that `e` tests tristates against. */
  predicate Uses(e: Expr, names: set<ConstName>) {
    match e
    case Symbol(_) => true
    case Compare(rel, a, c) => (rel == Eq || rel == Ne) && a.Type() == Tri && c.Constant? ==> c.name in names
    case Not(a) => Uses(a, names)
    case Bin(_, a, b) => Uses(a, names) && Uses(b, names)
  }

  lemma {:induction false} UsesApart(v: Valuation, e: Expr, names: set<ConstName>)
    requires Sound(v) && Uses(e, names)
    requires forall name :: name in names ==> ReadsAs(Constant(name)) == None
    ensures Apart(v, e)
  {
    hide Order, ReadsAs, Sound;
    match e {
      case Symbol(_) =>
      case Compare(rel, a, c) =>
        if (rel == Eq || rel == Ne) && a.Type() == Tri && c.Constant? {
          CompareWithConstant(v, a, c);
        }
      case Not(a) => UsesApart(v, a, names);
      case Bin(_, a, b) => UsesApart(v, a, names); UsesApart(v, b, names);
    }
  }

  /** The built-in constant of a value. */
  function Named(t: Tristate): (s: Sym)
    ensures s.BuiltIn()
  {
    if t == NO then No else if t == MOD then Mod else Yes
  }

  /** a="1" && a!=m, and the like. */
  function Contradiction(a: Sym, c: Sym, t: Tristate): Expr {
    Bin(And, Compare(Eq, a, c), Compare(Ne, a, Named(t)))
  }

  lemma ContradictionJoined(a: Sym, c: Sym, t: Tristate)
    requires a.Type() == Tri && c.Constant?
    ensures EliminateDups(Contradiction(a, c, t)) == Compare(Eq, a, c)
  {
    var e := Contradiction(a, c, t);
    var x, y, u := e.left, e.right, Symbol(Yes);
    var ls, done := [x, y], [u, x];
    assert Leaves(And, e) == ls by { assert Leaves(And, x) == [x] && Leaves(And, y) == [y]; }
    assert !Equal(x, y) && JoinAnd(x, y) == Some(x);
    assert PassLeaf(And, ls, 0, 1) == (done, 1) by { assert ls[0 := u][1 := x] == done; }
    OneJoin(ls, done);
    assert JoinAnd(x, u) == None;
    assert PassLeaf(And, done, 1, 0) == (done, 0) by { assert done[1 := x] == done; }
    NoJoin(done);
    assert PassRows(And, ls, 0) == (done, 1);
    assert Rebuild(And, e, done) == Bin(And, u, x) by { assert done[..1] == [u] && done[1..] == [x]; }
    assert PassLevel(And, e) == (Bin(And, u, x), 1);
    PassShrinks(e);
    assert EliminateYn(Bin(And, u, x)) == x;
  }

  lemma RowStep(op: Op, ls: seq<Expr>, i: nat, j: nat)
    requires i < |ls| && j < |ls|
    ensures var (ls1, n1) := PassLeaf(op, ls, i, j);
            var (ls2, n2) := PassRow(op, ls1, i, j + 1);
            PassRow(op, ls, i, j) == (ls2, n1 + n2)
    ensures PassLeaf(op, ls, i, i) == (ls, 0) && PassRow(op, ls, i, |ls|) == (ls, 0)
  {
  }

  lemma OneJoin(ls: seq<Expr>, done: seq<Expr>)
    requires |ls| == |done| == 2 && PassLeaf(And, ls, 0, 1) == (done, 1)
    ensures PassRow(And, ls, 0, 0) == (done, 1)
  {
    hide PassRow, PassLeaf, Sizes;
    RowStep(And, done, 0, 1);
    RowStep(And, ls, 0, 1);
    RowStep(And, ls, 0, 0);
  }

  lemma NoJoin(done: seq<Expr>)
    requires |done| == 2 && PassLeaf(And, done, 1, 0) == (done, 0)
    ensures PassRows(And, done, 1) == (done, 0)
  {
    hide PassRow, PassLeaf;
    RowStep(And, done, 1, 1);
    RowStep(And, done, 1, 0);
    assert PassRows(And, done, 2) == (done, 0);
  }

  /** ... and this is the exact condition on the constants in use: none reads as a number
      of 0, 1 or 2. */
  lemma EliminateDupsExact(names: set<ConstName>)
    ensures (forall v, e :: Sound(v) && Uses(e, names) ==> Value(v, EliminateDups(e)) == Value(v, e))
            <==> (forall name :: name in names ==> ReadsAs(Constant(name)) == None)
  {
    hide Order, ReadsAs, Sound, EliminateDups;
    if forall name :: name in names ==> ReadsAs(Constant(name)) == None {
      forall v, e | Sound(v) && Uses(e, names) ensures Value(v, EliminateDups(e)) == Value(v, e) {
        UsesApart(v, e, names);
        EliminateDupsSound(v, e);
      }
    } else {
      var name :| name in names && ReadsAs(Constant(name)) != None;
      var a, c, t := Declared(0, Tri), Constant(name), ReadsAs(Constant(name)).value;
      var e := Contradiction(a, c, t);
      var v := SoundExists(a, t, a, t);
      CompareWithConstant(v, a, c);
      CompareWithBuiltin(v, a, Named(t));
      ContradictionJoined(a, c, t);
      NamedMeans(v, t);
      assert Value(v, e.left) == YES && Value(v, e.right) == NO;
      assert Uses(e, names) && Value(v, EliminateDups(e)) != Value(v, e);
    }
  }

  lemma NamedMeans(v: Valuation, t: Tristate)
    requires Sound(v)
    ensures v.tri(Named(t)) == t
  {
  }

  // ----- What is left has no redundancy -----

  /** No two operands of a level can be joined, at any level. */
  predicate Irreducible(e: Expr)
    decreases Size(e), 1
  {
    !e.Bin? || IrreducibleList(e.op, e, Leaves(e.op, e))
  }

  predicate IrreducibleList(op: Op, e: Expr, ls: seq<Expr>)
    requires IsOp(e, op) && ls == Leaves(op, e)
    decreases Size(e), 0
  {
    LeavesAreSmaller(op, e);
    && (forall i, j :: 0 <= i < |ls| && 0 <= j < |ls| && i != j ==> Join(op, ls[i], ls[j]).None?)
    && (forall i :: 0 <= i < |ls| ==> Irreducible(ls[i]))
  }

  /** What a comparison that counts nothing has found out. */
  predicate Settled(op: Op, ls: seq<Expr>, i: nat, j: nat)
    requires i < |ls| && j < |ls|
  {
    i != j ==> Join(op, ls[i], ls[j]).None? && Irreducible(ls[i])
  }

  lemma {:induction false} PassLeafZero(op: Op, ls: seq<Expr>, i: nat, j: nat)
    requires i < |ls| && j < |ls|
    ensures PassLeaf(op, ls, i, j).1 == 0 <==> Settled(op, ls, i, j)
    ensures PassLeaf(op, ls, i, j).1 == 0 ==> PassLeaf(op, ls, i, j).0 == ls
    decreases Sizes(ls), 0
  {
    if i != j {
      SizesPair(ls, i, j);
      if ls[i].Bin? {
        PassLevelZero(ls[i].op, ls[i]);
      }
      assert ls[i := ls[i]] == ls;
    }
  }

  lemma {:induction false} PassRowZero(op: Op, ls: seq<Expr>, i: nat, j: nat)
    requires i < |ls| && j <= |ls|
    ensures PassRow(op, ls, i, j).1 == 0 <==> forall k :: j <= k < |ls| ==> Settled(op, ls, i, k)
    ensures PassRow(op, ls, i, j).1 == 0 ==> PassRow(op, ls, i, j).0 == ls
    decreases Sizes(ls), 1, |ls| - j
  {
    if j < |ls| {
      PassLeafZero(op, ls, i, j);
      if PassLeaf(op, ls, i, j).1 == 0 {
        PassRowZero(op, ls, i, j + 1);
      }
    }
  }

  lemma {:induction false} PassRowsZero(op: Op, ls: seq<Expr>, i: nat)
    requires i <= |ls|
    ensures PassRows(op, ls, i).1 == 0 <==>
            forall k, j :: i <= k < |ls| && 0 <= j < |ls| ==> Settled(op, ls, k, j)
    ensures PassRows(op, ls, i).1 == 0 ==> PassRows(op, ls, i).0 == ls
    decreases Sizes(ls), 2, |ls| - i
  {
    if i < |ls| {
      PassRowZero(op, ls, i, 0);
      if PassRow(op, ls, i, 0).1 == 0 {
        PassRowsZero(op, ls, i + 1);
      }
    }
  }

  /** A pass joins nothing exactly when there is nothing to join, and then changes nothing. */
  lemma {:induction false} PassLevelZero(op: Op, e: Expr)
    requires IsOp(e, op)
    ensures PassLevel(op, e).1 == 0 <==> Irreducible(e)
    ensures PassLevel(op, e).1 == 0 ==> PassLevel(op, e).0 == e
    decreases Size(e), 3
  {
    LevelSizes(op, e);
    var ls := Leaves(op, e);
    PassRowsZero(op, ls, 0);
    RebuildSame(op, e);
    if PassRows(op, ls, 0).1 == 0 {
      forall i | 0 <= i < |ls| ensures Irreducible(ls[i]) {
        assert Settled(op, ls, i, if i == 0 then 1 else 0);
      }
      forall i, j | 0 <= i < |ls| && 0 <= j < |ls| && i != j ensures Join(op, ls[i], ls[j]).None? {
        assert Settled(op, ls, i, j);
      }
      assert IrreducibleList(op, e, ls);
    }
  }

  /** On exit there is nothing left to join ... */
  lemma {:induction false} EliminateDupsIrreducible(e: Expr)
    ensures Irreducible(EliminateDups(e))
    decreases Size(e)
  {
    if e.Bin? {
      PassLevelZero(e.op, e);
      if PassLevel(e.op, e).1 > 0 {
        PassShrinks(e);
        EliminateDupsIrreducible(EliminateYn(PassLevel(e.op, e).0));
      }
    }
  }

  /** ... so no two operands of the top operator compare equal ... */
  lemma EliminateDupsNoEqual(e: Expr, i: nat, j: nat)
    requires EliminateDups(e).Bin?
    requires i < j < |Leaves(EliminateDups(e).op, EliminateDups(e))|
    ensures var r := EliminateDups(e);
            !Equal(Leaves(r.op, r)[i], Leaves(r.op, r)[j]) && !Equal(Leaves(r.op, r)[j], Leaves(r.op, r)[i])
  {
    EliminateDupsIrreducible(e);
    var r := EliminateDups(e);
    var ls := Leaves(r.op, r);
    assert Join(r.op, ls[i], ls[j]).None? && Join(r.op, ls[j], ls[i]).None?;
  }

  /** ... and a second deduplication changes nothing. */
  lemma EliminateDupsIdempotent(e: Expr)
    ensures EliminateDups(EliminateDups(e)) == EliminateDups(e)
  {
    EliminateDupsIrreducible(e);
    var r := EliminateDups(e);
    if r.Bin? {
      PassLevelZero(r.op, r);
    }
  }
}
