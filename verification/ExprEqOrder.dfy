/** Which && and || expressions expr_eq calls equal: those with the same operands, counted,
    in any order and any parentheses, recursively. */
module ExprEqOrder {
  import opened Expr
  import opened ExprEq
  import opened ExprLevel
  import opened ExprEqProofs

  // ----- Counting operands -----

  /** Among these expressions expr_eq is symmetric and transitive. */
  predicate Equivalent(all: seq<Expr>) {
    && (forall a, b :: a in all && b in all && Equal(a, b) ==> Equal(b, a))
    && (forall a, b, c :: a in all && b in all && c in all && Equal(a, b) && Equal(b, c) ==> Equal(a, c))
  }

  lemma Alike(all: seq<Expr>, l: Expr, x: Expr, y: Expr)
    requires Equivalent(all) && l in all && x in all && y in all && Equal(x, y)
    ensures Equal(l, x) <==> Equal(l, y)
  {
  }

  /** How many operands equal `l`. */
  function Occurrences(l: Expr, ls: seq<Expr>): nat {
    if ls == [] then 0 else (if Equal(l, ls[0]) then 1 else 0) + Occurrences(l, ls[1..])
  }

  /** Each operand occurs equally often on both sides. */
  predicate Agree(all: seq<Expr>, xs: seq<Expr>, ys: seq<Expr>) {
    forall l :: l in all && !IsYesNo(l) ==> Occurrences(l, xs) == Occurrences(l, ys)
  }

  /** A list whose operands other than y and n come from `all`. */
  predicate From(all: seq<Expr>, ls: seq<Expr>) {
    forall k :: 0 <= k < |ls| && !IsYesNo(ls[k]) ==> ls[k] in all
  }

  predicate AllSpent(ls: seq<Expr>) {
    forall k :: 0 <= k < |ls| ==> IsYesNo(ls[k])
  }

  lemma ConstantsEqualNothing(l: Expr, c: Expr)
    requires IsYesNo(c)
    ensures Equal(l, c) <==> l == c
  {
  }

  lemma {:induction false} OccurrencesUpdate(l: Expr, ls: seq<Expr>, i: nat, x: Expr)
    requires i < |ls|
    ensures Occurrences(l, ls[i := x]) + (if Equal(l, ls[i]) then 1 else 0)
            == Occurrences(l, ls) + (if Equal(l, x) then 1 else 0)
  {
    if i == 0 {
      assert ls[0 := x][1..] == ls[1..];
    } else {
      assert ls[i := x][1..] == ls[1..][i - 1 := x];
      OccurrencesUpdate(l, ls[1..], i - 1, x);
    }
  }

  lemma {:induction false} OccurrencesSome(l: Expr, ls: seq<Expr>, i: nat)
    requires i < |ls| && Equal(l, ls[i])
    ensures Occurrences(l, ls) > 0
  {
    if i > 0 { OccurrencesSome(l, ls[1..], i - 1); }
  }

  lemma {:induction false} OccurrencesSpent(l: Expr, ls: seq<Expr>)
    requires !IsYesNo(l) && AllSpent(ls)
    ensures Occurrences(l, ls) == 0
  {
    if ls != [] {
      ConstantsEqualNothing(l, ls[0]);
      OccurrencesSpent(l, ls[1..]);
    }
  }

  // ----- What the two nested walks leave -----

  lemma RowUnfold(op: Op, x: Expr, y: Expr, ys: seq<Expr>)
    requires !IsYesNo(x)
    ensures var u := Symbol(Unit(op));
            var row := CancelRow(op, if Equal(x, y) then u else x, ys);
            CancelRow(op, x, [y] + ys) == (row.0, [if Equal(x, y) then u else y] + row.1)
  {
    hide Equal;
    assert ([y] + ys)[0] == y && ([y] + ys)[1..] == ys;
  }

  lemma RowOfNothing(op: Op, x: Expr)
    ensures CancelRow(op, x, []) == (x, [])
  {
  }

  /** The inner walk takes the first operand equal to `x`, if there is one. */
  lemma {:induction false} RowTakes(op: Op, x: Expr, ys: seq<Expr>) returns (i: nat)
    requires !IsYesNo(x)
    ensures i <= |ys| && forall k :: 0 <= k < i ==> !Equal(x, ys[k])
    ensures i == |ys| ==> CancelRow(op, x, ys) == (x, ys)
    ensures i < |ys| ==>
              Equal(x, ys[i]) && CancelRow(op, x, ys) == (Symbol(Unit(op)), ys[i := Symbol(Unit(op))])
    decreases ys
  {
    hide CancelRow, Equal;
    var u := Symbol(Unit(op));
    i := 0;
    if ys == [] {
      RowOfNothing(op, x);
    } else {
      assert ys == [ys[0]] + ys[1..];
      RowUnfold(op, x, ys[0], ys[1..]);
      if Equal(x, ys[0]) {
        RowOfConstant(op, u, ys[1..]);
        assert ys[0 := u] == [u] + ys[1..];
      } else {
        i := RowTakes(op, x, ys[1..]);
        if i < |ys[1..]| {
          assert ys[i + 1 := u] == [ys[0]] + ys[1..][i := u];
        }
        assert forall k :: 0 < k < i + 1 ==> ys[k] == ys[1..][k - 1];
        i := i + 1;
      }
    }
  }

  /** What is left of both lists: nothing that equals anything on the other side. */
  predicate Unmatched(xs: seq<Expr>, ys: seq<Expr>) {
    forall i, j :: 0 <= i < |xs| && 0 <= j < |ys| && !IsYesNo(xs[i]) && !IsYesNo(ys[j]) ==> !Equal(xs[i], ys[j])
  }

  lemma AgreeNothing(all: seq<Expr>, ys: seq<Expr>)
    requires From(all, ys)
    ensures AllSpent(ys) <==> Agree(all, [], ys)
  {
    if AllSpent(ys) {
      forall l | l in all && !IsYesNo(l) ensures Occurrences(l, []) == Occurrences(l, ys) { OccurrencesSpent(l, ys); }
    } else {
      var k :| 0 <= k < |ys| && !IsYesNo(ys[k]);
      EqualReflexive(ys[k]);
      OccurrencesSome(ys[k], ys, k);
      assert Occurrences(ys[k], []) == 0;
    }
  }

  lemma OccurrencesFirst(l: Expr, x: Expr, xs: seq<Expr>)
    ensures Occurrences(l, [x] + xs) == (if Equal(l, x) then 1 else 0) + Occurrences(l, xs)
  {
    assert ([x] + xs)[1..] == xs;
  }

  lemma AgreeConstant(all: seq<Expr>, x: Expr, xs: seq<Expr>, ys: seq<Expr>)
    requires IsYesNo(x)
    ensures Agree(all, [x] + xs, ys) <==> Agree(all, xs, ys)
  {
    forall l | l in all && !IsYesNo(l) ensures Occurrences(l, [x] + xs) == Occurrences(l, xs) {
      OccurrencesFirst(l, x, xs);
      ConstantsEqualNothing(l, x);
    }
  }

  lemma AgreeMatched(op: Op, all: seq<Expr>, x: Expr, xs: seq<Expr>, ys: seq<Expr>, i: nat)
    requires Equivalent(all) && x in all && i < |ys| && ys[i] in all && Equal(x, ys[i])
    ensures Agree(all, [x] + xs, ys) <==> Agree(all, xs, ys[i := Symbol(Unit(op))])
  {
    hide Equivalent;
    var u := Symbol(Unit(op));
    forall l | l in all && !IsYesNo(l)
      ensures Occurrences(l, [x] + xs) - Occurrences(l, xs) == Occurrences(l, ys) - Occurrences(l, ys[i := u])
    {
      OccurrencesFirst(l, x, xs);
      OccurrencesUpdate(l, ys, i, u);
      ConstantsEqualNothing(l, u);
      Alike(all, l, x, ys[i]);
    }
  }

  lemma {:induction false} OccurrencesNone(l: Expr, ls: seq<Expr>)
    requires forall k :: 0 <= k < |ls| ==> !Equal(l, ls[k])
    ensures Occurrences(l, ls) == 0
  {
    if ls != [] { OccurrencesNone(l, ls[1..]); }
  }

  lemma AgreeUnmatched(all: seq<Expr>, x: Expr, xs: seq<Expr>, ys: seq<Expr>)
    requires x in all && !IsYesNo(x) && forall k :: 0 <= k < |ys| ==> !Equal(x, ys[k])
    ensures !Agree(all, [x] + xs, ys)
  {
    OccurrencesFirst(x, x, xs);
    EqualReflexive(x);
    OccurrencesNone(x, ys);
  }

  /** The operands that were there, or the unit. */
  predicate Within(op: Op, after: seq<Expr>, before: seq<Expr>) {
    |after| == |before| && forall k :: 0 <= k < |after| ==> after[k] == before[k] || (after[k] == Symbol(Unit(op)) && !IsYesNo(before[k]))
  }

  /** Both lists are spent exactly when they agree; what is left on one side equals nothing
      on the other; and constants stay as they were. */
  lemma {:induction false} RowsCount(op: Op, all: seq<Expr>, xs: seq<Expr>, ys: seq<Expr>)
    requires Equivalent(all) && From(all, xs) && From(all, ys)
    ensures var (xs', ys') := CancelRows(op, xs, ys);
            && Within(op, xs', xs) && Within(op, ys', ys) && Unmatched(xs', ys')
            && (AllSpent(xs') && AllSpent(ys') <==> Agree(all, xs, ys))
    decreases xs
  {
    hide Equivalent, CancelRow, Equal, Agree;
    var u := Symbol(Unit(op));
    if xs == [] {
      AgreeNothing(all, ys);
    } else {
      var x, rest := xs[0], xs[1..];
      assert xs == [x] + rest;
      if IsYesNo(x) {
        RowOfConstant(op, x, ys);
        AgreeConstant(all, x, rest, ys);
        RowsCount(op, all, rest, ys);
      } else {
        var i := RowTakes(op, x, ys);
        if i < |ys| {
          assert !IsYesNo(ys[i]) by { if IsYesNo(ys[i]) { ConstantsEqualNothing(x, ys[i]); } }
          AgreeMatched(op, all, x, rest, ys, i);
          RowsCount(op, all, rest, ys[i := u]);
        } else {
          AgreeUnmatched(all, x, rest, ys);
          RowsCount(op, all, rest, ys);
        }
      }
    }
  }

  // ----- The same operands in any order -----

  lemma {:induction false} ConstantsCollapseTo(op: Op, e: Expr, ls: seq<Expr>)
    requires |ls| == |Leaves(op, e)| && forall l :: l in ls ==> IsYesNo(l)
    ensures EliminateYn(Rebuild(op, e, ls)) == Symbol(if Symbol(Zero(op)) in ls then Zero(op) else Unit(op))
  {
    if IsOp(e, op) {
      var n := |Leaves(op, e.left)|;
      assert ls == ls[..n] + ls[n..];
      ConstantsCollapseTo(op, e.left, ls[..n]);
      ConstantsCollapseTo(op, e.right, ls[n..]);
      var l, r := Rebuild(op, e.left, ls[..n]), Rebuild(op, e.right, ls[n..]);
      assert EliminateYn(Bin(op, l, r)) == Combine(op, EliminateYn(l), EliminateYn(r));
    } else {
      assert ls == [ls[0]] && ls[0] in ls;
    }
  }

  lemma BothCollapse(op: Op, e1: Expr, e2: Expr)
    requires IsOp(e1, op) && IsOp(e2, op)
    requires var (r1, r2) := Cancel(op, e1, e2);
             EliminateYn(r1) == EliminateYn(r2) && EliminateYn(r1).Symbol?
    ensures Equal(e1, e2)
  {
    assert EliminateEq(e1, e2) == (EliminateYn(Cancel(op, e1, e2).0), EliminateYn(Cancel(op, e1, e2).1));
  }

  lemma {:induction false} OccurrencesWithout(l: Expr, ls: seq<Expr>, i: nat)
    requires i < |ls|
    ensures Occurrences(l, ls) == (if Equal(l, ls[i]) then 1 else 0) + Occurrences(l, ls[..i] + ls[i + 1..])
  {
    if i == 0 {
      assert ls[..0] + ls[1..] == ls[1..];
    } else {
      OccurrencesWithout(l, ls[1..], i - 1);
      assert ls[1..][..i - 1] + ls[1..][i..] == (ls[..i] + ls[i + 1..])[1..];
    }
  }

  lemma MultisetWithout(ys: seq<Expr>, i: nat)
    requires i < |ys|
    ensures multiset(ys) == multiset{ys[i]} + multiset(ys[..i] + ys[i + 1..])
  {
    assert ys == ys[..i] + [ys[i]] + ys[i + 1..];
    assert multiset(ys[..i] + ys[i + 1..]) == multiset(ys[..i]) + multiset(ys[i + 1..]);
  }

  lemma MultisetMatch(xs: seq<Expr>, ys: seq<Expr>, i: nat)
    requires multiset(xs) == multiset(ys) && xs != [] && i < |ys| && ys[i] == xs[0]
    ensures multiset(xs[1..]) == multiset(ys[..i] + ys[i + 1..])
  {
    MultisetWithout(ys, i);
    MultisetWithout(xs, 0);
    assert xs[..0] + xs[1..] == xs[1..];
    MultisetCancel(xs[0], multiset(xs[1..]), multiset(ys[..i] + ys[i + 1..]));
  }

  lemma MultisetCancel<T>(x: T, a: multiset<T>, b: multiset<T>)
    requires multiset{x} + a == multiset{x} + b
    ensures a == b
  {
    assert a == (multiset{x} + a) - multiset{x};
    assert b == (multiset{x} + b) - multiset{x};
  }

  lemma {:induction false} OccurrencesPermuted(l: Expr, xs: seq<Expr>, ys: seq<Expr>)
    requires multiset(xs) == multiset(ys)
    ensures Occurrences(l, xs) == Occurrences(l, ys)
    decreases xs
  {
    hide Equal;
    if xs == [] {
      assert |multiset(ys)| == 0 && ys == [];
    } else {
      assert xs[0] in multiset(xs);
      var i :| 0 <= i < |ys| && ys[i] == xs[0];
      MultisetMatch(xs, ys, i);
      OccurrencesWithout(l, ys, i);
      OccurrencesPermuted(l, xs[1..], ys[..i] + ys[i + 1..]);
    }
  }

  lemma SpentKeepsZero(op: Op, after: seq<Expr>, before: seq<Expr>)
    requires Within(op, after, before) && AllSpent(after)
    ensures Symbol(Zero(op)) in after <==> Symbol(Zero(op)) in before
  {
    var z := Symbol(Zero(op));
    if z in before { var k :| 0 <= k < |before| && before[k] == z; assert after[k] == z; }
  }

  /** Expressions with the same operands in another order, or otherwise parenthesized,
      compare equal, if comparing the operands is symmetric and transitive. */
  lemma EqualUpToOrder(op: Op, e1: Expr, e2: Expr)
    requires IsOp(e1, op) && IsOp(e2, op) && multiset(Leaves(op, e1)) == multiset(Leaves(op, e2))
    requires Equivalent(Leaves(op, e1))
    ensures Equal(e1, e2)
  {
    hide Equivalent, Equal;
    var xs, ys := Leaves(op, e1), Leaves(op, e2);
    forall l ensures l in xs <==> l in ys { assert l in multiset(xs) <==> l in multiset(ys); }
    forall l | l in xs ensures Occurrences(l, xs) == Occurrences(l, ys) { OccurrencesPermuted(l, xs, ys); }
    RowsCount(op, xs, xs, ys);
    var (xs', ys') := CancelRows(op, xs, ys);
    SpentKeepsZero(op, xs', xs);
    SpentKeepsZero(op, ys', ys);
    CancelIsRows(op, e1, e2);
    ConstantsCollapseTo(op, e1, xs');
    ConstantsCollapseTo(op, e2, ys');
    BothCollapse(op, e1, e2);
  }

  // ----- Without constants -----

  /** No operand of a && or || is y or n, also below negations. */
  predicate NoConstants(e: Expr) {
    match e
    case Symbol(_) => true
    case Compare(_, _, _) => true
    case Not(a) => NoConstants(a)
    case Bin(_, a, b) => !IsYesNo(a) && !IsYesNo(b) && NoConstants(a) && NoConstants(b)
  }

  lemma {:induction false} NoConstantsYnFree(e: Expr)
    requires NoConstants(e)
    ensures YnFree(e) && EliminateYn(e) == e
  {
    if e.Bin? {
      NoConstantsYnFree(e.left);
      NoConstantsYnFree(e.right);
    }
  }

  lemma {:induction false} NoConstantsLeaves(op: Op, e: Expr)
    requires NoConstants(e) && !IsYesNo(e)
    ensures forall l :: l in Leaves(op, e) ==> NoConstants(l) && !IsYesNo(l) && !IsOp(l, op)
  {
    if IsOp(e, op) {
      NoConstantsLeaves(op, e.left);
      NoConstantsLeaves(op, e.right);
    }
  }

  /** A level of units and operands without constants comes down to a symbol only if at most
      one operand is left, which is that symbol. */
  lemma {:induction false} LevelComesDown(op: Op, e: Expr, ls: seq<Expr>)
    requires |ls| == |Leaves(op, e)|
    requires forall k :: 0 <= k < |ls| ==> ls[k] == Symbol(Unit(op)) || (NoConstants(ls[k]) && !IsYesNo(ls[k]))
    ensures var r := EliminateYn(Rebuild(op, e, ls));
            && !(r == Symbol(Zero(op)))
            && (r == Symbol(Unit(op)) <==> AllSpent(ls))
            && (r.Symbol? && !AllSpent(ls) ==> r in ls)
  {
    if IsOp(e, op) {
      var n := |Leaves(op, e.left)|;
      var a, b := ls[..n], ls[n..];
      assert ls == a + b;
      LevelComesDown(op, e.left, a);
      LevelComesDown(op, e.right, b);
      var l, r := Rebuild(op, e.left, a), Rebuild(op, e.right, b);
      assert EliminateYn(Bin(op, l, r)) == Combine(op, EliminateYn(l), EliminateYn(r));
      assert AllSpent(ls) <==> AllSpent(a) && AllSpent(b);
    } else {
      assert ls == [ls[0]];
      if ls[0] != Symbol(Unit(op)) { NoConstantsYnFree(ls[0]); }
    }
  }

  /** What is left of both sides comes to the same symbol only if nothing is left. */
  lemma SameResidue(op: Op, e1: Expr, e2: Expr, xs: seq<Expr>, ys: seq<Expr>)
    requires |xs| == |Leaves(op, e1)| && |ys| == |Leaves(op, e2)| && Unmatched(xs, ys)
    requires forall k :: 0 <= k < |xs| ==> xs[k] == Symbol(Unit(op)) || (NoConstants(xs[k]) && !IsYesNo(xs[k]))
    requires forall k :: 0 <= k < |ys| ==> ys[k] == Symbol(Unit(op)) || (NoConstants(ys[k]) && !IsYesNo(ys[k]))
    ensures var r1, r2 := EliminateYn(Rebuild(op, e1, xs)), EliminateYn(Rebuild(op, e2, ys));
            r1.Symbol? && r2.Symbol? && r1.sym == r2.sym <==> AllSpent(xs) && AllSpent(ys)
  {
    LevelComesDown(op, e1, xs);
    LevelComesDown(op, e2, ys);
    var r1, r2 := EliminateYn(Rebuild(op, e1, xs)), EliminateYn(Rebuild(op, e2, ys));
    EqualReflexive(r1);
  }

  lemma EqualOfLevel(op: Op, e1: Expr, e2: Expr)
    requires IsOp(e1, op) && IsOp(e2, op)
    ensures var (c1, c2) := Cancel(op, e1, e2);
            var (r1, r2) := (EliminateYn(c1), EliminateYn(c2));
            Equal(e1, e2) <==> r1.Symbol? && r2.Symbol? && r1.sym == r2.sym
  {
  }

  /** Where comparing operands is symmetric and transitive, comparing the level is counting. */
  lemma EqualCounts(op: Op, e1: Expr, e2: Expr, all: seq<Expr>)
    requires IsOp(e1, op) && IsOp(e2, op) && NoConstants(e1) && NoConstants(e2)
    requires Equivalent(all) && From(all, Leaves(op, e1)) && From(all, Leaves(op, e2))
    ensures Equal(e1, e2) <==> Agree(all, Leaves(op, e1), Leaves(op, e2))
  {
    hide Equivalent, Equal, Agree, From, CancelRows, Leaves, Cancel;
    var xs, ys := Leaves(op, e1), Leaves(op, e2);
    NoConstantsLeaves(op, e1);
    NoConstantsLeaves(op, e2);
    RowsCount(op, all, xs, ys);
    CancelIsRows(op, e1, e2);
    var (xs', ys') := CancelRows(op, xs, ys);
    SameResidue(op, e1, e2, xs', ys');
    EqualOfLevel(op, e1, e2);
  }

  // ----- expr_eq is an equivalence there -----

  predicate Small(n: nat, all: seq<Expr>) {
    forall e :: e in all ==> NoConstants(e) && Size(e) <= n
  }

  lemma SmallLeaves(op: Op, e: Expr, n: nat)
    requires IsOp(e, op) && NoConstants(e) && Size(e) <= n + 1
    ensures Small(n, Leaves(op, e))
  {
    NoConstantsLeaves(op, e);
    LeavesAreSmaller(op, e);
  }

  lemma {:induction false} EqualSymmetric(n: nat, a: Expr, b: Expr)
    requires NoConstants(a) && NoConstants(b) && Size(a) <= n && Size(b) <= n && Equal(a, b)
    ensures Equal(b, a)
    decreases n, 0
  {
    if a.Not? {
      EqualSymmetric(n - 1, a.sub, b.sub);
    } else if a.Bin? {
      var op := a.op;
      SmallLeaves(op, a, n - 1);
      SmallLeaves(op, b, n - 1);
      var xs, ys := Leaves(op, a), Leaves(op, b);
      AllEquivalent(n - 1, xs + ys);
      EqualCounts(op, a, b, xs + ys);
      EqualCounts(op, b, a, xs + ys);
    }
  }

  lemma {:induction false} EqualTransitive(n: nat, a: Expr, b: Expr, c: Expr)
    requires NoConstants(a) && NoConstants(b) && NoConstants(c) && Size(a) <= n && Size(b) <= n && Size(c) <= n
    requires Equal(a, b) && Equal(b, c)
    ensures Equal(a, c)
    decreases n, 0
  {
    if a.Not? {
      EqualTransitive(n - 1, a.sub, b.sub, c.sub);
    } else if a.Bin? {
      var op := a.op;
      SmallLeaves(op, a, n - 1);
      SmallLeaves(op, b, n - 1);
      SmallLeaves(op, c, n - 1);
      var all := Leaves(op, a) + Leaves(op, b) + Leaves(op, c);
      AllEquivalent(n - 1, all);
      EqualCounts(op, a, b, all);
      EqualCounts(op, b, c, all);
      EqualCounts(op, a, c, all);
    }
  }

  lemma {:induction false} AllEquivalent(n: nat, all: seq<Expr>)
    requires Small(n, all)
    ensures Equivalent(all)
    decreases n, 1
  {
    forall a, b | a in all && b in all && Equal(a, b) ensures Equal(b, a) { EqualSymmetric(n, a, b); }
    forall a, b, c | a in all && b in all && c in all && Equal(a, b) && Equal(b, c) ensures Equal(a, c) {
      EqualTransitive(n, a, b, c);
    }
  }

  /** Exactly when two && or two || expressions without constants compare equal: each operand
      occurs as often on one side as on the other, operands being compared the same way. */
  lemma EqualExactly(op: Op, e1: Expr, e2: Expr)
    requires IsOp(e1, op) && IsOp(e2, op) && NoConstants(e1) && NoConstants(e2)
    ensures Equal(e1, e2) <==> Agree(Leaves(op, e1) + Leaves(op, e2), Leaves(op, e1), Leaves(op, e2))
  {
    hide Equal, Agree, Equivalent;
    SmallLeaves(op, e1, Size(e1) + Size(e2));
    SmallLeaves(op, e2, Size(e1) + Size(e2));
    AllEquivalent(Size(e1) + Size(e2), Leaves(op, e1) + Leaves(op, e2));
    EqualCounts(op, e1, e2, Leaves(op, e1) + Leaves(op, e2));
  }

  // ----- What does not hold -----

  lemma CancelOver(x: Expr, a: Expr, b: Expr)
    requires x.Symbol? && a.Symbol? && b.Symbol?
    ensures var u := Symbol(Yes);
            Cancel(And, x, Bin(And, a, b)) ==
            if x == a && !IsYesNo(x) then (u, Bin(And, u, b))
            else if x == b && !IsYesNo(x) then (u, Bin(And, a, u))
            else (x, Bin(And, a, b))
  {
    var u := Symbol(Yes);
    var x' := if x == a && !IsYesNo(x) then u else x;
    assert Cancel(And, x, a) == (x', if x' == x then a else u);
    assert Cancel(And, x', b) == if x' == b && !IsYesNo(x') then (u, u) else (x', b);
  }

  /** But they are matched one to one: A && A && B and A && B have the same set of operands
      and the same value, but do not compare equal. */
  lemma RepetitionMatters(a: Sym, b: Sym)
    requires !a.BuiltIn() && !b.BuiltIn() && a != b
    ensures var x, y := Symbol(a), Symbol(b);
            var twice, once := Bin(And, Bin(And, x, x), y), Bin(And, x, y);
            && (forall l :: l in Leaves(And, twice) <==> l in Leaves(And, once))
            && (forall v: Valuation :: Value(v, twice) == Value(v, once))
            && !Equal(twice, once)
  {
    var x, y, u := Symbol(a), Symbol(b), Symbol(Yes);
    var twice, once := Bin(And, Bin(And, x, x), y), Bin(And, x, y);
    assert Leaves(And, x) == [x] && Leaves(And, y) == [y];
    assert Leaves(And, Bin(And, x, x)) == [x, x];
    assert Leaves(And, twice) == [x, x, y] && Leaves(And, once) == [x, y];
    TwiceAgainstOnce(x, y);
  }

  lemma TwiceAgainstOnce(x: Expr, y: Expr)
    requires x.Symbol? && y.Symbol? && !x.sym.BuiltIn() && !y.sym.BuiltIn() && x != y
    ensures EliminateEq(Bin(And, Bin(And, x, x), y), Bin(And, x, y)) == (x, Symbol(Yes))
  {
    var u := Symbol(Yes);
    var twice, once := Bin(And, Bin(And, x, x), y), Bin(And, x, y);
    hide Equal;
    CancelOver(x, x, y);
    CancelOver(x, u, y);
    CancelOver(y, u, y);
    assert Cancel(And, Bin(And, x, x), once) == (Bin(And, u, x), Bin(And, u, y));
    assert Cancel(And, twice, once) == (Bin(And, Bin(And, u, x), u), Bin(And, u, u));
    assert EliminateYn(u) == u && EliminateYn(x) == x;
    assert EliminateYn(Bin(And, u, x)) == x && EliminateYn(Bin(And, u, u)) == u;
    assert EliminateYn(Bin(And, Bin(And, u, x), u)) == x;
    assert EliminateEq(twice, once) == (EliminateYn(Cancel(And, twice, once).0), EliminateYn(Cancel(And, twice, once).1));
  }

  /** n || n comes to n, but is not recognized as the constant; and y && y the same way. */
  function Hidden(op: Op): Expr {
    Bin(Dual(op), Symbol(Zero(op)), Symbol(Zero(op)))
  }

  lemma CancelLeaves(op: Op, x: Expr, y: Expr)
    requires !IsOp(x, op) && !IsOp(y, op)
    ensures Cancel(op, x, y) == CancelLeaf(op, x, y)
  {
  }

  lemma CancelRight(op: Op, x: Expr, y1: Expr, y2: Expr)
    requires !IsOp(x, op)
    ensures var (x1, z1) := Cancel(op, x, y1);
            var (x2, z2) := Cancel(op, x1, y2);
            Cancel(op, x, Bin(op, y1, y2)) == (x2, Bin(op, z1, z2))
  {
  }

  lemma CancelLeft(op: Op, x1: Expr, x2: Expr, y: Expr)
    ensures var (z1, y1) := Cancel(op, x1, y);
            var (z2, y2) := Cancel(op, x2, y1);
            Cancel(op, Bin(op, x1, x2), y) == (Bin(op, z1, z2), y2)
  {
  }

  /** One operand against two. */
  lemma LeafAgainstTwo(op: Op, x: Expr, y1: Expr, y2: Expr)
    requires !IsOp(x, op) && !IsOp(y1, op) && !IsOp(y2, op)
    ensures var (x1, z1) := CancelLeaf(op, x, y1);
            var (x2, z2) := CancelLeaf(op, x1, y2);
            Cancel(op, x, Bin(op, y1, y2)) == (x2, Bin(op, z1, z2))
  {
    hide Cancel, Equal;
    CancelRight(op, x, y1, y2);
    CancelLeaves(op, x, y1);
    CancelLeaves(op, CancelLeaf(op, x, y1).0, y2);
  }

  lemma KindsDiffer(x: Expr, y: Expr)
    ensures Equal(x, y) ==> (x.Symbol? == y.Symbol?) && (x.Not? == y.Not?) && (x.Bin? == y.Bin?)
    ensures x.Symbol? && y.Symbol? ==> (Equal(x, y) <==> x == y)
  {
  }

  /** With a constant comparing is not transitive: A && (n || n), B && n and B && (n || n), and
      A || (y && y), B || y and B || (y && y) ... */
  lemma EqualNotTransitive(op: Op, a: Sym, b: Sym)
    requires !a.BuiltIn() && !b.BuiltIn() && a != b
    ensures var x, r, q := WithHidden(op, a), WithConstant(op, b), WithHidden(op, b);
            Equal(x, r) && Equal(r, q) && !Equal(x, q) && !Equal(q, x)
  {
    hide Equal, Cancel, Hidden;
    var A, B := Symbol(a), Symbol(b);
    HiddenIs(op);
    HiddenComesDown(op, A);
    HiddenComesDown(op, B);
    NothingTaken(op, A, B);
    EqualOfLevel(op, WithHidden(op, a), WithConstant(op, b));
    FirstTaken(op, B);
    EqualOfLevel(op, WithConstant(op, b), WithHidden(op, b));
    SecondTaken(op, A, B);
    EqualOfLevel(op, WithHidden(op, a), WithHidden(op, b));
    SecondTaken(op, B, A);
    EqualOfLevel(op, WithHidden(op, b), WithHidden(op, a));
  }

  function WithHidden(op: Op, a: Sym): Expr {
    Bin(op, Symbol(a), Hidden(op))
  }

  function WithConstant(op: Op, a: Sym): Expr {
    Bin(op, Symbol(a), Symbol(Zero(op)))
  }

  lemma HiddenIs(op: Op)
    ensures Hidden(op).Bin? && !IsOp(Hidden(op), op) && EliminateYn(Hidden(op)) == Symbol(Zero(op))
  {
    assert EliminateYn(Symbol(Zero(op))) == Symbol(Zero(op));
  }

  lemma HiddenComesDown(op: Op, x: Expr)
    requires x.Symbol? && !x.sym.BuiltIn()
    ensures var z, h, u := Symbol(Zero(op)), Hidden(op), Symbol(Unit(op));
            && EliminateYn(Bin(op, x, h)) == z && EliminateYn(Bin(op, x, z)) == z && EliminateYn(Bin(op, u, h)) == z
            && EliminateYn(Bin(op, u, z)) == z && EliminateYn(Bin(op, x, u)) == x
  {
    hide Hidden;
    HiddenIs(op);
    assert EliminateYn(Symbol(No)) == Symbol(No) && EliminateYn(Symbol(Yes)) == Symbol(Yes) && EliminateYn(x) == x;
  }

  lemma NothingTaken(op: Op, x: Expr, y: Expr)
    requires x.Symbol? && y.Symbol? && !x.sym.BuiltIn() && !y.sym.BuiltIn() && x != y
    ensures var e1, e2 := Bin(op, x, Hidden(op)), Bin(op, y, Symbol(Zero(op)));
            Cancel(op, e1, e2) == (e1, e2)
  {
    hide Equal, Cancel, Hidden;
    var z, h := Symbol(Zero(op)), Hidden(op);
    HiddenIs(op);
    KindsDiffer(x, y);
    KindsDiffer(x, z);
    KindsDiffer(h, y);
    KindsDiffer(h, z);
    CancelLeft(op, x, h, Bin(op, y, z));
    LeafAgainstTwo(op, x, y, z);
    LeafAgainstTwo(op, h, y, z);
  }

  lemma FirstTaken(op: Op, x: Expr)
    requires x.Symbol? && !x.sym.BuiltIn()
    ensures Cancel(op, Bin(op, x, Symbol(Zero(op))), Bin(op, x, Hidden(op)))
            == (Bin(op, Symbol(Unit(op)), Symbol(Zero(op))), Bin(op, Symbol(Unit(op)), Hidden(op)))
  {
    hide Equal, Cancel, Hidden;
    var z, h, u := Symbol(Zero(op)), Hidden(op), Symbol(Unit(op));
    HiddenIs(op);
    KindsDiffer(x, x);
    KindsDiffer(u, h);
    KindsDiffer(z, u);
    KindsDiffer(z, h);
    CancelLeft(op, x, z, Bin(op, x, h));
    LeafAgainstTwo(op, x, x, h);
    LeafAgainstTwo(op, z, u, h);
  }

  lemma SecondTaken(op: Op, x: Expr, y: Expr)
    requires x.Symbol? && y.Symbol? && !x.sym.BuiltIn() && !y.sym.BuiltIn() && x != y
    ensures Cancel(op, Bin(op, x, Hidden(op)), Bin(op, y, Hidden(op)))
            == (Bin(op, x, Symbol(Unit(op))), Bin(op, y, Symbol(Unit(op))))
  {
    hide Equal, Cancel, Hidden;
    var h := Hidden(op);
    HiddenIs(op);
    KindsDiffer(x, y);
    KindsDiffer(x, h);
    KindsDiffer(h, y);
    EqualReflexive(h);
    CancelLeft(op, x, h, Bin(op, y, h));
    LeafAgainstTwo(op, x, y, h);
    LeafAgainstTwo(op, h, y, h);
  }

  /** ... so their negations, joined by || in two orders, do not compare equal. */
  lemma OrderCanMatter(op: Op, a: Sym, b: Sym)
    requires !a.BuiltIn() && !b.BuiltIn() && a != b
    ensures var p, r, q := Not(WithHidden(op, a)), Not(WithConstant(op, b)), Not(WithHidden(op, b));
            var e1, e2 := Bin(Or, p, Bin(Or, r, q)), Bin(Or, r, Bin(Or, q, p));
            multiset(Leaves(Or, e1)) == multiset(Leaves(Or, e2)) && !Equal(e1, e2)
  {
    hide Equal, Leaves, WithHidden, WithConstant;
    EqualNotTransitive(op, a, b);
    var p, r, q := Not(WithHidden(op, a)), Not(WithConstant(op, b)), Not(WithHidden(op, b));
    LeavesOfThree(p, r, q);
    LeavesOfThree(r, q, p);
    var s1: seq<Expr>, s2: seq<Expr> := [p, r, q], [r, q, p];
    assert multiset(s1) == multiset(s2);
    EqualOfNegations(p, r);
    EqualOfNegations(r, q);
    EqualOfNegations(q, p);
    TakeInOrder(p, r, q);
  }

  lemma EqualOfNegations(x: Expr, y: Expr)
    requires x.Not? && y.Not?
    ensures Equal(x, y) <==> Equal(x.sub, y.sub)
  {
  }

  lemma LeavesOfThree(p: Expr, r: Expr, q: Expr)
    requires p.Not? && r.Not? && q.Not?
    ensures Leaves(Or, Bin(Or, p, Bin(Or, r, q))) == [p, r, q]
  {
    assert Leaves(Or, p) == [p] && Leaves(Or, r) == [r] && Leaves(Or, q) == [q];
    assert Leaves(Or, Bin(Or, r, q)) == [r, q];
  }

  /** One operand against three. */
  lemma LeafAgainstThree(op: Op, x: Expr, y1: Expr, y2: Expr, y3: Expr)
    requires !IsOp(x, op) && !IsOp(y1, op) && !IsOp(y2, op) && !IsOp(y3, op)
    ensures var (x1, z1) := CancelLeaf(op, x, y1);
            var (x2, z2) := CancelLeaf(op, x1, y2);
            var (x3, z3) := CancelLeaf(op, x2, y3);
            Cancel(op, x, Bin(op, y1, Bin(op, y2, y3))) == (x3, Bin(op, z1, Bin(op, z2, z3)))
  {
    hide Cancel, Equal;
    CancelRight(op, x, y1, Bin(op, y2, y3));
    CancelLeaves(op, x, y1);
    LeafAgainstTwo(op, CancelLeaf(op, x, y1).0, y2, y3);
  }

  lemma NegationNeverUnit(x: Expr)
    requires x.Not?
    ensures CancelLeaf(Or, x, Symbol(No)) == (x, Symbol(No)) && CancelLeaf(Or, Symbol(No), x) == (Symbol(No), x)
  {
    KindsDiffer(x, Symbol(No));
    KindsDiffer(Symbol(No), x);
  }

  lemma TakeInOrder(p: Expr, r: Expr, q: Expr)
    requires p.Not? && r.Not? && q.Not? && Equal(p, r) && Equal(r, q) && !Equal(q, p)
    ensures !Equal(Bin(Or, p, Bin(Or, r, q)), Bin(Or, r, Bin(Or, q, p)))
  {
    hide Equal, Cancel, CancelLeaf;
    var n := Symbol(No);
    var e1, e2 := Bin(Or, p, Bin(Or, r, q)), Bin(Or, r, Bin(Or, q, p));
    assert CancelLeaf(Or, p, r) == (n, n) && CancelLeaf(Or, r, q) == (n, n) && CancelLeaf(Or, q, p) == (q, p) by { LeafTaken(p, r); LeafTaken(r, q); LeafTaken(q, p); }
    NegationNeverUnit(p);
    NegationNeverUnit(r);
    NegationNeverUnit(q);
    UnitNever();
    LeafAgainstThree(Or, p, r, q, p);
    LeafAgainstThree(Or, r, n, q, p);
    LeafAgainstThree(Or, q, n, n, p);
    CancelLeft(Or, p, Bin(Or, r, q), e2);
    CancelLeft(Or, r, q, Bin(Or, n, Bin(Or, q, p)));
    assert Cancel(Or, e1, e2) == (Bin(Or, n, Bin(Or, n, q)), Bin(Or, n, Bin(Or, n, p)));
    assert EliminateYn(Bin(Or, n, q)) == q by { assert EliminateYn(q) == q; }
    EqualOfLevel(Or, e1, e2);
  }

  lemma LeafTaken(x: Expr, y: Expr)
    requires x.Not?
    ensures CancelLeaf(Or, x, y) == if Equal(x, y) then (Symbol(No), Symbol(No)) else (x, y)
  {
  }

  lemma UnitNever()
    ensures CancelLeaf(Or, Symbol(No), Symbol(No)) == (Symbol(No), Symbol(No))
  {
  }

  // ----- Exactly when it holds -----

  /** The operands of && and || that are y or n, at any level, are among `allowed`. */
  predicate ConstantsIn(e: Expr, allowed: set<Sym>) {
    match e
    case Symbol(_) => true
    case Compare(_, _, _) => true
    case Not(a) => ConstantsIn(a, allowed)
    case Bin(_, a, b) =>
      && (IsYesNo(a) ==> a.sym in allowed) && (IsYesNo(b) ==> b.sym in allowed)
      && ConstantsIn(a, allowed) && ConstantsIn(b, allowed)
  }

  predicate NoneAllowed(allowed: set<Sym>) {
    Yes !in allowed && No !in allowed
  }

  lemma {:induction false} NoneAllowedNone(e: Expr, allowed: set<Sym>)
    requires ConstantsIn(e, allowed) && NoneAllowed(allowed)
    ensures NoConstants(e)
  {
    match e {
      case Symbol(_) =>
      case Compare(_, _, _) =>
      case Not(a) => NoneAllowedNone(a, allowed);
      case Bin(_, a, b) => NoneAllowedNone(a, allowed); NoneAllowedNone(b, allowed);
    }
  }

  lemma HiddenAllowed(op: Op, a: Sym, allowed: set<Sym>)
    requires !a.BuiltIn() && Zero(op) in allowed
    ensures ConstantsIn(WithHidden(op, a), allowed) && ConstantsIn(WithConstant(op, a), allowed)
  {
    assert ConstantsIn(Hidden(op), allowed);
  }

  lemma SomeOp(allowed: set<Sym>) returns (op: Op)
    requires !NoneAllowed(allowed)
    ensures Zero(op) in allowed
  {
    op := if No in allowed then And else Or;
  }

  /** Comparing is transitive on the expressions with these constants if and only if there
      are none. */
  lemma TransitiveExactly(allowed: set<Sym>)
    ensures (forall e1, e2, e3 ::
               (ConstantsIn(e1, allowed) && ConstantsIn(e2, allowed) && ConstantsIn(e3, allowed) && Equal(e1, e2) && Equal(e2, e3))
               ==> Equal(e1, e3))
            <==> NoneAllowed(allowed)
  {
    hide Equal, ConstantsIn, WithHidden, WithConstant;
    if NoneAllowed(allowed) {
      forall e1, e2, e3 |
          ConstantsIn(e1, allowed) && ConstantsIn(e2, allowed) && ConstantsIn(e3, allowed) && Equal(e1, e2) && Equal(e2, e3)
        ensures Equal(e1, e3)
      {
        NoneAllowedNone(e1, allowed);
        NoneAllowedNone(e2, allowed);
        NoneAllowedNone(e3, allowed);
        EqualTransitive(Size(e1) + Size(e2) + Size(e3), e1, e2, e3);
      }
    } else {
      var op := SomeOp(allowed);
      var a, b := Declared(0, Tri), Declared(1, Tri);
      HiddenAllowed(op, a, allowed);
      HiddenAllowed(op, b, allowed);
      EqualNotTransitive(op, a, b);
      assert Equal(WithHidden(op, a), WithConstant(op, b)) && Equal(WithConstant(op, b), WithHidden(op, b));
    }
  }

  /** And then only does the order of the operands never matter. */
  lemma OrderExactly(allowed: set<Sym>)
    ensures (forall op, e1, e2 ::
               (ConstantsIn(e1, allowed) && ConstantsIn(e2, allowed) && IsOp(e1, op) && IsOp(e2, op)
                && multiset(Leaves(op, e1)) == multiset(Leaves(op, e2)))
               ==> Equal(e1, e2))
            <==> NoneAllowed(allowed)
  {
    hide Equal, ConstantsIn, WithHidden, WithConstant, Equivalent, Leaves;
    if NoneAllowed(allowed) {
      forall op, e1, e2 |
          ConstantsIn(e1, allowed) && ConstantsIn(e2, allowed) && IsOp(e1, op) && IsOp(e2, op)
          && multiset(Leaves(op, e1)) == multiset(Leaves(op, e2))
        ensures Equal(e1, e2)
      {
        NoneAllowedNone(e1, allowed);
        SmallLeaves(op, e1, Size(e1));
        AllEquivalent(Size(e1), Leaves(op, e1));
        EqualUpToOrder(op, e1, e2);
      }
    } else {
      var op := SomeOp(allowed);
      var a, b := Declared(0, Tri), Declared(1, Tri);
      var p, r, q := Not(WithHidden(op, a)), Not(WithConstant(op, b)), Not(WithHidden(op, b));
      HiddenAllowed(op, a, allowed);
      HiddenAllowed(op, b, allowed);
      ThreeAllowed(p, r, q, allowed);
      ThreeAllowed(r, q, p, allowed);
      OrderCanMatter(op, a, b);
      assert IsOp(Bin(Or, p, Bin(Or, r, q)), Or) && IsOp(Bin(Or, r, Bin(Or, q, p)), Or);
    }
  }

  lemma ThreeAllowed(p: Expr, r: Expr, q: Expr, allowed: set<Sym>)
    requires p.Not? && r.Not? && q.Not?
    requires ConstantsIn(p.sub, allowed) && ConstantsIn(r.sub, allowed) && ConstantsIn(q.sub, allowed)
    ensures ConstantsIn(Bin(Or, p, Bin(Or, r, q)), allowed)
  {
    assert ConstantsIn(p, allowed) && ConstantsIn(r, allowed) && ConstantsIn(q, allowed);
    assert ConstantsIn(Bin(Or, r, q), allowed);
  }
}
