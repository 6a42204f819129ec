/** What a call of expr_eliminate_dups1 does to the level its two addresses lie in. */
module ExprDupsPlaces {
  import opened Expr
  import opened ExprLevel
  import opened ExprPaths
  import opened ExprDups

  // ----- A pass over part of a level -----

  /** Operand i against the operands from j to j1. */
  function RowRange(op: Op, ls: seq<Expr>, i: nat, j: nat, j1: nat): (r: (seq<Expr>, nat))
    requires i < |ls| && j <= j1 <= |ls|
    ensures |r.0| == |ls| && Sizes(r.0) <= Sizes(ls)
    decreases j1 - j
  {
    if j == j1 then (ls, 0)
    else
      var (ls1, n1) := PassLeaf(op, ls, i, j);
      var (ls2, n2) := RowRange(op, ls1, i, j + 1, j1);
      (ls2, n1 + n2)
  }

  /** The operands from i to i1 against those from j to j1. */
  function RowsRange(op: Op, ls: seq<Expr>, i: nat, i1: nat, j: nat, j1: nat): (r: (seq<Expr>, nat))
    requires i <= i1 <= |ls| && j <= j1 <= |ls|
    ensures |r.0| == |ls| && Sizes(r.0) <= Sizes(ls)
    decreases i1 - i
  {
    if i == i1 then (ls, 0)
    else
      var (ls1, n1) := RowRange(op, ls, i, j, j1);
      var (ls2, n2) := RowsRange(op, ls1, i + 1, i1, j, j1);
      (ls2, n1 + n2)
  }

  lemma {:induction false} RowRangeSplit(op: Op, ls: seq<Expr>, i: nat, j: nat, m: nat, j1: nat)
    requires i < |ls| && j <= m <= j1 <= |ls|
    ensures var (ls1, n1) := RowRange(op, ls, i, j, m);
            var (ls2, n2) := RowRange(op, ls1, i, m, j1);
            RowRange(op, ls, i, j, j1) == (ls2, n1 + n2)
    decreases m - j
  {
    hide PassLeaf, Sizes;
    if j < m {
      RowRangeSplit(op, PassLeaf(op, ls, i, j).0, i, j + 1, m, j1);
    }
  }

  lemma {:induction false} RowsRangeSplit(op: Op, ls: seq<Expr>, i: nat, m: nat, i1: nat, j: nat, j1: nat)
    requires i <= m <= i1 <= |ls| && j <= j1 <= |ls|
    ensures var (ls1, n1) := RowsRange(op, ls, i, m, j, j1);
            var (ls2, n2) := RowsRange(op, ls1, m, i1, j, j1);
            RowsRange(op, ls, i, i1, j, j1) == (ls2, n1 + n2)
    decreases m - i
  {
    hide RowRange, Sizes;
    if i < m {
      RowsRangeSplit(op, RowRange(op, ls, i, j, j1).0, i + 1, m, i1, j, j1);
    }
  }

  lemma {:induction false} RowRangeIsRow(op: Op, ls: seq<Expr>, i: nat, j: nat)
    requires i < |ls| && j <= |ls|
    ensures RowRange(op, ls, i, j, |ls|) == PassRow(op, ls, i, j)
    decreases |ls| - j
  {
    if j < |ls| {
      RowRangeIsRow(op, PassLeaf(op, ls, i, j).0, i, j + 1);
    }
  }

  lemma {:induction false} RowsRangeIsRows(op: Op, ls: seq<Expr>, i: nat)
    requires i <= |ls|
    ensures RowsRange(op, ls, i, |ls|, 0, |ls|) == PassRows(op, ls, i)
    decreases |ls| - i
  {
    if i < |ls| {
      RowRangeIsRow(op, ls, i, 0);
      RowsRangeIsRows(op, PassRow(op, ls, i, 0).0, i + 1);
    }
  }

  /** Rows over one operand, and over one pair. */
  lemma RowsRangeOne(op: Op, ls: seq<Expr>, i: nat, j: nat, j1: nat)
    requires i < |ls| && j <= j1 <= |ls|
    ensures RowsRange(op, ls, i, i + 1, j, j1) == RowRange(op, ls, i, j, j1)
  {
    var (ls1, n1) := RowRange(op, ls, i, j, j1);
    assert RowsRange(op, ls1, i + 1, i + 1, j, j1) == (ls1, 0);
  }

  lemma RowRangeOne(op: Op, ls: seq<Expr>, i: nat, j: nat)
    requires i < |ls| && j < |ls|
    ensures RowRange(op, ls, i, j, j + 1) == PassLeaf(op, ls, i, j)
  {
    var (ls1, n1) := PassLeaf(op, ls, i, j);
    assert RowRange(op, ls1, i, j + 1, j + 1) == (ls1, 0);
  }

  // ----- expr_eliminate_dups -----

  /** What a call of expr_eliminate_dups1 has done to a level: `before` became `after` by
      comparing the operands below p1 with those below p2, with `n` joins. */
  ghost predicate Deduplicated(op: Op, before: Expr, after: Expr, p1: Path, p2: Path, n: nat)
    requires OnLevel(op, before, p1) && OnLevel(op, before, p2) && HasPath(before, p1) && HasPath(before, p2)
  {
    var ls := Leaves(op, before);
    var i, m := Offset(op, before, p1), |Leaves(op, At(before, p1))|;
    var j, k := Offset(op, before, p2), |Leaves(op, At(before, p2))|;
    && SameSpine(op, before, after)
    && i + m <= |ls| && j + k <= |ls|
    && RowsRange(op, ls, i, i + m, j, j + k) == (Leaves(op, after), n)
  }

  /** The two halves of a node, and the two calls on them. */
  lemma Halves(op: Op, e: Expr, p: Path)
    requires OnLevel(op, e, p) && HasPath(e, p) && IsOp(At(e, p), op)
    ensures OnLevel(op, e, p + [L]) && OnLevel(op, e, p + [R]) && HasPath(e, p + [L]) && HasPath(e, p + [R])
    ensures At(e, p + [L]) == At(e, p).left && At(e, p + [R]) == At(e, p).right
    ensures Offset(op, e, p + [L]) == Offset(op, e, p)
    ensures Offset(op, e, p + [R]) == Offset(op, e, p) + |Leaves(op, At(e, p).left)|
    ensures |Leaves(op, At(e, p))| == |Leaves(op, At(e, p).left)| + |Leaves(op, At(e, p).right)|
    decreases p
  {
    hide Size;
    PathAppend(e, p, [L], e);
    PathAppend(e, p, [R], e);
    if p != [] {
      Halves(op, if p[0] == L then e.left else e.right, p[1..]);
      assert (p + [L])[1..] == p[1..] + [L] && (p + [R])[1..] == p[1..] + [R];
    }
  }

  /** First the one half of the left argument, then the other. */
  lemma LeftHalves(op: Op, a: Expr, b: Expr, c: Expr, p1: Path, p2: Path, n1: nat, n2: nat)
    requires OnLevel(op, a, p1) && OnLevel(op, a, p2) && HasPath(a, p1) && HasPath(a, p2) && IsOp(At(a, p1), op)
    requires OnLevel(op, a, p1 + [L]) && HasPath(a, p1 + [L]) && Deduplicated(op, a, b, p1 + [L], p2, n1)
    requires OnLevel(op, b, p1 + [R]) && HasPath(b, p1 + [R]) && OnLevel(op, b, p2) && HasPath(b, p2)
    requires Deduplicated(op, b, c, p1 + [R], p2, n2)
    ensures Deduplicated(op, a, c, p1, p2, n1 + n2)
  {
    hide RowsRange, Leaves, Offset, SameSpine, OnLevel, HasPath, At;
    Halves(op, a, p1);
    SameSpinePlaces(op, a, b, p1 + [R]);
    SameSpinePlaces(op, a, b, p2);
    SameSpineTrans(op, a, b, c);
    LevelStretch(op, a, p1);
    LevelStretch(op, a, p2);
    var i, m := Offset(op, a, p1), |Leaves(op, At(a, p1))|;
    var j, k := Offset(op, a, p2), |Leaves(op, At(a, p2))|;
    RowsRangeSplit(op, Leaves(op, a), i, i + |Leaves(op, At(a, p1).left)|, i + m, j, j + k);
  }

  /** The same for the right argument, when the left one is a single operand. */
  lemma RightHalves(op: Op, a: Expr, b: Expr, c: Expr, p1: Path, p2: Path, n1: nat, n2: nat)
    requires OnLevel(op, a, p1) && OnLevel(op, a, p2) && HasPath(a, p1) && HasPath(a, p2)
    requires !IsOp(At(a, p1), op) && IsOp(At(a, p2), op)
    requires OnLevel(op, a, p2 + [L]) && HasPath(a, p2 + [L]) && Deduplicated(op, a, b, p1, p2 + [L], n1)
    requires OnLevel(op, b, p2 + [R]) && HasPath(b, p2 + [R]) && OnLevel(op, b, p1) && HasPath(b, p1)
    requires Deduplicated(op, b, c, p1, p2 + [R], n2)
    ensures Deduplicated(op, a, c, p1, p2, n1 + n2)
  {
    hide RowRange, RowsRange, Offset, SameSpine, OnLevel, HasPath, At;
    Halves(op, a, p2);
    SameSpinePlaces(op, a, b, p2 + [R]);
    SameSpinePlaces(op, a, b, p1);
    SameSpineTrans(op, a, b, c);
    SameSpineLeaves(op, a, b);
    LevelStretch(op, a, p1);
    LevelStretch(op, a, p2);
    var ls, i := Leaves(op, a), Offset(op, a, p1);
    var j, k, h := Offset(op, a, p2), |Leaves(op, At(a, p2))|, |Leaves(op, At(a, p2).left)|;
    RowRangeSplit(op, ls, i, j, j + h, j + k);
    RowsRangeOne(op, ls, i, j, j + h);
    RowsRangeOne(op, ls, i, j, j + k);
    RowsRangeOne(op, Leaves(op, b), i, j + h, j + k);
  }

  lemma OperandAlone(op: Op, e: Expr)
    requires !IsOp(e, op)
    ensures Leaves(op, e) == [e]
  {
  }

  lemma OnePair(op: Op, a: Expr, b: Expr, p1: Path, p2: Path, n: nat)
    requires OnLevel(op, a, p1) && OnLevel(op, a, p2) && HasPath(a, p1) && HasPath(a, p2)
    requires !IsOp(At(a, p1), op) && !IsOp(At(a, p2), op) && SameSpine(op, a, b)
    requires Offset(op, a, p1) < |Leaves(op, a)| && Offset(op, a, p2) < |Leaves(op, a)|
    requires PassLeaf(op, Leaves(op, a), Offset(op, a, p1), Offset(op, a, p2)) == (Leaves(op, b), n)
    ensures Deduplicated(op, a, b, p1, p2, n)
  {
    hide RowRange, RowsRange, PassLeaf, SameSpine, Offset, OnLevel, HasPath, At;
    OperandAlone(op, At(a, p1));
    OperandAlone(op, At(a, p2));
    var ls, i, j := Leaves(op, a), Offset(op, a, p1), Offset(op, a, p2);
    RowRangeOne(op, ls, i, j);
    RowsRangeOne(op, ls, i, j, j + 1);
  }

  /** A pass over a whole level against itself. */
  lemma WholeLevel(op: Op, a: Expr, b: Expr, n: nat)
    requires Deduplicated(op, a, b, [], [], n)
    ensures PassLevel(op, a) == (b, n)
  {
    RowsRangeIsRows(op, Leaves(op, a), 0);
    SameSpineLeaves(op, a, b);
  }

  lemma OperandSmaller(op: Op, a: Expr, p1: Path, p2: Path)
    requires OnLevel(op, a, p1) && OnLevel(op, a, p2) && HasPath(a, p1) && HasPath(a, p2) && p1 != p2
    requires !IsOp(At(a, p1), op) && !IsOp(At(a, p2), op)
    ensures var ls, i, j := Leaves(op, a), Offset(op, a, p1), Offset(op, a, p2);
            && i < |ls| && j < |ls| && i != j && ls[i] == At(a, p1) && ls[j] == At(a, p2)
            && Size(At(a, p1)) < Sizes(ls)
  {
    var u := Symbol(Unit(op));
    PutLeaf(op, a, p1, u);
    PutLeaf(op, a, p2, u);
    PutOther(op, a, p1, p2);
    SizesPair(Leaves(op, a), Offset(op, a, p1), Offset(op, a, p2));
  }

  /** The level after its operand at p1 has been deduplicated on its own into `x`, and
      after a join with the one at p2. */
  lemma OperandsReplaced(op: Op, a: Expr, p1: Path, p2: Path, x: Expr, t: Option<Expr>)
    requires OnLevel(op, a, p1) && OnLevel(op, a, p2) && HasPath(a, p1) && HasPath(a, p2) && p1 != p2
    requires !IsOp(At(a, p1), op) && !IsOp(At(a, p2), op) && !IsOp(x, op) && (t.Some? ==> !IsOp(t.value, op))
    ensures var b := Put(a, p1, x);
            && OnLevel(op, b, p1) && HasPath(b, p1) && OnLevel(op, b, p2) && HasPath(b, p2)
            && SameSpine(op, a, b) && At(b, p1) == x && At(b, p2) == At(a, p2)
            && Offset(op, a, p1) < |Leaves(op, a)| && Offset(op, a, p2) < |Leaves(op, a)|
            && Leaves(op, b) == Leaves(op, a)[Offset(op, a, p1) := x]
            && (t.Some? ==>
                  var c := Put(b, p1, Symbol(Unit(op)));
                  && HasPath(c, p2) && SameSpine(op, a, Put(c, p2, t.value))
                  && Leaves(op, Put(c, p2, t.value)) ==
                     Leaves(op, a)[Offset(op, a, p1) := Symbol(Unit(op))][Offset(op, a, p2) := t.value])
  {
    hide Leaves, OnLevel, HasPath, At, SameSpine, Offset, Put;
    var b, u := Put(a, p1, x), Symbol(Unit(op));
    PutAt(a, p1, x, u);
    PutLeaf(op, a, p1, x);
    PutLeaf(op, a, p2, u);
    PutOther(op, a, p1, p2);
    SameSpinePlaces(op, a, b, p1);
    SameSpinePlaces(op, a, b, p2);
    assert !IsOp(At(b, p2), op) by { SpineOfLeaf(op, At(a, p2), At(b, p2)); }
    PutLeaf(op, b, p2, u);
    if t.Some? {
      var c := Put(b, p1, u);
      PutLeaf(op, b, p1, u);
      SameSpinePlaces(op, b, c, p2);
      assert !IsOp(At(c, p2), op) by { SpineOfLeaf(op, At(b, p2), At(c, p2)); }
      PutLeaf(op, c, p2, t.value);
      SameSpineTrans(op, a, b, c);
      SameSpineTrans(op, a, c, Put(c, p2, t.value));
    }
  }

  lemma SpineOfLeaf(op: Op, e: Expr, f: Expr)
    requires SameSpine(op, e, f)
    ensures IsOp(e, op) <==> IsOp(f, op)
  {
  }

  // ----- Calls of expr_eliminate_dups1 on places of a larger expression -----

  /** p1 and p2 are places of the level whose top is at `top`. */
  ghost predicate Places(op: Op, root: Expr, top: Path, p1: Path, p2: Path) {
    && HasPath(root, top)
    && OnLevel(op, At(root, top), p1) && HasPath(At(root, top), p1)
    && OnLevel(op, At(root, top), p2) && HasPath(At(root, top), p2)
  }

  /** The effect of a call: only the level changed, and as it should. */
  ghost predicate Called(op: Op, before: Expr, after: Expr, top: Path, p1: Path, p2: Path, n: nat) {
    && Places(op, before, top, p1, p2) && HasPath(after, top)
    && after == Put(before, top, At(after, top))
    && Deduplicated(op, At(before, top), At(after, top), p1, p2, n)
  }

  /** What the recursion brings down. */
  ghost function LevelSize(op: Op, root: Expr, top: Path): nat {
    if HasPath(root, top) then Sizes(Leaves(op, At(root, top))) else 0
  }

  ghost function Span(op: Op, root: Expr, top: Path, p: Path): nat {
    if HasPath(root, top) && HasPath(At(root, top), p) then |Leaves(op, At(At(root, top), p))| else 0
  }

  /** Following a pointer, seen from the top of the level. */
  lemma Follow(op: Op, root: Expr, top: Path, p1: Path, p2: Path)
    requires Places(op, root, top, p1, p2)
    ensures HasPath(root, top + p1) && At(root, top + p1) == At(At(root, top), p1)
    ensures HasPath(root, top + p2) && At(root, top + p2) == At(At(root, top), p2)
    ensures top + p1 == top + p2 <==> p1 == p2
  {
    PathAppend(root, top, p1, root);
    PathAppend(root, top, p2, root);
    assert (top + p1)[|top|..] == p1 && (top + p2)[|top|..] == p2;
  }

  lemma CallKeepsPlaces(op: Op, before: Expr, after: Expr, top: Path, p1: Path, p2: Path, n: nat, q: Path)
    requires Called(op, before, after, top, p1, p2, n)
    requires OnLevel(op, At(before, top), q) && HasPath(At(before, top), q)
    ensures OnLevel(op, At(after, top), q) && HasPath(At(after, top), q)
    ensures IsOp(At(At(after, top), q), op) <==> IsOp(At(At(before, top), q), op)
    ensures Span(op, after, top, q) == Span(op, before, top, q)
    ensures LevelSize(op, after, top) <= LevelSize(op, before, top)
  {
    SameSpinePlaces(op, At(before, top), At(after, top), q);
    SpineOfLeaf(op, At(At(before, top), q), At(At(after, top), q));
  }

  lemma DescendLeft(op: Op, root: Expr, top: Path, p1: Path, p2: Path)
    requires Places(op, root, top, p1, p2) && IsOp(At(At(root, top), p1), op)
    ensures Places(op, root, top, p1 + [L], p2) && Places(op, root, top, p1 + [R], p2)
    ensures (top + p1) + [L] == top + (p1 + [L]) && (top + p1) + [R] == top + (p1 + [R])
    ensures Span(op, root, top, p1 + [L]) < Span(op, root, top, p1) && Span(op, root, top, p1 + [R]) < Span(op, root, top, p1)
  {
    hide Leaves, OnLevel, HasPath, Offset, At;
    Halves(op, At(root, top), p1);
  }

  lemma DescendRight(op: Op, root: Expr, top: Path, p1: Path, p2: Path)
    requires Places(op, root, top, p1, p2) && IsOp(At(At(root, top), p2), op)
    ensures Places(op, root, top, p1, p2 + [L]) && Places(op, root, top, p1, p2 + [R])
    ensures (top + p2) + [L] == top + (p2 + [L]) && (top + p2) + [R] == top + (p2 + [R])
    ensures Span(op, root, top, p2 + [L]) < Span(op, root, top, p2) && Span(op, root, top, p2 + [R]) < Span(op, root, top, p2)
  {
    hide Leaves, OnLevel, HasPath, Offset, At;
    Halves(op, At(root, top), p2);
  }

  /** After a first call the places of the second are still there, and no larger. */
  lemma AfterCall(op: Op, r0: Expr, r1: Expr, top: Path, p1: Path, p2: Path, n: nat, q1: Path, q2: Path)
    requires Called(op, r0, r1, top, p1, p2, n) && Places(op, r0, top, q1, q2)
    ensures Places(op, r1, top, q1, q2) && HasPath(r1, top + q1) && HasPath(r1, top + q2)
    ensures Span(op, r1, top, q1) == Span(op, r0, top, q1) && Span(op, r1, top, q2) == Span(op, r0, top, q2)
    ensures LevelSize(op, r1, top) <= LevelSize(op, r0, top)
  {
    CallKeepsPlaces(op, r0, r1, top, p1, p2, n, q1);
    CallKeepsPlaces(op, r0, r1, top, p1, p2, n, q2);
    Follow(op, r1, top, q1, q2);
  }

  lemma JoinLeft(op: Op, r0: Expr, r1: Expr, r2: Expr, top: Path, p1: Path, p2: Path, n1: nat, n2: nat)
    requires Places(op, r0, top, p1, p2) && IsOp(At(At(r0, top), p1), op)
    requires Called(op, r0, r1, top, p1 + [L], p2, n1) && Called(op, r1, r2, top, p1 + [R], p2, n2)
    ensures Called(op, r0, r2, top, p1, p2, n1 + n2)
  {
    hide Deduplicated, OnLevel;
    PutAt(r0, top, At(r1, top), At(r2, top));
    LeftHalves(op, At(r0, top), At(r1, top), At(r2, top), p1, p2, n1, n2);
  }

  lemma JoinRight(op: Op, r0: Expr, r1: Expr, r2: Expr, top: Path, p1: Path, p2: Path, n1: nat, n2: nat)
    requires Places(op, r0, top, p1, p2) && !IsOp(At(At(r0, top), p1), op) && IsOp(At(At(r0, top), p2), op)
    requires Called(op, r0, r1, top, p1, p2 + [L], n1) && Called(op, r1, r2, top, p1, p2 + [R], n2)
    ensures Called(op, r0, r2, top, p1, p2, n1 + n2)
  {
    hide Deduplicated, OnLevel;
    PutAt(r0, top, At(r1, top), At(r2, top));
    RightHalves(op, At(r0, top), At(r1, top), At(r2, top), p1, p2, n1, n2);
  }

  lemma SamePlace(op: Op, root: Expr, top: Path, p: Path)
    requires Places(op, root, top, p, p) && !IsOp(At(At(root, top), p), op)
    ensures Called(op, root, root, top, p, p, 0)
  {
    var a, u := At(root, top), Symbol(Unit(op));
    PutAt(root, top, a, a);
    PutLeaf(op, a, p, u);
    SameSpineRefl(op, a);
    OnePair(op, a, a, p, p, 0);
  }

  /** The pointer to an operand is the top of the operand's own level. */
  lemma OwnLevel(op: Op, root: Expr, top: Path, p1: Path, p2: Path)
    requires Places(op, root, top, p1, p2) && p1 != p2
    requires !IsOp(At(At(root, top), p1), op) && !IsOp(At(At(root, top), p2), op) && At(At(root, top), p1).Bin?
    ensures var own := At(At(root, top), p1).op;
            && Places(own, root, top + p1, [], []) && (top + p1) + [] == top + p1
            && LevelSize(own, root, top + p1) < LevelSize(op, root, top)
  {
    Follow(op, root, top, p1, p2);
    OperandSmaller(op, At(root, top), p1, p2);
    var e := At(At(root, top), p1);
    LevelSizes(e.op, e);
  }

  /** The operand after the pass over its own level, if it has one. */
  ghost predicate OwnPass(e: Expr, x: Expr, n: nat) {
    if e.Bin? then PassLevel(e.op, e) == (x, n) else x == e && n == 0
  }

  lemma OperandAfter(op: Op, r0: Expr, r1: Expr, place: Path, e: Expr, n: nat) returns (x: Expr)
    requires HasPath(r0, place) && e == At(r0, place) && !IsOp(e, op)
    requires if e.Bin? then Called(e.op, r0, r1, place, [], [], n) else r1 == r0 && n == 0
    ensures r1 == Put(r0, place, x) && OwnPass(e, x, n) && !IsOp(x, op)
  {
    x := e;
    PutAt(r0, place, e, e);
    if e.Bin? {
      x := At(r1, place);
      WholeLevel(e.op, e, x, n);
      SpineOfLeaf(e.op, e, x);
    }
  }

  lemma JoinIsOperand(op: Op, x: Expr, y: Expr)
    requires !IsOp(x, op) && Join(op, x, y).Some?
    ensures !IsOp(Join(op, x, y).value, op)
  {
    JoinShape(op, x, y);
  }

  /** Comparing operands i and j, the first of which becomes `x` on its own. */
  lemma PassLeafIs(op: Op, ls: seq<Expr>, i: nat, j: nat, x: Expr, n: nat)
    requires i < |ls| && j < |ls| && i != j && OwnPass(ls[i], x, n)
    ensures PassLeaf(op, ls, i, j) ==
            match Join(op, x, ls[j])
            case None => (ls[i := x], n)
            case Some(t) => (ls[i := Symbol(Unit(op))][j := t], n + 1)
  {
    hide Join;
  }

  lemma OnePairDone(op: Op, a: Expr, p1: Path, p2: Path, x: Expr, n: nat)
    requires OnLevel(op, a, p1) && OnLevel(op, a, p2) && HasPath(a, p1) && HasPath(a, p2) && p1 != p2
    requires !IsOp(At(a, p1), op) && !IsOp(At(a, p2), op) && !IsOp(x, op) && OwnPass(At(a, p1), x, n)
    ensures match Join(op, x, At(a, p2))
            case None => Deduplicated(op, a, Put(a, p1, x), p1, p2, n)
            case Some(t) =>
              var b := Put(a, p1, x);
              && HasPath(b, p1) && HasPath(Put(b, p1, Symbol(Unit(op))), p2)
              && Deduplicated(op, a, Put(Put(b, p1, Symbol(Unit(op))), p2, t), p1, p2, n + 1)
  {
    hide Deduplicated, OnLevel, SameSpine, Leaves, Offset, Join, PassLeaf, OwnPass, Put, HasPath;
    var tmp := Join(op, x, At(a, p2));
    if tmp.Some? { JoinIsOperand(op, x, At(a, p2)); }
    OperandSmaller(op, a, p1, p2);
    OperandsReplaced(op, a, p1, p2, x, tmp);
    var ls, i, j := Leaves(op, a), Offset(op, a, p1), Offset(op, a, p2);
    PassLeafIs(op, ls, i, j, x, n);
    match tmp
    case None =>
      OnePair(op, a, Put(a, p1, x), p1, p2, n);
    case Some(t) =>
      OnePair(op, a, Put(Put(Put(a, p1, x), p1, Symbol(Unit(op))), p2, t), p1, p2, n + 1);
  }

  /** Comparing two operands, after the first has been deduplicated on its own. */
  lemma PairDone(op: Op, r0: Expr, r1: Expr, top: Path, p1: Path, p2: Path, n: nat)
    requires Places(op, r0, top, p1, p2) && p1 != p2
    requires !IsOp(At(At(r0, top), p1), op) && !IsOp(At(At(r0, top), p2), op)
    requires var e := At(At(r0, top), p1);
             if e.Bin? then Called(e.op, r0, r1, top + p1, [], [], n) else r1 == r0 && n == 0
    ensures HasPath(r1, top + p1) && HasPath(r1, top + p2)
    ensures match Join(op, At(r1, top + p1), At(r1, top + p2))
            case None => Called(op, r0, r1, top, p1, p2, n)
            case Some(t) =>
              var c := Put(r1, top + p1, Symbol(Unit(op)));
              HasPath(c, top + p2) && Called(op, r0, Put(c, top + p2, t), top, p1, p2, n + 1)
  {
    hide Deduplicated, OnLevel, SameSpine, Leaves, Offset, Join, OwnPass;
    var a := At(r0, top);
    var e, y, u := At(a, p1), At(a, p2), Symbol(Unit(op));
    Follow(op, r0, top, p1, p2);
    var x := OperandAfter(op, r0, r1, top + p1, e, n);
    var tmp := Join(op, x, y);
    if tmp.Some? { JoinIsOperand(op, x, y); }
    OperandsReplaced(op, a, p1, p2, x, tmp);
    OnePairDone(op, a, p1, p2, x, n);
    var b := Put(a, p1, x);
    PathAppend(r0, top, p1, x);
    PutAt(r0, top, b, b);
    PathAppend(r1, top, p1, u);
    PathAppend(r1, top, p2, u);
    if tmp.Some? {
      var c := Put(b, p1, u);
      PutAt(r0, top, b, c);
      PutAt(r0, top, c, c);
      PathAppend(Put(r0, top, c), top, p2, tmp.value);
      PutAt(r0, top, c, Put(c, p2, tmp.value));
      PutAt(r0, top, Put(c, p2, tmp.value), c);
    }
  }

  lemma WholePlaces(op: Op, e: Expr)
    ensures Places(op, e, [], [], [])
  {
  }

  lemma WholeCall(op: Op, before: Expr, after: Expr, n: nat)
    requires Called(op, before, after, [], [], [], n)
    ensures PassLevel(op, before) == (after, n)
  {
    WholeLevel(op, before, after, n);
  }
}
