/** What the macro expander promises. */
module MacroProofs {
  import opened Macro

  // ----- Parentheses -----

  /** The nesting depth after reading `s` at depth `nest`; None if it drops below zero. */
  function Depth(s: string, nest: nat): Option<nat>
    decreases s
  {
    if s == [] then Some(nest)
    else if s[0] == '(' then Depth(s[1..], nest + 1)
    else if s[0] == ')' then if nest == 0 then None else Depth(s[1..], nest - 1)
    else Depth(s[1..], nest)
  }

  predicate Balanced(s: string) {
    Depth(s, 0) == Some(0)
  }

  lemma {:induction false} DepthAppend(a: string, b: string, nest: nat)
    ensures Depth(a + b, nest) == match Depth(a, nest)
                                  case None => None
                                  case Some(n) => Depth(b, n)
    decreases a
  {
    if a == [] {
      assert a + b == b;
    } else {
      assert (a + b)[1..] == a[1..] + b;
      if a[0] == '(' { DepthAppend(a[1..], b, nest + 1); }
      else if a[0] == ')' { if nest > 0 { DepthAppend(a[1..], b, nest - 1); } }
      else { DepthAppend(a[1..], b, nest); }
    }
  }

  /** The closing parenthesis is the first one at which the depth would drop below where
      the search started. */
  lemma {:induction false} CloseParenDepth(s: string, q: nat, nest: nat)
    requires q <= |s|
    ensures match CloseParen(s, q, nest)
            case Some(r) => Depth(s[q..r], nest) == Some(0)
            case None => Depth(s[q..], nest).Some?
    decreases |s| - q
  {
    if q < |s| {
      var n := if s[q] == '(' then nest + 1 else if s[q] == ')' then nest - 1 else nest;
      assert s[q..][1..] == s[q + 1..];
      if s[q] == ')' && nest == 0 {
        assert s[q..q] == [];
      } else {
        CloseParenDepth(s, q + 1, n);
        var r := CloseParen(s, q + 1, n);
        assert r.Some? ==> s[q..r.value][1..] == s[q + 1..r.value];
      }
    }
  }

  /** What lies between matching parentheses is balanced. */
  lemma ClauseBalanced(s: string, p: nat)
    requires p <= |s| && CloseParen(s, p, 0).Some?
    ensures Balanced(s[p..CloseParen(s, p, 0).value])
  {
    CloseParenDepth(s, p, 0);
  }

  // ----- Splitting a clause -----

  function Join(pieces: seq<string>): string
    requires |pieces| >= 1
  {
    if |pieces| == 1 then pieces[0] else pieces[0] + "," + Join(pieces[1..])
  }

  /** `s`, read at depth `nest`, has no comma outside parentheses. */
  predicate NoTopComma(s: string, nest: int)
    decreases s
  {
    s == [] || (!(nest == 0 && s[0] == ',')
                && NoTopComma(s[1..], if s[0] == '(' then nest + 1 else if s[0] == ')' then nest - 1 else nest))
  }

  lemma {:induction false} NoTopCommaAppend(a: string, b: string, nest: nat)
    requires Depth(a, nest).Some?
    ensures NoTopComma(a + b, nest) <==> NoTopComma(a, nest) && NoTopComma(b, Depth(a, nest).value)
    decreases a
  {
    if a == [] {
      assert a + b == b;
    } else {
      assert (a + b)[1..] == a[1..] + b;
      NoTopCommaAppend(a[1..], b, if a[0] == '(' then nest + 1 else if a[0] == ')' then nest - 1 else nest);
    }
  }

  predicate Piece(s: string) {
    Balanced(s) && NoTopComma(s, 0)
  }

  lemma {:induction false} SplitFromPieces(s: string, start: nat, p: nat, nest: nat)
    requires start <= p <= |s|
    requires Depth(s[start..p], 0) == Some(nest) && NoTopComma(s[start..p], 0)
    requires Depth(s[p..], nest) == Some(0)
    ensures forall i :: 0 <= i < |SplitFrom(s, start, p, nest)| ==> Piece(SplitFrom(s, start, p, nest)[i])
    ensures Join(SplitFrom(s, start, p, nest)) == s[start..]
    decreases |s| - p
  {
    if p == |s| {
      assert s[start..p] == s[start..];
    } else {
      assert s[p..][1..] == s[p + 1..];
      if nest == 0 && s[p] == ',' {
        assert s[p + 1..p + 1] == [];
        SplitFromPieces(s, p + 1, p + 1, 0);
        assert s[start..] == s[start..p] + "," + s[p + 1..];
        var rest := SplitFrom(s, p + 1, p + 1, nest);
        assert ([s[start..p]] + rest)[1..] == rest;
      } else {
        var n := if s[p] == '(' then nest + 1 else if s[p] == ')' then nest - 1 else nest;
        assert s[start..p + 1] == s[start..p] + [s[p]];
        assert [s[p]][1..] == [];
        DepthAppend(s[start..p], [s[p]], 0);
        NoTopCommaAppend(s[start..p], [s[p]], 0);
        SplitFromPieces(s, start, p + 1, n);
      }
    }
  }

  /** A clause is cut exactly at its top-level commas: joining the pieces with commas gives
      the clause back, each piece is balanced, and none can be cut further. */
  lemma SplitLaw(clause: string)
    requires Balanced(clause)
    ensures Join(Split(clause)) == clause
    ensures forall i :: 0 <= i < |Split(clause)| ==> Balanced(Split(clause)[i]) && NoTopComma(Split(clause)[i], 0)
  {
    assert clause[0..0] == [] && clause[0..] == clause;
    SplitFromPieces(clause, 0, 0, 0);
    forall i | 0 <= i < |Split(clause)| ensures Piece(Split(clause)[i]) {}
  }

  // ----- References are terminated -----

  /** Every reference the expander meets from `i` on has its closing parenthesis. */
  predicate Closed(s: string, i: nat)
    requires i <= |s|
    decreases |s| - i
  {
    if i == |s| then true
    else if s[i] == '$' && i + 1 < |s| && s[i + 1] == '(' then
      CloseParen(s, i + 2, 0).Some? && Closed(s, CloseParen(s, i + 2, 0).value + 1)
    else Closed(s, i + 1)
  }

  /** Balanced parentheses are enough. */
  lemma {:induction false} BalancedClosed(s: string, i: nat, nest: nat)
    requires i <= |s| && Depth(s[i..], nest) == Some(0)
    ensures Closed(s, i)
    decreases |s| - i
  {
    if i < |s| {
      assert s[i..][1..] == s[i + 1..];
      if s[i] == '$' && i + 1 < |s| && s[i + 1] == '(' {
        assert s[i + 1..][1..] == s[i + 2..];
        CloseParenDepth(s, i + 2, 0);
        DepthShift(s[i + 2..], nest + 1);
        var r := CloseParen(s, i + 2, 0);
        if r.Some? {
          assert s[i + 2..] == s[i + 2..r.value] + s[r.value..];
          assert s[r.value..][1..] == s[r.value + 1..];
          DepthLift(s[i + 2..r.value], 0, nest + 1);
          DepthAppend(s[i + 2..r.value], s[r.value..], nest + 1);
          BalancedClosed(s, r.value + 1, nest);
        }
      } else {
        BalancedClosed(s, i + 1, if s[i] == '(' then nest + 1 else if s[i] == ')' then nest - 1 else nest);
      }
    }
  }

  /** Reading at a higher depth ends at a depth as much higher. */
  lemma {:induction false} DepthLift(s: string, nest: nat, k: nat)
    requires Depth(s, nest).Some?
    ensures Depth(s, nest + k) == Some(Depth(s, nest).value + k)
    decreases s
  {
    if s != [] {
      DepthLift(s[1..], if s[0] == '(' then nest + 1 else if s[0] == ')' then nest - 1 else nest, k);
    }
  }

  /** A string that ends `k` levels up cannot be read from the ground. */
  lemma DepthShift(s: string, k: nat)
    requires k > 0 && Depth(s, k) == Some(0)
    ensures Depth(s, 0).None?
  {
    if Depth(s, 0).Some? {
      DepthLift(s, 0, k);
    }
  }

  /** All values that are expanded on use have their references closed. */
  ghost predicate ClosedValues(env: Env) {
    forall name :: name in env.vars && env.vars[name].recursive ==> Closed(env.vars[name].value, 0)
  }

  lemma {:induction false} ExpandFromTerminated(env: Env, counts: Counts, s: string, i: nat, token: bool, argv: seq<string>)
    requires Fits(env, counts) && i <= |s| && ClosedValues(env) && Closed(s, i)
    ensures ExpandFrom(env, counts, s, i, token, argv) != Err(Unterminated)
    decreases Remaining(env, counts), |s|, 2, |s| - i
  {
    hide ExpandFrom, ExpandDollar;
    if Ends(s, i, token) {
      ExpandEnd(env, counts, s, i, token, argv);
    } else {
      ExpandTurn(env, counts, s, i, token, argv);
      if s[i] == '$' {
        DollarTerminated(env, counts, s, i + 1, argv);
        var d := ExpandDollar(env, counts, s, i + 1, argv);
        if d.Ok? {
          ExpandFromTerminated(env, counts, s, d.value.1, token, argv);
        }
      } else {
        ExpandFromTerminated(env, counts, s, i + 1, token, argv);
      }
    }
  }

  lemma {:induction false} DollarTerminated(env: Env, counts: Counts, s: string, p: nat, argv: seq<string>)
    requires Fits(env, counts) && 0 < p <= |s| && ClosedValues(env) && s[p - 1] == '$' && Closed(s, p - 1)
    ensures ExpandDollar(env, counts, s, p, argv) != Err(Unterminated)
    ensures ExpandDollar(env, counts, s, p, argv).Ok? ==> Closed(s, ExpandDollar(env, counts, s, p, argv).value.1)
    decreases Remaining(env, counts), |s|, 1
  {
    hide EvalClause;
    if p < |s| && s[p] == '(' {
      var q := CloseParen(s, p + 1, 0).value;
      ClauseBalanced(s, p + 1);
      EvalClauseTerminated(env, counts, s[p + 1..q], argv);
    }
  }

  lemma {:induction false} EvalClauseTerminated(env: Env, counts: Counts, clause: string, argv: seq<string>)
    requires Fits(env, counts) && ClosedValues(env) && Balanced(clause)
    ensures EvalClause(env, counts, clause, argv) != Err(Unterminated)
    decreases Remaining(env, counts), |clause|, 5
  {
    var pieces := Split(clause);
    SplitLaw(clause);
    PieceTerminated(env, counts, |clause|, pieces[0], argv);
    AllTerminated(env, counts, |clause|, pieces[1..], argv);
    if |pieces| <= MAX_ARGS && Expand(env, counts, pieces[0], argv).Ok? && ExpandAll(env, counts, |clause|, pieces[1..], argv).Ok? {
      var name := Expand(env, counts, pieces[0], argv).value;
      var args := ExpandAll(env, counts, |clause|, pieces[1..], argv).value;
      ResolveTerminated(env, counts, |clause|, name, args);
    }
  }

  lemma {:induction false} PieceTerminated(env: Env, counts: Counts, bound: nat, piece: string, argv: seq<string>)
    requires Fits(env, counts) && ClosedValues(env) && Balanced(piece) && |piece| <= bound
    ensures Expand(env, counts, piece, argv) != Err(Unterminated)
    decreases Remaining(env, counts), bound, 3
  {
    assert piece[0..] == piece;
    BalancedClosed(piece, 0, 0);
    ExpandFromTerminated(env, counts, piece, 0, false, argv);
  }

  lemma {:induction false} AllTerminated(env: Env, counts: Counts, bound: nat, pieces: seq<string>, argv: seq<string>)
    requires Fits(env, counts) && ClosedValues(env)
    requires forall i :: 0 <= i < |pieces| ==> |pieces[i]| <= bound && Balanced(pieces[i])
    ensures ExpandAll(env, counts, bound, pieces, argv) != Err(Unterminated)
    decreases Remaining(env, counts), bound, 4, |pieces|
  {
    if pieces != [] {
      PieceTerminated(env, counts, bound, pieces[0], argv);
      AllTerminated(env, counts, bound, pieces[1..], argv);
    }
  }

  lemma {:induction false} ResolveTerminated(env: Env, counts: Counts, bound: nat, name: string, args: seq<string>)
    requires Fits(env, counts) && ClosedValues(env)
    ensures Resolve(env, counts, bound, name, args) != Err(Unterminated)
    decreases Remaining(env, counts), bound, 4
  {
    if name in env.vars && counts[name] <= MAX_COUNT && env.vars[name].recursive && !(args == [] && counts[name] > 0) {
      EnterShrinks(env, counts, name);
      ValueTerminated(env, counts, bound, name, args);
    }
  }

  lemma {:induction false} ValueTerminated(env: Env, counts: Counts, bound: nat, name: string, args: seq<string>)
    requires Fits(env, counts) && ClosedValues(env)
    requires name in env.vars && counts[name] <= MAX_COUNT && env.vars[name].recursive
    ensures Fits(env, Enter(counts, name))
    ensures Expand(env, Enter(counts, name), env.vars[name].value, args) != Err(Unterminated)
    decreases Remaining(env, counts), bound, 3
  {
    EnterShrinks(env, counts, name);
    ExpandFromTerminated(env, Enter(counts, name), env.vars[name].value, 0, false, args);
  }

  /** A missing parenthesis is only ever reported for the text given, or for the value of a
      variable: if those are closed, nothing the expander puts together itself is open. */
  lemma NeverUnterminated(env: Env, counts: Counts, s: string, argv: seq<string>)
    requires Fits(env, counts) && ClosedValues(env) && Closed(s, 0)
    ensures Expand(env, counts, s, argv) != Err(Unterminated)
  {
    ExpandFromTerminated(env, counts, s, 0, false, argv);
  }

  /** And text that is not closed never expands. */
  lemma {:induction false} OkOnlyIfClosed(env: Env, counts: Counts, s: string, i: nat, argv: seq<string>)
    requires Fits(env, counts) && i <= |s|
    requires ExpandFrom(env, counts, s, i, false, argv).Ok?
    ensures Closed(s, i)
    decreases |s| - i
  {
    if i < |s| {
      if s[i] == '$' {
        OkOnlyIfClosed(env, counts, s, ExpandDollar(env, counts, s, i + 1, argv).value.1, argv);
      } else {
        OkOnlyIfClosed(env, counts, s, i + 1, argv);
      }
    }
  }

  // ----- Expansion piece by piece -----

  lemma {:induction false} CloseParenAppend(a: string, b: string, q: nat, nest: nat)
    requires q <= |a| && CloseParen(a, q, nest).Some?
    ensures CloseParen(a + b, q, nest) == CloseParen(a, q, nest)
    decreases |a| - q
  {
    if a[q] == '(' { CloseParenAppend(a, b, q + 1, nest + 1); }
    else if a[q] == ')' { if nest > 0 { CloseParenAppend(a, b, q + 1, nest - 1); } }
    else { CloseParenAppend(a, b, q + 1, nest); }
  }

  /** The expansion of two results in a row. */
  function Then(r1: Result<(string, nat)>, r2: Result<(string, nat)>): Result<(string, nat)> {
    if r1.Err? then Err(r1.error)
    else if r2.Err? then Err(r2.error)
    else Ok((r1.value.0 + r2.value.0, r2.value.1))
  }

  function Prefix(out: string, r: Result<(string, nat)>): Result<(string, nat)> {
    if r.Err? then r else Ok((out + r.value.0, r.value.1))
  }

  lemma PrefixThen(out: string, r1: Result<(string, nat)>, r2: Result<(string, nat)>)
    ensures Prefix(out, Then(r1, r2)) == Then(Prefix(out, r1), r2)
  {
    if r1.Ok? && r2.Ok? {
      assert out + (r1.value.0 + r2.value.0) == (out + r1.value.0) + r2.value.0;
    }
  }

  /** One turn of __expand_string. */
  lemma ExpandTurn(env: Env, counts: Counts, s: string, i: nat, token: bool, argv: seq<string>)
    requires Fits(env, counts) && i < |s| && !Ends(s, i, token)
    ensures ExpandFrom(env, counts, s, i, token, argv) ==
            if s[i] != '$' then Prefix([s[i]], ExpandFrom(env, counts, s, i + 1, token, argv))
            else
              match ExpandDollar(env, counts, s, i + 1, argv)
              case Err(e) => Err(e)
              case Ok((out, next)) => Prefix(out, ExpandFrom(env, counts, s, next, token, argv))
  {
  }

  lemma ExpandEnd(env: Env, counts: Counts, s: string, i: nat, token: bool, argv: seq<string>)
    requires Fits(env, counts) && i <= |s| && Ends(s, i, token)
    ensures ExpandFrom(env, counts, s, i, token, argv) == Ok(("", i))
  {
  }

  lemma {:induction false} ExpandFromConcat(env: Env, counts: Counts, a: string, b: string, i: nat, argv: seq<string>)
    requires Fits(env, counts) && i <= |a| && Closed(a, i) && (b == [] || b[0] != '(')
    ensures ExpandFrom(env, counts, a + b, i, false, argv)
            == Then(ExpandFrom(env, counts, a, i, false, argv), ExpandFrom(env, counts, a + b, |a|, false, argv))
    decreases |a| - i
  {
    hide ExpandFrom, ExpandDollar;
    var tail := ExpandFrom(env, counts, a + b, |a|, false, argv);
    if i == |a| {
      ExpandEnd(env, counts, a, |a|, false, argv);
      assert tail.Ok? ==> "" + tail.value.0 == tail.value.0;
    } else {
      ExpandTurn(env, counts, a, i, false, argv);
      ExpandTurn(env, counts, a + b, i, false, argv);
      DollarConcat(env, counts, a, b, i + 1, argv);
      var next := if a[i] != '$' then i + 1
                  else if ExpandDollar(env, counts, a, i + 1, argv).Ok? then ExpandDollar(env, counts, a, i + 1, argv).value.1
                  else |a|;
      if a[i] != '$' || ExpandDollar(env, counts, a, i + 1, argv).Ok? {
        ExpandFromConcat(env, counts, a, b, next, argv);
        PrefixThen(if a[i] != '$' then [a[i]] else ExpandDollar(env, counts, a, i + 1, argv).value.0,
                   ExpandFrom(env, counts, a, next, false, argv), tail);
      }
    }
  }

  lemma DollarConcat(env: Env, counts: Counts, a: string, b: string, p: nat, argv: seq<string>)
    requires Fits(env, counts) && 0 < p <= |a| && (b == [] || b[0] != '(')
    requires a[p - 1] == '$' ==> Closed(a, p - 1)
    ensures a[p - 1] == '$' ==> ExpandDollar(env, counts, a + b, p, argv) == ExpandDollar(env, counts, a, p, argv)
    ensures a[p - 1] == '$' && ExpandDollar(env, counts, a, p, argv).Ok? ==>
              Closed(a, ExpandDollar(env, counts, a, p, argv).value.1)
  {
    hide EvalClause;
    if a[p - 1] == '$' && p < |a| && a[p] == '(' {
      CloseParenAppend(a, b, p + 1, 0);
      var q := CloseParen(a, p + 1, 0).value;
      assert (a + b)[p + 1..q] == a[p + 1..q];
    }
  }

  lemma {:induction false} ExpandFromShift(env: Env, counts: Counts, a: string, b: string, j: nat, argv: seq<string>)
    requires Fits(env, counts) && j <= |b|
    ensures ExpandFrom(env, counts, a + b, |a| + j, false, argv) ==
            Moved(|a|, ExpandFrom(env, counts, b, j, false, argv))
    decreases |b| - j
  {
    hide ExpandFrom, ExpandDollar;
    if j == |b| {
      ExpandEnd(env, counts, a + b, |a + b|, false, argv);
      ExpandEnd(env, counts, b, |b|, false, argv);
    } else {
      assert (a + b)[|a| + j] == b[j];
      ExpandTurn(env, counts, a + b, |a| + j, false, argv);
      ExpandTurn(env, counts, b, j, false, argv);
      if b[j] == '$' {
        DollarShift(env, counts, a, b, j + 1, argv);
        var d := ExpandDollar(env, counts, b, j + 1, argv);
        if d.Ok? {
          ExpandFromShift(env, counts, a, b, d.value.1, argv);
        }
      } else {
        ExpandFromShift(env, counts, a, b, j + 1, argv);
      }
    }
  }

  /** The same result, `k` characters further on. */
  function Moved(k: nat, r: Result<(string, nat)>): Result<(string, nat)> {
    if r.Err? then r else Ok((r.value.0, k + r.value.1))
  }

  lemma {:induction false} CloseParenShift(a: string, b: string, q: nat, nest: nat)
    requires q <= |b|
    ensures CloseParen(a + b, |a| + q, nest) == match CloseParen(b, q, nest)
                                                case None => None
                                                case Some(r) => Some(|a| + r)
    decreases |b| - q
  {
    if q < |b| {
      assert (a + b)[|a| + q] == b[q];
      if b[q] == '(' { CloseParenShift(a, b, q + 1, nest + 1); }
      else if b[q] == ')' { if nest > 0 { CloseParenShift(a, b, q + 1, nest - 1); } }
      else { CloseParenShift(a, b, q + 1, nest); }
    }
  }

  lemma DollarShift(env: Env, counts: Counts, a: string, b: string, p: nat, argv: seq<string>)
    requires Fits(env, counts) && 0 < p <= |b|
    ensures ExpandDollar(env, counts, a + b, |a| + p, argv) == Moved(|a|, ExpandDollar(env, counts, b, p, argv))
  {
    hide EvalClause;
    if p < |b| && b[p] == '(' {
      assert (a + b)[|a| + p] == b[p];
      CloseParenShift(a, b, p + 1, 0);
      var r := CloseParen(b, p + 1, 0);
      assert r.Some? ==> (a + b)[|a| + p + 1..|a| + r.value] == b[p + 1..r.value];
    }
  }

  /** Expansion goes through concatenation: a closed string expands the same whatever
      follows it, unless a '(' follows, which could complete a trailing '$'. */
  lemma ExpandConcat(env: Env, counts: Counts, a: string, b: string, argv: seq<string>)
    requires Fits(env, counts) && Closed(a, 0) && (b == [] || b[0] != '(')
    ensures var x, y := Expand(env, counts, a, argv), Expand(env, counts, b, argv);
            Expand(env, counts, a + b, argv)
            == if x.Err? then Err(x.error) else if y.Err? then Err(y.error) else Ok(x.value + y.value)
  {
    ExpandFromConcat(env, counts, a, b, 0, argv);
    ExpandFromShift(env, counts, a, b, 0, argv);
  }

  /** Text without a '$' stands for itself. */
  lemma {:induction false} PlainText(env: Env, counts: Counts, s: string, i: nat, argv: seq<string>)
    requires Fits(env, counts) && i <= |s| && '$' !in s
    ensures ExpandFrom(env, counts, s, i, false, argv) == Ok((s[i..], |s|))
    decreases |s| - i
  {
    if i < |s| {
      PlainText(env, counts, s, i + 1, argv);
      assert s[i..] == [s[i]] + s[i + 1..];
    }
  }

  // ----- The recursion guard -----

  /** `low` has every counter at most as high as `counts`. */
  predicate Below(low: Counts, counts: Counts) {
    low.Keys == counts.Keys && forall name :: name in counts ==> low[name] <= counts[name]
  }

  /** The guard never changes a result: what expands while other expansions are under way
      expands to the same with fewer of them, or none. */
  lemma {:induction false} ExpandFromGuard(env: Env, counts: Counts, low: Counts, s: string, i: nat, token: bool, argv: seq<string>)
    requires Fits(env, counts) && Fits(env, low) && Below(low, counts) && i <= |s|
    requires ExpandFrom(env, counts, s, i, token, argv).Ok?
    ensures ExpandFrom(env, low, s, i, token, argv) == ExpandFrom(env, counts, s, i, token, argv)
    decreases Remaining(env, counts), |s|, 2, |s| - i
  {
    if !Ends(s, i, token) {
      if s[i] == '$' {
        DollarGuard(env, counts, low, s, i + 1, argv);
        ExpandFromGuard(env, counts, low, s, ExpandDollar(env, counts, s, i + 1, argv).value.1, token, argv);
      } else {
        ExpandFromGuard(env, counts, low, s, i + 1, token, argv);
      }
    }
  }

  lemma {:induction false} DollarGuard(env: Env, counts: Counts, low: Counts, s: string, p: nat, argv: seq<string>)
    requires Fits(env, counts) && Fits(env, low) && Below(low, counts) && 0 < p <= |s|
    requires ExpandDollar(env, counts, s, p, argv).Ok?
    ensures ExpandDollar(env, low, s, p, argv) == ExpandDollar(env, counts, s, p, argv)
    decreases Remaining(env, counts), |s|, 1
  {
    if p < |s| && s[p] == '(' {
      var q := CloseParen(s, p + 1, 0).value;
      EvalClauseGuard(env, counts, low, s[p + 1..q], argv);
    }
  }

  lemma {:induction false} EvalClauseGuard(env: Env, counts: Counts, low: Counts, clause: string, argv: seq<string>)
    requires Fits(env, counts) && Fits(env, low) && Below(low, counts)
    requires EvalClause(env, counts, clause, argv).Ok?
    ensures EvalClause(env, low, clause, argv) == EvalClause(env, counts, clause, argv)
    decreases Remaining(env, counts), |clause|, 5
  {
    var n := ArgumentNumber(clause);
    if !(n.Some? && 0 < n.value <= |argv|) {
      var pieces := Split(clause);
      PieceGuard(env, counts, low, |clause|, pieces[0], argv);
      AllGuard(env, counts, low, |clause|, pieces[1..], argv);
      var name := Expand(env, counts, pieces[0], argv).value;
      var args := ExpandAll(env, counts, |clause|, pieces[1..], argv).value;
      ResolveGuard(env, counts, low, |clause|, name, args);
    }
  }

  lemma {:induction false} PieceGuard(env: Env, counts: Counts, low: Counts, bound: nat, piece: string, argv: seq<string>)
    requires Fits(env, counts) && Fits(env, low) && Below(low, counts) && |piece| <= bound
    requires Expand(env, counts, piece, argv).Ok?
    ensures Expand(env, low, piece, argv) == Expand(env, counts, piece, argv)
    decreases Remaining(env, counts), bound, 3
  {
    ExpandFromGuard(env, counts, low, piece, 0, false, argv);
  }

  lemma {:induction false} AllGuard(env: Env, counts: Counts, low: Counts, bound: nat, pieces: seq<string>, argv: seq<string>)
    requires Fits(env, counts) && Fits(env, low) && Below(low, counts)
    requires forall i :: 0 <= i < |pieces| ==> |pieces[i]| <= bound
    requires ExpandAll(env, counts, bound, pieces, argv).Ok?
    ensures ExpandAll(env, low, bound, pieces, argv) == ExpandAll(env, counts, bound, pieces, argv)
    decreases Remaining(env, counts), bound, 4, |pieces|
  {
    if pieces != [] {
      PieceGuard(env, counts, low, bound, pieces[0], argv);
      AllGuard(env, counts, low, bound, pieces[1..], argv);
    }
  }

  lemma {:induction false} ResolveGuard(env: Env, counts: Counts, low: Counts, bound: nat, name: string, args: seq<string>)
    requires Fits(env, counts) && Fits(env, low) && Below(low, counts)
    requires Resolve(env, counts, bound, name, args).Ok?
    ensures Resolve(env, low, bound, name, args) == Resolve(env, counts, bound, name, args)
    decreases Remaining(env, counts), bound, 4
  {
    hide ExpandVariable;
    VariableGuard(env, counts, low, bound, name, args);
  }

  lemma {:induction false} VariableGuard(env: Env, counts: Counts, low: Counts, bound: nat, name: string, args: seq<string>)
    requires Fits(env, counts) && Fits(env, low) && Below(low, counts)
    requires ExpandVariable(env, counts, bound, name, args).Ok?
    ensures ExpandVariable(env, low, bound, name, args) == ExpandVariable(env, counts, bound, name, args)
    decreases Remaining(env, counts), bound, 3
  {
    if name in env.vars && env.vars[name].recursive {
      EnterShrinks(env, counts, name);
      EnterShrinks(env, low, name);
      var value := env.vars[name].value;
      assert Expand(env, Enter(counts, name), value, args).Ok?;
      ExpandFromGuard(env, Enter(counts, name), Enter(low, name), value, 0, false, args);
      assert Expand(env, Enter(low, name), value, args) == Expand(env, Enter(counts, name), value, args);
    }
  }
}
