/** What a reference expands to: arguments by number, user functions with their arguments,
    variables, built-in functions and the environment. */
module MacroLaws {
  import opened CText
  import opened Decimals
  import opened Macro
  import opened MacroProofs

  // ----- Numbers -----

  /** Text without '$', comma and parentheses. */
  predicate Plain(s: string) {
    forall c :: c in s ==> c != '$' && c != ',' && c != '(' && c != ')'
  }

  lemma {:induction false} DecimalPlain(k: nat)
    ensures Plain(Decimal(k))
  {
    if k < 10 {
      DigitReads(k);
    } else {
      DigitReads(k % 10);
      DecimalPlain(k / 10);
    }
  }

  lemma DecimalIsNumber(k: nat)
    requires k <= MAX_UNSIGNED
    ensures ArgumentNumber(Decimal(k)) == Some(k)
  {
    hide Decimal, ScanInteger;
    DecimalScans(k);
  }

  lemma {:induction false} ScanStops(s: string, i: nat, acc: nat, k: nat)
    requires i <= k < |s| && s[k] == ','
    ensures ScanDigits(s, i, 10, acc).1 <= k
    decreases |s| - i
  {
    if i < k && DigitValue(s[i]) < 10 {
      ScanStops(s, i + 1, acc * 10 + DigitValue(s[i]), k);
    }
  }

  lemma {:induction false} SkipStops(s: string, i: nat, k: nat)
    requires i <= k < |s| && s[k] == ','
    ensures SkipSpaces(s, i) <= k
    decreases |s| - i
  {
    if i < k && IsSpace(s[i]) { SkipStops(s, i + 1, k); }
  }

  /** What has a comma in it is no argument number. */
  lemma CommaIsNoNumber(s: string, k: nat)
    requires k < |s| && s[k] == ','
    ensures ArgumentNumber(s) == None
  {
    SkipStops(s, 0, k);
    var i := SkipSpaces(s, 0);
    var j := if s[i] == '-' || s[i] == '+' then i + 1 else i;
    ScanStops(s, j, 0, k);
  }

  // ----- A reference and its clause -----

  lemma {:induction false} ClosesAt(s: string, q: nat, nest: nat, e: nat)
    requires q <= e < |s| && s[e] == ')' && Depth(s[q..e], nest) == Some(0)
    ensures CloseParen(s, q, nest) == Some(e)
    decreases e - q
  {
    if q < e {
      assert s[q..e][1..] == s[q + 1..e];
      ClosesAt(s, q + 1, if s[q] == '(' then nest + 1 else if s[q] == ')' then nest - 1 else nest, e);
    } else {
      assert s[q..e] == [];
    }
  }

  function Reference(clause: string): string {
    "$(" + clause + ")"
  }

  /** "$(" clause ")" is what the clause evaluates to. */
  lemma ReferenceLaw(env: Env, counts: Counts, clause: string, argv: seq<string>)
    requires Fits(env, counts) && Balanced(clause)
    ensures Expand(env, counts, Reference(clause), argv) == EvalClause(env, counts, clause, argv)
  {
    hide ExpandFrom, EvalClause, CloseParen;
    var s := Reference(clause);
    var e := |clause| + 2;
    assert s[2..e] == clause;
    ClosesAt(s, 2, 0, e);
    ExpandTurn(env, counts, s, 0, false, argv);
    ExpandEnd(env, counts, s, |s|, false, argv);
    var r := EvalClause(env, counts, clause, argv);
    assert r.Ok? ==> r.value + "" == r.value;
  }

  /** $(k) is the k-th argument. */
  lemma ArgumentLaw(env: Env, counts: Counts, k: nat, argv: seq<string>)
    requires Fits(env, counts) && 1 <= k <= |argv| && k <= MAX_UNSIGNED
    ensures Expand(env, counts, Reference(Decimal(k)), argv) == Ok(argv[k - 1])
  {
    hide Expand;
    DecimalPlain(k);
    PlainPiece(Decimal(k), 0);
    ReferenceLaw(env, counts, Decimal(k), argv);
    DecimalIsNumber(k);
  }

  /** A lone '$' stands for itself. */
  lemma LoneDollar(env: Env, counts: Counts, argv: seq<string>)
    requires Fits(env, counts)
    ensures Expand(env, counts, "$", argv) == Ok("$")
  {
    ExpandTurn(env, counts, "$", 0, false, argv);
    ExpandEnd(env, counts, "$", 1, false, argv);
    assert "$" + "" == "$";
  }

  // ----- Calls -----

  lemma {:induction false} PlainPiece(s: string, nest: nat)
    requires Plain(s)
    ensures Depth(s, nest) == Some(nest) && NoTopComma(s, nest)
  {
    if s != [] {
      assert s[0] in s && forall c :: c in s[1..] ==> c in s;
      PlainPiece(s[1..], nest);
    }
  }

  /** A piece that ends at `e`, read from `p` on, is cut there. */
  lemma {:induction false} SplitAt(s: string, start: nat, p: nat, nest: nat, e: nat)
    requires start <= p <= e <= |s| && (e < |s| ==> s[e] == ',')
    requires Depth(s[p..e], nest) == Some(0) && NoTopComma(s[p..e], nest)
    ensures SplitFrom(s, start, p, nest) == if e == |s| then [s[start..]] else [s[start..e]] + SplitFrom(s, e + 1, e + 1, 0)
    decreases e - p
  {
    if p < e {
      assert s[p..e][1..] == s[p + 1..e];
      SplitAt(s, start, p + 1, if s[p] == '(' then nest + 1 else if s[p] == ')' then nest - 1 else nest, e);
    } else {
      assert s[p..e] == [];
    }
  }

  predicate Pieces(pieces: seq<string>) {
    |pieces| >= 1 && forall i :: 0 <= i < |pieces| ==> Piece(pieces[i])
  }

  /** Pieces that are joined with commas are cut apart again. */
  lemma {:induction false} SplitJoined(s: string, start: nat, pieces: seq<string>)
    requires Pieces(pieces) && start <= |s| && s[start..] == Join(pieces)
    ensures SplitFrom(s, start, start, 0) == pieces
    decreases |pieces|
  {
    var e := start + |pieces[0]|;
    assert s[start..e] == pieces[0] by {
      assert s[start..][..|pieces[0]|] == pieces[0];
    }
    if |pieces| > 1 {
      assert s[start..][|pieces[0]|] == ',';
      assert s[e + 1..] == Join(pieces[1..]) by {
        assert s[start..][|pieces[0]| + 1..] == Join(pieces[1..]);
      }
      SplitJoined(s, e + 1, pieces[1..]);
    }
    SplitAt(s, start, start, 0, e);
  }

  lemma {:induction false} JoinBalanced(pieces: seq<string>)
    requires Pieces(pieces)
    ensures Balanced(Join(pieces))
  {
    if |pieces| > 1 {
      JoinBalanced(pieces[1..]);
      var rest := Join(pieces[1..]);
      assert ("," + rest)[1..] == rest;
      DepthAppend(pieces[0], "," + rest, 0);
      assert pieces[0] + "," + rest == pieces[0] + ("," + rest);
    }
  }

  /** What the pieces expand to, one by one. */
  predicate ExpandTo(env: Env, counts: Counts, pieces: seq<string>, argv: seq<string>, values: seq<string>)
    requires Fits(env, counts)
  {
    |values| == |pieces| && forall i :: 0 <= i < |pieces| ==> Expand(env, counts, pieces[i], argv) == Ok(values[i])
  }

  lemma {:induction false} ArgumentsExpand(env: Env, counts: Counts, bound: nat, pieces: seq<string>, argv: seq<string>, values: seq<string>)
    requires Fits(env, counts) && (forall i :: 0 <= i < |pieces| ==> |pieces[i]| <= bound)
    requires ExpandTo(env, counts, pieces, argv, values)
    ensures ExpandAll(env, counts, bound, pieces, argv) == Ok(values)
    decreases pieces
  {
    hide Expand;
    if pieces != [] {
      ArgumentsExpand(env, counts, bound, pieces[1..], argv, values[1..]);
      assert values == [values[0]] + values[1..];
    }
  }

  /** A clause that is a call: one with arguments, or whose name is no argument number. */
  predicate IsCall(pieces: seq<string>, argv: seq<string>)
    requires |pieces| >= 1
  {
    |pieces| > 1 || match ArgumentNumber(pieces[0])
                    case None => true
                    case Some(n) => n == 0 || n > |argv|
  }

  /** The number the clause is, if it is a call, is none of an argument. */
  lemma CallIsNoNumber(pieces: seq<string>, argv: seq<string>)
    requires |pieces| >= 1 && IsCall(pieces, argv)
    ensures var n := ArgumentNumber(Join(pieces)); !(n.Some? && 0 < n.value <= |argv|)
  {
    hide ArgumentNumber;
    if |pieces| > 1 {
      CommaIsNoNumber(Join(pieces), |pieces[0]|);
    }
  }

  /** The name and the arguments of a call are expanded by themselves, with the arguments of
      the caller, and then looked up. */
  lemma CallLaw(env: Env, counts: Counts, pieces: seq<string>, argv: seq<string>, values: seq<string>)
    requires Fits(env, counts) && Pieces(pieces) && |pieces| <= MAX_ARGS && IsCall(pieces, argv)
    requires ExpandTo(env, counts, pieces, argv, values)
    ensures Expand(env, counts, Reference(Join(pieces)), argv)
            == Resolve(env, counts, |Join(pieces)|, values[0], values[1..])
  {
    hide Expand, Resolve, Piece, ArgumentNumber;
    var clause := Join(pieces);
    JoinBalanced(pieces);
    ReferenceLaw(env, counts, clause, argv);
    CallIsNoNumber(pieces, argv);
    assert clause[0..] == clause;
    SplitJoined(clause, 0, pieces);
    assert Split(clause) == pieces;
    ArgumentsExpand(env, counts, |clause|, pieces[1..], argv, values[1..]);
  }

  /** With sixteen arguments or more a call ends the program. */
  lemma TooManyLaw(env: Env, counts: Counts, pieces: seq<string>, argv: seq<string>)
    requires Fits(env, counts) && Pieces(pieces) && |pieces| > 16
    ensures Expand(env, counts, Reference(Join(pieces)), argv)
            == Err(if |pieces| == 17 then ArgumentOverrun else TooManyArguments)
  {
    hide Expand, Resolve, Piece, ArgumentNumber;
    var clause := Join(pieces);
    JoinBalanced(pieces);
    ReferenceLaw(env, counts, clause, argv);
    CallIsNoNumber(pieces, argv);
    assert clause[0..] == clause;
    SplitJoined(clause, 0, pieces);
  }

  // ----- Calls with plain text -----

  /** "$(name,arg,...)". */
  function CallText(name: string, args: seq<string>): string {
    Reference(Join([name] + args))
  }

  /** A call of plain text that is no argument number. */
  predicate PlainCall(name: string, args: seq<string>, argv: seq<string>) {
    && Plain(name) && (forall i :: 0 <= i < |args| ==> Plain(args[i])) && |args| <= 15
    && IsCall([name] + args, argv)
  }

  lemma PlainExpands(env: Env, counts: Counts, s: string, argv: seq<string>)
    requires Fits(env, counts) && Plain(s)
    ensures Expand(env, counts, s, argv) == Ok(s) && Piece(s)
  {
    PlainText(env, counts, s, 0, argv);
    PlainPiece(s, 0);
    assert s[0..] == s;
  }

  lemma PlainCallLaw(env: Env, counts: Counts, name: string, args: seq<string>, argv: seq<string>)
    requires Fits(env, counts) && PlainCall(name, args, argv)
    ensures Expand(env, counts, CallText(name, args), argv)
            == Resolve(env, counts, |Join([name] + args)|, name, args)
  {
    hide Expand, Resolve, Plain, Piece, IsCall;
    var pieces := [name] + args;
    forall i | 0 <= i < |pieces| ensures Expand(env, counts, pieces[i], argv) == Ok(pieces[i]) && Piece(pieces[i]) {
      PlainExpands(env, counts, pieces[i], argv);
    }
    CallLaw(env, counts, pieces, argv, pieces);
    assert pieces[1..] == args;
  }

  /** A user function or recursive variable: its value, expanded with the arguments of this
      call while its counter is one higher. Without arguments it must not be under way. */
  lemma UserCallLaw(env: Env, counts: Counts, name: string, args: seq<string>, argv: seq<string>)
    requires Fits(env, counts) && PlainCall(name, args, argv)
    requires name in env.vars && env.vars[name].recursive
    requires if args == [] then counts[name] == 0 else counts[name] <= 1000
    ensures Fits(env, counts[name := counts[name] + 1])
    ensures Expand(env, counts, CallText(name, args), argv)
            == Expand(env, counts[name := counts[name] + 1], env.vars[name].value, args)
  {
    hide Expand, PlainCall;
    PlainCallLaw(env, counts, name, args, argv);
    EnterShrinks(env, counts, name);
  }

  /** A user function that is nothing but $(k) returns its k-th argument. */
  lemma PassesArgument(env: Env, counts: Counts, name: string, args: seq<string>, argv: seq<string>, k: nat)
    requires Fits(env, counts) && PlainCall(name, args, argv) && 1 <= k <= |args|
    requires name in env.vars && env.vars[name] == Variable(Reference(Decimal(k)), true) && counts[name] <= 1000
    ensures Expand(env, counts, CallText(name, args), argv) == Ok(args[k - 1])
  {
    hide Expand, IsCall, Plain;
    UserCallLaw(env, counts, name, args, argv);
    ArgumentLaw(env, counts[name := counts[name] + 1], k, args);
  }

  /** A simple variable: its value as it is. */
  lemma SimpleCallLaw(env: Env, counts: Counts, name: string, args: seq<string>, argv: seq<string>)
    requires Fits(env, counts) && PlainCall(name, args, argv)
    requires name in env.vars && !env.vars[name].recursive
    requires if args == [] then counts[name] == 0 else counts[name] <= 1000
    ensures Expand(env, counts, CallText(name, args), argv) == Ok(env.vars[name].value)
  {
    hide Expand, PlainCall;
    PlainCallLaw(env, counts, name, args, argv);
  }

  /** A variable that is under way is an error: without arguments at once, with arguments
      beyond a thousand. */
  lemma RecursionErrors(env: Env, counts: Counts, name: string, args: seq<string>, argv: seq<string>)
    requires Fits(env, counts) && PlainCall(name, args, argv) && name in env.vars
    requires if args == [] then counts[name] > 0 else counts[name] > 1000
    ensures Expand(env, counts, CallText(name, args), argv) == Err(if args == [] then SelfReference else TooDeep)
  {
    hide Expand, PlainCall;
    PlainCallLaw(env, counts, name, args, argv);
  }

  /** The built-in functions, each with its number of arguments. */
  function Builtins(): map<string, nat> {
    map["error-if" := 2, "filename" := 0, "info" := 1, "lineno" := 0, "shell" := 1, "warning-if" := 2]
  }

  /** A name that is no variable: a built-in function, which takes exactly its number of
      arguments; without arguments an environment variable; nothing otherwise. */
  lemma OtherCallLaw(env: Env, counts: Counts, name: string, args: seq<string>, argv: seq<string>)
    requires Fits(env, counts) && PlainCall(name, args, argv) && name !in env.vars
    ensures Expand(env, counts, CallText(name, args), argv) ==
            if name in Builtins() then
              if |args| < Builtins()[name] then Err(BadCall("too few function arguments"))
              else if |args| > Builtins()[name] then Err(BadCall("too many function arguments"))
              else match env.builtin(name, args)
                   case Returned(value) => Ok(value)
                   case Failed(message) => Err(BadCall(message))
            else if args == [] && name != "" then
              match env.getenv(name)
              case Some(value) => Ok(value)
              case None => Ok("")
            else Ok("")
  {
    hide Expand, PlainCall;
    PlainCallLaw(env, counts, name, args, argv);
  }
}
