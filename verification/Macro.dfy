/** The Kconfig macro expander as functions: what a string expands to, or which error ends
    the program. */
module Macro {
  import opened CText

  datatype Error =
    | Unterminated         // missing ')'
    | SelfReference        // "Recursive variable references itself (eventually)"
    | TooDeep              // "Too deep recursive expansion"
    | TooManyArguments     // more than 16 separators in one clause
    | ArgumentOverrun      // exactly 16: the C code stores one piece past its array
    | BadCall(message: string)

  datatype Result<+T> = Ok(value: T) | Err(error: Error) {
    predicate IsFailure() {
      Err?
    }

    function PropagateFailure<U>(): Result<U>
      requires Err?
    {
      Err(error)
    }

    function Extract(): T
      requires Ok?
    {
      value
    }
  }

  datatype Option<+T> = None | Some(value: T)

  datatype Variable = Variable(value: string, recursive: bool)

  /** What a built-in function does: return a string, or end the program. */
  datatype Call = Returned(value: string) | Failed(message: string)

  /** The variables, and what lies outside: the built-in functions that are called with an
      admissible number of arguments, and the environment. */
  datatype Env = Env(vars: map<string, Variable>,
                     builtin: (string, seq<string>) -> Call,
                     getenv: string -> Option<string>)

  /** How many expansions of each variable are under way (exp_count). */
  type Counts = map<string, nat>

  const MAX_ARGS: nat := 16
  const MAX_COUNT: nat := 1000

  predicate Fits(env: Env, counts: Counts) {
    && counts.Keys == env.vars.Keys
    && forall name :: name in counts ==> counts[name] <= MAX_COUNT + 1
  }

  /** The expansions that the counters still allow: for each variable, the values its
      counter has yet to go through. Each nested expansion takes one away. */
  function Remaining(env: Env, counts: Counts): set<(string, nat)>
    requires Fits(env, counts)
  {
    set name, k: nat | name in counts && counts[name] <= k <= MAX_COUNT :: (name, k)
  }

  // ----- Finding and splitting clauses -----

  /** From `q` on, the position of the ')' that closes `nest` + 1 open parentheses. */
  function CloseParen(s: string, q: nat, nest: nat): (r: Option<nat>)
    requires q <= |s|
    ensures r.Some? ==> q <= r.value < |s| && s[r.value] == ')'
    decreases |s| - q
  {
    if q == |s| then None
    else if s[q] == '(' then CloseParen(s, q + 1, nest + 1)
    else if s[q] == ')' then if nest == 0 then Some(q) else CloseParen(s, q + 1, nest - 1)
    else CloseParen(s, q + 1, nest)
  }

  /** Cuts `s[start..]` at the commas outside parentheses, seen from `p` on. */
  function SplitFrom(s: string, start: nat, p: nat, nest: int): (pieces: seq<string>)
    requires start <= p <= |s|
    ensures |pieces| >= 1
    ensures forall i :: 0 <= i < |pieces| ==> |pieces[i]| <= |s|
    decreases |s| - p
  {
    if p == |s| then [s[start..]]
    else if nest == 0 && s[p] == ',' then [s[start..p]] + SplitFrom(s, p + 1, p + 1, nest)
    else if s[p] == '(' then SplitFrom(s, start, p + 1, nest + 1)
    else if s[p] == ')' then SplitFrom(s, start, p + 1, nest - 1)
    else SplitFrom(s, start, p + 1, nest)
  }

  function Split(s: string): (pieces: seq<string>)
    ensures |pieces| >= 1
    ensures forall i :: 0 <= i < |pieces| ==> |pieces[i]| <= |s|
  {
    SplitFrom(s, 0, 0, 0)
  }

  /** strtoul over the whole clause: the number it is, if it is one. */
  function ArgumentNumber(s: string): Option<nat> {
    var scan := ScanInteger(s, 10);
    if scan.end != |s| then None
    else if scan.magnitude > MAX_UNSIGNED then Some(MAX_UNSIGNED)
    else Some(AsUnsigned(scan.Value()))
  }

  // ----- Expansion -----

  predicate EndsToken(c: char) {
    !('0' <= c <= '9' || 'a' <= c <= 'z' || 'A' <= c <= 'Z' || c == '_' || c == '-')
  }

  /** Where __expand_string stops: at the end of the string or, for a token, at the first
      character that is not part of one. */
  predicate Ends(s: string, i: nat, token: bool)
    requires i <= |s|
  {
    i == |s| || (token && s[i] != '$' && EndsToken(s[i]))
  }

  /** __expand_string from position `i` on: the expansion and the end position. */
  function ExpandFrom(env: Env, counts: Counts, s: string, i: nat, token: bool, argv: seq<string>): (r: Result<(string, nat)>)
    requires Fits(env, counts) && i <= |s|
    ensures r.Ok? ==> i <= r.value.1 <= |s|
    decreases Remaining(env, counts), |s|, 2, |s| - i
  {
    if Ends(s, i, token) then Ok(("", i))
    else if s[i] == '$' then
      var (expansion, next) :- ExpandDollar(env, counts, s, i + 1, argv);
      var (rest, end) :- ExpandFrom(env, counts, s, next, token, argv);
      Ok((expansion + rest, end))
    else
      var (rest, end) :- ExpandFrom(env, counts, s, i + 1, token, argv);
      Ok(([s[i]] + rest, end))
  }

  /** expand_string_with_args. */
  function Expand(env: Env, counts: Counts, s: string, argv: seq<string>): Result<string>
    requires Fits(env, counts)
    decreases Remaining(env, counts), |s|, 3
  {
    var (out, _) :- ExpandFrom(env, counts, s, 0, false, argv);
    Ok(out)
  }

  /** expand_dollar_with_args, `p` being just after the '$'. */
  function ExpandDollar(env: Env, counts: Counts, s: string, p: nat, argv: seq<string>): (r: Result<(string, nat)>)
    requires Fits(env, counts) && 0 < p <= |s|
    ensures r.Ok? ==> p <= r.value.1 <= |s|
    decreases Remaining(env, counts), |s|, 1
  {
    if p == |s| || s[p] != '(' then Ok(("$", p))
    else
      match CloseParen(s, p + 1, 0)
      case None => Err(Unterminated)
      case Some(q) =>
        var expansion :- EvalClause(env, counts, s[p + 1..q], argv);
        Ok((expansion, q + 1))
  }

  /** eval_clause. */
  function EvalClause(env: Env, counts: Counts, clause: string, argv: seq<string>): Result<string>
    requires Fits(env, counts)
    decreases Remaining(env, counts), |clause|, 5
  {
    var n := ArgumentNumber(clause);
    if n.Some? && 0 < n.value <= |argv| then Ok(argv[n.value - 1])
    else
      var pieces := Split(clause);
      if |pieces| > MAX_ARGS + 1 then Err(TooManyArguments)
      else if |pieces| == MAX_ARGS + 1 then Err(ArgumentOverrun)
      else
        var name :- Expand(env, counts, pieces[0], argv);
        var args :- ExpandAll(env, counts, |clause|, pieces[1..], argv);
        Resolve(env, counts, |clause|, name, args)
  }

  /** The arguments, from left to right; `bound` limits their length. */
  function ExpandAll(env: Env, counts: Counts, bound: nat, pieces: seq<string>, argv: seq<string>): (r: Result<seq<string>>)
    requires Fits(env, counts) && forall i :: 0 <= i < |pieces| ==> |pieces[i]| <= bound
    ensures r.Ok? ==> |r.value| == |pieces|
    decreases Remaining(env, counts), bound, 4, |pieces|
  {
    if pieces == [] then Ok([])
    else
      var arg :- Expand(env, counts, pieces[0], argv);
      var args :- ExpandAll(env, counts, bound, pieces[1..], argv);
      Ok([arg] + args)
  }

  /** What the expanded name means: a variable, a built-in function, an environment
      variable, or nothing. */
  function Resolve(env: Env, counts: Counts, bound: nat, name: string, args: seq<string>): Result<string>
    requires Fits(env, counts)
    decreases Remaining(env, counts), bound, 4
  {
    var variable :- ExpandVariable(env, counts, bound, name, args);
    if variable.Some? then Ok(variable.value)
    else
      var called :- CallBuiltin(env, name, args);
      if called.Some? then Ok(called.value)
      else if args == [] && name != "" && env.getenv(name).Some? then Ok(env.getenv(name).value)
      else Ok("")
  }

  /** variable_expand. */
  function ExpandVariable(env: Env, counts: Counts, bound: nat, name: string, args: seq<string>): Result<Option<string>>
    requires Fits(env, counts)
    decreases Remaining(env, counts), bound, 3
  {
    if name !in env.vars then Ok(None)
    else if args == [] && counts[name] > 0 then Err(SelfReference)
    else if counts[name] > MAX_COUNT then Err(TooDeep)
    else if !env.vars[name].recursive then Ok(Some(env.vars[name].value))
    else
      EnterShrinks(env, counts, name);
      var res :- Expand(env, Enter(counts, name), env.vars[name].value, args);
      Ok(Some(res))
  }

  function Enter(counts: Counts, name: string): Counts
    requires name in counts
  {
    counts[name := counts[name] + 1]
  }

  lemma EnterShrinks(env: Env, counts: Counts, name: string)
    requires Fits(env, counts) && name in counts && counts[name] <= MAX_COUNT
    ensures Fits(env, Enter(counts, name))
    ensures Remaining(env, Enter(counts, name)) < Remaining(env, counts)
  {
    var inner := Enter(counts, name);
    assert (name, counts[name]) in Remaining(env, counts);
    assert (name, counts[name]) !in Remaining(env, inner);
  }

  /** function_expand: the table of built-in functions and their numbers of arguments. */
  function CallBuiltin(env: Env, name: string, args: seq<string>): Result<Option<string>> {
    match Arity(name)
    case None => Ok(None)
    case Some(n) =>
      if |args| < n then Err(BadCall("too few function arguments"))
      else if |args| > n then Err(BadCall("too many function arguments"))
      else
        match env.builtin(name, args)
        case Returned(value) => Ok(Some(value))
        case Failed(message) => Err(BadCall(message))
  }

  function Arity(name: string): Option<nat> {
    if name == "error-if" || name == "warning-if" then Some(2)
    else if name == "info" || name == "shell" then Some(1)
    else if name == "filename" || name == "lineno" then Some(0)
    else None
  }
}
