/** The macro expander as preprocess.c runs it: loops over the text, output collected as it
    goes, and the counter of a variable raised around its expansion. Errors end the
    program, so the counters matter only on success. */
module MacroExpander {
  import opened Macro
  import opened MacroProofs

  class Expander {
    const env: Env
    var expCount: Counts

    constructor (env: Env)
      ensures this.env == env && Valid()
      ensures forall name :: name in expCount ==> expCount[name] == 0
    {
      this.env := env;
      expCount := map name | name in env.vars :: 0;
    }

    /** Every variable has a counter, and none is above 1001. */
    predicate Valid()
      reads this
    {
      Fits(env, expCount)
    }

    /** __expand_string: copies text up to the next reference, then the expansion. */
    method ExpandText(s: string, start: nat, token: bool, argv: seq<string>) returns (r: Result<(string, nat)>)
      requires Valid() && start <= |s|
      modifies this`expCount
      ensures r == ExpandFrom(env, old(expCount), s, start, token, argv)
      ensures r.Ok? ==> expCount == old(expCount)
      decreases Remaining(env, expCount), |s|, 2
    {
      hide ExpandFrom, ExpandDollar;
      var out := "";
      var pending, p := start, start;
      ghost var goal := ExpandFrom(env, expCount, s, start, token, argv);
      assert s[start..start] == "";
      PrefixNothing(goal);
      while !Ends(s, p, token)
        invariant start <= pending <= p <= |s|
        invariant expCount == old(expCount)
        invariant goal == Prefix(out + s[pending..p], ExpandFrom(env, expCount, s, p, token, argv))
        decreases |s| - p
      {
        ExpandTurn(env, expCount, s, p, token, argv);
        if s[p] == '$' {
          var expansion := ExpandReference(s, p + 1, argv);
          if expansion.Err? {
            return Err(expansion.error);
          }
          PrefixTwice(out + s[pending..p], expansion.value.0, ExpandFrom(env, expCount, s, expansion.value.1, token, argv));
          out := out + s[pending..p] + expansion.value.0;
          p := expansion.value.1;
          pending := p;
          assert out + s[pending..p] == out;
        } else {
          PrefixTwice(out + s[pending..p], [s[p]], ExpandFrom(env, expCount, s, p + 1, token, argv));
          assert s[pending..p + 1] == s[pending..p] + [s[p]];
          assert (out + s[pending..p]) + [s[p]] == out + s[pending..p + 1];
          p := p + 1;
        }
      }
      ExpandEnd(env, expCount, s, p, token, argv);
      r := Ok((out + s[pending..p], p));
      assert out + s[pending..p] + "" == out + s[pending..p];
    }

    /** expand_string_with_args. */
    method ExpandString(s: string, argv: seq<string>) returns (r: Result<string>)
      requires Valid()
      modifies this`expCount
      ensures r == Expand(env, old(expCount), s, argv)
      ensures r.Ok? ==> expCount == old(expCount)
      decreases Remaining(env, expCount), |s|, 3
    {
      var res := ExpandText(s, 0, false, argv);
      r := if res.Ok? then Ok(res.value.0) else Err(res.error);
    }

    /** expand_dollar_with_args: `p` is just after the '$'. */
    method ExpandReference(s: string, p: nat, argv: seq<string>) returns (r: Result<(string, nat)>)
      requires Valid() && 0 < p <= |s|
      modifies this`expCount
      ensures r == ExpandDollar(env, old(expCount), s, p, argv)
      ensures r.Ok? ==> expCount == old(expCount)
      decreases Remaining(env, expCount), |s|, 1
    {
      if p == |s| || s[p] != '(' {
        return Ok(("$", p));
      }
      var q, nest := p + 1, 0;
      while q < |s| && !(s[q] == ')' && nest == 0)
        invariant p + 1 <= q <= |s| && nest >= 0
        invariant CloseParen(s, p + 1, 0) == CloseParen(s, q, nest)
      {
        if s[q] == '(' {
          nest := nest + 1;
        } else if s[q] == ')' {
          nest := nest - 1;
        }
        q := q + 1;
      }
      if q == |s| {
        return Err(Unterminated);
      }
      var expansion := EvaluateClause(s[p + 1..q], argv);
      r := if expansion.Ok? then Ok((expansion.value, q + 1)) else Err(expansion.error);
    }

    /** The loop of eval_clause that cuts the clause at its commas. */
    method Tokenize(clause: string) returns (pieces: seq<string>)
      ensures pieces == Split(clause)
    {
      pieces := [];
      var prev, p, nest := 0, 0, 0;
      assert [] + Split(clause) == Split(clause);
      while p < |clause|
        invariant 0 <= prev <= p <= |clause|
        invariant Split(clause) == pieces + SplitFrom(clause, prev, p, nest)
      {
        if nest == 0 && clause[p] == ',' {
          ghost var rest := SplitFrom(clause, p + 1, p + 1, nest);
          assert pieces + ([clause[prev..p]] + rest) == (pieces + [clause[prev..p]]) + rest;
          pieces := pieces + [clause[prev..p]];
          prev := p + 1;
        } else if clause[p] == '(' {
          nest := nest + 1;
        } else if clause[p] == ')' {
          nest := nest - 1;
        }
        p := p + 1;
      }
      pieces := pieces + [clause[prev..]];
    }

    /** eval_clause. */
    method EvaluateClause(clause: string, argv: seq<string>) returns (r: Result<string>)
      requires Valid()
      modifies this`expCount
      ensures r == EvalClause(env, old(expCount), clause, argv)
      ensures r.Ok? ==> expCount == old(expCount)
      decreases Remaining(env, expCount), |clause|, 5
    {
      hide Expand, ExpandAll, Resolve, Split;
      var n := ArgumentNumber(clause);
      if n.Some? && 0 < n.value <= |argv| {
        return Ok(argv[n.value - 1]);
      }
      var pieces := Tokenize(clause);
      if |pieces| > MAX_ARGS + 1 {
        return Err(TooManyArguments);
      } else if |pieces| == MAX_ARGS + 1 {
        return Err(ArgumentOverrun);
      }
      var name := ExpandString(pieces[0], argv);
      if name.Err? {
        return Err(name.error);
      }
      var args := ExpandArguments(|clause|, pieces[1..], argv);
      if args.Err? {
        return Err(args.error);
      }
      r := LookUp(|clause|, name.value, args.value);
    }

    /** The loop of eval_clause over the arguments. */
    method ExpandArguments(ghost bound: nat, pieces: seq<string>, argv: seq<string>) returns (r: Result<seq<string>>)
      requires Valid() && forall i :: 0 <= i < |pieces| ==> |pieces[i]| <= bound
      modifies this`expCount
      ensures r == ExpandAll(env, old(expCount), bound, pieces, argv)
      ensures r.Ok? ==> expCount == old(expCount)
      decreases Remaining(env, expCount), bound, 4
    {
      hide Expand;
      var args: seq<string> := [];
      var i := 0;
      ghost var goal := ExpandAll(env, expCount, bound, pieces, argv);
      assert pieces[0..] == pieces;
      PrefixNoArguments(goal);
      while i < |pieces|
        invariant 0 <= i <= |pieces|
        invariant expCount == old(expCount)
        invariant goal == PrefixArguments(args, ExpandAll(env, expCount, bound, pieces[i..], argv))
      {
        assert pieces[i..][1..] == pieces[i + 1..];
        var arg := ExpandString(pieces[i], argv);
        if arg.Err? {
          return Err(arg.error);
        }
        PrefixArgument(args, arg.value, ExpandAll(env, expCount, bound, pieces[i + 1..], argv));
        args := args + [arg.value];
        i := i + 1;
      }
      assert args + [] == args;
      r := Ok(args);
    }

    /** The rest of eval_clause: what the name stands for. */
    method LookUp(ghost bound: nat, name: string, args: seq<string>) returns (r: Result<string>)
      requires Valid()
      modifies this`expCount
      ensures r == Resolve(env, old(expCount), bound, name, args)
      ensures r.Ok? ==> expCount == old(expCount)
      decreases Remaining(env, expCount), bound, 4
    {
      hide ExpandVariable;
      var variable := VariableExpand(bound, name, args);
      if variable.Err? {
        return Err(variable.error);
      }
      if variable.value.Some? {
        return Ok(variable.value.value);
      }
      var called := CallBuiltin(env, name, args);
      if called.Err? {
        return Err(called.error);
      }
      if called.value.Some? {
        return Ok(called.value.value);
      }
      if args == [] && name != "" && env.getenv(name).Some? {
        return Ok(env.getenv(name).value);
      }
      r := Ok("");
    }

    /** variable_expand: the counter is one higher during the expansion, and back where it
        was after it. */
    method VariableExpand(ghost bound: nat, name: string, args: seq<string>) returns (r: Result<Option<string>>)
      requires Valid()
      modifies this`expCount
      ensures r == ExpandVariable(env, old(expCount), bound, name, args)
      ensures r.Ok? ==> expCount == old(expCount)
      decreases Remaining(env, expCount), bound, 3
    {
      hide Expand;
      if name !in env.vars {
        return Ok(None);
      }
      if args == [] && expCount[name] > 0 {
        return Err(SelfReference);
      }
      if expCount[name] > MAX_COUNT {
        return Err(TooDeep);
      }
      EnterShrinks(env, expCount, name);
      expCount := expCount[name := expCount[name] + 1];
      assert Valid();
      if env.vars[name].recursive {
        var res := ExpandString(env.vars[name].value, args);
        if res.Err? {
          return Err(res.error);
        }
        r := Ok(Some(res.value));
      } else {
        r := Ok(Some(env.vars[name].value));
      }
      expCount := expCount[name := expCount[name] - 1];
      assert expCount == old(expCount);
    }
  }

  lemma PrefixNothing(r: Result<(string, nat)>)
    ensures Prefix("" + "", r) == r
  {
    if r.Ok? {
      assert "" + "" + r.value.0 == r.value.0;
    }
  }

  lemma PrefixTwice(a: string, b: string, r: Result<(string, nat)>)
    ensures Prefix(a, Prefix(b, r)) == Prefix(a + b, r)
  {
    if r.Ok? {
      assert a + (b + r.value.0) == (a + b) + r.value.0;
    }
  }

  function PrefixArguments(args: seq<string>, r: Result<seq<string>>): Result<seq<string>> {
    if r.Err? then r else Ok(args + r.value)
  }

  lemma PrefixNoArguments(r: Result<seq<string>>)
    ensures PrefixArguments([], r) == r
  {
    if r.Ok? {
      assert [] + r.value == r.value;
    }
  }

  lemma PrefixArgument(args: seq<string>, arg: string, r: Result<seq<string>>)
    ensures PrefixArguments(args, PrefixArguments([arg], r)) == PrefixArguments(args + [arg], r)
  {
    if r.Ok? {
      assert args + ([arg] + r.value) == (args + [arg]) + r.value;
    }
  }
}
