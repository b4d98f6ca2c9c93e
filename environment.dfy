/** The start-up check of src/chromalist/__main__.py: the three credentials the streaming
    client needs must be set to non-empty values, otherwise the program exits with status 1.
    The environment is a map from variable name to value; an unset variable is absent. */
module Environment {
  import opened Models
  import opened Text

  const RequiredVars: seq<string> := ["SPOTIPY_CLIENT_ID", "SPOTIPY_CLIENT_SECRET", "SPOTIPY_REDIRECT_URI"]

  /** `not os.getenv(var)`: the variable is unset or set to the empty string. */
  predicate IsMissing(env: map<string, string>, v: string) {
    v !in env || env[v] == ""
  }

  /** `[var for var in vars if not os.getenv(var)]`. */
  function MissingVars(vars: seq<string>, env: map<string, string>): (r: seq<string>)
    ensures |r| <= |vars|
    ensures forall i :: 0 <= i < |r| ==> IsMissing(env, r[i])
  {
    if vars == [] then []
    else (if IsMissing(env, vars[0]) then [vars[0]] else []) + MissingVars(vars[1..], env)
  }

  /** `validate_environment()`: `None` when it returns normally, `Some(code)` when it calls `sys.exit(code)`. */
  function ValidateEnvironment(env: map<string, string>): (exit: Option<int>)
    ensures exit.Some? ==> exit.value == 1
  {
    if MissingVars(RequiredVars, env) != [] then Some(1) else None
  }

  /** The missing list is an ordered subsequence of the variables checked. */
  lemma {:induction false} MissingVarsIsSubsequence(vars: seq<string>, env: map<string, string>)
    ensures IsSubsequence(MissingVars(vars, env), vars)
  {
    if vars != [] {
      MissingVarsIsSubsequence(vars[1..], env);
      var rest := MissingVars(vars[1..], env);
      if IsMissing(env, vars[0]) {
        assert MissingVars(vars, env) == [vars[0]] + rest;
        assert ([vars[0]] + rest)[1..] == rest;
      } else {
        assert MissingVars(vars, env) == rest;
        SubsequenceSkip(rest, vars);
      }
    }
  }

  /** A variable is reported iff it is one of those checked and is unset or empty. */
  lemma {:induction false} MissingVarsMembership(vars: seq<string>, env: map<string, string>, v: string)
    ensures v in MissingVars(vars, env) <==> v in vars && IsMissing(env, v)
  {
    if vars != [] {
      MissingVarsMembership(vars[1..], env, v);
      assert v in vars <==> v == vars[0] || v in vars[1..];
    }
  }

  /** Nothing is reported when every variable is set to a non-empty value. */
  lemma {:induction false} MissingVarsEmptyWhenAllSet(vars: seq<string>, env: map<string, string>)
    requires forall i :: 0 <= i < |vars| ==> vars[i] in env && env[vars[i]] != ""
    ensures MissingVars(vars, env) == []
  {
    if vars != [] {
      MissingVarsEmptyWhenAllSet(vars[1..], env);
    }
  }

  /** Every variable is reported, in order, when none is set. */
  lemma {:induction false} MissingVarsAllWhenNoneSet(vars: seq<string>, env: map<string, string>)
    requires forall i :: 0 <= i < |vars| ==> vars[i] !in env
    ensures MissingVars(vars, env) == vars
  {
    if vars != [] {
      MissingVarsAllWhenNoneSet(vars[1..], env);
    }
  }

  /** The program exits (with status 1) iff one of the three variables is unset or empty. */
  lemma ExitIffAnyMissing(env: map<string, string>)
    ensures ValidateEnvironment(env) == Some(1) <==> exists v :: v in RequiredVars && IsMissing(env, v)
    ensures ValidateEnvironment(env) == None <==> forall v :: v in RequiredVars ==> !IsMissing(env, v)
  {
    var missing := MissingVars(RequiredVars, env);
    forall v ensures v in missing <==> v in RequiredVars && IsMissing(env, v) {
      MissingVarsMembership(RequiredVars, env, v);
    }
    if missing != [] {
      assert missing[0] in missing;
    }
  }

  /** With an empty environment all three variables are reported, in their declared order. */
  lemma NoneSetReportsAll()
    ensures MissingVars(RequiredVars, map[]) == RequiredVars
    ensures ValidateEnvironment(map[]) == Some(1)
  {
    MissingVarsAllWhenNoneSet(RequiredVars, map[]);
  }
}
