/** Evaluation of a compiled policy: three-valued match conditions, lazy variables, the first rule
    with a non-null outcome, and the failure policy. */
module Evaluator {
  import opened Wrappers
  import opened Cel
  import opened Policies
  import opened Compiler
  import opened Laziness

  /** A nil result is None, a nil error is the empty sequence. */
  datatype Evaluation = Evaluation(result: Option<Response>, errors: seq<Error>)

  const Nothing := Evaluation(None, [])

  // -------------------------------------------------------- match conditions

  datatype Truth = True | False | Failed(error: Error)

  /** A condition is evaluated with the request as its only input. */
  function TruthOf(r: Request, c: Expr): Truth {
    match Eval(r, map[], c)
    case Ok(BoolValue(b)) => if b then True else False
    case Ok(_) => Failed(NotBool)
    case Err(x) => Failed(x)
  }

  datatype Verdict = Skip | Apply | Failure(errors: seq<Error>)

  function Failures(r: Request, cs: seq<Expr>): seq<Error> {
    if cs == [] then []
    else
      var last := |cs| - 1;
      Failures(r, cs[..last]) + match TruthOf(r, cs[last]) { case Failed(x) => [x] case _ => [] }
  }

  /** The documented rule: any FALSE skips; all TRUE applies; otherwise the errors count. */
  function MatchRule(r: Request, cs: seq<Expr>): Verdict {
    if exists c <- cs :: TruthOf(r, c) == False then Skip
    else if forall c <- cs :: TruthOf(r, c) == True then Apply
    else Failure(Failures(r, cs))
  }

  lemma {:induction false} FailuresAreTheErrors(r: Request, cs: seq<Expr>)
    ensures Failures(r, cs) == [] <==> forall c <- cs :: !TruthOf(r, c).Failed?
  {
    if cs != [] {
      var last := |cs| - 1;
      assert cs == cs[..last] + [cs[last]];
      FailuresAreTheErrors(r, cs[..last]);
    }
  }

  /** `errs` has, in order, what is wrong with the conditions at `at`, and these are all that give no
      bool: the failure itself, or that the value is none. */
  ghost predicate WrongAt(r: Request, conditions: seq<Expr>, errs: seq<Error>, at: seq<nat>) {
    && |at| == |errs| && Ascending(at)
    && (forall k :: 0 <= k < |at| ==>
          && at[k] < |conditions|
          && var o := Eval(r, map[], conditions[at[k]]);
             o == Err(errs[k]) || (o.Ok? && !o.value.BoolValue? && errs[k] == NotBool))
    && forall i: nat :: i < |conditions| && i !in at ==>
         Eval(r, map[], conditions[i]).Ok? && Eval(r, map[], conditions[i]).value.BoolValue?
  }

  lemma {:induction false} FailuresAreWrong(r: Request, cs: seq<Expr>) returns (at: seq<nat>)
    ensures WrongAt(r, cs, Failures(r, cs), at)
  {
    at := [];
    if cs != [] {
      var last := |cs| - 1;
      at := FailuresAreWrong(r, cs[..last]);
      OneMoreWrong(r, cs, Failures(r, cs[..last]), at);
      if TruthOf(r, cs[last]).Failed? {
        at := at + [last];
      }
    }
  }

  lemma OneMoreWrong(r: Request, cs: seq<Expr>, errs: seq<Error>, at: seq<nat>)
    requires cs != [] && WrongAt(r, cs[..|cs| - 1], errs, at)
    ensures match TruthOf(r, cs[|cs| - 1])
            case Failed(x) => WrongAt(r, cs, errs + [x], at + [|cs| - 1])
            case _ => WrongAt(r, cs, errs, at)
  {
    var last := |cs| - 1;
    forall i: nat | i < last ensures cs[..last][i] == cs[i] {}
    assert last in at + [last] && forall j :: j in at ==> j in at + [last];
  }

  method Match(r: Request, conditions: seq<Expr>) returns (matched: bool, errs: seq<Error>)
    ensures MatchRule(r, conditions) == if !matched then Skip else if errs == [] then Apply else Failure(errs)
    ensures !matched <==> exists c <- conditions :: Eval(r, map[], c) == Ok(BoolValue(false))
    ensures matched && errs == [] <==> forall c <- conditions :: Eval(r, map[], c) == Ok(BoolValue(true))
    ensures matched ==> exists at :: WrongAt(r, conditions, errs, at)
    ensures !matched ==> errs == []
  {
    errs := [];
    for i := 0 to |conditions|
      invariant forall k :: 0 <= k < i ==> TruthOf(r, conditions[k]) != False
      invariant errs == Failures(r, conditions[..i])
    {
      assert conditions[..i + 1][..i] == conditions[..i];
      var out := Eval(r, map[], conditions[i]);
      if out.Err? {
        errs := errs + [out.error];
        continue;
      }
      if !out.value.BoolValue? {
        errs := errs + [NotBool];
        continue;
      }
      if !out.value.b {
        assert TruthOf(r, conditions[i]) == False;
        return false, [];
      }
    }
    assert conditions[..|conditions|] == conditions;
    FailuresAreTheErrors(r, conditions);
    ghost var at := FailuresAreWrong(r, conditions);
    return true, errs;
  }

  lemma {:induction false} FailuresConcat(r: Request, a: seq<Expr>, b: seq<Expr>)
    ensures Failures(r, a + b) == Failures(r, a) + Failures(r, b)
  {
    if b == [] {
      assert a + b == a;
    } else {
      var last := |b| - 1;
      assert (a + b)[..|a| + last] == a + b[..last];
      FailuresConcat(r, a, b[..last]);
    }
  }

  /** A permutation of `cs + [c]` is a permutation of `cs` with `c` somewhere in it. */
  lemma TakeOut(cs: seq<Expr>, c: Expr, ds: seq<Expr>) returns (a: seq<Expr>, b: seq<Expr>)
    requires multiset(cs + [c]) == multiset(ds)
    ensures ds == a + [c] + b && multiset(cs) == multiset(a + b)
  {
    assert c in multiset(cs + [c]);
    var i :| 0 <= i < |ds| && ds[i] == c;
    a, b := ds[..i], ds[i + 1..];
    assert ds == a + [c] + b;
    assert multiset(a + [c] + b) == multiset(a + b) + multiset{c};
    assert multiset(cs + [c]) == multiset(cs) + multiset{c};
    assert multiset(cs) == multiset(ds) - multiset{c} == multiset(a + b);
  }

  lemma {:induction false} FailuresPermute(r: Request, cs: seq<Expr>, ds: seq<Expr>)
    requires multiset(cs) == multiset(ds)
    ensures multiset(Failures(r, cs)) == multiset(Failures(r, ds))
    decreases |cs|
  {
    assert |ds| == |multiset(ds)| == |multiset(cs)| == |cs|;
    if cs != [] {
      var rest, c := cs[..|cs| - 1], cs[|cs| - 1];
      assert cs == rest + [c];
      var a, b := TakeOut(rest, c, ds);
      FailuresPermute(r, rest, a + b);
      FailuresConcat(r, rest, [c]);
      FailuresConcat(r, a, b);
      FailuresConcat(r, a + [c], b);
      FailuresConcat(r, a, [c]);
    }
  }

  lemma MembersDecide(r: Request, cs: seq<Expr>, ds: seq<Expr>)
    requires forall c :: c in cs <==> c in ds
    ensures MatchRule(r, cs).Skip? <==> MatchRule(r, ds).Skip?
    ensures MatchRule(r, cs).Apply? <==> MatchRule(r, ds).Apply?
  {
  }

  lemma SameMembers(cs: seq<Expr>, ds: seq<Expr>)
    requires multiset(cs) == multiset(ds)
    ensures forall c :: c in cs <==> c in ds
  {
    forall c ensures c in cs <==> c in ds {
      assert c in cs <==> c in multiset(cs);
      assert c in ds <==> c in multiset(ds);
    }
  }

  /** The order of the conditions never changes the verdict, and only reorders its errors. */
  lemma VerdictIgnoresOrder(r: Request, cs: seq<Expr>, ds: seq<Expr>)
    requires multiset(cs) == multiset(ds)
    ensures MatchRule(r, cs).Skip? <==> MatchRule(r, ds).Skip?
    ensures MatchRule(r, cs).Apply? <==> MatchRule(r, ds).Apply?
    ensures MatchRule(r, cs).Failure? ==>
              MatchRule(r, ds).Failure? && multiset(MatchRule(r, cs).errors) == multiset(MatchRule(r, ds).errors)
  {
    assert MatchRule(r, cs).Failure? ==> MatchRule(r, cs).errors == Failures(r, cs);
    assert MatchRule(r, ds).Failure? ==> MatchRule(r, ds).errors == Failures(r, ds);
    FailuresPermute(r, cs, ds);
    SameMembers(cs, ds);
    MembersDecide(r, cs, ds);
  }

  // -------------------------------------------------------------------- rules

  datatype RuleOutcome = Pass | Settle(evaluation: Evaluation)

  /** What a rule's value means to a server whose responses are those of mode `out`. */
  function Judge(o: Outcome, out: Mode): RuleOutcome {
    match o
    case Err(x) => Settle(Evaluation(None, [x]))
    case Ok(NullValue) => Pass
    case Ok(v) =>
      if v.ResponseValue? && v.response.mode == out then Settle(Evaluation(Some(v.response), []))
      else Settle(Evaluation(None, [NotResponse]))
  }

  /** The first rule, if any, that settles the policy, with every variable computed beforehand. */
  ghost function FirstSettled(r: Request, all: Memo, rules: seq<Expr>, out: Mode): Evaluation {
    if rules == [] then Nothing
    else
      match Judge(Eval(r, all, rules[0]), out)
      case Settle(e) => e
      case Pass => FirstSettled(r, all, rules[1..], out)
  }

  /** The same with lazy variables; None when `depth` nested variables are not enough. */
  function RunRules(depth: nat, programs: map<string, Expr>, r: Request, memo: Memo, rules: seq<Expr>, out: Mode)
    : Option<Evaluation>
    decreases |rules|
  {
    if rules == [] then Some(Nothing)
    else
      match LazyEval(depth, programs, r, memo, rules[0])
      case None => None
      case Some((o, m)) =>
        match Judge(o, out)
        case Settle(e) => Some(e)
        case Pass => RunRules(depth, programs, r, m, rules[1..], out)
  }

  /** The map behind `variables` at run time: programs by name, and what they have given so far. */
  class LazyVariables {
    var programs: map<string, Expr>
    var memo: Memo

    constructor ()
      ensures programs == map[] && memo == map[]
    {
      programs, memo := map[], map[];
    }

    method Append(name: string, program: Expr)
      modifies this`programs
      ensures programs == old(programs)[name := program]
    {
      programs := programs[name := program];
    }

    /** Evaluates an expression; a variable is computed when it is first read, and remembered. */
    method Compute(depth: nat, r: Request, e: Expr) returns (o: Option<Outcome>)
      modifies this`memo
      ensures match LazyEval(depth, programs, r, old(memo), e)
              case None => o == None
              case Some((v, m)) => o == Some(v) && memo == m
      ensures o.Some? ==>
                && Kept(old(memo), memo, programs)
                && (e.Variables? && e.name in programs ==> Computed(memo, e.name, o.value))
      decreases depth, e
    {
      WhatIsRemembered(depth, programs, r, memo, e);
      match e {
        case Header(obj, key) =>
          var v := Compute(depth, r, obj);
          return if v.None? then None else Some(EvalHeader(v.value, key));
        case Variables(x) =>
          if x in memo {
            return Some(memo[x]);
          }
          if x !in programs {
            return Some(Err(NoSuchVariable(x)));
          }
          if depth == 0 {
            return None;
          }
          o := Compute(depth - 1, r, programs[x]);
          if o.Some? {
            memo := memo[x := o.value];
          }
        case Equals(left, right) =>
          var v := Compute(depth, r, left);
          if v.None? || v.value.Err? {
            return v;
          }
          var w := Compute(depth, r, right);
          return if w.None? then None else Some(EvalEquals(v.value, w.value));
        case And(left, right) =>
          var v := Compute(depth, r, left);
          if v.None? || v.value == Ok(BoolValue(false)) {
            return v;
          }
          var w := Compute(depth, r, right);
          return if w.None? then None else Some(EvalAnd(v.value, w.value));
        case Cond(test, a, b) =>
          var v := Compute(depth, r, test);
          if v.None? || v.value.Err? {
            return v;
          }
          if !v.value.value.BoolValue? {
            return Some(Err(NoSuchOverload));
          }
          if v.value.value.b {
            o := Compute(depth, r, a);
          } else {
            o := Compute(depth, r, b);
          }
        case Respond(mode, body) =>
          var v := Compute(depth, r, body);
          return if v.None? then None else Some(EvalRespond(mode, v.value));
        case _ =>
          return Some(Eval(r, map[], e));
      }
    }

    /** A null value is no value. */
    method EvaluateRule(depth: nat, r: Request, rule: Expr) returns (o: Option<Result<Option<Value>, Error>>)
      modifies this`memo
      ensures match LazyEval(depth, programs, r, old(memo), rule)
              case None => o == None
              case Some((v, m)) =>
                && memo == m
                && o == Some(match v
                             case Err(x) => Err(x)
                             case Ok(value) => if value == NullValue then Ok(None) else Ok(Some(value)))
    {
      var v := Compute(depth, r, rule);
      if v.None? {
        return None;
      }
      if v.value.Err? {
        return Some(Err(v.value.error));
      }
      if v.value.value == NullValue {
        return Some(Ok(None));
      }
      return Some(Ok(Some(v.value.value)));
    }
  }

  /** `loader` is the error, if any, of building the image data loader. */
  method SetupVariables(variables: map<string, Expr>, loader: Option<Error>)
    returns (vars: Result<LazyVariables, Error>)
    ensures match loader
            case Some(x) => vars == Err(x)
            case None => vars.Ok? && fresh(vars.value) && vars.value.programs == variables && vars.value.memo == map[]
  {
    if loader.Some? {
      return Err(loader.value);
    }
    var lazy := new LazyVariables();
    var names := variables.Keys;
    // any iteration order of the map
    while names != {}
      invariant names <= variables.Keys
      invariant lazy.programs.Keys == variables.Keys - names
      invariant forall x :: x in lazy.programs ==> lazy.programs[x] == variables[x]
      invariant lazy.memo == map[]
    {
      var name :| name in names;
      lazy.Append(name, variables[name]);
      names := names - {name};
    }
    return Ok(lazy);
  }

  /** What `EvaluateRules` computes, the lazy variables included. */
  function Run(depth: nat, p: CompiledPolicy, r: Request, out: Mode, loader: Option<Error>): Option<Evaluation> {
    match MatchRule(r, p.matchConditions)
    case Skip => Some(Nothing)
    case Failure(errs) => Some(Evaluation(None, errs))
    case Apply =>
      match loader
      case Some(x) => Some(Evaluation(None, [x]))
      case None => RunRules(depth, p.variables, r, map[], p.rules, out)
  }

  function ApplyFailurePolicy(fp: FailurePolicy, e: Evaluation): Evaluation {
    if e.errors != [] && fp != FAIL then e.(errors := []) else e
  }

  /** What a request is told: errors only count under the failure policy FAIL. */
  function Served(depth: nat, p: CompiledPolicy, r: Request, out: Mode, loader: Option<Error>): Option<Evaluation> {
    match Run(depth, p, r, out, loader)
    case None => None
    case Some(e) => Some(ApplyFailurePolicy(p.failurePolicy, e))
  }

  /** The first `i` rules gave null one after the other, each from the memo table the last one left. */
  ghost predicate AllNull(depth: nat, p: CompiledPolicy, r: Request, memos: seq<Memo>, i: nat) {
    && i <= |p.rules| && |memos| == i + 1 && memos[0] == map[]
    && forall k :: 0 <= k < i ==>
         LazyEval(depth, p.variables, r, memos[k], p.rules[k]) == Some((Ok(NullValue), memos[k + 1]))
  }

  lemma {:induction false} NullsPass(depth: nat, p: CompiledPolicy, r: Request, out: Mode, memos: seq<Memo>, i: nat)
    requires AllNull(depth, p, r, memos, i)
    ensures RunRules(depth, p.variables, r, map[], p.rules, out)
         == RunRules(depth, p.variables, r, memos[i], p.rules[i..], out)
  {
    if i > 0 {
      NullsPass(depth, p, r, out, memos[..i], i - 1);
      assert p.rules[i - 1..][0] == p.rules[i - 1] && p.rules[i - 1..][1..] == p.rules[i..];
    } else {
      assert p.rules[0..] == p.rules;
    }
  }

  /** What running the rules comes to: the first that does not give null decides. */
  lemma RunMeans(depth: nat, p: CompiledPolicy, r: Request, out: Mode)
    ensures forall memos, i: nat :: AllNull(depth, p, r, memos, i) && i < |p.rules| ==>
              var e := RunRules(depth, p.variables, r, map[], p.rules, out);
              var o := LazyEval(depth, p.variables, r, memos[i], p.rules[i]);
              && (o.None? ==> e == None)
              && (o.Some? && o.value.0.Err? ==> e == Some(Evaluation(None, [o.value.0.error])))
              && (o.Some? && o.value.0.Ok? && o.value.0.value != NullValue ==>
                    var v := o.value.0.value;
                    e == Some(if v.ResponseValue? && v.response.mode == out then Evaluation(Some(v.response), [])
                              else Evaluation(None, [NotResponse])))
    ensures forall memos :: AllNull(depth, p, r, memos, |p.rules|) ==>
              RunRules(depth, p.variables, r, map[], p.rules, out) == Some(Evaluation(None, []))
  {
    forall memos, i: nat | AllNull(depth, p, r, memos, i)
      ensures RunRules(depth, p.variables, r, map[], p.rules, out)
           == RunRules(depth, p.variables, r, memos[i], p.rules[i..], out)
    {
      NullsPass(depth, p, r, out, memos, i);
    }
  }

  method EvaluateRules(depth: nat, p: CompiledPolicy, r: Request, out: Mode, loader: Option<Error>)
    returns (e: Option<Evaluation>)
    ensures e == Run(depth, p, r, out, loader)
    ensures e.Some? && e.value.errors != [] ==> e.value.result == None
    ensures (exists c <- p.matchConditions :: Eval(r, map[], c) == Ok(BoolValue(false))) ==>
              e == Some(Evaluation(None, []))
    ensures (forall c <- p.matchConditions :: Eval(r, map[], c) != Ok(BoolValue(false)))
            && !(forall c <- p.matchConditions :: Eval(r, map[], c) == Ok(BoolValue(true))) ==>
              && e.Some? && e.value.result == None
              && exists at :: WrongAt(r, p.matchConditions, e.value.errors, at)
    ensures (forall c <- p.matchConditions :: Eval(r, map[], c) == Ok(BoolValue(true))) && loader.Some? ==>
              e == Some(Evaluation(None, [loader.value]))
    ensures (forall c <- p.matchConditions :: Eval(r, map[], c) == Ok(BoolValue(true))) && loader.None? ==>
              forall memos, i: nat :: AllNull(depth, p, r, memos, i) && i < |p.rules| ==>
                var o := LazyEval(depth, p.variables, r, memos[i], p.rules[i]);
                && (o.None? ==> e == None)
                && (o.Some? && o.value.0.Err? ==> e == Some(Evaluation(None, [o.value.0.error])))
                && (o.Some? && o.value.0.Ok? && o.value.0.value != NullValue ==>
                      var v := o.value.0.value;
                      e == Some(if v.ResponseValue? && v.response.mode == out then Evaluation(Some(v.response), [])
                                else Evaluation(None, [NotResponse])))
    ensures (forall c <- p.matchConditions :: Eval(r, map[], c) == Ok(BoolValue(true))) && loader.None? ==>
              forall memos :: AllNull(depth, p, r, memos, |p.rules|) ==> e == Some(Evaluation(None, []))
  {
    RunMeans(depth, p, r, out);
    var matched, errs := Match(r, p.matchConditions);
    if errs != [] {
      return Some(Evaluation(None, errs));
    } else if !matched {
      return Some(Nothing);
    }
    var setup := SetupVariables(p.variables, loader);
    if setup.Err? {
      return Some(Evaluation(None, [setup.error]));
    }
    var vars := setup.value;
    for i := 0 to |p.rules|
      invariant vars.programs == p.variables
      invariant RunRules(depth, p.variables, r, map[], p.rules, out)
             == RunRules(depth, p.variables, r, vars.memo, p.rules[i..], out)
    {
      var response := vars.EvaluateRule(depth, r, p.rules[i]);
      if response.None? {
        return None;
      }
      if response.value.Err? {
        return Some(Evaluation(None, [response.value.error]));
      }
      if response.value.value.Some? {
        var v := response.value.value.value;
        if !(v.ResponseValue? && v.response.mode == out) {
          return Some(Evaluation(None, [NotResponse]));
        }
        return Some(Evaluation(Some(v.response), []));
      }
    }
    return Some(Nothing);
  }

  method Evaluate(depth: nat, p: CompiledPolicy, r: Request, out: Mode, loader: Option<Error>)
    returns (e: Option<Evaluation>)
    ensures e == Served(depth, p, r, out, loader)
    ensures e.None? <==> Run(depth, p, r, out, loader).None?
    ensures e.Some? ==>
              var v := Run(depth, p, r, out, loader).value;
              e.value == if v.errors == [] || p.failurePolicy == "Fail" then v else Evaluation(None, [])
  {
    var response := EvaluateRules(depth, p, r, out, loader);
    if response.None? {
      return None;
    }
    if response.value.errors != [] && p.failurePolicy == FAIL {
      return Some(Evaluation(None, response.value.errors));
    }
    return Some(Evaluation(response.value.result, []));
  }

  // ------------------------------------------------- what evaluation amounts to

  /** The meaning of an accepted policy, with every variable computed first, once, in order. */
  ghost function Meaning(p: ValidatingPolicy, r: Request, out: Mode, loader: Option<Error>): Evaluation {
    var c := Artifact(p);
    match MatchRule(r, c.matchConditions)
    case Skip => Nothing
    case Failure(errs) => Evaluation(None, errs)
    case Apply =>
      match loader
      case Some(x) => Evaluation(None, [x])
      case None => FirstSettled(r, EagerVars(r, p.variables, |p.variables|), c.rules, out)
  }

  lemma {:induction false} RunRulesIsEager(
    depth: nat, r: Request, vs: seq<Variable>, memo: Memo, rules: seq<Expr>, out: Mode)
    requires Distinct(vs) && Scoped(vs) && |vs| <= depth
    requires Consistent(memo, EagerVars(r, vs, |vs|))
    requires forall e <- rules :: Reads(e) <= Names(vs, |vs|)
    ensures RunRules(depth, Programs(vs, |vs|), r, memo, rules, out)
         == Some(FirstSettled(r, EagerVars(r, vs, |vs|), rules, out))
    decreases |rules|
  {
    if rules != [] {
      LazyIsEager(depth, r, vs, memo, rules[0]);
      var m := LazyEval(depth, Programs(vs, |vs|), r, memo, rules[0]).value.1;
      RunRulesIsEager(depth, r, vs, m, rules[1..], out);
    }
  }

  /** For every accepted policy with distinct variable names, on every request, lazy evaluation ends
      and is the eager meaning of the policy, rule by rule. */
  lemma AcceptedPolicyRunsItsMeaning(depth: nat, p: ValidatingPolicy, r: Request, out: Mode, loader: Option<Error>)
    requires Accepts(p) && Distinct(p.variables) && |p.variables| <= depth
    ensures Run(depth, Artifact(p), r, out, loader) == Some(Meaning(p, r, out, loader))
  {
    var mode, vs := p.evaluationMode.mode, p.variables;
    AcceptedVariablesAreScoped(mode, vs, |vs|);
    forall i | 0 <= i < |p.validations| ensures Reads(Artifact(p).rules[i]) <= Names(vs, |vs|) {
      assert RuleOk(mode, TypesAfter(mode, vs, |vs|).value, p.validations[i]);
      CheckedReadsAreRegistered(mode, TypesAfter(mode, vs, |vs|).value, p.validations[i].expression);
    }
    RunRulesIsEager(depth, r, vs, map[], Artifact(p).rules, out);
  }

  lemma {:induction false} NullsAreSkipped(r: Request, all: Memo, rules: seq<Expr>, out: Mode, i: nat)
    requires i <= |rules| && forall k :: 0 <= k < i ==> Eval(r, all, rules[k]) == Ok(NullValue)
    ensures FirstSettled(r, all, rules, out) == FirstSettled(r, all, rules[i..], out)
  {
    if i > 0 {
      NullsAreSkipped(r, all, rules, out, i - 1);
      var rest := rules[i - 1..];
      assert rest[0] == rules[i - 1] && rest[1..] == rules[i..];
    } else {
      assert rules[0..] == rules;
    }
  }

  lemma TrueConditionsApply(p: ValidatingPolicy, r: Request)
    requires forall c <- p.matchConditions :: Eval(r, map[], c.expression) == Ok(BoolValue(true))
    ensures MatchRule(r, Artifact(p).matchConditions) == Apply
  {
    var cs := Artifact(p).matchConditions;
    forall k | 0 <= k < |cs| ensures TruthOf(r, cs[k]) == True {
      assert p.matchConditions[k] in p.matchConditions;
    }
  }

  /** What evaluating an accepted policy with distinct names that applies comes to, in terms of the values
      of its variables: the first rule that is not null decides, by its failure, by its response, or
      by not being a response of the server's mode; and if there is none, there is no answer. */
  lemma FirstRuleDecides(depth: nat, p: ValidatingPolicy, r: Request, out: Mode, i: nat)
    requires Accepts(p) && Distinct(p.variables) && |p.variables| <= depth
    requires forall c <- p.matchConditions :: Eval(r, map[], c.expression) == Ok(BoolValue(true))
    requires i <= |p.validations|
    requires forall k :: 0 <= k < i ==>
               Eval(r, EagerVars(r, p.variables, |p.variables|), p.validations[k].expression) == Ok(NullValue)
    ensures
      var e := Run(depth, Artifact(p), r, out, None);
      if i == |p.validations| then e == Some(Evaluation(None, []))
      else
        var o := Eval(r, EagerVars(r, p.variables, |p.variables|), p.validations[i].expression);
        && (o.Err? ==> e == Some(Evaluation(None, [o.error])))
        && (o.Ok? && o.value != NullValue ==>
              e == Some(if o.value.ResponseValue? && o.value.response.mode == out
                        then Evaluation(Some(o.value.response), []) else Evaluation(None, [NotResponse])))
  {
    var all, c := EagerVars(r, p.variables, |p.variables|), Artifact(p);
    TrueConditionsApply(p, r);
    AcceptedPolicyRunsItsMeaning(depth, p, r, out, None);
    NullsAreSkipped(r, all, c.rules, out, i);
    if i < |p.validations| {
      assert c.rules[i..][0] == p.validations[i].expression;
    }
  }
}
