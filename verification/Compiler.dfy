/** Compilation of a policy: match conditions first, then variables in declaration order, each one
    registered as a field only once its own expression has been checked, then rules. */
module Compiler {
  import opened Wrappers
  import opened Cel
  import opened Policies

  /** The mutable type environment behind `variables`. */
  class VariablesProvider {
    var fields: map<string, Type>
    var names: seq<string>

    constructor ()
      ensures fields == map[] && names == []
    {
      fields, names := map[], [];
    }

    method RegisterField(name: string, t: Type)
      modifies this
      ensures fields == old(fields)[name := t]
      ensures names == old(names) + [name]
    {
      fields := fields[name := t];
      names := names + [name];
    }
  }

  datatype CompiledPolicy = CompiledPolicy(
    failurePolicy: FailurePolicy,
    matchConditions: seq<Expr>,
    variables: map<string, Expr>,
    rules: seq<Expr>)

  datatype Reason = Issues | OutputType

  datatype CompileError =
    | InvalidMode(text: string)
    | InvalidMatchCondition(index: nat, reason: Reason)
    | InvalidVariable(index: nat)
    | InvalidValidation(index: nat, reason: Reason)

  // ------------------------------------------------------------ specification

  /** The type environment after the first `i` variables, when all of them are accepted. */
  ghost function TypesAfter(mode: Mode, vs: seq<Variable>, i: nat): (fields: Option<map<string, Type>>)
    requires i <= |vs|
    ensures fields.Some? ==> fields.value.Keys == Names(vs, i)
  {
    if i == 0 then Some(map[])
    else
      match TypesAfter(mode, vs, i - 1)
      case None => None
      case Some(fields) =>
        match Check(mode, fields, vs[i - 1].expression)
        case None => None
        case Some(t) => Some(fields[vs[i - 1].name := t])
  }

  /** The names of the first `i` variables. */
  ghost function Names(vs: seq<Variable>, i: nat): set<string>
    requires i <= |vs|
  {
    if i == 0 then {} else Names(vs, i - 1) + {vs[i - 1].name}
  }

  /** The programs registered by the first `i` variables: the last declaration of each name. */
  function Programs(vs: seq<Variable>, i: nat): (ps: map<string, Expr>)
    requires i <= |vs|
    ensures ps.Keys == Names(vs, i)
  {
    if i == 0 then map[] else Programs(vs, i - 1)[vs[i - 1].name := vs[i - 1].expression]
  }

  ghost predicate ConditionOk(mode: Mode, c: MatchCondition) {
    Check(mode, map[], c.expression) == Some(BoolType)
  }

  ghost predicate RuleOk(mode: Mode, fields: map<string, Type>, v: Validation) {
    var t := Check(mode, fields, v.expression);
    t == Some(ResponseType(mode)) || t == Some(NullType)
  }

  /** What a policy must satisfy to be accepted. */
  ghost predicate Accepts(p: ValidatingPolicy) {
    && p.evaluationMode.Known?
    && var mode := p.evaluationMode.mode;
       && (forall c <- p.matchConditions :: ConditionOk(mode, c))
       && var fields := TypesAfter(mode, p.variables, |p.variables|);
          fields.Some? && forall v <- p.validations :: RuleOk(mode, fields.value, v)
  }

  /** The error reported for a rejected policy: the first fault in compilation order. */
  ghost predicate Rejects(p: ValidatingPolicy, error: CompileError) {
    match p.evaluationMode
    case Unknown(text) => error == InvalidMode(text)
    case Known(mode) =>
      var n := |p.variables|;
      match error
      case InvalidMode(_) => false
      case InvalidMatchCondition(i, reason) =>
        && i < |p.matchConditions|
        && (forall k :: 0 <= k < i ==> ConditionOk(mode, p.matchConditions[k]))
        && !ConditionOk(mode, p.matchConditions[i])
        && (reason == Issues <==> Check(mode, map[], p.matchConditions[i].expression) == None)
      case InvalidVariable(i) =>
        && (forall c <- p.matchConditions :: ConditionOk(mode, c))
        && i < n && TypesAfter(mode, p.variables, i).Some? && TypesAfter(mode, p.variables, i + 1).None?
      case InvalidValidation(i, reason) =>
        && (forall c <- p.matchConditions :: ConditionOk(mode, c))
        && TypesAfter(mode, p.variables, n).Some?
        && var fields := TypesAfter(mode, p.variables, n).value;
           && i < |p.validations|
           && (forall k :: 0 <= k < i ==> RuleOk(mode, fields, p.validations[k]))
           && !RuleOk(mode, fields, p.validations[i])
           && (reason == Issues <==> Check(mode, fields, p.validations[i].expression) == None)
  }

  function Artifact(p: ValidatingPolicy): CompiledPolicy {
    CompiledPolicy(
      p.GetFailurePolicy(),
      seq(|p.matchConditions|, i requires 0 <= i < |p.matchConditions| => p.matchConditions[i].expression),
      Programs(p.variables, |p.variables|),
      seq(|p.validations|, i requires 0 <= i < |p.validations| => p.validations[i].expression))
  }

  lemma {:induction false} TypesAfterIsPrefixClosed(mode: Mode, vs: seq<Variable>, i: nat, j: nat)
    requires i <= j <= |vs| && TypesAfter(mode, vs, j).Some?
    ensures TypesAfter(mode, vs, i).Some?
  {
    if i < j {
      TypesAfterIsPrefixClosed(mode, vs, i, j - 1);
    }
  }

  /** A policy is either accepted or rejected with exactly one error. */
  lemma AcceptedOrRejectedOnce(p: ValidatingPolicy, e1: CompileError, e2: CompileError)
    requires Rejects(p, e1)
    ensures !Accepts(p)
    ensures Rejects(p, e2) ==> e1 == e2
  {
    if p.evaluationMode.Known? {
      var mode, vs := p.evaluationMode.mode, p.variables;
      if e1.InvalidVariable? && TypesAfter(mode, vs, |vs|).Some? {
        TypesAfterIsPrefixClosed(mode, vs, e1.index + 1, |vs|);
      }
      if Rejects(p, e2) {
        if e1.InvalidVariable? && e2.InvalidVariable? {
          if e1.index < e2.index {
            TypesAfterIsPrefixClosed(mode, vs, e1.index + 1, e2.index);
          } else if e2.index < e1.index {
            TypesAfterIsPrefixClosed(mode, vs, e2.index + 1, e1.index);
          }
        } else if e2.InvalidVariable? && TypesAfter(mode, vs, |vs|).Some? {
          TypesAfterIsPrefixClosed(mode, vs, e2.index + 1, |vs|);
        }
      }
    }
  }

  // ------------------------------------------------------------------ methods

  method CompileAuthorization(provider: VariablesProvider, mode: Mode, rule: Validation)
    returns (r: Result<Expr, Reason>)
    ensures r.Ok? <==> RuleOk(mode, provider.fields, rule)
    ensures r.Ok? ==> r.value == rule.expression
    ensures r == Err(Issues) <==> Check(mode, provider.fields, rule.expression) == None
  {
    var t := Check(mode, provider.fields, rule.expression);
    if t.None? {
      return Err(Issues);
    }
    match mode {
      case Envoy =>
        if t.value != ResponseType(Envoy) && t.value != NullType {
          return Err(OutputType);
        }
      case HTTP =>
        if t.value != ResponseType(HTTP) && t.value != NullType {
          return Err(OutputType);
        }
    }
    return Ok(rule.expression);
  }

  method CompileMatchConditions(provider: VariablesProvider, mode: Mode, cs: seq<MatchCondition>)
    returns (r: Result<seq<Expr>, CompileError>)
    requires provider.fields == map[]
    ensures r.Ok? ==>
              && (forall k :: 0 <= k < |cs| ==> ConditionOk(mode, cs[k]))
              && |r.value| == |cs| && forall k :: 0 <= k < |cs| ==> r.value[k] == cs[k].expression
    ensures r.Err? ==>
              && r.error.InvalidMatchCondition? && r.error.index < |cs|
              && (forall k :: 0 <= k < r.error.index ==> ConditionOk(mode, cs[k]))
              && !ConditionOk(mode, cs[r.error.index])
              && (r.error.reason == Issues <==> Check(mode, map[], cs[r.error.index].expression) == None)
  {
    var conditions: seq<Expr> := [];
    for i := 0 to |cs|
      invariant |conditions| == i && forall k :: 0 <= k < i ==> conditions[k] == cs[k].expression
      invariant forall k :: 0 <= k < i ==> ConditionOk(mode, cs[k])
    {
      var t := Check(mode, provider.fields, cs[i].expression);
      if t.None? {
        return Err(InvalidMatchCondition(i, Issues));
      }
      if t.value != BoolType {
        return Err(InvalidMatchCondition(i, OutputType));
      }
      conditions := conditions + [cs[i].expression];
    }
    return Ok(conditions);
  }

  method CompileVariables(provider: VariablesProvider, mode: Mode, vs: seq<Variable>)
    returns (r: Result<map<string, Expr>, CompileError>)
    requires provider.fields == map[]
    modifies provider
    ensures r.Ok? ==> TypesAfter(mode, vs, |vs|) == Some(provider.fields) && r.value == Programs(vs, |vs|)
    ensures r.Err? ==>
              && r.error.InvalidVariable? && r.error.index < |vs|
              && TypesAfter(mode, vs, r.error.index).Some? && TypesAfter(mode, vs, r.error.index + 1).None?
  {
    var variables: map<string, Expr> := map[];
    for i := 0 to |vs|
      invariant TypesAfter(mode, vs, i) == Some(provider.fields)
      invariant variables == Programs(vs, i)
    {
      var t := Check(mode, provider.fields, vs[i].expression);
      if t.None? {
        return Err(InvalidVariable(i));
      }
      provider.RegisterField(vs[i].name, t.value);
      variables := variables[vs[i].name := vs[i].expression];
    }
    return Ok(variables);
  }

  method CompileValidations(provider: VariablesProvider, mode: Mode, rules: seq<Validation>)
    returns (r: Result<seq<Expr>, CompileError>)
    ensures r.Ok? ==>
              && (forall k :: 0 <= k < |rules| ==> RuleOk(mode, provider.fields, rules[k]))
              && |r.value| == |rules| && forall k :: 0 <= k < |rules| ==> r.value[k] == rules[k].expression
    ensures r.Err? ==>
              && r.error.InvalidValidation? && r.error.index < |rules|
              && (forall k :: 0 <= k < r.error.index ==> RuleOk(mode, provider.fields, rules[k]))
              && !RuleOk(mode, provider.fields, rules[r.error.index])
              && (r.error.reason == Issues <==> Check(mode, provider.fields, rules[r.error.index].expression) == None)
  {
    var programs: seq<Expr> := [];
    for i := 0 to |rules|
      invariant |programs| == i && forall k :: 0 <= k < i ==> programs[k] == rules[k].expression
      invariant forall k :: 0 <= k < i ==> RuleOk(mode, provider.fields, rules[k])
    {
      var rule := CompileAuthorization(provider, mode, rules[i]);
      if rule.Err? {
        return Err(InvalidValidation(i, rule.error));
      }
      programs := programs + [rule.value];
    }
    return Ok(programs);
  }

  /** `fields[i]` are the registered types when the variable at `i` is checked: those of the variables
      before it, a later one of a name in place of an earlier one. */
  ghost predicate Registers(mode: Mode, vs: seq<Variable>, fields: seq<map<string, Type>>) {
    && |fields| == |vs| + 1 && fields[0] == map[]
    && forall i :: 0 <= i < |vs| ==> Adds(mode, vs[i], fields[i], fields[i + 1])
  }

  /** The variable checks against the types `before`, and its type makes them the types `after`. */
  ghost predicate Adds(mode: Mode, v: Variable, before: map<string, Type>, after: map<string, Type>) {
    var t := Check(mode, before, v.expression);
    t.Some? && after == before[v.name := t.value]
  }

  /** Every condition is a bool in an environment without variables, every variable checks in turn, and
      every rule is, with all of them, a response of the mode or null. */
  ghost predicate Checks(p: ValidatingPolicy, fields: seq<map<string, Type>>) {
    && p.evaluationMode.Known?
    && Registers(p.evaluationMode.mode, p.variables, fields)
    && (forall c <- p.matchConditions :: Check(p.evaluationMode.mode, map[], c.expression) == Some(BoolType))
    && forall v <- p.validations ::
         var t := Check(p.evaluationMode.mode, fields[|p.variables|], v.expression);
         t == Some(ResponseType(p.evaluationMode.mode)) || t == Some(NullType)
  }

  lemma {:induction false} TypesAreRegistered(mode: Mode, vs: seq<Variable>, fields: seq<map<string, Type>>, i: nat)
    requires Registers(mode, vs, fields) && i <= |vs|
    ensures TypesAfter(mode, vs, i) == Some(fields[i])
  {
    if i > 0 {
      TypesAreRegistered(mode, vs, fields, i - 1);
    }
  }

  lemma {:induction false} RegisteredTypes(mode: Mode, vs: seq<Variable>, n: nat)
    returns (fields: seq<map<string, Type>>)
    requires n <= |vs| && TypesAfter(mode, vs, n).Some?
    ensures |fields| == n + 1 && fields[0] == map[] && fields[n] == TypesAfter(mode, vs, n).value
    ensures forall i :: 0 <= i < n ==> Adds(mode, vs[i], fields[i], fields[i + 1])
  {
    if n == 0 {
      fields := [map[]];
    } else {
      fields := RegisteredTypes(mode, vs, n - 1);
      fields := fields + [TypesAfter(mode, vs, n).value];
    }
  }

  ghost predicate Checkable(p: ValidatingPolicy) {
    exists fields :: Checks(p, fields)
  }

  lemma AcceptsIffChecks(p: ValidatingPolicy)
    ensures Accepts(p) <==> Checkable(p)
  {
    if fields :| Checks(p, fields) {
      TypesAreRegistered(p.evaluationMode.mode, p.variables, fields, |p.variables|);
    }
    if Accepts(p) {
      var fields := RegisteredTypes(p.evaluationMode.mode, p.variables, |p.variables|);
      TypesAreRegistered(p.evaluationMode.mode, p.variables, fields, |p.variables|);
      assert Checks(p, fields);
    }
  }

  /** A name's program is that of its last declaration. */
  lemma {:induction false} LastProgramWins(vs: seq<Variable>, j: nat, n: nat)
    requires j < n <= |vs| && forall k :: j < k < n ==> vs[k].name != vs[j].name
    ensures vs[j].name in Programs(vs, n) && Programs(vs, n)[vs[j].name] == vs[j].expression
  {
    if j < n - 1 {
      LastProgramWins(vs, j, n - 1);
    }
  }

  lemma {:induction false} ProgramsAreDeclared(vs: seq<Variable>, n: nat, x: string)
    requires n <= |vs| && x in Programs(vs, n)
    ensures exists i :: 0 <= i < n && vs[i].name == x
  {
    if vs[n - 1].name != x {
      ProgramsAreDeclared(vs, n - 1, x);
    }
  }

  /** The form has the policy's conditions and rules in order, for each variable name the expression of its
      last declaration, no other variables, and the failure policy that is set, or else Fail. */
  ghost predicate IsFormOf(c: CompiledPolicy, p: ValidatingPolicy) {
    && |c.matchConditions| == |p.matchConditions| && |c.rules| == |p.validations|
    && (forall k :: 0 <= k < |p.matchConditions| ==> c.matchConditions[k] == p.matchConditions[k].expression)
    && (forall k :: 0 <= k < |p.validations| ==> c.rules[k] == p.validations[k].expression)
    && KeepsLastDeclarations(c.variables, p.variables)
    && c.failurePolicy == if p.failurePolicy.Some? then p.failurePolicy.value else "Fail"
  }

  ghost predicate KeepsLastDeclarations(programs: map<string, Expr>, vs: seq<Variable>) {
    && (forall i :: 0 <= i < |vs| && (forall k :: i < k < |vs| ==> vs[k].name != vs[i].name) ==>
          vs[i].name in programs && programs[vs[i].name] == vs[i].expression)
    && forall x :: x in programs ==> exists i :: 0 <= i < |vs| && vs[i].name == x
  }

  lemma ArtifactIsForm(p: ValidatingPolicy)
    ensures IsFormOf(Artifact(p), p)
  {
    var vs := p.variables;
    forall i | 0 <= i < |vs| && forall k :: i < k < |vs| ==> vs[k].name != vs[i].name
      ensures vs[i].name in Programs(vs, |vs|) && Programs(vs, |vs|)[vs[i].name] == vs[i].expression
    {
      LastProgramWins(vs, i, |vs|);
    }
    forall x | x in Programs(vs, |vs|) ensures exists i :: 0 <= i < |vs| && vs[i].name == x {
      ProgramsAreDeclared(vs, |vs|, x);
    }
  }

  method Compile(p: ValidatingPolicy) returns (r: Result<CompiledPolicy, CompileError>)
    ensures r.Ok? <==> Checkable(p)
    ensures r.Ok? ==> IsFormOf(r.value, p)
    ensures r.Ok? <==> Accepts(p)
    ensures r.Ok? ==> r.value == Artifact(p)
    ensures r.Err? ==> Rejects(p, r.error)
  {
    if p.evaluationMode.Unknown? {
      return Err(InvalidMode(p.evaluationMode.text));
    }
    AcceptsIffChecks(p);
    var mode := p.evaluationMode.mode;
    var provider := new VariablesProvider();
    var conditions := CompileMatchConditions(provider, mode, p.matchConditions);
    if conditions.Err? {
      AcceptedOrRejectedOnce(p, conditions.error, conditions.error);
      return Err(conditions.error);
    }
    var variables := CompileVariables(provider, mode, p.variables);
    if variables.Err? {
      AcceptedOrRejectedOnce(p, variables.error, variables.error);
      return Err(variables.error);
    }
    var rules := CompileValidations(provider, mode, p.validations);
    if rules.Err? {
      AcceptedOrRejectedOnce(p, rules.error, rules.error);
      return Err(rules.error);
    }
    assert conditions.value == Artifact(p).matchConditions && rules.value == Artifact(p).rules;
    ArtifactIsForm(p);
    return Ok(CompiledPolicy(p.GetFailurePolicy(), conditions.value, variables.value, rules.value));
  }
}
