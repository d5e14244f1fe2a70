/** The wire form of a policy, and what survives the way to a server and back. */
module Transfer {
  import opened Wrappers
  import opened Cel
  import opened Policies
  import opened Compiler
  import opened Evaluator

  datatype WireValidation = WireValidation(expression: Expr, message: Option<string>, reason: Option<string>)

  datatype WireSpec = WireSpec(
    evaluationMode: string,
    validations: seq<WireValidation>,
    variables: seq<Variable>,
    matchConditions: seq<MatchCondition>,
    failurePolicy: Option<string>)

  datatype WirePolicy = WirePolicy(name: string, delete: bool, spec: Option<WireSpec>)

  function ModeText(m: EvaluationMode): string {
    match m
    case Known(Envoy) => "Envoy"
    case Known(HTTP) => "HTTP"
    case Unknown(text) => text
  }

  /** An unknown mode is not spelled like a known one. */
  ghost predicate Proper(p: ValidatingPolicy) {
    p.evaluationMode.Unknown? ==> p.evaluationMode.text != "Envoy" && p.evaluationMode.text != "HTTP"
  }

  // ------------------------------------------------------------ specification

  ghost function Wire(p: ValidatingPolicy): WirePolicy {
    WirePolicy(p.name, false, Some(WireSpec(
      ModeText(p.evaluationMode),
      seq(|p.validations|, i requires 0 <= i < |p.validations| =>
        WireValidation(p.validations[i].expression, Some(p.validations[i].message), p.validations[i].reason)),
      p.variables,
      p.matchConditions,
      Some(match p.failurePolicy case Some(fp) => fp case None => IGNORE))))
  }

  /** The receiver reads the specification and every message without looking whether they are set. */
  ghost predicate Readable(w: WirePolicy) {
    w.spec.Some? && forall v <- w.spec.value.validations :: v.message.Some?
  }

  ghost function Unwire(w: WirePolicy): ValidatingPolicy
    requires Readable(w)
  {
    var spec := w.spec.value;
    ValidatingPolicy(
      w.name,
      "",
      if spec.evaluationMode == "Envoy" then Known(Envoy)
      else if spec.evaluationMode == "HTTP" then Known(HTTP)
      else Unknown(""),
      spec.matchConditions,
      spec.variables,
      seq(|spec.validations|, i requires 0 <= i < |spec.validations| =>
        Validation(spec.validations[i].expression, spec.validations[i].message.value, spec.validations[i].reason)),
      Some(match spec.failurePolicy case Some(fp) => fp case None => IGNORE))
  }

  // ------------------------------------------------------------------ methods

  method ToProto(p: ValidatingPolicy) returns (w: WirePolicy)
    ensures w == Wire(p) && Readable(w)
    ensures w.name == p.name && !w.delete && w.spec.Some?
    ensures
      var spec := w.spec.value;
      && (p.evaluationMode == Known(Envoy) ==> spec.evaluationMode == "Envoy")
      && (p.evaluationMode == Known(HTTP) ==> spec.evaluationMode == "HTTP")
      && (p.evaluationMode.Unknown? ==> spec.evaluationMode == p.evaluationMode.text)
      && spec.variables == p.variables && spec.matchConditions == p.matchConditions
      && spec.failurePolicy == Some(if p.failurePolicy.Some? then p.failurePolicy.value else "Ignore")
      && |spec.validations| == |p.validations|
      && forall i :: 0 <= i < |p.validations| ==>
           && spec.validations[i].expression == p.validations[i].expression
           && spec.validations[i].message == Some(p.validations[i].message)
           && spec.validations[i].reason == p.validations[i].reason
  {
    var validations: seq<WireValidation> := [];
    for i := 0 to |p.validations|
      invariant validations == Wire(p).spec.value.validations[..i]
    {
      var v := p.validations[i];
      validations := validations + [WireValidation(v.expression, Some(v.message), v.reason)];
    }
    var variables: seq<Variable> := [];
    for i := 0 to |p.variables|
      invariant variables == p.variables[..i]
    {
      variables := variables + [Variable(p.variables[i].name, p.variables[i].expression)];
    }
    var matchConds: seq<MatchCondition> := [];
    for i := 0 to |p.matchConditions|
      invariant matchConds == p.matchConditions[..i]
    {
      matchConds := matchConds + [MatchCondition(p.matchConditions[i].name, p.matchConditions[i].expression)];
    }
    var fp: string;
    if p.failurePolicy.Some? {
      fp := p.failurePolicy.value;
    } else {
      fp := IGNORE;
    }
    assert variables == p.variables && matchConds == p.matchConditions;
    assert validations == Wire(p).spec.value.validations;
    return WirePolicy(
      p.name, false, Some(WireSpec(ModeText(p.evaluationMode), validations, variables, matchConds, Some(fp))));
  }

  method FromProto(w: WirePolicy) returns (p: ValidatingPolicy)
    requires Readable(w)
    ensures p == Unwire(w)
    ensures p.name == w.name && p.resourceVersion == ""
    ensures
      var spec := w.spec.value;
      && (spec.evaluationMode == "Envoy" ==> p.evaluationMode == Known(Envoy))
      && (spec.evaluationMode == "HTTP" ==> p.evaluationMode == Known(HTTP))
      && (spec.evaluationMode != "Envoy" && spec.evaluationMode != "HTTP" ==> p.evaluationMode == Unknown(""))
      && p.variables == spec.variables && p.matchConditions == spec.matchConditions
      && p.failurePolicy == Some(if spec.failurePolicy.Some? then spec.failurePolicy.value else "Ignore")
      && |p.validations| == |spec.validations|
      && forall i :: 0 <= i < |spec.validations| ==>
           && p.validations[i].expression == spec.validations[i].expression
           && Some(p.validations[i].message) == spec.validations[i].message
           && p.validations[i].reason == spec.validations[i].reason
  {
    var spec := w.spec.value;
    var validations: seq<Validation> := [];
    for i := 0 to |spec.validations|
      invariant validations == Unwire(w).validations[..i]
    {
      var v := spec.validations[i];
      validations := validations + [Validation(v.expression, v.message.value, v.reason)];
    }
    var variables: seq<Variable> := [];
    for i := 0 to |spec.variables|
      invariant variables == spec.variables[..i]
    {
      variables := variables + [Variable(spec.variables[i].name, spec.variables[i].expression)];
    }
    var matchConds: seq<MatchCondition> := [];
    for i := 0 to |spec.matchConditions|
      invariant matchConds == spec.matchConditions[..i]
    {
      matchConds := matchConds + [MatchCondition(spec.matchConditions[i].name, spec.matchConditions[i].expression)];
    }
    var evalMode := Unknown("");
    if spec.evaluationMode == "Envoy" {
      evalMode := Known(Envoy);
    } else if spec.evaluationMode == "HTTP" {
      evalMode := Known(HTTP);
    }
    var fp := IGNORE;
    if spec.failurePolicy.Some? {
      fp := spec.failurePolicy.value;
    }
    return ValidatingPolicy(w.name, "", evalMode, matchConds, variables, validations, Some(fp));
  }

  // --------------------------------------------------------- what is preserved

  /** The policy as a server receives it. */
  ghost function Transferred(p: ValidatingPolicy): ValidatingPolicy {
    Unwire(Wire(p))
  }

  /** Everything compilation reads arrives; the resource version does not, and an unset failure
      policy arrives as IGNORE. */
  lemma TransferKeepsTheSpec(p: ValidatingPolicy)
    requires p.evaluationMode.Known?
    ensures Transferred(p) == p.(
            resourceVersion := "",
            failurePolicy := Some(match p.failurePolicy case Some(fp) => fp case None => IGNORE))
  {
    assert Transferred(p).validations == p.validations;
  }

  lemma TransferIsIdempotent(p: ValidatingPolicy)
    requires Proper(p)
    ensures Transferred(Transferred(p)) == Transferred(p)
  {
    assert Transferred(Transferred(p)).validations == Transferred(p).validations;
  }

  /** The form compiled from a received policy is the sender's, with an unset failure policy read as
      IGNORE instead of FAIL. */
  lemma TransferredArtifact(p: ValidatingPolicy)
    requires p.evaluationMode.Known?
    ensures Accepts(Transferred(p)) <==> Accepts(p)
    ensures Artifact(Transferred(p)) ==
            Artifact(p).(failurePolicy := match p.failurePolicy case Some(fp) => fp case None => IGNORE)
  {
    TransferKeepsTheSpec(p);
  }

  /** A policy of a known mode is accepted after transfer exactly when it was before; and what a
      server tells a request, however deep its variables nest, is the same exactly when the failure
      policy is set or evaluation does not fail on the request. */
  lemma TransferPreservesMeaning(depth: nat, p: ValidatingPolicy, r: Request, out: Mode, loader: Option<Error>)
    requires p.evaluationMode.Known?
    ensures Accepts(Transferred(p)) <==> Accepts(p)
    ensures Served(depth, Artifact(Transferred(p)), r, out, loader) == Served(depth, Artifact(p), r, out, loader)
            <==> (p.failurePolicy.Some? || Run(depth, Artifact(p), r, out, loader) == None
                  || Run(depth, Artifact(p), r, out, loader).value.errors == [])
  {
    TransferredArtifact(p);
  }
}
