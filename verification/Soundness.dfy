/** Type soundness of what the evaluator runs: of lazy variables, at every depth, repeated names
    included. */
module Soundness {
  import opened Wrappers
  import opened Cel
  import opened Policies
  import opened Compiler
  import opened Laziness
  import opened Evaluator

  // ------------------------------------------- lazy evaluation without a memo

  /** Evaluation on demand that remembers nothing; None when `depth` is not enough. */
  ghost function Plain(depth: nat, programs: map<string, Expr>, r: Request, e: Expr): Option<Outcome>
    decreases depth, e
  {
    match e
    case Header(obj, key) =>
      (match Plain(depth, programs, r, obj)
       case None => None
       case Some(o) => Some(EvalHeader(o, key)))
    case Variables(x) =>
      if x !in programs then Some(Err(NoSuchVariable(x)))
      else if depth == 0 then None
      else Plain(depth - 1, programs, r, programs[x])
    case Equals(l, rr) =>
      (match Plain(depth, programs, r, l)
       case None => None
       case Some(o) =>
         if o.Err? then Some(o) else
         match Plain(depth, programs, r, rr)
         case None => None
         case Some(o') => Some(EvalEquals(o, o')))
    case And(l, rr) =>
      (match Plain(depth, programs, r, l)
       case None => None
       case Some(o) =>
         if o == Ok(BoolValue(false)) then Some(o) else
         match Plain(depth, programs, r, rr)
         case None => None
         case Some(o') => Some(EvalAnd(o, o')))
    case Cond(c, a, b) =>
      (match Plain(depth, programs, r, c)
       case None => None
       case Some(Ok(BoolValue(t))) => Plain(depth, programs, r, if t then a else b)
       case Some(Ok(_)) => Some(Err(NoSuchOverload))
       case Some(Err(x)) => Some(Err(x)))
    case Respond(mode, body) =>
      (match Plain(depth, programs, r, body)
       case None => None
       case Some(o) => Some(EvalRespond(mode, o)))
    case _ => Some(Eval(r, map[], e))
  }

  /** More depth never changes an outcome. */
  lemma {:induction false} DepthOnlyHelps(depth: nat, more: nat, programs: map<string, Expr>, r: Request, e: Expr)
    requires depth <= more && Plain(depth, programs, r, e).Some?
    ensures Plain(more, programs, r, e) == Plain(depth, programs, r, e)
    decreases depth, e
  {
    match e
    case Header(obj, _) => DepthOnlyHelps(depth, more, programs, r, obj);
    case Variables(x) =>
      if x in programs {
        DepthOnlyHelps(depth - 1, more - 1, programs, r, programs[x]);
      }
    case Equals(l, rr) =>
      DepthOnlyHelps(depth, more, programs, r, l);
      if Plain(depth, programs, r, l).value.Ok? {
        DepthOnlyHelps(depth, more, programs, r, rr);
      }
    case And(l, rr) =>
      DepthOnlyHelps(depth, more, programs, r, l);
      if Plain(depth, programs, r, l).value != Ok(BoolValue(false)) {
        DepthOnlyHelps(depth, more, programs, r, rr);
      }
    case Cond(c, a, b) =>
      DepthOnlyHelps(depth, more, programs, r, c);
      var o := Plain(depth, programs, r, c).value;
      if o.Ok? && o.value.BoolValue? {
        DepthOnlyHelps(depth, more, programs, r, if o.value.b then a else b);
      }
    case Respond(_, body) => DepthOnlyHelps(depth, more, programs, r, body);
    case _ =>
  }

  ghost predicate Justified(programs: map<string, Expr>, r: Request, x: string, o: Outcome) {
    exists depth: nat :: Plain(depth, programs, r, Variables(x)) == Some(o)
  }

  /** A memo table holds only outcomes that evaluation without a memo gives, too. */
  ghost predicate Honest(programs: map<string, Expr>, r: Request, memo: Memo) {
    forall x :: x in memo ==> Justified(programs, r, x, memo[x])
  }

  lemma {:induction false} LazyIsPlain(depth: nat, programs: map<string, Expr>, r: Request, memo: Memo, e: Expr)
    returns (d: nat)
    requires Honest(programs, r, memo) && LazyEval(depth, programs, r, memo, e).Some?
    ensures Plain(d, programs, r, e) == Some(LazyEval(depth, programs, r, memo, e).value.0)
    ensures Honest(programs, r, LazyEval(depth, programs, r, memo, e).value.1)
    decreases depth, e, 0
  {
    match e
    case Header(obj, _) => d := LazyIsPlain(depth, programs, r, memo, obj);
    case Variables(x) =>
      if x in memo {
        assert Justified(programs, r, x, memo[x]);
        d :| Plain(d, programs, r, Variables(x)) == Some(memo[x]);
      } else if x in programs {
        var before := LazyIsPlain(depth - 1, programs, r, memo, programs[x]);
        d := before + 1;
        var (o, m) := LazyEval(depth - 1, programs, r, memo, programs[x]).value;
        assert Plain(d, programs, r, Variables(x)) == Some(o);
        assert Justified(programs, r, x, o);
      } else {
        d := 0;
      }
    case Equals(l, rr) =>
      d := LazyIsPlain(depth, programs, r, memo, l);
      var (o, m) := LazyEval(depth, programs, r, memo, l).value;
      if o.Ok? {
        d := BothPlain(depth, programs, r, m, l, rr, d);
      }
    case And(l, rr) =>
      d := LazyIsPlain(depth, programs, r, memo, l);
      var (o, m) := LazyEval(depth, programs, r, memo, l).value;
      if o != Ok(BoolValue(false)) {
        d := BothPlain(depth, programs, r, m, l, rr, d);
      }
    case Cond(c, a, b) =>
      d := LazyIsPlain(depth, programs, r, memo, c);
      var (o, m) := LazyEval(depth, programs, r, memo, c).value;
      if o.Ok? && o.value.BoolValue? {
        d := BothPlain(depth, programs, r, m, c, if o.value.b then a else b, d);
      }
    case Respond(_, body) => d := LazyIsPlain(depth, programs, r, memo, body);
    case _ => d := 0;
  }

  /** A second expression, evaluated after a first that `before` was enough for. */
  lemma {:induction false} BothPlain(
    depth: nat, programs: map<string, Expr>, r: Request, memo: Memo, first: Expr, second: Expr, before: nat)
    returns (d: nat)
    requires Honest(programs, r, memo) && LazyEval(depth, programs, r, memo, second).Some?
    requires Plain(before, programs, r, first).Some?
    ensures Plain(d, programs, r, first) == Plain(before, programs, r, first)
    ensures Plain(d, programs, r, second) == Some(LazyEval(depth, programs, r, memo, second).value.0)
    ensures Honest(programs, r, LazyEval(depth, programs, r, memo, second).value.1)
    decreases depth, second, 1
  {
    var after := LazyIsPlain(depth, programs, r, memo, second);
    d := if before < after then after else before;
    DepthOnlyHelps(before, d, programs, r, first);
    DepthOnlyHelps(after, d, programs, r, second);
  }

  /** The least depth at which a variable is computed: one less is too little. */
  lemma {:induction false} LeastDepth(depth: nat, programs: map<string, Expr>, r: Request, x: string)
    returns (least: nat)
    requires x in programs && Plain(depth, programs, r, Variables(x)).Some?
    ensures 0 < least <= depth
    ensures Plain(least, programs, r, Variables(x)) == Plain(depth, programs, r, Variables(x))
    ensures Plain(least - 1, programs, r, Variables(x)).None?
    decreases depth
  {
    least := depth;
    if Plain(depth - 1, programs, r, Variables(x)).Some? {
      DepthOnlyHelps(depth - 1, depth, programs, r, Variables(x));
      least := LeastDepth(depth - 1, programs, r, x);
    }
  }

  // ------------------------------------------------------- repeated names

  /** Between two declarations of a name there are only declarations of that name. */
  ghost predicate RepeatsAdjacent(vs: seq<Variable>) {
    forall i, j, k :: 0 <= i < j < k < |vs| && vs[i].name == vs[k].name ==> vs[j].name == vs[k].name
  }

  lemma {:induction false} FieldStays(mode: Mode, vs: seq<Variable>, i: nat, n: nat, y: string)
    requires i <= n <= |vs| && TypesAfter(mode, vs, n).Some? && forall k :: i <= k < n ==> vs[k].name != y
    ensures TypesAfter(mode, vs, i).Some?
    ensures y in TypesAfter(mode, vs, i).value ==>
              y in TypesAfter(mode, vs, n).value && TypesAfter(mode, vs, n).value[y] == TypesAfter(mode, vs, i).value[y]
  {
    if i < n {
      FieldStays(mode, vs, i, n - 1, y);
    }
  }

  lemma {:induction false} LastDeclaration(vs: seq<Variable>, n: nat, x: string) returns (k: nat)
    requires n <= |vs| && x in Names(vs, n)
    ensures k < n && vs[k].name == x && forall j :: k < j < n ==> vs[j].name != x
  {
    k := n - 1;
    if vs[k].name != x {
      k := LastDeclaration(vs, n - 1, x);
    }
  }

  ghost predicate LastOfItsName(vs: seq<Variable>, k: nat) {
    k < |vs| && forall j :: k < j < |vs| ==> vs[j].name != vs[k].name
  }

  /** A variable that the declaration at `k` reads keeps the type that it was checked with, unless it is
      the one declared. */
  ghost predicate SettledRead(mode: Mode, vs: seq<Variable>, k: nat, y: string)
    requires k < |vs|
  {
    var before, final := TypesAfter(mode, vs, k), TypesAfter(mode, vs, |vs|);
    y != vs[k].name && before.Some? && final.Some? && y in before.value ==>
      y in final.value && final.value[y] == before.value[y]
  }

  /** No declaration that is in force at run time was checked against a type that changed later. */
  ghost predicate SettledReads(mode: Mode, vs: seq<Variable>) {
    forall k: nat, y :: LastOfItsName(vs, k) && y in Reads(vs[k].expression) ==> SettledRead(mode, vs, k, y)
  }

  lemma AdjacentRepeatsAreSettledAt(mode: Mode, vs: seq<Variable>, k: nat, y: string)
    requires RepeatsAdjacent(vs) && TypesAfter(mode, vs, |vs|).Some?
    requires LastOfItsName(vs, k) && y in Reads(vs[k].expression)
    ensures SettledRead(mode, vs, k, y)
  {
    TypesAfterIsPrefixClosed(mode, vs, k + 1, |vs|);
    CheckedReadsAreRegistered(mode, TypesAfter(mode, vs, k).value, vs[k].expression);
    if y != vs[k].name {
      var i := Declaration(vs, k, y);
      assert vs[i].name == y;
      forall j | k <= j < |vs| ensures vs[j].name != y {}
      FieldStays(mode, vs, k, |vs|, y);
    }
  }

  lemma AdjacentRepeatsAreSettled(mode: Mode, vs: seq<Variable>)
    requires RepeatsAdjacent(vs) && TypesAfter(mode, vs, |vs|).Some?
    ensures SettledReads(mode, vs)
  {
    forall k: nat, y | LastOfItsName(vs, k) && y in Reads(vs[k].expression) ensures SettledRead(mode, vs, k, y) {
      AdjacentRepeatsAreSettledAt(mode, vs, k, y);
    }
  }

  ghost predicate Fits(
    depth: nat, programs: map<string, Expr>, r: Request, fields: map<string, Type>, final: map<string, Type>, y: string)
  {
    y in programs && y in fields && y in final &&
    (fields[y] == final[y] || Plain(depth, programs, r, Variables(y)).None?)
  }

  /** An expression has its type whenever it has an outcome, if the variables it reads have the types
      it was checked against, or have no outcome at this depth. */
  lemma {:induction false} PlainIsTyped(
    depth: nat, r: Request, vs: seq<Variable>, fields: map<string, Type>, e: Expr)
    requires SettledReads(r.mode, vs) && TypesAfter(r.mode, vs, |vs|).Some?
    requires Check(r.mode, fields, e).Some? && Plain(depth, Programs(vs, |vs|), r, e).Some?
    requires forall y :: y in Reads(e) ==>
               Fits(depth, Programs(vs, |vs|), r, fields, TypesAfter(r.mode, vs, |vs|).value, y)
    ensures WellTyped(Plain(depth, Programs(vs, |vs|), r, e).value, Check(r.mode, fields, e).value)
    decreases depth, 1, e
  {
    var programs := Programs(vs, |vs|);
    match e
    case Header(obj, _) => PlainIsTyped(depth, r, vs, fields, obj);
    case Variables(x) =>
      var final := TypesAfter(r.mode, vs, |vs|).value;
      assert Fits(depth, programs, r, fields, final, x);
      var least := LeastDepth(depth, programs, r, x);
      DeclaredIsTyped(least, r, vs, x);
    case Equals(l, rr) =>
      PlainIsTyped(depth, r, vs, fields, l);
      if Plain(depth, programs, r, l).value.Ok? {
        PlainIsTyped(depth, r, vs, fields, rr);
      }
    case And(l, rr) =>
      PlainIsTyped(depth, r, vs, fields, l);
      if Plain(depth, programs, r, l).value != Ok(BoolValue(false)) {
        PlainIsTyped(depth, r, vs, fields, rr);
      }
    case Cond(c, a, b) =>
      PlainIsTyped(depth, r, vs, fields, c);
      var o := Plain(depth, programs, r, c).value;
      if o.Ok? {
        PlainIsTyped(depth, r, vs, fields, if o.value.b then a else b);
      }
    case Respond(_, body) => PlainIsTyped(depth, r, vs, fields, body);
    case _ =>
  }

  lemma ProgramsDeclared(vs: seq<Variable>, k: nat, y: string)
    requires k <= |vs| && y in Names(vs, k)
    ensures y in Programs(vs, |vs|)
  {
    var i := Declaration(vs, k, y);
    FirstIsDeclared(vs, i, |vs|);
    var last := LastDeclaration(vs, |vs|, y);
    LastProgramWins(vs, last, |vs|);
  }

  /** The last declaration of `x` is its program and gives it its final type; what it reads was checked
      against final types, but for `x` itself. */
  lemma LastDeclarationDecides(mode: Mode, vs: seq<Variable>, x: string) returns (k: nat)
    requires SettledReads(mode, vs) && TypesAfter(mode, vs, |vs|).Some? && x in Programs(vs, |vs|)
    ensures k < |vs| && Programs(vs, |vs|)[x] == vs[k].expression
    ensures TypesAfter(mode, vs, k).Some? && x in TypesAfter(mode, vs, |vs|).value
    ensures Check(mode, TypesAfter(mode, vs, k).value, vs[k].expression) == Some(TypesAfter(mode, vs, |vs|).value[x])
    ensures forall y :: y in Reads(vs[k].expression) ==>
              ReadAsFinal(TypesAfter(mode, vs, k).value, TypesAfter(mode, vs, |vs|).value, Programs(vs, |vs|), x, y)
  {
    k := LastDeclaration(vs, |vs|, x);
    LastProgramWins(vs, k, |vs|);
    TypesAfterIsPrefixClosed(mode, vs, k + 1, |vs|);
    var before, final := TypesAfter(mode, vs, k).value, TypesAfter(mode, vs, |vs|).value;
    FieldStays(mode, vs, k + 1, |vs|, x);
    CheckedReadsAreRegistered(mode, before, vs[k].expression);
    forall y | y in Reads(vs[k].expression) ensures ReadAsFinal(before, final, Programs(vs, |vs|), x, y) {
      assert LastOfItsName(vs, k) && SettledRead(mode, vs, k, y);
      ProgramsDeclared(vs, k, y);
    }
  }

  ghost predicate ReadAsFinal(
    before: map<string, Type>, final: map<string, Type>, programs: map<string, Expr>, x: string, y: string)
  {
    y in programs && y in before && y in final && (y != x ==> final[y] == before[y])
  }

  /** A declared variable has its registered type whenever it has an outcome. */
  lemma {:induction false} DeclaredIsTyped(least: nat, r: Request, vs: seq<Variable>, x: string)
    requires SettledReads(r.mode, vs) && TypesAfter(r.mode, vs, |vs|).Some? && x in Programs(vs, |vs|)
    requires least > 0 && Plain(least, Programs(vs, |vs|), r, Variables(x)).Some?
    requires Plain(least - 1, Programs(vs, |vs|), r, Variables(x)).None?
    ensures x in TypesAfter(r.mode, vs, |vs|).value
    ensures WellTyped(
              Plain(least, Programs(vs, |vs|), r, Variables(x)).value, TypesAfter(r.mode, vs, |vs|).value[x])
    decreases least, 0
  {
    var programs, final := Programs(vs, |vs|), TypesAfter(r.mode, vs, |vs|).value;
    var k := LastDeclarationDecides(r.mode, vs, x);
    var before, e := TypesAfter(r.mode, vs, k).value, vs[k].expression;
    forall y | y in Reads(e) ensures Fits(least - 1, programs, r, before, final, y) {
      assert ReadAsFinal(before, final, programs, x, y);
    }
    PlainIsTyped(least - 1, r, vs, before, e);
  }

  // ------------------------------------------------------------ match conditions

  /** An accepted match condition reads no variable, and is true, false or an ordinary failure. */
  lemma MatchConditionsAreSound(p: ValidatingPolicy, r: Request, i: nat)
    requires Accepts(p) && r.mode == p.evaluationMode.mode && i < |p.matchConditions|
    ensures Reads(p.matchConditions[i].expression) == {}
    ensures TruthOf(r, p.matchConditions[i].expression).Failed? ==>
              Ordinary(TruthOf(r, p.matchConditions[i].expression).error)
  {
    assert ConditionOk(r.mode, p.matchConditions[i]);
    CheckedReadsAreRegistered(r.mode, map[], p.matchConditions[i].expression);
    EvalSound(r, map[], map[], p.matchConditions[i].expression);
  }

  lemma {:induction false} FailuresAreOrdinary(r: Request, cs: seq<Expr>)
    requires forall c <- cs :: TruthOf(r, c).Failed? ==> Ordinary(TruthOf(r, c).error)
    ensures forall x <- Failures(r, cs) :: Ordinary(x)
  {
    if cs != [] {
      FailuresAreOrdinary(r, cs[..|cs| - 1]);
    }
  }

  // ----------------------------------------------------------- whole policies

  /** No error but those of well-typed expressions, or the loader's own. */
  ghost predicate OnlyOrdinary(e: Evaluation, loader: Option<Error>) {
    forall x <- e.errors :: Ordinary(x) || Some(x) == loader
  }

  /** With settled reads, what a rule gives at run time, from any memo table that earlier rules can
      have left, is null, a response of the policy's own mode, or an ordinary failure. */
  lemma RuleIsSound(depth: nat, p: ValidatingPolicy, r: Request, memo: Memo, i: nat)
    requires Accepts(p) && r.mode == p.evaluationMode.mode && SettledReads(r.mode, p.variables) && i < |p.validations|
    requires Honest(Artifact(p).variables, r, memo)
    ensures
      var o := LazyEval(depth, Artifact(p).variables, r, memo, p.validations[i].expression);
      o.Some? ==>
        WellTyped(o.value.0, ResponseType(r.mode)) && Honest(Artifact(p).variables, r, o.value.1)
  {
    var vs, e := p.variables, p.validations[i].expression;
    var programs, final := Programs(vs, |vs|), TypesAfter(r.mode, vs, |vs|).value;
    if LazyEval(depth, programs, r, memo, e).Some? {
      var d := LazyIsPlain(depth, programs, r, memo, e);
      assert RuleOk(r.mode, final, p.validations[i]);
      CheckedReadsAreRegistered(r.mode, final, e);
      forall y | y in Reads(e) ensures Fits(d, programs, r, final, final, y) {}
      PlainIsTyped(d, r, vs, final, e);
    }
  }

  lemma {:induction false} RulesRunSoundly(depth: nat, p: ValidatingPolicy, r: Request, memo: Memo, i: nat)
    requires Accepts(p) && r.mode == p.evaluationMode.mode && SettledReads(r.mode, p.variables) && i <= |p.validations|
    requires Honest(Artifact(p).variables, r, memo)
    ensures
      var o := RunRules(depth, Artifact(p).variables, r, memo, Artifact(p).rules[i..], r.mode);
      o.Some? ==> forall x <- o.value.errors :: Ordinary(x)
    decreases |p.validations| - i
  {
    var c := Artifact(p);
    if i < |p.validations| {
      assert c.rules[i..][0] == p.validations[i].expression && c.rules[i..][1..] == c.rules[i + 1..];
      RuleIsSound(depth, p, r, memo, i);
      var o := LazyEval(depth, c.variables, r, memo, p.validations[i].expression);
      if o.Some? {
        RulesRunSoundly(depth, p, r, o.value.1, i + 1);
      }
    }
  }

  /** Type soundness of what runs. On a request of its own mode, at every depth, an accepted policy
      whose variables read settled types fails only as well-typed expressions can, or as the loader
      did: never on a condition that is not a bool, a rule result of the wrong type, or an unknown
      variable. */
  lemma AcceptedPolicyIsSound(depth: nat, p: ValidatingPolicy, r: Request, loader: Option<Error>)
    requires Accepts(p) && r.mode == p.evaluationMode.mode && SettledReads(r.mode, p.variables)
    ensures Run(depth, Artifact(p), r, r.mode, loader).Some? ==>
              OnlyOrdinary(Run(depth, Artifact(p), r, r.mode, loader).value, loader)
  {
    var c := Artifact(p);
    forall i | 0 <= i < |c.matchConditions|
      ensures TruthOf(r, c.matchConditions[i]).Failed? ==> Ordinary(TruthOf(r, c.matchConditions[i]).error)
    {
      MatchConditionsAreSound(p, r, i);
    }
    FailuresAreOrdinary(r, c.matchConditions);
    RulesRunSoundly(depth, p, r, map[], 0);
    assert c.rules[0..] == c.rules;
  }

  // ------------------------------------------- exactly which names are sound

  ghost predicate Declares(p: ValidatingPolicy, mode: Mode, names: seq<string>) {
    p.evaluationMode == Known(mode) && Named(p.variables, names) && Accepts(p)
  }

  ghost predicate SoundAt(p: ValidatingPolicy, depth: nat, r: Request, loader: Option<Error>) {
    p.evaluationMode == Known(r.mode) && Run(depth, Artifact(p), r, r.mode, loader).Some? ==>
      OnlyOrdinary(Run(depth, Artifact(p), r, r.mode, loader).value, loader)
  }

  ghost predicate Sound(p: ValidatingPolicy) {
    forall depth: nat, r, loader :: SoundAt(p, depth, r, loader)
  }

  ghost predicate EndsAt(p: ValidatingPolicy, depth: nat, r: Request, loader: Option<Error>) {
    |p.variables| <= depth ==> Run(depth, Artifact(p), r, r.mode, loader).Some?
  }

  ghost predicate AlwaysEnds(p: ValidatingPolicy) {
    forall depth: nat, r, loader :: EndsAt(p, depth, r, loader)
  }

  ghost predicate AdjacentNames(names: seq<string>) {
    forall i, j, k :: 0 <= i < j < k < |names| && names[i] == names[k] ==> names[j] == names[k]
  }

  /** Every declaration of the name at `k` is a response except that at `k`, the last one, which is
      a text; the one at `j` reads that name. */
  ghost function Confusing(mode: Mode, names: seq<string>, j: nat, k: nat): (vs: seq<Variable>)
    requires j < |names| && k < |names|
    ensures Named(vs, names)
  {
    seq(|names|, n requires 0 <= n < |names| =>
      Variable(
        names[n],
        if n == k then StringLit("s")
        else if n == j then Variables(names[k])
        else if names[n] == names[k] then Respond(mode, StringLit("ok"))
        else StringLit("")))
  }

  ghost predicate LastOfName(names: seq<string>, k: nat)
    requires k < |names|
  {
    forall n :: k < n < |names| ==> names[n] != names[k]
  }

  lemma ConfusingChecks(mode: Mode, names: seq<string>, j: nat, k: nat, n: nat, fields: map<string, Type>)
    requires j < |names| && k < |names| && n < |names| && names[j] != names[k]
    requires n == j ==> names[k] in fields && fields[names[k]] == ResponseType(mode)
    ensures Check(mode, fields, Confusing(mode, names, j, k)[n].expression)
         == Some(if n != k && (n == j || names[n] == names[k]) then ResponseType(mode) else StringType)
  {
    assert Check(mode, fields, StringLit("ok")) == Some(StringType);
  }

  lemma {:induction false} ConfusingAccepted(mode: Mode, names: seq<string>, i: nat, j: nat, k: nat, n: nat)
    requires i < j < k < |names| && names[i] == names[k] != names[j] && LastOfName(names, j) && n <= |names|
    ensures
      var fields := TypesAfter(mode, Confusing(mode, names, j, k), n);
      && fields.Some?
      && (i < n <= k ==> names[k] in fields.value && fields.value[names[k]] == ResponseType(mode))
      && (j < n ==> names[j] in fields.value && fields.value[names[j]] == ResponseType(mode))
  {
    if n > 0 {
      ConfusingAccepted(mode, names, i, j, k, n - 1);
      ConfusingChecks(mode, names, j, k, n - 1, TypesAfter(mode, Confusing(mode, names, j, k), n - 1).value);
    }
  }

  ghost function OneRule(mode: Mode, vs: seq<Variable>, rule: Expr): ValidatingPolicy {
    ValidatingPolicy("policy", "", Known(mode), [], vs, [Validation(rule, "", None)], Some(FAIL))
  }

  /** A rule that demands `y`, whose program reads `x`, whose program is a text. */
  lemma IndirectText(depth: nat, p: ValidatingPolicy, mode: Mode, r: Request, x: string, y: string, vs: seq<Variable>)
    requires depth >= 2 && p == OneRule(mode, vs, Variables(y))
    requires x in Artifact(p).variables && Artifact(p).variables[x] == StringLit("s")
    requires y in Artifact(p).variables && Artifact(p).variables[y] == Variables(x)
    ensures Run(depth, Artifact(p), r, mode, None) == Some(Evaluation(None, [NotResponse]))
  {
    var c := Artifact(p);
    assert c.rules == [Variables(y)] && c.matchConditions == [];
    assert LazyEval(depth - 2, c.variables, r, map[], StringLit("s")) == Some((Ok(StringValue("s")), map[]));
    assert LazyEval(depth - 1, c.variables, r, map[], Variables(x)).value.0 == Ok(StringValue("s"));
    assert LazyEval(depth, c.variables, r, map[], Variables(y)).value.0 == Ok(StringValue("s"));
  }

  /** A policy that is accepted and yet, at every depth but the smallest, reports a rule result of the
      wrong type: a variable was checked against the first type of a name that later changed it. */
  lemma ConfusingIsUnsound(mode: Mode, names: seq<string>, i: nat, j: nat, k: nat, depth: nat, r: Request)
    requires i < j < k < |names| && names[i] == names[k] != names[j]
    requires LastOfName(names, j) && LastOfName(names, k) && depth >= 2
    ensures
      var p := OneRule(mode, Confusing(mode, names, j, k), Variables(names[j]));
      Declares(p, mode, names) && Run(depth, Artifact(p), r, mode, None) == Some(Evaluation(None, [NotResponse]))
  {
    var vs := Confusing(mode, names, j, k);
    var p := OneRule(mode, vs, Variables(names[j]));
    ConfusingAccepted(mode, names, i, j, k, |names|);
    LastProgramWins(vs, j, |vs|);
    LastProgramWins(vs, k, |vs|);
    IndirectText(depth, p, mode, r, names[k], names[j], vs);
  }

  /** A name that changes its type after another variable has read it. */
  function ChangingName(): seq<Variable> {
    [Variable("x", Respond(Envoy, StringLit("ok"))), Variable("y", Variables("x")), Variable("x", StringLit("s"))]
  }

  lemma ChangingNameInOrder(r: Request)
    ensures
      var vars := EagerVars(r, ChangingName(), 3);
      "y" in vars && vars["y"] == Ok(ResponseValue(Response(Envoy, "ok")))
  {
    var vs := ChangingName();
    assert Eval(r, map[], StringLit("ok")) == Ok(StringValue("ok"));
    assert EagerVars(r, vs, 0) == map[];
    assert EagerVars(r, vs, 1)["x"] == Ok(ResponseValue(Response(Envoy, "ok")));
    assert EagerVars(r, vs, 2)["y"] == EagerVars(r, vs, 1)["x"];
  }

  /** For the smallest such policy, computing the variables in order would have answered. */
  lemma RepeatedNameChangesTheAnswer(depth: nat, r: Request)
    requires depth >= 2
    ensures
      var p := OneRule(Envoy, ChangingName(), Variables("y"));
      && Accepts(p)
      && Run(depth, Artifact(p), r, Envoy, None) == Some(Evaluation(None, [NotResponse]))
      && Meaning(p, r, Envoy, None) == Evaluation(Some(Response(Envoy, "ok")), [])
  {
    var names := ["x", "y", "x"];
    assert Confusing(Envoy, names, 1, 2) == ChangingName();
    ConfusingIsUnsound(Envoy, names, 0, 1, 2, depth, r);
    ChangingNameInOrder(r);
    var p := OneRule(Envoy, ChangingName(), Variables("y"));
    var rules, vars := Artifact(p).rules, EagerVars(r, ChangingName(), 3);
    assert rules == [Variables("y")] && Artifact(p).matchConditions == [];
    assert Judge(Eval(r, vars, rules[0]), Envoy) == Settle(Evaluation(Some(Response(Envoy, "ok")), []));
  }

  lemma {:induction false} LastFrom(names: seq<string>, i: nat) returns (last: nat)
    requires i < |names|
    ensures i <= last < |names| && names[last] == names[i] && LastOfName(names, last)
    decreases |names| - i
  {
    last := i;
    if n :| i < n < |names| && names[n] == names[i] {
      last := LastFrom(names, n);
    }
  }

  lemma UnsoundPolicy(mode: Mode, names: seq<string>) returns (p: ValidatingPolicy)
    requires !AdjacentNames(names)
    ensures Declares(p, mode, names)
    ensures Run(2, Artifact(p), Request(mode, map[]), mode, None) == Some(Evaluation(None, [NotResponse]))
  {
    var i, j, k :| 0 <= i < j < k < |names| && names[i] == names[k] != names[j];
    var lastJ := LastFrom(names, j);
    var lastK := LastFrom(names, k);
    if lastJ < lastK {
      ConfusingIsUnsound(mode, names, i, lastJ, lastK, 2, Request(mode, map[]));
      p := OneRule(mode, Confusing(mode, names, lastJ, lastK), Variables(names[lastJ]));
    } else {
      ConfusingIsUnsound(mode, names, j, lastK, lastJ, 2, Request(mode, map[]));
      p := OneRule(mode, Confusing(mode, names, lastK, lastJ), Variables(names[lastK]));
    }
  }

  /** For a list of variable names, every accepted policy over it is sound at run time exactly when
      no declaration of another name stands between two of one name. */
  lemma SoundIffRepeatsAdjacent(mode: Mode, names: seq<string>)
    ensures (forall p :: Declares(p, mode, names) ==> Sound(p)) <==> AdjacentNames(names)
  {
    if AdjacentNames(names) {
      forall p, depth: nat, r, loader | Declares(p, mode, names) ensures SoundAt(p, depth, r, loader) {
        if r.mode == mode {
          AdjacentRepeatsAreSettled(mode, p.variables);
          AcceptedPolicyIsSound(depth, p, r, loader);
        }
      }
    } else {
      var p := UnsoundPolicy(mode, names);
      var r := Request(mode, map[]);
      assert NotResponse in Run(2, Artifact(p), r, mode, None).value.errors;
      assert !SoundAt(p, 2, r, None);
    }
  }

  /** A rule that demands a variable which reads itself is never done. */
  lemma SelfReadingNeverEnds(mode: Mode, names: seq<string>, first: nat, last: nat, depth: nat, r: Request)
    requires first < last < |names| && names[first] == names[last] && LastOfName(names, last)
    ensures
      var p := OneRule(mode, SelfReading(names, last), Cond(Variables(names[last]), NullLit, NullLit));
      Declares(p, mode, names) && Run(depth, Artifact(p), r, mode, None) == None
  {
    var vs := SelfReading(names, last);
    var p := OneRule(mode, vs, Cond(Variables(names[last]), NullLit, NullLit));
    SelfReadingAccepted(mode, names, first, last, |names|);
    FirstIsDeclared(vs, last, |vs|);
    LastProgramWins(vs, last, |vs|);
    assert Check(mode, TypesAfter(mode, vs, |vs|).value, Variables(names[last])) == Some(BoolType);
    assert Check(mode, TypesAfter(mode, vs, |vs|).value, NullLit) == Some(NullType);
    assert Accepts(p);
    SelfReferenceNeverEnds(depth, Programs(vs, |vs|), r, names[last]);
    assert Artifact(p).rules == [Cond(Variables(names[last]), NullLit, NullLit)] && Artifact(p).matchConditions == [];
  }

  /** And every accepted policy over it is sound and, at any depth from the number of its variables
      on, ends, exactly when no name is repeated at all. */
  lemma EndsSoundlyIffNamesDistinct(mode: Mode, names: seq<string>)
    ensures (forall p :: Declares(p, mode, names) ==> Sound(p) && AlwaysEnds(p))
            <==> (forall i, j :: 0 <= i < j < |names| ==> names[i] != names[j])
  {
    if i, j :| 0 <= i < j < |names| && names[i] == names[j] {
      var last := LastFrom(names, j);
      var p := OneRule(mode, SelfReading(names, last), Cond(Variables(names[last]), NullLit, NullLit));
      var r := Request(mode, map[]);
      SelfReadingNeverEnds(mode, names, i, last, |names|, r);
      assert !EndsAt(p, |names|, r, None);
    } else {
      SoundIffRepeatsAdjacent(mode, names);
      forall p, depth: nat, r, loader | Declares(p, mode, names) ensures EndsAt(p, depth, r, loader) {
        if |p.variables| <= depth {
          AcceptedPolicyRunsItsMeaning(depth, p, r, r.mode, loader);
        }
      }
    }
  }

  // ------------------------------------------------------------ other modes

  /** The expression makes no response but of the given mode. */
  predicate RespondsIn(mode: Mode, e: Expr) {
    match e
    case Header(obj, _) => RespondsIn(mode, obj)
    case Equals(l, r) => RespondsIn(mode, l) && RespondsIn(mode, r)
    case And(l, r) => RespondsIn(mode, l) && RespondsIn(mode, r)
    case Cond(c, a, b) => RespondsIn(mode, c) && RespondsIn(mode, a) && RespondsIn(mode, b)
    case Respond(m, body) => m == mode && RespondsIn(mode, body)
    case _ => true
  }

  lemma {:induction false} CheckedRespondsInItsMode(mode: Mode, fields: map<string, Type>, e: Expr)
    requires Check(mode, fields, e).Some?
    ensures RespondsIn(mode, e)
  {
    match e
    case Header(obj, _) => CheckedRespondsInItsMode(mode, fields, obj);
    case Equals(l, r) =>
      CheckedRespondsInItsMode(mode, fields, l);
      CheckedRespondsInItsMode(mode, fields, r);
    case And(l, r) =>
      CheckedRespondsInItsMode(mode, fields, l);
      CheckedRespondsInItsMode(mode, fields, r);
    case Cond(c, a, b) =>
      CheckedRespondsInItsMode(mode, fields, c);
      CheckedRespondsInItsMode(mode, fields, a);
      CheckedRespondsInItsMode(mode, fields, b);
    case Respond(_, body) => CheckedRespondsInItsMode(mode, fields, body);
    case _ =>
  }

  ghost predicate OwnResponse(mode: Mode, o: Outcome) {
    o.Ok? && o.value.ResponseValue? ==> o.value.response.mode == mode
  }

  ghost predicate OwnResponses(mode: Mode, memo: Memo) {
    forall x :: x in memo ==> OwnResponse(mode, memo[x])
  }

  lemma {:induction false} LazyOwnResponses(
    mode: Mode, depth: nat, programs: map<string, Expr>, r: Request, memo: Memo, e: Expr)
    requires RespondsIn(mode, e) && OwnResponses(mode, memo)
    requires forall x :: x in programs ==> RespondsIn(mode, programs[x])
    ensures
      var o := LazyEval(depth, programs, r, memo, e);
      o.Some? ==> OwnResponse(mode, o.value.0) && OwnResponses(mode, o.value.1)
    decreases depth, e
  {
    match e
    case Header(obj, _) => LazyOwnResponses(mode, depth, programs, r, memo, obj);
    case Variables(x) =>
      if x !in memo && x in programs && depth > 0 {
        LazyOwnResponses(mode, depth - 1, programs, r, memo, programs[x]);
      }
    case Equals(l, rr) =>
      LazyOwnResponses(mode, depth, programs, r, memo, l);
      var o := LazyEval(depth, programs, r, memo, l);
      if o.Some? {
        LazyOwnResponses(mode, depth, programs, r, o.value.1, rr);
      }
    case And(l, rr) =>
      LazyOwnResponses(mode, depth, programs, r, memo, l);
      var o := LazyEval(depth, programs, r, memo, l);
      if o.Some? {
        LazyOwnResponses(mode, depth, programs, r, o.value.1, rr);
      }
    case Cond(c, a, b) =>
      LazyOwnResponses(mode, depth, programs, r, memo, c);
      var o := LazyEval(depth, programs, r, memo, c);
      if o.Some? && o.value.0.Ok? && o.value.0.value.BoolValue? {
        LazyOwnResponses(mode, depth, programs, r, o.value.1, if o.value.0.value.b then a else b);
      }
    case Respond(_, body) => LazyOwnResponses(mode, depth, programs, r, memo, body);
    case _ =>
  }

  lemma {:induction false} ProgramsRespondInTheirMode(mode: Mode, vs: seq<Variable>, n: nat)
    requires n <= |vs| && TypesAfter(mode, vs, n).Some?
    ensures forall x :: x in Programs(vs, n) ==> RespondsIn(mode, Programs(vs, n)[x])
  {
    if n > 0 {
      ProgramsRespondInTheirMode(mode, vs, n - 1);
      CheckedRespondsInItsMode(mode, TypesAfter(mode, vs, n - 1).value, vs[n - 1].expression);
    }
  }

  lemma {:induction false} ForeignRulesNeverAnswer(
    mode: Mode, depth: nat, programs: map<string, Expr>, r: Request, memo: Memo, rules: seq<Expr>, out: Mode)
    requires out != mode && OwnResponses(mode, memo)
    requires forall x :: x in programs ==> RespondsIn(mode, programs[x])
    requires forall e <- rules :: RespondsIn(mode, e)
    ensures
      var o := RunRules(depth, programs, r, memo, rules, out);
      o.Some? ==> o.value.result == None
    decreases |rules|
  {
    if rules != [] {
      LazyOwnResponses(mode, depth, programs, r, memo, rules[0]);
      var o := LazyEval(depth, programs, r, memo, rules[0]);
      if o.Some? {
        ForeignRulesNeverAnswer(mode, depth, programs, r, o.value.1, rules[1..], out);
      }
    }
  }

  /** An accepted policy of one mode that finds its way to a server of the other, as the file sources
      let it, never answers a request there, whatever its variables are called. */
  lemma ForeignPolicyNeverAnswers(depth: nat, p: ValidatingPolicy, r: Request, loader: Option<Error>)
    requires Accepts(p) && r.mode != p.evaluationMode.mode
    ensures Run(depth, Artifact(p), r, r.mode, loader).Some? ==>
              Run(depth, Artifact(p), r, r.mode, loader).value.result == None
  {
    var mode, vs := p.evaluationMode.mode, p.variables;
    ProgramsRespondInTheirMode(mode, vs, |vs|);
    forall i | 0 <= i < |p.validations| ensures RespondsIn(mode, Artifact(p).rules[i]) {
      assert RuleOk(mode, TypesAfter(mode, vs, |vs|).value, p.validations[i]);
      CheckedRespondsInItsMode(mode, TypesAfter(mode, vs, |vs|).value, p.validations[i].expression);
    }
    ForeignRulesNeverAnswer(mode, depth, Artifact(p).variables, r, map[], Artifact(p).rules, r.mode);
  }
}
