/** The decision engine: policies are evaluated in order into a collector until a breaker says
    stop, and the collector is then asked for the result. */
module Engine {
  import opened Wrappers
  import opened Cel
  import opened Policies
  import opened Compiler
  import opened Evaluator
  import opened Soundness

  // --------------------------------------------------------------- resulters

  class First<O> {
    const accepts: O -> bool
    const zero: O
    var result: Option<O>

    constructor (accepts: O -> bool, zero: O)
      ensures this.accepts == accepts && this.zero == zero && result == None
    {
      this.accepts, this.zero, result := accepts, zero, None;
    }

    method Collect(out: O)
      modifies this
      ensures result == if old(result).None? && accepts(out) then Some(out) else old(result)
    {
      if result.None? {
        if accepts(out) {
          result := Some(out);
        }
      }
    }

    method Result() returns (o: O)
      ensures o == if result.Some? then result.value else zero
    {
      if result.None? {
        return zero;
      }
      return result.value;
    }
  }

  class Appender<T> {
    var result: seq<T>

    constructor ()
      ensures result == []
    {
      result := [];
    }

    method Collect(out: T)
      modifies this
      ensures result == old(result) + [out]
    {
      result := result + [out];
    }
  }

  /** Maps each outcome on its way into an inner appender and the collected list on its way out. */
  class Transformer<P, O, T, R> {
    const collect: (P, O) -> T
    const finish: seq<T> -> R
    const inner: Appender<T>

    constructor (collect: (P, O) -> T, finish: seq<T> -> R, inner: Appender<T>)
      ensures this.collect == collect && this.finish == finish && this.inner == inner
    {
      this.collect, this.finish, this.inner := collect, finish, inner;
    }

    method Collect(policy: P, out: O)
      modifies inner
      ensures inner.result == old(inner.result) + [collect(policy, out)]
    {
      inner.Collect(collect(policy, out));
    }

    method Result() returns (r: R)
      ensures r == finish(inner.result)
    {
      r := finish(inner.result);
    }
  }

  /** The two collectors that the repository assembles engines from. */
  datatype Collector<P, !O, !T, !R> = ToFirst(first: First<O>) | ToTransformer(transformer: Transformer<P, O, T, R>)
  {
    function Footprint(): set<object> {
      match this
      case ToFirst(f) => {f}
      case ToTransformer(t) => {t.inner}
    }
  }

  // ------------------------------------------------------------ specification

  ghost function Outcomes<P, O>(policies: seq<P>, evaluate: P -> O): seq<O> {
    seq(|policies|, i requires 0 <= i < |policies| => evaluate(policies[i]))
  }

  /** How many policies are evaluated: up to and including the first that breaks. */
  ghost function Reached<O>(outs: seq<O>, breaks: O -> bool): (n: nat)
    ensures n <= |outs|
    ensures forall k :: 0 <= k < n - 1 ==> !breaks(outs[k])
    ensures n < |outs| ==> n > 0 && breaks(outs[n - 1])
  {
    if outs == [] then 0 else if breaks(outs[0]) then 1 else 1 + Reached(outs[1..], breaks)
  }

  ghost function FirstMatch<O>(outs: seq<O>, accepts: O -> bool): Option<O> {
    if outs == [] then None
    else if accepts(outs[0]) then Some(outs[0])
    else FirstMatch(outs[1..], accepts)
  }

  lemma {:induction false} FirstMatchConcat<O>(a: seq<O>, b: seq<O>, accepts: O -> bool)
    ensures FirstMatch(a + b, accepts) ==
            if FirstMatch(a, accepts).Some? then FirstMatch(a, accepts) else FirstMatch(b, accepts)
  {
    if a == [] {
      assert a + b == b;
    } else {
      assert (a + b)[1..] == a[1..] + b;
      FirstMatchConcat(a[1..], b, accepts);
    }
  }

  lemma {:induction false} FirstMatchMeans<O>(outs: seq<O>, accepts: O -> bool)
    ensures FirstMatch(outs, accepts).None? <==> forall k :: 0 <= k < |outs| ==> !accepts(outs[k])
    ensures FirstMatch(outs, accepts).Some? ==>
              exists i :: 0 <= i < |outs| && accepts(outs[i]) && outs[i] == FirstMatch(outs, accepts).value
                          && forall k :: 0 <= k < i ==> !accepts(outs[k])
  {
    if outs != [] {
      FirstMatchMeans(outs[1..], accepts);
      if accepts(outs[0]) {
      } else if FirstMatch(outs, accepts).Some? {
        var j :| 0 <= j < |outs[1..]| && accepts(outs[1..][j]) && outs[1..][j] == FirstMatch(outs, accepts).value
                 && forall k :: 0 <= k < j ==> !accepts(outs[1..][k]);
        assert outs[j + 1] == outs[1..][j];
        forall k | 0 <= k < j + 1 ensures !accepts(outs[k]) {
          if k > 0 {
            assert outs[k] == outs[1..][k - 1];
          }
        }
      } else {
        forall k | 0 <= k < |outs| ensures !accepts(outs[k]) {
          if k > 0 {
            assert outs[k] == outs[1..][k - 1];
          }
        }
      }
    }
  }

  lemma {:induction false} ReachedExtends<O>(outs: seq<O>, breaks: O -> bool, n: nat)
    requires n <= |outs| && forall k :: 0 <= k < n ==> !breaks(outs[k])
    ensures Reached(outs, breaks) == n + Reached(outs[n..], breaks)
  {
    if n > 0 {
      ReachedExtends(outs[1..], breaks, n - 1);
      assert outs[1..][n - 1..] == outs[n..];
    }
  }

  // ------------------------------------------------------------------ methods

  /** The first `n` outcomes, each mapped together with its policy. */
  ghost function Collected<P, O, T>(policies: seq<P>, evaluate: P -> O, collect: (P, O) -> T, n: nat): seq<T>
    requires n <= |policies|
  {
    seq(n, i requires 0 <= i < n => collect(policies[i], evaluate(policies[i])))
  }

  lemma OneMoreMatch<O>(outs: seq<O>, n: nat, accepts: O -> bool)
    requires n < |outs|
    ensures FirstMatch(outs[..n + 1], accepts) ==
            if FirstMatch(outs[..n], accepts).Some? then FirstMatch(outs[..n], accepts)
            else if accepts(outs[n]) then Some(outs[n]) else None
  {
    assert outs[..n + 1] == outs[..n] + [outs[n]];
    FirstMatchConcat(outs[..n], [outs[n]], accepts);
  }

  lemma OneMoreCollected<P, O, T>(policies: seq<P>, evaluate: P -> O, collect: (P, O) -> T, n: nat)
    requires n < |policies|
    ensures Collected(policies, evaluate, collect, n + 1)
         == Collected(policies, evaluate, collect, n) + [collect(policies[n], evaluate(policies[n]))]
  {
  }

  /** Evaluates policies in order into the collector and reports how many it evaluated. */
  method Sequential<P, O, T, R>(
    policies: seq<P>, evaluate: P -> O, breaks: O -> bool, collector: Collector<P, O, T, R>) returns (evaluated: nat)
    modifies collector.Footprint()
    ensures evaluated == Reached(Outcomes(policies, evaluate), breaks)
    ensures match collector
            case ToFirst(f) =>
              f.result == if old(f.result).Some? then old(f.result)
                          else FirstMatch(Outcomes(policies, evaluate)[..evaluated], f.accepts)
            case ToTransformer(t) =>
              t.inner.result == old(t.inner.result) + Collected(policies, evaluate, t.collect, evaluated)
  {
    ghost var outs := Outcomes(policies, evaluate);
    for n := 0 to |policies|
      invariant forall k :: 0 <= k < n ==> !breaks(outs[k])
      invariant match collector
                case ToFirst(f) =>
                  f.result == if old(f.result).Some? then old(f.result) else FirstMatch(outs[..n], f.accepts)
                case ToTransformer(t) =>
                  t.inner.result == old(t.inner.result) + Collected(policies, evaluate, t.collect, n)
    {
      var out := evaluate(policies[n]);
      match collector {
        case ToFirst(f) =>
          OneMoreMatch(outs, n, f.accepts);
          f.Collect(out);
        case ToTransformer(t) =>
          OneMoreCollected(policies, evaluate, t.collect, n);
          t.Collect(policies[n], out);
      }
      ReachedExtends(outs, breaks, n);
      if breaks(out) {
        return n + 1;
      }
    }
    ReachedExtends(outs, breaks, |policies|);
    assert outs[..|policies|] == outs;
    return |policies|;
  }

  /** The evaluations that end a request: a response or an error. */
  predicate Decisive(e: Evaluation) {
    e.result.Some? || e.errors != []
  }

  predicate HasResult(e: Evaluation) {
    e.result.Some?
  }

  /** The server's engine. It gets to see the policies only: an error of the source is put into a
      context that none of its parts looks into. */
  method HandleRequest<P>(policies: seq<P>, evaluate: P -> Evaluation)
    returns (e: Evaluation, evaluated: nat)
    ensures forall i :: 0 <= i < |policies| && evaluate(policies[i]) != Evaluation(None, [])
                        && (forall k :: 0 <= k < i ==> evaluate(policies[k]) == Evaluation(None, [])) ==>
              e == evaluate(policies[i])
    ensures (forall k :: 0 <= k < |policies| ==> evaluate(policies[k]) == Evaluation(None, [])) ==>
              e == Evaluation(None, [])
    ensures evaluated <= |policies|
    ensures forall k :: 0 <= k < evaluated - 1 ==> evaluate(policies[k]).result == None
    ensures evaluated < |policies| ==> evaluated > 0 && evaluate(policies[evaluated - 1]).result.Some?
    ensures e == Decision(Outcomes(policies, evaluate))
    ensures evaluated == Reached(Outcomes(policies, evaluate), HasResult)
  {
    ghost var outs := Outcomes(policies, evaluate);
    var first := new First(Decisive, Nothing);
    evaluated := Sequential<P, Evaluation, int, int>(policies, evaluate, HasResult, ToFirst(first));
    BreakerCondition(HasResult, Decisive);
    assert FirstMatch(outs[..evaluated], Decisive) == FirstMatch(outs, Decisive);
    FirstMatchMeans(outs, Decisive);
    assert forall k :: 0 <= k < |policies| ==> outs[k] == evaluate(policies[k]);
    e := first.Result();
  }

  datatype PolicyResult<P, O> = PolicyResult(policy: P, out: O)

  datatype EngineResult<P, O> = EngineResult(data: seq<P>, errors: seq<Error>, policies: seq<PolicyResult<P, O>>)

  /** The default engine: it never breaks and reports every outcome beside its policy. */
  method HandleAll<P, O>(policies: seq<P>, sourceErrors: seq<Error>, evaluate: P -> O) returns (r: EngineResult<P, O>)
    ensures r.data == policies && r.errors == sourceErrors
    ensures |r.policies| == |policies|
    ensures forall i :: 0 <= i < |policies| ==>
              r.policies[i].policy == policies[i] && r.policies[i].out == evaluate(policies[i])
  {
    var inner := new Appender<PolicyResult<P, O>>();
    var transformer := new Transformer<P, O, PolicyResult<P, O>, EngineResult<P, O>>(
      (p, o) => PolicyResult(p, o), results => EngineResult(policies, sourceErrors, results), inner);
    var evaluated := Sequential(policies, evaluate, _ => false, ToTransformer(transformer));
    r := transformer.Result();
  }

  // --------------------------------------------------------------- refinement

  /** The decision on a request: the first decisive evaluation, or none. */
  ghost function Decision(outs: seq<Evaluation>): Evaluation {
    match FirstMatch(outs, Decisive)
    case Some(e) => e
    case None => Nothing
  }

  ghost predicate Refines<O(!new)>(breaks: O -> bool, accepts: O -> bool) {
    forall outs: seq<O> :: FirstMatch(outs[..Reached(outs, breaks)], accepts) == FirstMatch(outs, accepts)
  }

  /** Stopping early finds the same first match as collecting everything, on every list of outcomes,
      exactly when the breaker only breaks on outcomes that match (or nothing ever matches). */
  lemma BreakerCondition<O(!new)>(breaks: O -> bool, accepts: O -> bool)
    ensures Refines(breaks, accepts) <==> ((forall o :: breaks(o) ==> accepts(o)) || (forall o :: !accepts(o)))
  {
    if o, o' :| breaks(o) && !accepts(o) && accepts(o') {
      var outs := [o, o'];
      assert Reached(outs, breaks) == 1;
      assert outs[..1] == [o] && outs[1..] == [o'];
      assert FirstMatch(outs[..1], accepts) == None;
      assert FirstMatch(outs, accepts) == Some(o');
    } else {
      forall outs: seq<O>
        ensures FirstMatch(outs[..Reached(outs, breaks)], accepts) == FirstMatch(outs, accepts)
      {
        var n := Reached(outs, breaks);
        assert outs == outs[..n] + outs[n..];
        FirstMatchConcat(outs[..n], outs[n..], accepts);
        FirstMatchMeans(outs[..n], accepts);
        FirstMatchMeans(outs[n..], accepts);
        if n < |outs| && breaks(outs[n - 1]) && accepts(outs[n - 1]) {
          assert outs[..n][n - 1] == outs[n - 1];
        }
      }
    }
  }

  // ----------------------------------------------------------------- locality

  ghost function Accepted<O>(outs: seq<O>, accepts: O -> bool): seq<O> {
    if outs == [] then []
    else (if accepts(outs[0]) then [outs[0]] else []) + Accepted(outs[1..], accepts)
  }

  /** Policies that yield neither a response nor an error can be erased or added anywhere. */
  lemma {:induction false} IndecisivePoliciesDoNotMatter(outs: seq<Evaluation>)
    ensures Decision(Accepted(outs, Decisive)) == Decision(outs)
    ensures forall e <- Accepted(outs, Decisive) :: e in outs && e != Evaluation(None, [])
    ensures forall e <- outs :: e != Evaluation(None, []) ==> e in Accepted(outs, Decisive)
  {
    if outs != [] {
      IndecisivePoliciesDoNotMatter(outs[1..]);
      assert ([outs[0]] + Accepted(outs[1..], Decisive))[1..] == Accepted(outs[1..], Decisive);
      assert [] + Accepted(outs[1..], Decisive) == Accepted(outs[1..], Decisive);
    }
  }

  /** Nothing after the first decisive policy has a say: a later response never replaces an error. */
  lemma DecisionIsLocal(outs: seq<Evaluation>, outs': seq<Evaluation>, n: nat)
    requires n < |outs| && n < |outs'| && outs[..n + 1] == outs'[..n + 1] && Decisive(outs[n])
    ensures Decision(outs) == Decision(outs')
    ensures exists k :: 0 <= k <= n && Decision(outs) == outs[k]
  {
    var prefix := outs[..n + 1];
    assert outs == prefix + outs[n + 1..] && outs' == prefix + outs'[n + 1..];
    FirstMatchConcat(prefix, outs[n + 1..], Decisive);
    FirstMatchConcat(prefix, outs'[n + 1..], Decisive);
    FirstMatchMeans(prefix, Decisive);
    assert prefix[n] == outs[n];
  }

  // ---------------------------------------------------------- the whole server

  /** A compiled policy's evaluation in a server of the request's mode, as `Evaluator.Evaluate` gives
      it. One that does not end within `depth` nested variables never gives anything; the results
      below speak of requests on which all that are evaluated end. */
  function ServedAt(depth: nat, r: Request, loader: Option<Error>): CompiledPolicy -> Evaluation {
    (c: CompiledPolicy) =>
      match Served(depth, c, r, r.mode, loader) { case Some(e) => e case None => Nothing }
  }

  /** The policy has something to say on the request: a response, or errors that are to count. */
  ghost predicate Answers(depth: nat, c: CompiledPolicy, r: Request, loader: Option<Error>) {
    var e := Run(depth, c, r, r.mode, loader);
    e.Some? && (e.value.result.Some? || (e.value.errors != [] && c.failurePolicy == "Fail"))
  }

  /** The engine over compiled policies, as a server puts it together. */
  method Decide(depth: nat, policies: seq<CompiledPolicy>, r: Request, loader: Option<Error>) returns (e: Evaluation)
    ensures forall i :: 0 <= i < |policies| && Answers(depth, policies[i], r, loader)
                        && (forall k :: 0 <= k < i ==> !Answers(depth, policies[k], r, loader)) ==>
              Some(e) == Run(depth, policies[i], r, r.mode, loader)
    ensures (forall k :: 0 <= k < |policies| ==> !Answers(depth, policies[k], r, loader)) ==> e == Evaluation(None, [])
    ensures e == ServerDecision(depth, policies, r, loader)
  {
    var evaluated;
    e, evaluated := HandleRequest(policies, ServedAt(depth, r, loader));
    forall i | 0 <= i < |policies|
      ensures Answers(depth, policies[i], r, loader)
              <==> ServedAt(depth, r, loader)(policies[i]) != Evaluation(None, [])
      ensures Answers(depth, policies[i], r, loader) ==>
                Some(ServedAt(depth, r, loader)(policies[i])) == Run(depth, policies[i], r, r.mode, loader)
    {
      ErrorsExcludeResults(depth, policies[i], r, loader);
    }
  }

  ghost function ServerDecision(
    depth: nat, policies: seq<CompiledPolicy>, r: Request, loader: Option<Error>): Evaluation {
    Decision(Outcomes(policies, ServedAt(depth, r, loader)))
  }

  /** Every policy that the server evaluates, which it does up to the first response, ends. */
  ghost predicate EvaluatedEnd(depth: nat, cs: seq<CompiledPolicy>, r: Request, loader: Option<Error>) {
    forall i :: 0 <= i < Reached(Outcomes(cs, ServedAt(depth, r, loader)), HasResult) ==>
      Run(depth, cs[i], r, r.mode, loader).Some?
  }

  ghost predicate CompiledFrom(c: CompiledPolicy, p: ValidatingPolicy) {
    Accepts(p) && c == Artifact(p)
  }

  /** What the evaluation of a policy in a server can be blamed on: a response on a policy of the
      server's mode; an error on one that asks for failures to count, and an ordinary one if the policy
      is of the server's mode and its variables read settled types. */
  ghost predicate Blamed(e: Evaluation, c: CompiledPolicy, r: Request, loader: Option<Error>) {
    && (e.errors != [] ==> c.failurePolicy == FAIL)
    && forall p :: CompiledFrom(c, p) ==>
         && (e.result.Some? ==> p.evaluationMode == Known(r.mode))
         && (p.evaluationMode == Known(r.mode) && SettledReads(r.mode, p.variables) ==> OnlyOrdinary(e, loader))
  }

  lemma EvaluationIsBlamed(depth: nat, c: CompiledPolicy, r: Request, loader: Option<Error>)
    requires Run(depth, c, r, r.mode, loader).Some? && Decisive(ServedAt(depth, r, loader)(c))
    ensures Run(depth, c, r, r.mode, loader) == Some(ServedAt(depth, r, loader)(c))
    ensures Blamed(ServedAt(depth, r, loader)(c), c, r, loader)
  {
    ErrorsExcludeResults(depth, c, r, loader);
    forall p | CompiledFrom(c, p)
      ensures var e := ServedAt(depth, r, loader)(c);
              && (e.result.Some? ==> p.evaluationMode == Known(r.mode))
              && (p.evaluationMode == Known(r.mode) && SettledReads(r.mode, p.variables) ==> OnlyOrdinary(e, loader))
    {
      if p.evaluationMode.mode != r.mode {
        ForeignPolicyNeverAnswers(depth, p, r, loader);
      } else if SettledReads(r.mode, p.variables) {
        AcceptedPolicyIsSound(depth, p, r, loader);
      }
    }
  }

  /** The decision on a request, if there is any, is what one of the policies evaluated gave, and is to
      be blamed on it: whatever other policies there are, of the other mode (which the file sources do
      not keep out), unsound, or never ending but not reached. A policy that fails without asking for
      failures to count is not decisive, so that by `IndecisivePoliciesDoNotMatter` it might as well not
      be there. */
  lemma ServerDecisionIsSound(depth: nat, cs: seq<CompiledPolicy>, r: Request, loader: Option<Error>)
    requires EvaluatedEnd(depth, cs, r, loader)
    ensures
      var e := ServerDecision(depth, cs, r, loader);
      Decisive(e) ==> exists c :: c in cs && Run(depth, c, r, r.mode, loader) == Some(e) && Blamed(e, c, r, loader)
    ensures forall c <- cs ::
              (match Run(depth, c, r, r.mode, loader)
               case Some(e) => e.errors != [] && c.failurePolicy != FAIL
               case None => false) ==>
                !Decisive(ServedAt(depth, r, loader)(c))
  {
    var outs := Outcomes(cs, ServedAt(depth, r, loader));
    var n := Reached(outs, HasResult);
    forall c | c in cs
      ensures match Run(depth, c, r, r.mode, loader)
              case Some(e) => e.errors != [] ==> e.result == None
              case None => true
    {
      ErrorsExcludeResults(depth, c, r, loader);
    }
    if Decisive(ServerDecision(depth, cs, r, loader)) {
      BreakerCondition(HasResult, Decisive);
      assert FirstMatch(outs[..n], Decisive) == FirstMatch(outs, Decisive);
      FirstMatchMeans(outs[..n], Decisive);
      var i :| 0 <= i < n && outs[..n][i] == ServerDecision(depth, cs, r, loader);
      assert cs[i] in cs && outs[i] == ServedAt(depth, r, loader)(cs[i]);
      EvaluationIsBlamed(depth, cs[i], r, loader);
    }
  }

  lemma ErrorsExcludeResults(depth: nat, c: CompiledPolicy, r: Request, loader: Option<Error>)
    ensures match Run(depth, c, r, r.mode, loader)
            case Some(e) => e.errors != [] ==> e.result == None
            case None => true
  {
    RulesErrorsExcludeResults(depth, c.variables, r, map[], c.rules);
  }

  lemma {:induction false} RulesErrorsExcludeResults(
    depth: nat, programs: map<string, Expr>, r: Request, memo: Memo, rules: seq<Expr>)
    ensures match RunRules(depth, programs, r, memo, rules, r.mode)
            case Some(e) => e.errors != [] ==> e.result == None
            case None => true
    decreases |rules|
  {
    if rules != [] {
      match LazyEval(depth, programs, r, memo, rules[0])
      case Some((_, m)) => RulesErrorsExcludeResults(depth, programs, r, m, rules[1..]);
      case None =>
    }
  }
}
