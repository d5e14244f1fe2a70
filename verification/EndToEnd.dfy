/** From the control plane to the decision: what replication, the caches of compiled policies and the
    engine together promise about the servers of one mode. */
module EndToEnd {
  import opened Wrappers
  import opened Cel
  import opened Policies
  import opened Compiler
  import opened Evaluator
  import opened Soundness
  import opened Engine
  import opened Transfer
  import opened Listing
  import opened Replica
  import opened ControlPlane
  import opened CompiledPolicies
  import Caching
  import CacheThreads

  /** At some point of the run, up to its state `k`, a client's processor of the mode listed `data`. */
  ghost predicate ListedAt(states: seq<State>, t: nat, c: nat, mode: string, data: seq<ValidatingPolicy>) {
    && t < |states| && c < |states[t].clients| && mode in states[t].clients[c].stores
    && Lists(states[t].clients[c].stores[mode], data)
  }

  ghost predicate Listed(states: seq<State>, k: nat, c: nat, mode: string, data: seq<ValidatingPolicy>) {
    exists t :: 0 <= t <= k && ListedAt(states, t, c, mode, data)
  }

  /** What the cache of a server may have gone through by state `k`: any number of loads, each of what
      its processor listed at some point, in any order, since a listing may be slow on its way through
      the cache. By `CacheThreads.LoadsAreLinearizable`, threads give nothing else. */
  ghost predicate LoadsOf(states: seq<State>, k: nat, c: nat, mode: string, history: seq<PolicyLoad>) {
    forall i :: 0 <= i < |history| ==>
      history[i].build == CompilePolicy() && Listed(states, k, c, mode, history[i].data)
  }

  // ------------------------------------------------ whatever becomes of messages

  /** A policy as some reconcile stored it under the mode. */
  ghost predicate WasStored(log: seq<Message>, mode: string, p: ValidatingPolicy) {
    Authentic(log, mode, p.name, p)
  }

  ghost function StoredEver(log: seq<Message>, mode: string): iset<ValidatingPolicy> {
    iset p: ValidatingPolicy | WasStored(log, mode, p)
  }

  lemma {:induction false} LogGrows(states: seq<State>, actions: seq<Action>, t: nat, k: nat)
    requires ControlPlane.Run(states, actions) && t <= k < |states|
    ensures states[t].log <= states[k].log
  {
    if t < k {
      LogGrows(states, actions, t, k - 1);
      assert Next(states[k - 1], actions[k - 1], states[k]);
    }
  }

  /** A policy that a processor holds at some point of a run was stored, by then or any later point. */
  lemma HeldWasStored(
    states: seq<State>, actions: seq<Action>, t: nat, k: nat, c: nat, mode: string, n: string, p: ValidatingPolicy)
    requires ControlPlane.Run(states, actions) && t <= k < |states| && c < |states[t].clients|
    requires mode in states[t].clients[c].stores && n in states[t].clients[c].stores[mode]
    requires p == states[t].clients[c].stores[mode][n]
    ensures WasStored(states[k].log, mode, p)
  {
    NothingIsInvented(states, actions, t);
    LogGrows(states, actions, t, k);
    assert ClientAuthentic(states[t].log, states[t].clients[c]);
    var i :| AuthenticAt(states[t].log, mode, n, p, i);
    assert AuthenticAt(states[k].log, mode, p.name, p, i);
  }

  lemma ListedWereStored(
    states: seq<State>, actions: seq<Action>, k: nat, c: nat, mode: string, data: seq<ValidatingPolicy>)
    requires ControlPlane.Run(states, actions) && k < |states| && Listed(states, k, c, mode, data)
    ensures forall p <- data :: p in StoredEver(states[k].log, mode)
  {
    var t :| 0 <= t <= k && ListedAt(states, t, c, mode, data);
    var keys :| ListsBy(states[t].clients[c].stores[mode], data, keys);
    forall j | 0 <= j < |data| ensures WasStored(states[k].log, mode, data[j]) {
      assert keys[j] in Elements(keys);
      HeldWasStored(states, actions, t, k, c, mode, keys[j], data[j]);
    }
  }

  lemma LoadsWereStored(
    states: seq<State>, actions: seq<Action>, k: nat, c: nat, mode: string, history: seq<PolicyLoad>, i: nat)
    requires ControlPlane.Run(states, actions) && k < |states| && LoadsOf(states, k, c, mode, history) && i < |history|
    ensures CacheThreads.LoadFrom(history[i], CompilePolicy(), StoredEver(states[k].log, mode))
  {
    ListedWereStored(states, actions, k, c, mode, history[i].data);
  }

  /** The form was compiled from the stored policy `p`. */
  ghost predicate StoredForm(log: seq<Message>, mode: Mode, c: CompiledPolicy, p: ValidatingPolicy) {
    WasStored(log, ModeText(Known(mode)), p) && Accepts(p) && p.evaluationMode == Known(mode) && c == Artifact(p)
  }

  /** In every run, whatever is lost, reordered or repeated, and whatever its cache has been through, a
      server evaluates nothing but forms of accepted policies that were stored for its mode. So its
      decision on a request, if there is any, is a response or a failure of such a policy; and a failure
      is of one that asks for failures to count, and an ordinary one if that policy's variables read
      settled types. */
  lemma AnyServerDecidesSoundly(
    states: seq<State>, actions: seq<Action>, k: nat, c: nat, history: seq<PolicyLoad>, listed: seq<ValidatingPolicy>,
    depth: nat, r: Request, loader: Option<Error>)
    requires ControlPlane.Run(states, actions) && k < |states|
    requires LoadsOf(states, k, c, ModeText(Known(r.mode)), history)
    requires Listed(states, k, c, ModeText(Known(r.mode)), listed)
    requires EvaluatedEnd(depth, Forms(history, listed), r, loader)
    ensures forall f <- Forms(history, listed) :: exists p :: StoredForm(states[k].log, r.mode, f, p)
    ensures
      var e := ServerDecision(depth, Forms(history, listed), r, loader);
      Decisive(e) ==>
        exists f, p ::
          && f in Forms(history, listed) && StoredForm(states[k].log, r.mode, f, p)
          && Evaluator.Run(depth, f, r, r.mode, loader) == Some(e)
          && (e.errors != [] ==> p.GetFailurePolicy() == FAIL)
          && (SettledReads(r.mode, p.variables) ==> OnlyOrdinary(e, loader))
  {
    var forms := Forms(history, listed);
    FormsWereStored(states, actions, k, c, history, listed, r.mode);
    ServerDecisionIsSound(depth, forms, r, loader);
    var e := ServerDecision(depth, forms, r, loader);
    if Decisive(e) {
      var f :| f in forms && Evaluator.Run(depth, f, r, r.mode, loader) == Some(e) && Blamed(e, f, r, loader);
      var p :| StoredForm(states[k].log, r.mode, f, p);
      assert CompiledFrom(f, p);
    }
  }

  lemma FormsWereStored(
    states: seq<State>, actions: seq<Action>, k: nat, c: nat, history: seq<PolicyLoad>, listed: seq<ValidatingPolicy>,
    mode: Mode)
    requires ControlPlane.Run(states, actions) && k < |states|
    requires LoadsOf(states, k, c, ModeText(Known(mode)), history)
    requires Listed(states, k, c, ModeText(Known(mode)), listed)
    ensures forall f <- Forms(history, listed) :: exists p :: StoredForm(states[k].log, mode, f, p)
  {
    var text := ModeText(Known(mode));
    var from := StoredEver(states[k].log, text);
    ListedWereStored(states, actions, k, c, text, listed);
    forall i | 0 <= i < |history| ensures CacheThreads.LoadFrom(history[i], CompilePolicy(), from) {
      LoadsWereStored(states, actions, k, c, text, history, i);
    }
    FormsAreGenuine(from, history, listed);
    forall f | f in Forms(history, listed) ensures exists p :: StoredForm(states[k].log, mode, f, p) {
      assert FormOf(from, f);
      var p :| p in from && Accepts(p) && f == Artifact(p);
      assert WasStored(states[k].log, text, p) && "Envoy"[0] != "HTTP"[0];
      assert StoredForm(states[k].log, mode, f, p);
    }
  }

  // ---------------------------------------------------------- settled servers

  /** Nothing is on its way to the client, which missed no name and kept none that was deleted while it
      was away; and no name has been stored both under the mode and under another. */
  ghost predicate CaughtUp(s: State, c: nat, mode: string) {
    && c < |s.clients| && Connected(s.clients[c]) && Quiet(s, c) && mode in s.clients[c].stores
    && forall n :: !Missed(s, c, n) && !DeletedWhileAway(s, c, n) && ModeFixed(s.log, n, mode)
  }

  /** A server that has caught up serves the forms of the sender's policies, as they are now, if and
      only if each of these is current in its cache; and then it decides as they do. */
  lemma SettledServerServesStored(
    states: seq<State>, actions: seq<Action>, k: nat, c: nat, history: seq<PolicyLoad>, listed: seq<ValidatingPolicy>,
    stored: seq<ValidatingPolicy>, depth: nat, r: Request, loader: Option<Error>)
    requires OrderedRun(states, actions) && k < |states|
    requires CaughtUp(states[k], c, ModeText(Known(r.mode)))
    requires LoadsOf(states, k, c, ModeText(Known(r.mode)), history)
    requires Lists(states[k].clients[c].stores[ModeText(Known(r.mode))], listed)
    requires Lists(StoredUnder(states[k].policies, ModeText(Known(r.mode))), stored)
    ensures Forms(history, listed) == Forms([], stored) <==> forall p <- stored :: Current(history, p)
    ensures (forall p <- stored :: Current(history, p)) ==>
              ServerDecision(depth, Forms(history, listed), r, loader)
              == ServerDecision(depth, Forms([], stored), r, loader)
  {
    var mode := ModeText(Known(r.mode));
    QuietClientsAgree(states, actions, k, c, mode);
    ListingIsUnique(StoredUnder(states[k].policies, mode), stored);
    assert ListedAt(states, k, c, mode, listed);
    ListedWereStored(states, actions, k, c, mode, listed);
    forall p | p in listed ensures p.resourceVersion == "" {
      assert WasStored(states[k].log, mode, p);
    }
    FormsAreFreshIff(history, stored);
  }

  // ------------------------------------- two settled servers that do not agree

  const NAME := "policy"

  /** A policy that answers every request with the text. */
  function Answering(text: string): Message {
    WirePolicy(NAME, false, Some(WireSpec(
      "Envoy", [WireValidation(Respond(Envoy, StringLit(text)), Some(""), None)], [], [], Some("Fail"))))
  }

  /** The step leads from the last state of an ordered run to `s'`. */
  ghost predicate Onward(states: seq<State>, actions: seq<Action>, a: Action, s': State) {
    OrderedRun(states, actions) && Next(states[|actions|], a, s') && Ordered(states[|actions|], a)
  }

  /** Two steps on. */
  lemma Twice(states: seq<State>, actions: seq<Action>, a: Action, m: State, a': Action, s': State)
    returns (states': seq<State>, actions': seq<Action>)
    requires Onward(states, actions, a, m) && Next(m, a', s') && Ordered(m, a')
    ensures OrderedRun(states', actions') && states <= states' && states'[|actions'|] == s'
  {
    RunGoesOn(states, actions, a, m);
    RunGoesOn(states + [m], actions + [a], a', s');
    states', actions' := states + [m] + [s'], actions + [a] + [a'];
  }

  function Initially(): Client {
    Client(Fresh, multiset{}, map["Envoy" := map[]], {}, 0, {})
  }

  function Holding(store: Store, processed: set<nat>): Client {
    Client(Registered, multiset{}, map["Envoy" := store], processed, 0, {})
  }

  /** Two clients connect before there is any policy. */
  lemma BothConnect() returns (states: seq<State>, actions: seq<Action>)
    ensures OrderedRun(states, actions)
    ensures states[|actions|] == State([], map[], {}, [Holding(map[], {}), Holding(map[], {})])
  {
    var c, d, e := Initially(), Initially().(phase := Snapped), Holding(map[], {});
    var s0, s1 := State([], map[], {}, [c, c]), State([], map[], {}, [d, c]);
    var s2, s3 := State([], map[], {}, [d, d]), State([], map[], {}, [e, d]);
    var s4 := State([], map[], {}, [e, e]);
    assert IsSnapshot(s0, multiset{}) && IsSnapshot(s1, multiset{});
    assert SnapshotTo(s0, c, multiset{}) == d && SnapshotTo(s1, c, multiset{}) == d;
    assert s0.clients[0 := d] == s1.clients && s1.clients[1 := d] == s2.clients;
    states, actions := Twice([s0], [], Snapshot(0), s1, Snapshot(1), s2);
    assert s2.clients[0 := e] == s3.clients && s3.clients[1 := e] == s4.clients;
    states, actions := Twice(states, actions, Register(0), s3, Register(1), s4);
  }

  /** A change is stored, sent to both clients and processed by both. */
  lemma BothReceive(states: seq<State>, actions: seq<Action>, w: Message, c: Client)
    returns (states': seq<State>, actions': seq<Action>)
    requires OrderedRun(states, actions) && Reconcilable(w)
    requires states[|actions|].clients == [c, c] && states[|actions|].jobs == {}
    requires c.phase == Registered && c.inflight == multiset{}
    ensures OrderedRun(states', actions') && states <= states'
    ensures
      var s := states[|actions|];
      var d := c.(stores := Dispatch(c.stores, w), processed := c.processed + {|s.log|});
      states'[|actions'|] == State(s.log + [w], StorePolicy(s.policies, w), {}, [d, d])
  {
    var s := states[|actions|];
    var i := |s.log|;
    var b, d := c.(inflight := multiset{i}), c.(stores := Dispatch(c.stores, w), processed := c.processed + {i});
    var s1 := State(s.log + [w], StorePolicy(s.policies, w), {i}, [c, c]);
    var s2, s3 := s1.(jobs := {}, clients := [b, b]), s1.(jobs := {}, clients := [d, b]);
    var s4 := s1.(jobs := {}, clients := [d, d]);
    assert s.jobs + {i} == {i} && s1.jobs - {i} == {};
    assert multiset{} + multiset{i} == multiset{i} && multiset{i} - multiset{i} == multiset{};
    assert FanOutTo(i, c) == b && DeliverTo(s2, i, b) == d && DeliverTo(s3, i, b) == d;
    states', actions' := Twice(states, actions, Reconcile(w), s1, FanOut(i), s2);
    assert s2.clients[0 := d] == s3.clients && s3.clients[1 := d] == s4.clients;
    states', actions' := Twice(states', actions', Deliver(0, i), s3, Deliver(1, i), s4);
  }

  lemma OneListed(p: ValidatingPolicy)
    ensures Lists(map[NAME := p], [p])
  {
    assert Elements([NAME]) == {NAME} by {
      assert [NAME][0] == NAME;
    }
    assert ListsBy(map[NAME := p], [p], [NAME]);
  }

  lemma AnsweringAnswers(text: string, depth: nat, r: Request)
    requires r.mode == Envoy
    ensures
      var p := Unwire(Answering(text));
      && Accepts(p) && p.evaluationMode == Known(Envoy) && p.name == NAME && p.resourceVersion == ""
      && Forms([], [p]) == [Artifact(p)]
      && ServerDecision(depth, [Artifact(p)], r, None) == Evaluation(Some(Response(Envoy, text)), [])
  {
    var p := Unwire(Answering(text));
    var rule := Respond(Envoy, StringLit(text));
    assert Check(Envoy, map[], StringLit(text)) == Some(StringType);
    assert p.validations == [Validation(rule, "", None)] && p.variables == [] && p.matchConditions == [];
    assert Accepts(p);
    assert [p][..0] == [];
    assert Caching.Run(map[], KeyOf(), CompilePolicy(), [p])
        == Caching.Record(
             Caching.Run(map[], KeyOf(), CompilePolicy(), []), Caching.Resolve(map[], KeyOf(), CompilePolicy(), p));
    var f := Artifact(p);
    assert f.rules == [rule] && f.matchConditions == [];
    assert Eval(r, map[], StringLit(text)) == Ok(StringValue(text));
    assert LazyEval(depth, f.variables, r, map[], rule) == Some((Ok(ResponseValue(Response(Envoy, text))), map[]));
    var e := Evaluation(Some(Response(Envoy, text)), []);
    assert Evaluator.Run(depth, f, r, Envoy, None) == Some(e);
    assert ServedAt(depth, r, None)(f) == e;
    assert Outcomes([f], ServedAt(depth, r, None)) == [e];
  }

  lemma EarlierFormServed(p: ValidatingPolicy, update: ValidatingPolicy)
    requires Accepts(p) && p.name == update.name == NAME && p.resourceVersion == update.resourceVersion == ""
    ensures Forms([Caching.LoadOf([p], CompilePolicy())], [update]) == [Artifact(p)]
  {
    var history := [Caching.LoadOf([p], CompilePolicy())];
    var read := Caching.ReadAfter(KeyOf(), history);
    assert [p][0] == p && [p][..0] == [] && [update][..0] == [];
    OnlyBuilt([p], p);
    assert Caching.LongestStreak(KeyOf(), history, 0, NAME);
    UpdateKeepsTheEarlierForm(history, 0, p, update);
    assert Caching.Run(read, KeyOf(), CompilePolicy(), [update])
        == Caching.Record(
             Caching.Run(read, KeyOf(), CompilePolicy(), []), Caching.Resolve(read, KeyOf(), CompilePolicy(), update));
  }

  lemma HoldingAfter(store: Store, processed: set<nat>, w: Message)
    requires w.name == NAME && !w.delete && w.spec.value.evaluationMode == "Envoy"
    requires store.Keys <= {NAME}
    ensures Dispatch(Holding(store, processed).stores, w) == Holding(map[NAME := Unwire(w)], processed).stores
  {
    assert Replica.Apply(store, w) == map[NAME := Unwire(w)];
  }

  /** A run in which both clients receive a policy and then an update of it. */
  lemma BothUpdate(v: Message, w: Message) returns (states: seq<State>, actions: seq<Action>, t: nat)
    requires v.name == w.name == NAME && !v.delete && !w.delete
    requires v.spec.value.evaluationMode == w.spec.value.evaluationMode == "Envoy"
    ensures OrderedRun(states, actions) && t <= |actions|
    ensures states[t].clients == [Holding(map[NAME := Unwire(v)], {0}), Holding(map[NAME := Unwire(v)], {0})]
    ensures
      var c := Holding(map[NAME := Unwire(w)], {0, 1});
      states[|actions|] == State([v, w], map[NAME := w], {}, [c, c])
  {
    states, actions := BothConnect();
    HoldingAfter(map[], {}, v);
    states, actions := BothReceive(states, actions, v, Holding(map[], {}));
    assert {} + {0} == {0};
    t := |actions|;
    var before := states;
    HoldingAfter(map[NAME := Unwire(v)], {0}, w);
    states, actions := BothReceive(states, actions, w, Holding(map[NAME := Unwire(v)], {0}));
    assert {0} + {1} == {0, 1} && states[t] == before[t];
  }

  lemma BothCaughtUp(v: Message, w: Message, s: State, c: nat)
    requires v.name == w.name == NAME && !v.delete && !w.delete && c < 2
    requires v.spec.value.evaluationMode == w.spec.value.evaluationMode == "Envoy"
    requires s.log == [v, w] && s.jobs == {} && |s.clients| == 2
    requires s.clients[c] == Holding(map[NAME := Unwire(w)], {0, 1})
    ensures CaughtUp(s, c, "Envoy")
  {
    assert s.log[1].name == NAME;
  }

  /** Two clients have caught up, hold the same policy, and decide every request differently: one of
      them was asked for a decision before the policy was updated, and the other was not. */
  lemma SettledServersCanDisagree(depth: nat, r: Request)
    returns (states: seq<State>, actions: seq<Action>, history: seq<PolicyLoad>, listed: seq<ValidatingPolicy>)
    requires r.mode == Envoy
    ensures OrderedRun(states, actions)
    ensures LoadsOf(states, |actions|, 0, "Envoy", history) && LoadsOf(states, |actions|, 1, "Envoy", [])
    ensures
      var s := states[|actions|];
      && CaughtUp(s, 0, "Envoy") && CaughtUp(s, 1, "Envoy")
      && Lists(s.clients[0].stores["Envoy"], listed) && Lists(s.clients[1].stores["Envoy"], listed)
    ensures ServerDecision(depth, Forms(history, listed), r, None) == Evaluation(Some(Response(Envoy, "before")), [])
    ensures ServerDecision(depth, Forms([], listed), r, None) == Evaluation(Some(Response(Envoy, "after")), [])
  {
    var v, w := Answering("before"), Answering("after");
    var t;
    states, actions, t := BothUpdate(v, w);
    BothCaughtUp(v, w, states[|actions|], 0);
    BothCaughtUp(v, w, states[|actions|], 1);
    history, listed := [Caching.LoadOf([Unwire(v)], CompilePolicy())], [Unwire(w)];
    OneListed(Unwire(v));
    OneListed(Unwire(w));
    assert ListedAt(states, t, 0, "Envoy", [Unwire(v)]);
    AnsweringAnswers("before", depth, r);
    AnsweringAnswers("after", depth, r);
    EarlierFormServed(Unwire(v), Unwire(w));
  }
}
