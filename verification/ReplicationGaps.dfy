/** Runs of the replication protocol in which a client settles on something other than the sender's
    policies: for a change that goes out before the client is registered, a name that changes its
    mode, changes processed out of order, a lost message, a deletion between two connections of one
    client, and an eviction. */
module ReplicationGaps {
  import opened Wrappers
  import opened Transfer
  import opened Replica
  import opened ControlPlane

  const NAME := "policy"

  function Stored(mode: string): Message {
    WirePolicy(NAME, false, Some(WireSpec(mode, [], [], [], Some("Fail"))))
  }

  const Deletion: Message := WirePolicy(NAME, true, None)

  function Start(): State {
    State([], map[], {}, [Client(Fresh, multiset{}, Holding(map[], map[]), {}, 0, {})])
  }

  ghost predicate Leads(ordered: bool, states: seq<State>, actions: seq<Action>, s: State) {
    Run(states, actions) && states[|actions|] == s && (ordered ==> OrderedRun(states, actions))
  }

  /** Some run, an ordered one if so asked, ends in `s`. */
  ghost predicate Reaches(ordered: bool, s: State) {
    exists states, actions :: Leads(ordered, states, actions, s)
  }

  lemma Extend(ordered: bool, s: State, a: Action, s': State)
    requires Reaches(ordered, s) && Next(s, a, s') && (ordered ==> Ordered(s, a))
    ensures Reaches(ordered, s')
  {
    var states, actions :| Leads(ordered, states, actions, s);
    forall k | 0 <= k < |actions + [a]|
      ensures Next((states + [s'])[k], (actions + [a])[k], (states + [s'])[k + 1])
      ensures ordered ==> Ordered((states + [s'])[k], (actions + [a])[k])
    {
      if k < |actions| {
        assert Next(states[k], actions[k], states[k + 1]);
      }
    }
    assert Leads(ordered, states + [s'], actions + [a], s');
  }

  lemma Begin(ordered: bool)
    ensures Reaches(ordered, Start())
  {
    assert Leads(ordered, [Start()], [], Start());
  }

  lemma ReconcileStep(ordered: bool, s: State, w: Message) returns (s': State)
    requires Reaches(ordered, s) && Reconcilable(w)
    ensures Reaches(ordered, s')
    ensures s' == State(s.log + [w], StorePolicy(s.policies, w), s.jobs + {|s.log|}, s.clients)
  {
    s' := State(s.log + [w], StorePolicy(s.policies, w), s.jobs + {|s.log|}, s.clients);
    Extend(ordered, s, Reconcile(w), s');
  }

  lemma FanOutStep(ordered: bool, s: State, i: nat) returns (s': State)
    requires Reaches(ordered, s) && |s.clients| == 1 && s.jobs == {i} && i < |s.log|
    ensures Reaches(ordered, s')
    ensures s' == s.(jobs := {}, clients := [FanOutTo(i, s.clients[0])])
  {
    s' := s.(jobs := {}, clients := [FanOutTo(i, s.clients[0])]);
    Extend(ordered, s, FanOut(i), s');
  }

  /** A step that concerns the client alone. */
  lemma ClientStep(ordered: bool, s: State, a: Action, c: Client) returns (s': State)
    requires Reaches(ordered, s) && |s.clients| == 1
    requires Next(s, a, s.(clients := s.clients[0 := c])) && (ordered ==> Ordered(s, a))
    ensures Reaches(ordered, s') && s' == s.(clients := [c])
  {
    s' := s.(clients := s.clients[0 := c]);
    Extend(ordered, s, a, s');
    assert s.clients[0 := c] == [c];
  }

  lemma SnapshotStep(ordered: bool, s: State, sent: multiset<nat>) returns (s': State)
    requires Reaches(ordered, s) && |s.clients| == 1 && s.clients[0].phase == Fresh && IsSnapshot(s, sent)
    requires s.clients[0].inflight == multiset{}
    ensures Reaches(ordered, s')
    ensures s' == s.(clients := [s.clients[0].(
                                   phase := Snapped, inflight := sent, since := |s.log|,
                                   before := s.clients[0].processed)])
  {
    var c := SnapshotTo(s, s.clients[0], sent);
    assert multiset{} + sent == sent && c.before == s.clients[0].processed;
    s' := ClientStep(ordered, s, Snapshot(0), c);
  }

  lemma RegisterStep(ordered: bool, s: State) returns (s': State)
    requires Reaches(ordered, s) && |s.clients| == 1 && s.clients[0].phase == Snapped
    ensures Reaches(ordered, s') && s' == s.(clients := [s.clients[0].(phase := Registered)])
  {
    s' := ClientStep(ordered, s, Register(0), s.clients[0].(phase := Registered));
  }

  lemma DeliverStep(ordered: bool, s: State, i: nat) returns (s': State)
    requires Reaches(ordered, s) && |s.clients| == 1 && i in s.clients[0].inflight && i < |s.log|
    requires ordered ==> s.jobs == {} && s.clients[0].inflight == multiset{i}
    ensures Reaches(ordered, s')
    ensures s' == s.(clients := [DeliverTo(s, i, s.clients[0])])
  {
    s' := ClientStep(ordered, s, Deliver(0, i), DeliverTo(s, i, s.clients[0]));
  }

  ghost predicate Settled(s: State) {
    |s.clients| == 1 && Quiet(s, 0) && "Envoy" in s.clients[0].stores
  }

  /** The client's processor of a mode holds something else than the sender's policies of the mode. */
  ghost predicate Wrong(s: State)
    requires Settled(s)
  {
    s.clients[0].stores["Envoy"] != StoredUnder(s.policies, "Envoy")
  }

  function Holding(envoy: Store, http: Store): map<string, Store> {
    map["Envoy" := envoy, "HTTP" := http]
  }

  lemma DispatchOne(envoy: Store, http: Store, w: Message)
    requires w == Stored("Envoy") || w == Stored("HTTP") || w == Deletion
    ensures Dispatch(Holding(envoy, http), w) ==
            Holding(
              if w == Stored("HTTP") then envoy else Apply(envoy, w),
              if w == Stored("Envoy") then http else Apply(http, w))
  {
    assert "Envoy"[0] != "HTTP"[0];
    var d := Dispatch(Holding(envoy, http), w);
    assert d.Keys == {"Envoy", "HTTP"};
  }

  /** What the client holds under the mode Envoy once it has processed the first policy. */
  ghost function Kept(): Store {
    map[NAME := Unwire(Stored("Envoy"))]
  }

  lemma LatestOfTwo(w: Message)
    requires w.name == NAME
    ensures Last([Stored("Envoy")], NAME) == Some(0) && Last([Stored("Envoy"), w], NAME) == Some(1)
  {
    assert [Stored("Envoy"), w][1].name == NAME;
  }

  /** A deletion that goes out between a client's snapshot and its registration never reaches it. */
  lemma DeletionInTheWindowIsLost() returns (s: State)
    ensures Reaches(true, s) && (forall n, mode :: ModeFixed(s.log, n, mode))
    ensures Settled(s) && Wrong(s) && Missed(s, 0, NAME) && s.clients[0].before == {}
    ensures s == State([Stored("Envoy"), Deletion], map[], {}, [
                         Client(Registered, multiset{}, Holding(Kept(), map[]), {0}, 1, {})])
  {
    var e := Stored("Envoy");
    LatestOfTwo(Deletion);
    Begin(true);
    s := ReconcileStep(true, Start(), e);
    s := FanOutStep(true, s, 0);
    assert IsSnapshot(s, multiset{0});
    s := SnapshotStep(true, s, multiset{0});
    s := ReconcileStep(true, s, Deletion);
    assert s.log == [e, Deletion] && s.policies == map[] && s.jobs == {1};
    s := FanOutStep(true, s, 1);
    s := RegisterStep(true, s);
    s := DeliverStep(true, s, 0);
    DispatchOne(map[], map[], e);
    assert multiset{0} - multiset{0} == multiset{} && {} + {0} == {0};
    assert NAME !in StoredUnder(s.policies, "Envoy");
  }

  /** A client that missed the deletion keeps the old policy beside a later one of the other mode,
      which it did receive. */
  lemma RecreatingUnderAnotherMode() returns (s: State)
    ensures Reaches(true, s)
    ensures Settled(s) && Wrong(s) && Heard(s, 0, NAME) && !Missed(s, 0, NAME) && s.clients[0].before == {}
    ensures s.log == [Stored("Envoy"), Deletion, Stored("HTTP")]
  {
    s := DeletionInTheWindowIsLost();
    s := ReconcileStep(true, s, Stored("HTTP"));
    assert s.jobs == {2} && s.log[2].name == NAME;
    s := FanOutStep(true, s, 2);
    assert multiset{} + multiset{2} == multiset{2};
    s := DeliverStep(true, s, 2);
    DispatchOne(Kept(), map[], Stored("HTTP"));
    assert multiset{2} - multiset{2} == multiset{};
    assert Last(s.log, NAME) == Some(2);
    assert s.clients[0].stores["Envoy"] == Kept();
    assert NAME !in StoredUnder(s.policies, "Envoy");
  }

  /** A registered client's first policy is on its way to it. */
  lemma OneInFlight(ordered: bool) returns (s: State)
    ensures Reaches(ordered, s)
    ensures s == State([Stored("Envoy")], map[NAME := Stored("Envoy")], {}, [
                         Client(Registered, multiset{0}, Holding(map[], map[]), {}, 0, {})])
  {
    Begin(ordered);
    assert IsSnapshot(Start(), multiset{});
    s := SnapshotStep(ordered, Start(), multiset{});
    s := RegisterStep(ordered, s);
    s := ReconcileStep(ordered, s, Stored("Envoy"));
    assert s.jobs == {0};
    s := FanOutStep(ordered, s, 0);
    assert multiset{} + multiset{0} == multiset{0};
  }

  /** Both changes of a registered client's first policy are on their way to it. */
  lemma BothInFlight() returns (s: State)
    ensures Reaches(false, s)
    ensures s == State([Stored("Envoy"), Deletion], map[], {}, [
                         Client(Registered, multiset{0, 1}, Holding(map[], map[]), {}, 0, {})])
  {
    s := OneInFlight(false);
    s := ReconcileStep(false, s, Deletion);
    assert s.log == [Stored("Envoy"), Deletion] && s.policies == map[] && s.jobs == {1};
    s := FanOutStep(false, s, 1);
    assert multiset{0} + multiset{1} == multiset{0, 1};
  }

  /** With nothing missed and one mode, processing a deletion before the policy it deletes brings
      the policy back. */
  lemma ReorderingRevives() returns (s: State)
    ensures Reaches(false, s) && (forall n, mode :: ModeFixed(s.log, n, mode))
    ensures Settled(s) && Wrong(s) && s.clients[0].phase == Registered && s.clients[0].before == {}
    ensures Heard(s, 0, NAME) && s.clients[0].processed == {0, 1}
  {
    s := BothInFlight();
    LatestOfTwo(Deletion);
    s := DeliverStep(false, s, 1);
    DispatchOne(map[], map[], Deletion);
    assert multiset{0, 1} - multiset{1} == multiset{0};
    s := DeliverStep(false, s, 0);
    DispatchOne(map[], map[], Stored("Envoy"));
    assert multiset{0} - multiset{0} == multiset{};
    assert NAME !in StoredUnder(s.policies, "Envoy");
  }

  /** A deletion that is lost on the way to a registered client leaves the policy there. */
  lemma LostDeletionIsKept() returns (s: State)
    ensures Reaches(false, s) && (forall n, mode :: ModeFixed(s.log, n, mode))
    ensures Settled(s) && Wrong(s) && s.clients[0].phase == Registered && s.clients[0].before == {}
    ensures s.clients[0].processed == {0}
  {
    s := BothInFlight();
    assert multiset{0, 1} - multiset{1} == multiset{0};
    s := ClientStep(false, s, Lose(0, 1), s.clients[0].(inflight := multiset{0}));
    s := DeliverStep(false, s, 0);
    DispatchOne(map[], map[], Stored("Envoy"));
    assert multiset{0} - multiset{0} == multiset{} && {} + {0} == {0};
    assert NAME !in StoredUnder(s.policies, "Envoy");
  }

  /** A registered client holds what the sender does. */
  lemma InStep() returns (s: State)
    ensures Reaches(true, s)
    ensures s == State([Stored("Envoy")], map[NAME := Stored("Envoy")], {}, [
                         Client(Registered, multiset{}, Holding(Kept(), map[]), {0}, 0, {})])
  {
    s := OneInFlight(true);
    s := DeliverStep(true, s, 0);
    DispatchOne(map[], map[], Stored("Envoy"));
    assert multiset{0} - multiset{0} == multiset{} && {} + {0} == {0};
  }

  /** The name is deleted, and the send goes out to nobody. */
  lemma DeletedUnheard(s: State) returns (s': State)
    requires Reaches(true, s) && s.jobs == {}
    requires s.log == [Stored("Envoy")] && s.policies == map[NAME := Stored("Envoy")]
    requires |s.clients| == 1 && s.clients[0].phase != Registered
    ensures Reaches(true, s') && s' == s.(log := [Stored("Envoy"), Deletion], policies := map[])
  {
    s' := ReconcileStep(true, s, Deletion);
    assert s'.policies == map[] && s'.jobs == {1};
    s' := FanOutStep(true, s', 1);
    assert s'.clients == s.clients;
  }

  /** A policy deleted while a client is disconnected survives at the client, which is sent only what is
      stored when it connects again. */
  lemma DeletionWhileAwayIsNotHeard() returns (s: State)
    ensures Reaches(true, s) && (forall n, mode :: ModeFixed(s.log, n, mode))
    ensures Settled(s) && Wrong(s) && s.clients[0].phase == Registered
    ensures !Missed(s, 0, NAME) && DeletedWhileAway(s, 0, NAME)
  {
    s := InStep();
    LatestOfTwo(Deletion);
    s := ClientStep(true, s, Disconnect(0), s.clients[0].(phase := Fresh));
    s := DeletedUnheard(s);
    assert IsSnapshot(s, multiset{});
    s := SnapshotStep(true, s, multiset{});
    s := RegisterStep(true, s);
    assert 0 in s.clients[0].before && s.log[0].name == NAME;
    assert NAME !in StoredUnder(s.policies, "Envoy");
  }

  /** So does a policy deleted after the client has been evicted. */
  lemma EvictedClientKeepsDeletedPolicy() returns (s: State)
    ensures Reaches(true, s) && (forall n, mode :: ModeFixed(s.log, n, mode))
    ensures Settled(s) && Wrong(s) && s.clients[0].phase == Evicted && s.clients[0].before == {}
  {
    s := InStep();
    s := ClientStep(true, s, Evict(0), s.clients[0].(phase := Evicted));
    s := DeletedUnheard(s);
    assert NAME !in StoredUnder(s.policies, "Envoy");
  }
}
