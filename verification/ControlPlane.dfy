/** Replication as a protocol. Reconciles change the stored policies and start a send each; a send
    later goes out to the connections of that moment; a connecting client is first sent what is
    stored and only then registered; messages arrive whenever they do. */
module ControlPlane {
  import opened Wrappers
  import opened Policies
  import opened Transfer
  import opened Replica

  datatype Phase = Fresh | Snapped | Registered | Evicted

  /** `inflight` holds the log positions of the messages on their way to the client, `processed` those
      of the messages it has processed. Of its present connection, `since` is the length of the log at
      the snapshot, and `before` the positions that it had or was on its way to have by then. */
  datatype Client = Client(
    phase: Phase,
    inflight: multiset<nat>,
    stores: map<string, Store>,
    processed: set<nat>,
    since: nat,
    before: set<nat>)

  /** `log` is what was reconciled, in order; `jobs` the positions whose send has yet to go out. */
  datatype State = State(log: seq<Message>, policies: map<string, Message>, jobs: set<nat>, clients: seq<Client>)

  datatype Action =
    | Reconcile(change: Message)
    | FanOut(i: nat)
    | Snapshot(c: nat)
    | Register(c: nat)
    | Deliver(c: nat, i: nat)
    | Evict(c: nat)
    | Lose(c: nat, i: nat)
    | Disconnect(c: nat)

  function StorePolicy(policies: map<string, Message>, w: Message): map<string, Message> {
    if w.delete then policies - {w.name} else policies[w.name := w]
  }

  /** Only policies of the two served modes reach the sender. */
  predicate Reconcilable(w: Message) {
    w.delete || w.spec.value.evaluationMode in {"Envoy", "HTTP"}
  }

  // ------------------------------------------------------------ specification

  /** The position of the latest change of a name among the first `n`. */
  ghost function LastBefore(log: seq<Message>, n: nat, name: string): (r: Option<nat>)
    requires n <= |log|
    ensures r.Some? ==> r.value < n && log[r.value].name == name
    ensures forall k :: 0 <= k < n && log[k].name == name ==> r.Some? && k <= r.value
  {
    if n == 0 then None
    else if log[n - 1].name == name then Some(n - 1)
    else LastBefore(log, n - 1, name)
  }

  ghost function Last(log: seq<Message>, name: string): (r: Option<nat>)
    ensures r.Some? ==> r.value < |log| && log[r.value].name == name
    ensures forall k :: 0 <= k < |log| && log[k].name == name ==> r.Some? && k <= r.value
  {
    LastBefore(log, |log|, name)
  }

  /** The messages a connecting client is sent: the latest change of every stored name. */
  ghost predicate IsSnapshot(s: State, sent: multiset<nat>) {
    forall i: nat :: sent[i] ==
      if i < |s.log| && s.log[i].name in s.policies && Last(s.log, s.log[i].name) == Some(i) then 1 else 0
  }

  ghost function FanOutTo(i: nat, c: Client): Client {
    if c.phase == Registered then c.(inflight := c.inflight + multiset{i}) else c
  }

  /** The position has reached the client or is in flight to it. */
  ghost predicate Reached(c: Client, i: nat) {
    i in c.processed || i in c.inflight
  }

  ghost function SnapshotTo(s: State, c: Client, sent: multiset<nat>): Client {
    c.(phase := Snapped, inflight := c.inflight + sent, since := |s.log|,
       before := c.processed + set i | i in c.inflight)
  }

  ghost function DeliverTo(s: State, i: nat, c: Client): Client
    requires i < |s.log|
  {
    c.(inflight := c.inflight - multiset{i}, processed := c.processed + {i}, stores := Dispatch(c.stores, s.log[i]))
  }

  /** A client that has lost its connection may open another; its processors keep what they have, and
      what it had received may still be processed. */
  ghost predicate Next(s: State, a: Action, s': State) {
    match a
    case Reconcile(w) =>
      && Reconcilable(w)
      && s' == State(s.log + [w], StorePolicy(s.policies, w), s.jobs + {|s.log|}, s.clients)
    case FanOut(i) =>
      && i in s.jobs && i < |s.log|
      && s'.log == s.log && s'.policies == s.policies
      && s'.jobs == s.jobs - {i}
      && |s'.clients| == |s.clients|
      && forall k :: 0 <= k < |s.clients| ==> s'.clients[k] == FanOutTo(i, s.clients[k])
    case Snapshot(c) =>
      c < |s.clients| && s.clients[c].phase == Fresh && exists sent ::
        IsSnapshot(s, sent) && s' == s.(clients := s.clients[c := SnapshotTo(s, s.clients[c], sent)])
    case Register(c) =>
      && c < |s.clients| && s.clients[c].phase == Snapped
      && s' == s.(clients := s.clients[c := s.clients[c].(phase := Registered)])
    case Deliver(c, i) =>
      && c < |s.clients| && i in s.clients[c].inflight && i < |s.log|
      && s' == s.(clients := s.clients[c := DeliverTo(s, i, s.clients[c])])
    case Evict(c) =>
      && c < |s.clients| && s.clients[c].phase == Registered
      && s' == s.(clients := s.clients[c := s.clients[c].(phase := Evicted)])
    case Lose(c, i) =>
      && c < |s.clients| && i in s.clients[c].inflight
      && s' == s.(clients := s.clients[c := s.clients[c].(inflight := s.clients[c].inflight - multiset{i})])
    case Disconnect(c) =>
      && c < |s.clients|
      && s' == s.(clients := s.clients[c := s.clients[c].(phase := Fresh)])
  }

  ghost predicate Init(s: State) {
    && s.log == [] && s.policies == map[] && s.jobs == {}
    && forall k :: 0 <= k < |s.clients| ==> NewClient(s.clients[k])
  }

  ghost predicate NewClient(c: Client) {
    && c.phase == Fresh && c.inflight == multiset{} && c.processed == {} && c.since == 0 && c.before == {}
    && forall m :: m in c.stores ==> c.stores[m] == map[]
  }

  // -------------------------------------------- what holds with no hypothesis

  /** A processor's policy is what some reconcile stored under that very name and mode. */
  ghost predicate Authentic(log: seq<Message>, mode: string, name: string, held: ValidatingPolicy) {
    exists i :: AuthenticAt(log, mode, name, held, i)
  }

  ghost predicate AuthenticAt(log: seq<Message>, mode: string, name: string, held: ValidatingPolicy, i: int) {
    && 0 <= i < |log| && !log[i].delete && log[i].name == name
    && log[i].spec.value.evaluationMode == mode && held == Unwire(log[i])
  }

  ghost predicate NoInvention(s: State) {
    forall c :: 0 <= c < |s.clients| ==> ClientAuthentic(s.log, s.clients[c])
  }

  ghost predicate ClientAuthentic(log: seq<Message>, c: Client) {
    forall m, n :: m in c.stores && n in c.stores[m] ==> Authentic(log, m, n, c.stores[m][n])
  }

  ghost predicate PoliciesMatchLog(s: State) {
    forall n :: PolicyMatchesLog(s, n)
  }

  ghost predicate PolicyMatchesLog(s: State, n: string) {
    match Last(s.log, n)
    case None => n !in s.policies
    case Some(i) => if s.log[i].delete then n !in s.policies else n in s.policies && s.policies[n] == s.log[i]
  }

  lemma AuthenticStays(log: seq<Message>, w: Message, c: Client)
    requires ClientAuthentic(log, c)
    ensures ClientAuthentic(log + [w], c)
  {
    forall m, n | m in c.stores && n in c.stores[m] ensures Authentic(log + [w], m, n, c.stores[m][n]) {
      var i :| AuthenticAt(log, m, n, c.stores[m][n], i);
      assert AuthenticAt(log + [w], m, n, c.stores[m][n], i);
    }
  }

  lemma DeliverKeepsAuthentic(s: State, i: nat, c: Client)
    requires i < |s.log| && ClientAuthentic(s.log, c)
    ensures ClientAuthentic(s.log, DeliverTo(s, i, c))
  {
    var d := DeliverTo(s, i, c);
    forall m, n | m in d.stores && n in d.stores[m] ensures Authentic(s.log, m, n, d.stores[m][n]) {
      if !s.log[i].delete && s.log[i].name == n && s.log[i].spec.value.evaluationMode == m {
        assert AuthenticAt(s.log, m, n, d.stores[m][n], i);
      } else {
        assert n in c.stores[m] && c.stores[m][n] == d.stores[m][n];
      }
    }
  }

  lemma {:induction false} LastAfterAppend(log: seq<Message>, w: Message, n: nat, name: string)
    requires n <= |log|
    ensures LastBefore(log + [w], n, name) == LastBefore(log, n, name)
  {
    if n > 0 {
      LastAfterAppend(log, w, n - 1, name);
    }
  }

  lemma PoliciesStayMatched(s: State, a: Action, s': State, n: string)
    requires Next(s, a, s') && PoliciesMatchLog(s)
    ensures PolicyMatchesLog(s', n)
  {
    assert PolicyMatchesLog(s, n);
    if a.Reconcile? {
      LastAfterAppend(s.log, a.change, |s.log|, n);
    }
  }

  /** Whatever is reordered, lost, repeated, evicted or connected again: every policy that a client holds is a stored
      one, under its own name, in the processor of its own mode; and the sender's policies are the
      latest change of each name. */
  lemma StepKeepsNoInvention(s: State, a: Action, s': State)
    requires Next(s, a, s') && NoInvention(s) && PoliciesMatchLog(s)
    ensures NoInvention(s') && PoliciesMatchLog(s')
  {
    forall n ensures PolicyMatchesLog(s', n) {
      PoliciesStayMatched(s, a, s', n);
    }
    forall k | 0 <= k < |s'.clients| ensures ClientAuthentic(s'.log, s'.clients[k]) {
      assert ClientAuthentic(s.log, s.clients[k]);
      if a.Reconcile? {
        AuthenticStays(s.log, a.change, s.clients[k]);
      } else if a.Deliver? && k == a.c {
        DeliverKeepsAuthentic(s, a.i, s.clients[k]);
      }
    }
  }

  ghost predicate Run(states: seq<State>, actions: seq<Action>) {
    && |states| == |actions| + 1 && Init(states[0])
    && forall k :: 0 <= k < |actions| ==> Next(states[k], actions[k], states[k + 1])
  }

  lemma {:induction false} NothingIsInvented(states: seq<State>, actions: seq<Action>, k: nat)
    requires Run(states, actions) && k < |states|
    ensures NoInvention(states[k]) && PoliciesMatchLog(states[k])
  {
    if k > 0 {
      NothingIsInvented(states, actions, k - 1);
      StepKeepsNoInvention(states[k - 1], actions[k - 1], states[k]);
    }
  }

  ghost predicate Indexed(s: State) {
    && (forall i :: i in s.jobs ==> i < |s.log|)
    && forall c :: 0 <= c < |s.clients| ==> ClientIndexed(s, s.clients[c])
  }

  ghost predicate ClientIndexed(s: State, c: Client) {
    c.since <= |s.log| && forall i: nat :: Reached(c, i) ==> i < |s.log|
  }

  lemma StepKeepsClientIndexed(s: State, a: Action, s': State, c: nat)
    requires Next(s, a, s') && Indexed(s) && c < |s.clients|
    ensures c < |s'.clients| && ClientIndexed(s', s'.clients[c])
  {
    assert ClientIndexed(s, s.clients[c]);
    forall i: nat | Reached(s'.clients[c], i) ensures i < |s'.log| {
      assert Reached(s.clients[c], i) || a == FanOut(i) || a == Snapshot(c);
    }
  }

  lemma StepKeepsIndexed(s: State, a: Action, s': State)
    requires Next(s, a, s') && Indexed(s)
    ensures Indexed(s')
  {
    forall c | 0 <= c < |s'.clients| ensures ClientIndexed(s', s'.clients[c]) {
      StepKeepsClientIndexed(s, a, s', c);
    }
  }

  lemma {:induction false} AlwaysIndexed(states: seq<State>, actions: seq<Action>, k: nat)
    requires Run(states, actions) && k < |states|
    ensures Indexed(states[k])
  {
    if k > 0 {
      AlwaysIndexed(states, actions, k - 1);
      StepKeepsIndexed(states[k - 1], actions[k - 1], states[k]);
    }
  }

  // --------------------------------------------- what a client holds, exactly

  /** A change tells a mode's processor something: a deletion always does, a policy if it has the mode. */
  ghost predicate HasSay(w: Message, mode: string) {
    w.delete || w.spec.value.evaluationMode == mode
  }

  /** What a change leaves in a mode's processor that it has a say in, and in one it has none in. */
  ghost function Says(w: Message, mode: string): Option<ValidatingPolicy> {
    if !w.delete && w.spec.value.evaluationMode == mode then Some(Unwire(w)) else None
  }

  ghost predicate SayAt(log: seq<Message>, got: set<nat>, name: string, mode: string, i: nat) {
    i < |log| && i in got && log[i].name == name && HasSay(log[i], mode)
  }

  /** The last of the positions `got` below `n` whose change of the name has a say in the mode. */
  ghost function LastSay(log: seq<Message>, n: nat, got: set<nat>, name: string, mode: string): (r: Option<nat>)
    requires n <= |log|
    ensures r.Some? ==> r.value < n && SayAt(log, got, name, mode, r.value)
    ensures forall i: nat :: i < n && SayAt(log, got, name, mode, i) ==> r.Some? && i <= r.value
  {
    if n == 0 then None
    else if SayAt(log, got, name, mode, n - 1) then Some(n - 1)
    else LastSay(log, n - 1, got, name, mode)
  }

  ghost function Said(log: seq<Message>, got: set<nat>, name: string, mode: string): Option<ValidatingPolicy> {
    match LastSay(log, |log|, got, name, mode)
    case None => None
    case Some(i) => Says(log[i], mode)
  }

  /** Every processor holds what the last of the client's changes with a say in it said. */
  ghost predicate HoldsTheLast(log: seq<Message>, c: Client) {
    forall m, n :: m in c.stores ==> Lookup(c.stores[m], n) == Said(log, c.processed, n, m)
  }

  /** The one thing asked of processing: never an older change of a name after a newer one. */
  ghost predicate NoneNewer(log: seq<Message>, c: Client, i: nat) {
    i < |log| && forall j :: j in c.processed && j < |log| && log[j].name == log[i].name ==> j <= i
  }

  ghost predicate ProcessedInOrder(s: State, a: Action) {
    a.Deliver? ==> a.c < |s.clients| && NoneNewer(s.log, s.clients[a.c], a.i)
  }

  ghost predicate ProcessingRun(states: seq<State>, actions: seq<Action>) {
    Run(states, actions) && forall k :: 0 <= k < |actions| ==> ProcessedInOrder(states[k], actions[k])
  }

  lemma SaidAfterAppend(log: seq<Message>, w: Message, got: set<nat>, name: string, mode: string)
    requires forall i :: i in got ==> i < |log|
    ensures Said(log + [w], got, name, mode) == Said(log, got, name, mode)
  {
    var before, after := LastSay(log, |log|, got, name, mode), LastSay(log + [w], |log| + 1, got, name, mode);
    assert forall i: nat :: SayAt(log + [w], got, name, mode, i) <==> SayAt(log, got, name, mode, i);
    if before.Some? {
      assert SayAt(log + [w], got, name, mode, before.value);
    }
    if after.Some? {
      assert SayAt(log, got, name, mode, after.value);
    }
  }

  lemma SaidAfterDelivery(log: seq<Message>, got: set<nat>, i: nat, name: string, mode: string)
    requires i < |log| && forall j :: j in got && j < |log| && log[j].name == log[i].name ==> j <= i
    ensures Said(log, got + {i}, name, mode) ==
            if log[i].name == name && HasSay(log[i], mode) then Says(log[i], mode) else Said(log, got, name, mode)
  {
    var before, after := LastSay(log, |log|, got, name, mode), LastSay(log, |log|, got + {i}, name, mode);
    if log[i].name == name && HasSay(log[i], mode) {
      assert SayAt(log, got + {i}, name, mode, i);
    } else {
      assert forall j: nat :: SayAt(log, got + {i}, name, mode, j) <==> SayAt(log, got, name, mode, j);
      if before.Some? {
        assert SayAt(log, got + {i}, name, mode, before.value);
      }
    }
  }

  lemma DeliverKeepsHolding(s: State, i: nat, c: Client)
    requires HoldsTheLast(s.log, c) && NoneNewer(s.log, c, i)
    ensures HoldsTheLast(s.log, DeliverTo(s, i, c))
  {
    var d := DeliverTo(s, i, c);
    forall m, n | m in d.stores ensures Lookup(d.stores[m], n) == Said(s.log, d.processed, n, m) {
      SaidAfterDelivery(s.log, c.processed, i, n, m);
      assert Lookup(c.stores[m], n) == Said(s.log, c.processed, n, m);
    }
  }

  lemma ReconcileKeepsHolding(s: State, w: Message, c: Client)
    requires HoldsTheLast(s.log, c) && ClientIndexed(s, c)
    ensures HoldsTheLast(s.log + [w], c)
  {
    forall m, n | m in c.stores ensures Lookup(c.stores[m], n) == Said(s.log + [w], c.processed, n, m) {
      assert forall i :: i in c.processed ==> Reached(c, i);
      SaidAfterAppend(s.log, w, c.processed, n, m);
    }
  }

  lemma StepKeepsHolding(s: State, a: Action, s': State)
    requires Next(s, a, s') && ProcessedInOrder(s, a) && Indexed(s)
    requires forall c :: 0 <= c < |s.clients| ==> HoldsTheLast(s.log, s.clients[c])
    ensures forall c :: 0 <= c < |s'.clients| ==> HoldsTheLast(s'.log, s'.clients[c])
  {
    forall c | 0 <= c < |s'.clients| ensures HoldsTheLast(s'.log, s'.clients[c]) {
      assert HoldsTheLast(s.log, s.clients[c]) && ClientIndexed(s, s.clients[c]);
      if a.Reconcile? {
        ReconcileKeepsHolding(s, a.change, s.clients[c]);
      } else if a.Deliver? && a.c == c {
        DeliverKeepsHolding(s, a.i, s.clients[c]);
      }
    }
  }

  /** Whatever is lost, missed or repeated, and however often clients are evicted or connect again: a
      client that processes the changes of a name in order holds what the last of those it processed
      with a say in the processor said. */
  lemma {:induction false} ClientsHoldTheLast(states: seq<State>, actions: seq<Action>, k: nat)
    requires ProcessingRun(states, actions) && k < |states|
    ensures forall c :: 0 <= c < |states[k].clients| ==> HoldsTheLast(states[k].log, states[k].clients[c])
  {
    if k > 0 {
      ClientsHoldTheLast(states, actions, k - 1);
      AlwaysIndexed(states, actions, k - 1);
      StepKeepsHolding(states[k - 1], actions[k - 1], states[k]);
    }
  }

  /** What a processor should hold under a name. */
  ghost function Expected(policies: map<string, Message>, mode: string, name: string): Option<ValidatingPolicy>
  {
    if name in policies && !policies[name].delete && policies[name].spec.value.evaluationMode == mode
    then Some(Unwire(policies[name])) else None
  }

  /** What the latest change of a name says to a mode's processor, None if there is no change. */
  ghost function LatestSays(log: seq<Message>, name: string, mode: string): Option<ValidatingPolicy> {
    match Last(log, name)
    case None => None
    case Some(i) => Says(log[i], mode)
  }

  /** The sender's policies of one mode, as a server reads them. */
  ghost function StoredUnder(policies: map<string, Message>, mode: string): Store {
    map n | n in policies && !policies[n].delete && policies[n].spec.value.evaluationMode == mode :: Unwire(policies[n])
  }

  /** So a processor agrees with the sender on a name if and only if the last change of the name that
      it was told of says the same to it as the latest change; and on everything if and only if that
      is so of every name. Once nothing is in flight to a client, what it has processed
      is what was sent to it and not lost (`ReachedIffSent`). */
  lemma ClientAgreesIff(states: seq<State>, actions: seq<Action>, k: nat, c: nat, mode: string)
    requires ProcessingRun(states, actions) && k < |states|
    requires c < |states[k].clients| && mode in states[k].clients[c].stores
    ensures
      var s := states[k];
      var store, processed := s.clients[c].stores[mode], s.clients[c].processed;
      && (forall n :: Lookup(store, n) == Expected(s.policies, mode, n)
                      <==> Said(s.log, processed, n, mode) == LatestSays(s.log, n, mode))
      && (store == StoredUnder(s.policies, mode)
          <==> forall n :: Said(s.log, processed, n, mode) == LatestSays(s.log, n, mode))
  {
    ClientsHoldTheLast(states, actions, k);
    NothingIsInvented(states, actions, k);
    var s := states[k];
    var store, processed := s.clients[c].stores[mode], s.clients[c].processed;
    forall n ensures Expected(s.policies, mode, n) == LatestSays(s.log, n, mode)
             ensures Lookup(store, n) == Said(s.log, processed, n, mode)
             ensures Lookup(StoredUnder(s.policies, mode), n) == Expected(s.policies, mode, n)
    {
      assert PolicyMatchesLog(s, n) && HoldsTheLast(s.log, s.clients[c]);
    }
    if forall n :: Said(s.log, processed, n, mode) == LatestSays(s.log, n, mode) {
      forall n ensures Lookup(store, n) == Lookup(StoredUnder(s.policies, mode), n) {
        assert Said(s.log, processed, n, mode) == LatestSays(s.log, n, mode);
      }
      SameLookups(store, StoredUnder(s.policies, mode));
    } else {
      var n :| Said(s.log, processed, n, mode) != LatestSays(s.log, n, mode);
      assert Lookup(store, n) != Lookup(StoredUnder(s.policies, mode), n);
    }
  }

  // ---------------------------------------------------- what reaches a client

  /** A change of a name is on its way to a client: in flight, or in a send that has yet to start. */
  ghost predicate Pending(s: State, c: nat, name: string, i: nat)
    requires c < |s.clients|
  {
    (i in s.clients[c].inflight || i in s.jobs) && i < |s.log| && s.log[i].name == name
  }

  ghost predicate Connected(c: Client) {
    c.phase == Snapped || c.phase == Registered
  }

  /** What the goroutines do not guarantee: changes of one name go out and are processed in order, and
      no message is lost while its client is connected. */
  ghost predicate Ordered(s: State, a: Action) {
    match a
    case FanOut(i) => i < |s.log| && forall j :: 0 <= j < i && j in s.jobs ==> s.log[j].name != s.log[i].name
    case Deliver(c, i) =>
      c < |s.clients| && i < |s.log| && forall j :: 0 <= j < i ==> !Pending(s, c, s.log[i].name, j)
    case Lose(c, _) => c < |s.clients| && !Connected(s.clients[c])
    case _ => true
  }

  ghost predicate OrderedRun(states: seq<State>, actions: seq<Action>) {
    Run(states, actions) && forall k :: 0 <= k < |actions| ==> Ordered(states[k], actions[k])
  }

  /** The latest change of a name has reached the client or is on its way to it, or is a deletion of a
      name of which nothing has. */
  ghost predicate Heard(s: State, c: nat, name: string)
    requires c < |s.clients|
  {
    match Last(s.log, name)
    case None => true
    case Some(i) =>
      || i in s.jobs || Reached(s.clients[c], i)
      || (s.log[i].delete && forall j: nat :: Reached(s.clients[c], j) && j < |s.log| ==> s.log[j].name != name)
  }

  /** The latest change of a name came after the client's snapshot, and its send has gone out, but not
      to the client. */
  ghost predicate Missed(s: State, c: nat, name: string)
    requires c < |s.clients|
  {
    match Last(s.log, name)
    case None => false
    case Some(i) => i >= s.clients[c].since && i !in s.jobs && !Reached(s.clients[c], i)
  }

  /** The name was deleted before the client's snapshot, and the client has had it from an earlier
      connection. */
  ghost predicate DeletedWhileAway(s: State, c: nat, name: string)
    requires c < |s.clients|
  {
    match Last(s.log, name)
    case None => false
    case Some(i) =>
      && i < s.clients[c].since && s.log[i].delete
      && exists j :: j in s.clients[c].before && j < |s.log| && s.log[j].name == name
  }

  /** What a connected client knows of a name whose latest change came before its snapshot: a stored
      policy was in the snapshot; of a deletion it hears if any change of the name reaches it. */
  ghost predicate Informed(s: State, c: nat, name: string)
    requires c < |s.clients|
  {
    match Last(s.log, name)
    case None => true
    case Some(i) =>
      i < s.clients[c].since ==>
        if !s.log[i].delete then Reached(s.clients[c], i)
        else (s.clients[c].phase == Registered && (i in s.jobs || Reached(s.clients[c], i)))
             || NothingSince(s, s.clients[c], name)
  }

  ghost predicate NothingSince(s: State, c: Client, name: string) {
    forall j: nat :: Reached(c, j) && j < |s.log| && s.log[j].name == name ==> j in c.before
  }

  /** No change of a name has been processed while an older one is pending. */
  ghost predicate OldestFirst(s: State, c: nat)
    requires c < |s.clients|
  {
    forall i, j :: j in s.clients[c].processed && j < |s.log| && Pending(s, c, s.log[j].name, i) ==> j <= i
  }

  ghost predicate JobsInOrder(s: State) {
    forall i :: i in s.jobs ==>
      i < |s.log| && Last(s.log, s.log[i].name).Some? && Last(s.log, s.log[i].name).value in s.jobs
  }

  ghost predicate ClientOk(s: State, c: nat)
    requires c < |s.clients|
  {
    && OldestFirst(s, c)
    && (Connected(s.clients[c]) ==> forall n :: Informed(s, c, n))
  }

  ghost predicate Converging(s: State) {
    && PoliciesMatchLog(s) && Indexed(s) && JobsInOrder(s)
    && forall c :: 0 <= c < |s.clients| ==> ClientOk(s, c)
  }

  lemma JobStaysInOrder(s: State, a: Action, s': State, i: nat)
    requires JobsInOrder(s) && Next(s, a, s') && Ordered(s, a) && i in s'.jobs
    ensures i < |s'.log| && Last(s'.log, s'.log[i].name).Some? && Last(s'.log, s'.log[i].name).value in s'.jobs
  {
    if a.Reconcile? {
      LastAfterAppend(s.log, a.change, |s.log|, s'.log[i].name);
    } else if a.FanOut? {
      var last := Last(s.log, s.log[i].name).value;
      assert i in s.jobs && last in s.jobs && i <= last;
      assert i < last ==> !(last == a.i);
    }
  }

  lemma JobsStayInOrder(s: State, a: Action, s': State)
    requires JobsInOrder(s) && Next(s, a, s') && Ordered(s, a)
    ensures JobsInOrder(s')
  {
    forall i | i in s'.jobs
      ensures i < |s'.log| && Last(s'.log, s'.log[i].name).Some? && Last(s'.log, s'.log[i].name).value in s'.jobs
    {
      JobStaysInOrder(s, a, s', i);
    }
  }

  lemma OldestStaysFirst(s: State, a: Action, s': State, c: nat)
    requires Next(s, a, s') && Ordered(s, a) && Indexed(s) && c < |s.clients| && OldestFirst(s, c)
    ensures c < |s'.clients| && OldestFirst(s', c)
  {
    assert ClientIndexed(s, s.clients[c]);
    forall i, j | j in s'.clients[c].processed && j < |s'.log| && Pending(s', c, s'.log[j].name, i) ensures j <= i {
      if a == Deliver(c, j) {
        assert Pending(s, c, s.log[j].name, i);
      } else if a == Snapshot(c) {
        assert Reached(s.clients[c], j) && Last(s.log, s.log[j].name).Some?;
        assert j <= i || Pending(s, c, s.log[j].name, i);
      } else {
        assert Reached(s.clients[c], j);
        assert i == |s.log| || Pending(s, c, s.log[j].name, i);
      }
    }
  }

  lemma ReachedStays(s: State, a: Action, s': State, c: nat)
    requires Next(s, a, s') && Ordered(s, a) && c < |s.clients| && Connected(s.clients[c])
    ensures c < |s'.clients|
    ensures a.FanOut? && s.clients[c].phase == Registered ==>
              forall j: nat :: Reached(s'.clients[c], j) <==> Reached(s.clients[c], j) || j == a.i
    ensures !(a.FanOut? && s.clients[c].phase == Registered) ==>
              forall j: nat :: Reached(s'.clients[c], j) <==> Reached(s.clients[c], j)
  {
  }

  lemma InformedBySnapshot(s: State, c: nat, s': State, n: string)
    requires Next(s, Snapshot(c), s') && PoliciesMatchLog(s)
    ensures Informed(s', c, n)
  {
    assert PolicyMatchesLog(s, n);
  }

  lemma StaysInformed(s: State, a: Action, s': State, c: nat, n: string)
    requires Next(s, a, s') && Ordered(s, a) && Indexed(s) && JobsInOrder(s)
    requires c < |s.clients| && Connected(s.clients[c]) && Informed(s, c, n)
    requires c < |s'.clients| && Connected(s'.clients[c])
    ensures Informed(s', c, n)
  {
    ReachedStays(s, a, s', c);
    if a.Reconcile? {
      InformedOfReconcile(s, a.change, s', c, n);
    } else if a.FanOut? {
      if Last(s.log, n).Some? && NothingSince(s, s.clients[c], n) {
        NothingOrAll(s, a.i, s', c, n);
      }
    } else {
      assert s'.log == s.log && s'.jobs == s.jobs;
      assert s'.clients[c].since == s.clients[c].since && s'.clients[c].before == s.clients[c].before;
    }
  }

  lemma InformedOfReconcile(s: State, w: Message, s': State, c: nat, n: string)
    requires Next(s, Reconcile(w), s') && Indexed(s) && c < |s.clients| && Informed(s, c, n)
    ensures c < |s'.clients| && Informed(s', c, n)
  {
    assert ClientIndexed(s, s.clients[c]);
    LastAfterAppend(s.log, w, |s.log|, n);
  }

  /** A send leaves a name unheard of, or its latest change reaches the client or is yet to go out. */
  lemma NothingOrAll(s: State, j: nat, s': State, c: nat, n: string)
    requires Next(s, FanOut(j), s') && Ordered(s, FanOut(j)) && JobsInOrder(s)
    requires c < |s.clients| && NothingSince(s, s.clients[c], n) && Last(s.log, n).Some?
    ensures c < |s'.clients|
    ensures
      var i := Last(s.log, n).value;
      || NothingSince(s', s'.clients[c], n)
      || (s'.clients[c].phase == Registered && (i in s'.jobs || Reached(s'.clients[c], i)))
  {
    if s.log[j].name == n && s.clients[c].phase == Registered {
      assert Reached(s'.clients[c], j);
    } else {
      forall i: nat | Reached(s'.clients[c], i) && i < |s'.log| && s'.log[i].name == n
        ensures i in s'.clients[c].before
      {
        assert Reached(s.clients[c], i);
      }
    }
  }

  /** An ordered step keeps changes processed oldest first, and every connected client informed. */
  lemma StepConverges(s: State, a: Action, s': State)
    requires Converging(s) && Next(s, a, s') && Ordered(s, a)
    ensures Converging(s') && ProcessedInOrder(s, a)
  {
    forall n ensures PolicyMatchesLog(s', n) {
      PoliciesStayMatched(s, a, s', n);
    }
    JobsStayInOrder(s, a, s');
    StepKeepsIndexed(s, a, s');
    forall c | 0 <= c < |s'.clients| ensures ClientOk(s', c) {
      assert ClientOk(s, c);
      OldestStaysFirst(s, a, s', c);
      forall n | Connected(s'.clients[c]) ensures Informed(s', c, n) {
        if a == Snapshot(c) {
          InformedBySnapshot(s, c, s', n);
        } else {
          StaysInformed(s, a, s', c, n);
        }
      }
    }
    if a.Deliver? {
      assert ClientOk(s, a.c) && Pending(s, a.c, s.log[a.i].name, a.i);
    }
  }

  lemma {:induction false} RunConverges(states: seq<State>, actions: seq<Action>, k: nat)
    requires OrderedRun(states, actions) && k < |states|
    ensures Converging(states[k])
  {
    if k > 0 {
      RunConverges(states, actions, k - 1);
      StepConverges(states[k - 1], actions[k - 1], states[k]);
    }
  }

  lemma OrderedRunsProcessInOrder(states: seq<State>, actions: seq<Action>)
    requires OrderedRun(states, actions)
    ensures ProcessingRun(states, actions)
  {
    forall k | 0 <= k < |actions| ensures ProcessedInOrder(states[k], actions[k]) {
      RunConverges(states, actions, k);
      StepConverges(states[k], actions[k], states[k + 1]);
    }
  }

  /** In every state of every ordered run, a connected client has heard of the latest change of every
      name, but for two kinds: changes that went out between its snapshot and its registration, and
      deletions before its snapshot of what it has from an earlier connection. */
  lemma WhatAClientHears(states: seq<State>, actions: seq<Action>, k: nat, c: nat, name: string)
    requires OrderedRun(states, actions) && k < |states|
    requires c < |states[k].clients| && Connected(states[k].clients[c])
    ensures Heard(states[k], c, name) || Missed(states[k], c, name) || DeletedWhileAway(states[k], c, name)
  {
    RunConverges(states, actions, k);
    assert ClientOk(states[k], c) && Informed(states[k], c, name);
  }

  /** A connected client comes to miss a name only by a send that goes out before it is registered. */
  lemma MissedOnlyBeforeRegistration(s: State, a: Action, s': State, c: nat, name: string)
    requires Indexed(s) && Next(s, a, s') && Ordered(s, a)
    requires c < |s.clients| && Connected(s.clients[c]) && !Missed(s, c, name)
    ensures c < |s'.clients|
    ensures Missed(s', c, name) ==> a.FanOut? && Last(s.log, name) == Some(a.i) && s.clients[c].phase == Snapped
  {
    ReachedStays(s, a, s', c);
    if a.Reconcile? {
      LastAfterAppend(s.log, a.change, |s.log|, name);
    }
  }

  /** A step sends a position to a client: in its snapshot, or as a broadcast to those registered. */
  ghost predicate Sends(s: State, a: Action, c: nat, i: nat) {
    c < |s.clients| &&
    match a
    case FanOut(j) => j == i && s.clients[c].phase == Registered
    case Snapshot(d) => d == c && i < |s.log| && s.log[i].name in s.policies && Last(s.log, s.log[i].name) == Some(i)
    case _ => false
  }

  ghost predicate SentBefore(states: seq<State>, actions: seq<Action>, k: nat, c: nat, i: nat)
    requires |states| > |actions| >= k
  {
    exists j :: 0 <= j < k && Sends(states[j], actions[j], c, i)
  }

  lemma StepReaches(s: State, a: Action, s': State, c: nat, i: nat)
    requires Next(s, a, s') && c < |s.clients| && a != Lose(c, i)
    ensures c < |s'.clients|
    ensures Reached(s'.clients[c], i) <==> Reached(s.clients[c], i) || Sends(s, a, c, i)
  {
  }

  /** What has reached a client or is in flight to it is what has been sent to it, in whatever order and
      over however many connections, unless it was lost. */
  lemma {:induction false} ReachedIffSent(states: seq<State>, actions: seq<Action>, k: nat, c: nat, i: nat)
    requires Run(states, actions) && k < |states| && c < |states[0].clients|
    requires forall j :: 0 <= j < k ==> actions[j] != Lose(c, i)
    ensures c < |states[k].clients|
    ensures Reached(states[k].clients[c], i) <==> SentBefore(states, actions, k, c, i)
  {
    if k > 0 {
      ReachedIffSent(states, actions, k - 1, c, i);
      var s, a := states[k - 1], actions[k - 1];
      StepReaches(s, a, states[k], c, i);
      assert SentBefore(states, actions, k, c, i) <==> SentBefore(states, actions, k - 1, c, i) || Sends(s, a, c, i);
    } else {
      assert NewClient(states[0].clients[c]);
    }
  }

  // -------------------------------------------------------------- convergence

  /** The policies ever stored under the name either all have the mode or all have another. */
  ghost predicate ModeFixed(log: seq<Message>, name: string, mode: string) {
    || (forall w <- log :: !w.delete && w.name == name ==> w.spec.value.evaluationMode == mode)
    || (forall w <- log :: !w.delete && w.name == name ==> w.spec.value.evaluationMode != mode)
  }

  /** A client after processing some more messages, in the given order. */
  ghost function DeliverAll(s: State, c: Client, order: seq<nat>): Client
    requires forall k :: 0 <= k < |order| ==> order[k] < |s.log|
  {
    if order == [] then c
    else DeliverTo(s, order[|order| - 1], DeliverAll(s, c, order[..|order| - 1]))
  }

  /** The positions pending for a client under a name, in the order of the reconciles. */
  ghost predicate PendingInOrder(s: State, c: nat, name: string, order: seq<nat>)
    requires c < |s.clients|
  {
    && (forall k :: 0 <= k < |order| ==> Pending(s, c, name, order[k]))
    && (forall i :: Pending(s, c, name, i) ==> i in order)
    && (forall j, k :: 0 <= j < k < |order| ==> order[j] <= order[k])
  }

  lemma {:induction false} DeliverAllKeepsHolding(s: State, c: nat, name: string, order: seq<nat>)
    requires c < |s.clients| && HoldsTheLast(s.log, s.clients[c]) && OldestFirst(s, c)
    requires forall k :: 0 <= k < |order| ==> order[k] < |s.log| && Pending(s, c, name, order[k])
    requires forall j, k :: 0 <= j < k < |order| ==> order[j] <= order[k]
    ensures
      var d := DeliverAll(s, s.clients[c], order);
      && HoldsTheLast(s.log, d) && d.stores.Keys == s.clients[c].stores.Keys
      && forall i :: i in d.processed <==> i in s.clients[c].processed || i in order
  {
    if order != [] {
      var last := |order| - 1;
      DeliverAllKeepsHolding(s, c, name, order[..last]);
      assert order == order[..last] + [order[last]];
      var d := DeliverAll(s, s.clients[c], order[..last]);
      assert Pending(s, c, name, order[last]);
      forall j | j in d.processed && j < |s.log| && s.log[j].name == name ensures j <= order[last] {
        if j in order[..last] {
          assert j in order;
        }
      }
      DeliverKeepsHolding(s, order[last], d);
    }
  }

  /** With one mode, the latest of the changes got says all that the changes of a name have to say. */
  lemma LatestSettles(log: seq<Message>, got: set<nat>, name: string, mode: string)
    requires ModeFixed(log, name, mode)
    requires match Last(log, name)
             case None => true
             case Some(i) => i in got || (log[i].delete && forall j :: j in got && j < |log| ==> log[j].name != name)
    ensures Said(log, got, name, mode) == LatestSays(log, name, mode)
  {
    var say := LastSay(log, |log|, got, name, mode);
    if Last(log, name).Some? {
      var i := Last(log, name).value;
      if i in got && HasSay(log[i], mode) {
        assert SayAt(log, got, name, mode, i);
      }
    }
  }

  /** In every state of every ordered run, a client that has heard of a name and processes what is
      pending for the name holds the sender's policy of it in every processor for whose mode the name
      is settled. */
  lemma ClientConverges(
    states: seq<State>, actions: seq<Action>, k: nat, c: nat, name: string, mode: string, order: seq<nat>)
    requires OrderedRun(states, actions) && k < |states|
    requires c < |states[k].clients| && mode in states[k].clients[c].stores
    requires Heard(states[k], c, name) && ModeFixed(states[k].log, name, mode)
    requires PendingInOrder(states[k], c, name, order)
    ensures
      var s := states[k];
      var stores := DeliverAll(s, s.clients[c], order).stores;
      && stores.Keys == s.clients[c].stores.Keys
      && Lookup(stores[mode], name) == Expected(s.policies, mode, name)
  {
    var s := states[k];
    RunConverges(states, actions, k);
    OrderedRunsProcessInOrder(states, actions);
    ClientsHoldTheLast(states, actions, k);
    assert ClientOk(s, c) && PolicyMatchesLog(s, name) && ClientIndexed(s, s.clients[c]);
    DeliverAllKeepsHolding(s, c, name, order);
    var d := DeliverAll(s, s.clients[c], order);
    assert forall i: nat :: Reached(s.clients[c], i) && i < |s.log| && s.log[i].name == name ==> i in d.processed by {
      assert forall i: nat :: i in s.clients[c].inflight && i < |s.log| && s.log[i].name == name ==>
          Pending(s, c, name, i);
    }
    assert forall i: nat :: i in s.jobs && i < |s.log| && s.log[i].name == name ==> Pending(s, c, name, i);
    HeardSettles(s, c, name, mode, d.processed);
  }

  lemma HeardSettles(s: State, c: nat, name: string, mode: string, got: set<nat>)
    requires c < |s.clients| && Heard(s, c, name) && ModeFixed(s.log, name, mode)
    requires forall i: nat :: i < |s.log| && s.log[i].name == name ==>
               (i in got <==> i in s.jobs || Reached(s.clients[c], i))
    requires JobsInOrder(s)
    ensures Said(s.log, got, name, mode) == LatestSays(s.log, name, mode)
  {
    LatestSettles(s.log, got, name, mode);
  }

  // --------------------------------------------------------------- quiescence

  ghost predicate Quiet(s: State, c: nat)
    requires c < |s.clients|
  {
    s.jobs == {} && s.clients[c].inflight == multiset{}
  }

  /** Once nothing is on its way, a connected client that missed no name, and kept none that was
      deleted while it was away, holds exactly the sender's policies of every settled mode; so any two
      such clients, whose listings their stores determine, list the same policies in the same order. */
  lemma QuietClientsAgree(states: seq<State>, actions: seq<Action>, k: nat, c: nat, mode: string)
    requires OrderedRun(states, actions) && k < |states|
    requires c < |states[k].clients| && Connected(states[k].clients[c]) && mode in states[k].clients[c].stores
    requires forall n :: !Missed(states[k], c, n) && !DeletedWhileAway(states[k], c, n)
    requires forall n :: ModeFixed(states[k].log, n, mode)
    requires Quiet(states[k], c)
    ensures states[k].clients[c].stores[mode] == StoredUnder(states[k].policies, mode)
  {
    var s := states[k];
    OrderedRunsProcessInOrder(states, actions);
    ClientAgreesIff(states, actions, k, c, mode);
    RunConverges(states, actions, k);
    forall n ensures Said(s.log, s.clients[c].processed, n, mode) == LatestSays(s.log, n, mode) {
      WhatAClientHears(states, actions, k, c, n);
      HeardSettles(s, c, n, mode, s.clients[c].processed);
    }
  }

  /** An evicted client that does not connect again hears nothing more: nothing comes to it but what
      was already in flight. */
  lemma {:induction false} EvictedClientHearsNothingMore(
    states: seq<State>, actions: seq<Action>, k: nat, l: nat, c: nat)
    requires Run(states, actions) && k <= l < |states|
    requires c < |states[k].clients| && states[k].clients[c].phase == Evicted
    requires forall j :: k <= j < l ==> actions[j] != Disconnect(c)
    ensures c < |states[l].clients| && states[l].clients[c].phase == Evicted
    ensures forall i: nat :: Reached(states[l].clients[c], i) ==> Reached(states[k].clients[c], i)
  {
    if k < l {
      EvictedClientHearsNothingMore(states, actions, k, l - 1, c);
      assert Next(states[l - 1], actions[l - 1], states[l]);
    }
  }

  ghost function InFlight(clients: seq<Client>): nat {
    if clients == [] then 0 else InFlight(clients[..|clients| - 1]) + |clients[|clients| - 1].inflight|
  }

  lemma {:induction false} DeliveringReducesInFlight(clients: seq<Client>, c: nat, i: nat, d: Client)
    requires c < |clients| && i in clients[c].inflight && d.inflight == clients[c].inflight - multiset{i}
    ensures InFlight(clients[c := d]) < InFlight(clients)
  {
    var last := |clients| - 1;
    if c < last {
      DeliveringReducesInFlight(clients[..last], c, i, d);
      assert clients[c := d][..last] == clients[..last][c := d];
    } else {
      assert clients[c := d][..last] == clients[..last];
    }
  }

  lemma {:induction false} FirstFrom(positions: multiset<nat>, start: nat) returns (i: nat)
    requires start in positions
    ensures i in positions && forall j :: j in positions ==> i <= j
    decreases start
  {
    i := start;
    if j :| j in positions && j < start {
      i := FirstFrom(positions, j);
    }
  }

  /** A step of one of the two kinds that bring messages to their clients. */
  ghost predicate Settles(s: State, a: Action, s': State) {
    Next(s, a, s') && Ordered(s, a) && (a.FanOut? || a.Deliver?)
  }

  lemma SendGoesOut(s: State) returns (a: Action, s': State)
    requires Indexed(s) && s.jobs != {}
    ensures Settles(s, a, s') && Indexed(s')
    ensures s'.log == s.log && s'.policies == s.policies && |s'.clients| == |s.clients| && |s'.jobs| < |s.jobs|
  {
    var j :| j in s.jobs;
    var i := FirstFrom(multiset(s.jobs), j);
    assert i in s.jobs && forall j :: j in s.jobs ==> j in multiset(s.jobs);
    a := FanOut(i);
    s' := s.(
      jobs := s.jobs - {i},
      clients := seq(|s.clients|, k requires 0 <= k < |s.clients| => FanOutTo(i, s.clients[k])));
    assert s.jobs == s'.jobs + {i};
    StepKeepsIndexed(s, a, s');
  }

  lemma MessageArrives(s: State, c: nat) returns (a: Action, s': State)
    requires Indexed(s) && s.jobs == {} && c < |s.clients| && s.clients[c].inflight != multiset{}
    ensures Settles(s, a, s') && Indexed(s')
    ensures s'.log == s.log && s'.policies == s.policies && |s'.clients| == |s.clients|
    ensures s'.jobs == {} && InFlight(s'.clients) < InFlight(s.clients)
  {
    assert ClientIndexed(s, s.clients[c]);
    var j :| j in s.clients[c].inflight;
    var i := FirstFrom(s.clients[c].inflight, j);
    assert Reached(s.clients[c], i);
    a := Deliver(c, i);
    var d := DeliverTo(s, i, s.clients[c]);
    s' := s.(clients := s.clients[c := d]);
    DeliveringReducesInFlight(s.clients, c, i, d);
    StepKeepsIndexed(s, a, s');
  }

  lemma RunGoesOn(states: seq<State>, actions: seq<Action>, a: Action, s': State)
    requires OrderedRun(states, actions) && Next(states[|actions|], a, s') && Ordered(states[|actions|], a)
    ensures OrderedRun(states + [s'], actions + [a])
  {
    forall k | 0 <= k < |actions| + 1
      ensures Next((states + [s'])[k], (actions + [a])[k], (states + [s'])[k + 1])
      ensures Ordered((states + [s'])[k], (actions + [a])[k])
    {
      if k < |actions| {
        assert Next(states[k], actions[k], states[k + 1]) && Ordered(states[k], actions[k]);
      }
    }
  }

  ghost predicate AllQuiet(s: State) {
    forall c :: 0 <= c < |s.clients| ==> Quiet(s, c)
  }

  lemma StepTowardsQuiet(s: State) returns (a: Action, s': State)
    requires Indexed(s) && !AllQuiet(s)
    ensures Settles(s, a, s')
    ensures s'.log == s.log && s'.policies == s.policies && |s'.clients| == |s.clients|
    ensures |s'.jobs| < |s.jobs| || (s'.jobs == s.jobs && InFlight(s'.clients) < InFlight(s.clients))
  {
    if s.jobs != {} {
      a, s' := SendGoesOut(s);
    } else {
      var c :| 0 <= c < |s.clients| && s.clients[c].inflight != multiset{};
      a, s' := MessageArrives(s, c);
    }
  }

  /** The order asked of sends and deliveries is never in the way: every ordered run goes on, by sends
      and deliveries alone and as an ordered run, to a state where nothing is on its way to anybody. */
  lemma {:induction false} CanAlwaysSettle(states: seq<State>, actions: seq<Action>)
    returns (states': seq<State>, actions': seq<Action>)
    requires OrderedRun(states, actions)
    ensures OrderedRun(states', actions') && states <= states' && actions <= actions'
    ensures forall k :: |actions| <= k < |actions'| ==> actions'[k].FanOut? || actions'[k].Deliver?
    ensures var s, t := states[|actions|], states'[|actions'|];
            && t.log == s.log && t.policies == s.policies && |t.clients| == |s.clients|
            && AllQuiet(t)
    decreases |states[|actions|].jobs|, InFlight(states[|actions|].clients)
  {
    var s := states[|actions|];
    AlwaysIndexed(states, actions, |actions|);
    if !AllQuiet(s) {
      var a, s' := StepTowardsQuiet(s);
      RunGoesOn(states, actions, a, s');
      states', actions' := CanAlwaysSettle(states + [s'], actions + [a]);
      assert actions + [a] <= actions' && states + [s'] <= states';
      assert actions'[|actions|] == a;
    } else {
      states', actions' := states, actions;
    }
  }
}
