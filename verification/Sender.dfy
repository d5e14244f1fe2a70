/** The control plane's sender: stored policies, the clients' connections and their health records;
    and how long a client lasts in it. */
module Sender {
  import opened Wrappers
  import opened Policies
  import opened Transfer
  import opened Replica
  import ControlPlane

  // ------------------------------------------------------------ specification

  /** A later time stamp replaces an earlier one. */
  function Stamped(health: map<string, int>, client: string, stamp: int): map<string, int> {
    if client in health && stamp <= health[client] then health else health[client := stamp]
  }

  /** The clients whose record is older than `limit` at time `now`. */
  function Inactive(health: map<string, int>, now: int, limit: int): set<string> {
    set c | c in health && now - health[c] > limit
  }

  datatype Lookup = NotFound | Failed | Found(policy: ValidatingPolicy)

  // ---------------------------------------------------------------- the class

  class PolicySender {
    const maxClientInactiveDuration: int
    var policies: map<string, Message>
    var healthCheckMap: map<string, int>
    var cxnsMap: map<string, nat>

    constructor (maxClientInactiveDuration: int)
      ensures policies == map[] && healthCheckMap == map[] && cxnsMap == map[]
      ensures this.maxClientInactiveDuration == maxClientInactiveDuration
    {
      this.maxClientInactiveDuration := maxClientInactiveDuration;
      policies, healthCheckMap, cxnsMap := map[], map[], map[];
    }

    method StorePolicy(pol: Message)
      modifies this`policies
      ensures policies == old(policies)[pol.name := pol]
    {
      policies := policies[pol.name := pol];
    }

    method DeletePolicy(polName: string)
      modifies this`policies
      ensures policies == old(policies) - {polName}
    {
      policies := policies - {polName};
    }

    /** A request without an address or a time is ignored. */
    method HealthCheck(clientAddress: string, time: Option<int>)
      modifies this`healthCheckMap
      ensures healthCheckMap ==
              if clientAddress == "" || time.None? then old(healthCheckMap)
              else Stamped(old(healthCheckMap), clientAddress, time.value)
    {
      if clientAddress == "" || time.None? {
        return;
      }
      if clientAddress !in healthCheckMap || time.value > healthCheckMap[clientAddress] {
        healthCheckMap := healthCheckMap[clientAddress := time.value];
      }
    }

    /** The end of a stream request, after the stored policies have been handed out. */
    method Connect(clientAddress: string, stream: nat)
      modifies this`cxnsMap
      ensures cxnsMap == old(cxnsMap)[clientAddress := stream]
    {
      cxnsMap := cxnsMap[clientAddress := stream];
    }

    method GetInactiveClients(now: int) returns (clients: seq<string>)
      ensures forall c :: c in clients <==> c in Inactive(healthCheckMap, now, maxClientInactiveDuration)
    {
      clients := [];
      var rest := healthCheckMap.Keys;
      while rest != {}
        invariant rest <= healthCheckMap.Keys
        invariant forall c :: c in clients <==>
                    c in healthCheckMap && c !in rest && now - healthCheckMap[c] > maxClientInactiveDuration
      {
        var c :| c in rest;
        rest := rest - {c};
        if now - healthCheckMap[c] > maxClientInactiveDuration {
          clients := clients + [c];
        }
      }
    }

    method DeleteInactive(now: int)
      modifies this`cxnsMap, this`healthCheckMap
      ensures cxnsMap == old(cxnsMap) - Inactive(old(healthCheckMap), now, maxClientInactiveDuration)
      ensures healthCheckMap == old(healthCheckMap) - Inactive(old(healthCheckMap), now, maxClientInactiveDuration)
    {
      var clients := GetInactiveClients(now);
      ghost var gone: set<string> := {};
      for i := 0 to |clients|
        invariant gone == set c <- clients[..i]
        invariant cxnsMap == old(cxnsMap) - gone && healthCheckMap == old(healthCheckMap) - gone
      {
        cxnsMap := cxnsMap - {clients[i]};
        healthCheckMap := healthCheckMap - {clients[i]};
        gone := gone + {clients[i]};
      }
      assert gone == Inactive(old(healthCheckMap), now, maxClientInactiveDuration);
    }

    /** Brings the store in line with what a lookup of the name found and returns the message to
        broadcast, if any. A policy found under a mode that is not served leaves everything alone. */
    method Reconcile(name: string, found: Lookup) returns (send: Option<Message>)
      modifies this`policies
      ensures send.Some? <==> found.NotFound? || (found.Found? && found.policy.evaluationMode.Known?)
      ensures send.None? ==> policies == old(policies)
      ensures send.Some? ==>
                && send.value.delete == found.NotFound?
                && (found.NotFound? ==> send.value.name == name)
                && (found.Found? ==> send.value == Wire(found.policy))
                && ControlPlane.Reconcilable(send.value)
                && policies == ControlPlane.StorePolicy(old(policies), send.value)
    {
      match found {
        case NotFound =>
          DeletePolicy(name);
          return Some(WirePolicy(name, true, None));
        case Failed =>
          return None;
        case Found(policy) =>
          if policy.evaluationMode.Unknown? {
            return None;
          }
          var protoPolicy := ToProto(policy);
          StorePolicy(protoPolicy);
          return Some(protoPolicy);
      }
    }
  }

  // --------------------------------------------------------------- timed runs

  datatype Event =
    | Beat(client: string, stamp: int)
    | Connection(client: string, stream: nat)
    | Collect
    | Flush
    | Other

  datatype Timed = Timed(time: int, event: Event)

  /** `doomed` is what the scan under way has collected; its deletions may come later. */
  datatype State = State(health: map<string, int>, cxns: map<string, nat>, doomed: set<string>)

  /** The sender after the first `n` events. */
  function After(run: seq<Timed>, limit: int, n: nat): State
    requires n <= |run|
  {
    if n == 0 then State(map[], map[], {})
    else
      var s := After(run, limit, n - 1);
      match run[n - 1].event
      case Beat(c, stamp) => s.(health := Stamped(s.health, c, stamp))
      case Connection(c, stream) => s.(cxns := s.cxns[c := stream])
      case Collect => s.(doomed := Inactive(s.health, run[n - 1].time, limit))
      case Flush => State(s.health - s.doomed, s.cxns - s.doomed, {})
      case Other => s
  }

  /** The stamps received from a client since it was last evicted, if ever. */
  ghost function Received(run: seq<Timed>, limit: int, n: nat, client: string): seq<int>
    requires n <= |run|
  {
    if n == 0 then []
    else
      var before := Received(run, limit, n - 1, client);
      match run[n - 1].event
      case Beat(c, stamp) => if c == client then before + [stamp] else before
      case Flush => if client in After(run, limit, n - 1).doomed then [] else before
      case _ => before
  }

  /** A client has a health record exactly when it has been heard of since its last eviction, and
      the record is the latest of the stamps received since then, in whatever order they came. */
  lemma {:induction false} RecordIsTheLatestStamp(run: seq<Timed>, limit: int, n: nat, client: string)
    requires n <= |run|
    ensures
      var health := After(run, limit, n).health;
      var stamps := Received(run, limit, n, client);
      && (client in health <==> stamps != [])
      && (client in health ==> health[client] in stamps && forall t :: t in stamps ==> t <= health[client])
  {
    if n > 0 {
      RecordIsTheLatestStamp(run, limit, n - 1, client);
    }
  }

  ghost predicate Quiet(run: seq<Timed>, client: string, from: nat) {
    forall k :: from <= k < |run| ==>
      !((run[k].event.Beat? || run[k].event.Connection?) && run[k].event.client == client)
  }

  ghost predicate InOrder(run: seq<Timed>) {
    forall j, k :: 0 <= j <= k < |run| ==> run[j].time <= run[k].time
  }

  ghost predicate Gone(s: State, client: string) {
    client !in s.health && client !in s.cxns
  }

  lemma {:induction false} GoneStaysGone(run: seq<Timed>, limit: int, client: string, from: nat, n: nat)
    requires from <= n <= |run| && Quiet(run, client, from) && Gone(After(run, limit, from), client)
    ensures Gone(After(run, limit, n), client)
  {
    if from < n {
      GoneStaysGone(run, limit, client, from, n - 1);
    }
  }

  /** A silent client keeps its record until it is gone. */
  lemma {:induction false} SilentRecord(run: seq<Timed>, limit: int, client: string, from: nat, n: nat, stamp: int)
    requires from <= n <= |run| && Quiet(run, client, from)
    requires client in After(run, limit, from).health && After(run, limit, from).health[client] == stamp
    ensures
      var s := After(run, limit, n);
      Gone(s, client) || (client in s.health && s.health[client] == stamp)
  {
    if from < n {
      SilentRecord(run, limit, client, from, n - 1, stamp);
    }
  }

  lemma {:induction false} DoomedUntilFlushed(
    run: seq<Timed>, limit: int, client: string, from: nat, a: nat, n: nat, stamp: int)
    requires from <= a < n <= |run| && Quiet(run, client, from) && InOrder(run)
    requires client in After(run, limit, from).health && After(run, limit, from).health[client] == stamp
    requires run[a].event.Collect? && run[a].time > stamp + limit
    ensures Gone(After(run, limit, n), client) || client in After(run, limit, n).doomed
  {
    SilentRecord(run, limit, client, from, n - 1, stamp);
    if a < n - 1 {
      DoomedUntilFlushed(run, limit, client, from, a, n - 1, stamp);
    }
  }

  ghost predicate Scan(run: seq<Timed>, a: nat, b: nat, after: int, until: int) {
    a < b < |run| && run[a].event.Collect? && run[b].event.Flush? && after < run[a].time && run[b].time <= until
  }

  ghost predicate ScanFrom(run: seq<Timed>, from: nat, a: nat, b: nat, t: int, gap: int) {
    from <= a && Scan(run, a, b, t, t + gap)
  }

  /** From time `start` on, every stretch of `gap` within the run contains a whole scan. */
  ghost predicate ScansEvery(run: seq<Timed>, from: nat, start: int, gap: int) {
    forall t :: start <= t && from < |run| && t + gap <= run[|run| - 1].time ==> ScanWithin(run, from, t, gap)
  }

  ghost predicate ScanWithin(run: seq<Timed>, from: nat, t: int, gap: int) {
    exists a: nat, b: nat :: ScanFrom(run, from, a, b, t, gap)
  }

  function Max(a: int, b: int): int {
    if a < b then b else a
  }

  /** A client that falls silent is gone, record and connection, once its last stamp is older than
      the limit by one gap between scans. */
  lemma SilentClientIsEvicted(
    run: seq<Timed>, limit: int, client: string, from: nat, start: int, stamp: int, gap: int, n: nat)
    requires InOrder(run) && from < |run| && Quiet(run, client, from)
    requires client in After(run, limit, from).health && After(run, limit, from).health[client] == stamp
    requires ScansEvery(run, from, start, gap)
    requires n <= |run| && run[|run| - 1].time >= Max(start, stamp + limit) + gap
    requires forall k :: 0 <= k < |run| && run[k].time <= Max(start, stamp + limit) + gap ==> k < n
    ensures Gone(After(run, limit, n), client)
  {
    var t := Max(start, stamp + limit);
    assert ScanWithin(run, from, t, gap);
    var a: nat, b: nat :| ScanFrom(run, from, a, b, t, gap);
    DoomedUntilFlushed(run, limit, client, from, a, b, stamp);
    SilentRecord(run, limit, client, from, b, stamp);
    assert Gone(After(run, limit, b + 1), client) by {
      if client in After(run, limit, b).doomed {
      } else {
        assert Gone(After(run, limit, b), client);
      }
    }
    GoneStaysGone(run, limit, client, b + 1, n);
  }

  // -------------------------------------------------------------- live clients

  /** Health checks are sent at most `gap` apart for as long as the run lasts, each carries its
      sending time, and each is received within `delay`. */
  ghost predicate KeepsSending(run: seq<Timed>, client: string, sends: seq<int>, gap: int, delay: int) {
    && sends != []
    && (forall i :: 0 < i < |sends| ==> sends[i] <= sends[i - 1] + gap)
    && (forall k :: 0 <= k < |run| ==> run[k].time <= sends[|sends| - 1] + gap + delay)
    && (forall k :: 0 <= k < |run| && run[k].event.Beat? && run[k].event.client == client ==>
          run[k].event.stamp in sends)
    && (forall i, k :: 0 <= i < |sends| && 0 <= k < |run| && sends[i] + delay < run[k].time ==>
          ReceivedBefore(run, client, sends[i], k))
  }

  ghost predicate ReceivedBefore(run: seq<Timed>, client: string, stamp: int, k: nat)
    requires k <= |run|
  {
    exists j :: 0 <= j < k && run[j].event == Beat(client, stamp)
  }

  /** The client is in no scan's sights, and its record is no older than anything received. */
  ghost predicate Safe(run: seq<Timed>, limit: int, client: string, n: nat)
    requires n <= |run|
  {
    var s := After(run, limit, n);
    && client !in s.doomed
    && (client in s.health ==> exists j :: 0 <= j < n && run[j].event == Beat(client, s.health[client]))
    && forall j :: 0 <= j < n && run[j].event.Beat? && run[j].event.client == client ==>
         client in s.health && run[j].event.stamp <= s.health[client]
  }

  /** Some send from `i` on is recent at time `now`. */
  lemma {:induction false} RecentSend(
    run: seq<Timed>, client: string, sends: seq<int>, gap: int, delay: int, k: nat, i: nat)
    returns (recent: int)
    requires KeepsSending(run, client, sends, gap, delay) && k < |run| && i < |sends|
    requires ReceivedBefore(run, client, sends[i], k)
    ensures ReceivedBefore(run, client, recent, k) && run[k].time - recent <= gap + delay
    decreases |sends| - i
  {
    if run[k].time - sends[i] <= gap + delay {
      recent := sends[i];
    } else {
      assert sends[i + 1] <= sends[i] + gap;
      assert sends[i + 1] + delay < run[k].time;
      recent := RecentSend(run, client, sends, gap, delay, k, i + 1);
    }
  }

  lemma {:induction false} SafeForever(
    run: seq<Timed>, limit: int, client: string, sends: seq<int>, gap: int, delay: int, n: nat)
    requires KeepsSending(run, client, sends, gap, delay) && gap + delay <= limit && n <= |run|
    ensures Safe(run, limit, client, n)
  {
    if n > 0 {
      SafeForever(run, limit, client, sends, gap, delay, n - 1);
      var s := After(run, limit, n - 1);
      if run[n - 1].event.Collect? && client in s.health {
        var j :| 0 <= j < n - 1 && run[j].event == Beat(client, s.health[client]);
        var i :| 0 <= i < |sends| && sends[i] == run[j].event.stamp;
        var recent := RecentSend(run, client, sends, gap, delay, n - 1, i);
        var r :| 0 <= r < n - 1 && run[r].event == Beat(client, recent);
      }
      if run[n - 1].event.Beat? && run[n - 1].event.client == client {
        assert run[n - 1].event == Beat(client, run[n - 1].event.stamp);
      }
    }
  }

  /** A client whose health checks are at most `gap` apart and at most `delay` late is never evicted
      when the two fit in the limit: once connected or heard of, it stays so. */
  lemma {:induction false} LiveClientIsNeverEvicted(
    run: seq<Timed>, limit: int, client: string, sends: seq<int>, gap: int, delay: int, m: nat, n: nat)
    requires KeepsSending(run, client, sends, gap, delay) && gap + delay <= limit && m <= n <= |run|
    ensures client in After(run, limit, m).health ==> client in After(run, limit, n).health
    ensures client in After(run, limit, m).cxns ==> client in After(run, limit, n).cxns
  {
    if m < n {
      LiveClientIsNeverEvicted(run, limit, client, sends, gap, delay, m, n - 1);
      SafeForever(run, limit, client, sends, gap, delay, n - 1);
    }
  }

  ghost predicate StaysConnected(run: seq<Timed>, limit: int, client: string) {
    forall m, n :: 0 <= m <= n <= |run| && client in After(run, limit, m).cxns ==> client in After(run, limit, n).cxns
  }

  /** No client that keeps to the gap and the delay ever loses its connection. */
  ghost predicate Suffices(limit: int, client: string, gap: int, delay: int) {
    forall run, sends ::
      InOrder(run) && KeepsSending(run, client, sends, gap, delay) ==> StaysConnected(run, limit, client)
  }

  /** The client connects, its first health check is as late as can be, and a scan comes just before the
      second, which is sent and received as late as can be. */
  function Unlucky(client: string, gap: int, delay: int): seq<Timed> {
    [Timed(0, Connection(client, 0)), Timed(delay, Beat(client, 0)), Timed(gap + delay, Collect),
     Timed(gap + delay, Flush), Timed(gap + delay, Beat(client, gap))]
  }

  lemma UnluckyIsEvicted(limit: int, client: string, gap: int, delay: int)
    requires gap >= 0 && delay >= 0 && gap + delay > limit
    ensures
      var run := Unlucky(client, gap, delay);
      InOrder(run) && KeepsSending(run, client, [0, gap], gap, delay) && !StaysConnected(run, limit, client)
  {
    var run := Unlucky(client, gap, delay);
    assert run[1].event == Beat(client, 0);
    assert ReceivedBefore(run, client, 0, 2) && ReceivedBefore(run, client, 0, 3) && ReceivedBefore(run, client, 0, 4);
    assert After(run, limit, 1) == State(map[], map[client := 0], {});
    assert After(run, limit, 2) == State(map[client := 0], map[client := 0], {});
    assert client in After(run, limit, 3).doomed;
    assert client !in After(run, limit, 4).cxns;
  }

  /** Gap and delay within the limit is exactly what it takes. */
  lemma LiveBoundIsExact(limit: int, client: string, gap: int, delay: int)
    requires gap >= 0 && delay >= 0
    ensures Suffices(limit, client, gap, delay) <==> gap + delay <= limit
  {
    if gap + delay <= limit {
      forall run, sends | InOrder(run) && KeepsSending(run, client, sends, gap, delay)
        ensures StaysConnected(run, limit, client)
      {
        forall m, n | 0 <= m <= n <= |run| && client in After(run, limit, m).cxns
          ensures client in After(run, limit, n).cxns
        {
          LiveClientIsNeverEvicted(run, limit, client, sends, gap, delay, m, n);
        }
      }
    } else {
      UnluckyIsEvicted(limit, client, gap, delay);
    }
  }

  /** A client that never sends a health check keeps its connection for ever. */
  lemma {:induction false} UnheardClientIsNeverEvicted(run: seq<Timed>, limit: int, client: string, m: nat, n: nat)
    requires m <= n <= |run|
    requires forall k :: 0 <= k < |run| ==> !(run[k].event.Beat? && run[k].event.client == client)
    ensures client !in After(run, limit, n).health && client !in After(run, limit, n).doomed
    ensures client in After(run, limit, m).cxns ==> client in After(run, limit, n).cxns
    decreases n
  {
    if n > 0 {
      UnheardClientIsNeverEvicted(run, limit, client, if m < n then m else n - 1, n - 1);
    }
  }

  lemma {:induction false} DoomedStays(run: seq<Timed>, limit: int, a: nat, n: nat)
    requires a < n <= |run| && run[a].event.Collect?
    requires forall k :: a < k < n ==> !run[k].event.Collect? && !run[k].event.Flush?
    ensures After(run, limit, n).doomed == Inactive(After(run, limit, a).health, run[a].time, limit)
  {
    if a + 1 < n {
      DoomedStays(run, limit, a, n - 1);
    }
  }

  /** A scan deletes exactly the clients that it collected, whatever arrives before it comes to its
      deletions: neither a health check, however fresh its stamp, nor a new connection saves one. */
  lemma BeatDuringScanIsLost(run: seq<Timed>, limit: int, a: nat, b: nat)
    requires a < b < |run| && run[a].event.Collect? && run[b].event.Flush?
    requires forall k :: a < k < b ==> !run[k].event.Collect? && !run[k].event.Flush?
    ensures
      var collected := Inactive(After(run, limit, a).health, run[a].time, limit);
      && After(run, limit, b + 1).health == After(run, limit, b).health - collected
      && After(run, limit, b + 1).cxns == After(run, limit, b).cxns - collected
      && forall client :: client in collected ==> Gone(After(run, limit, b + 1), client)
  {
    DoomedStays(run, limit, a, b);
  }

  /** A client without a connection, such as an evicted one, gets none by its health checks: they give
      it a record again, which keeps it from looking inactive, but until it connects anew no send
      goes out to it. */
  lemma {:induction false} HealthChecksDoNotReconnect(run: seq<Timed>, limit: int, client: string, from: nat, n: nat)
    requires from <= n <= |run| && client !in After(run, limit, from).cxns
    requires forall k :: from <= k < n ==> !(run[k].event.Connection? && run[k].event.client == client)
    ensures client !in After(run, limit, n).cxns
    ensures client in After(run, limit, n).health <==> Received(run, limit, n, client) != []
  {
    if from < n {
      HealthChecksDoNotReconnect(run, limit, client, from, n - 1);
    }
    RecordIsTheLatestStamp(run, limit, n, client);
  }
}
