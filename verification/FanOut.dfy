/** The broadcast of one policy: a worker per connection sends and then hands its result over a
    channel, while the caller waits for all the workers before it reads the first result. */
module FanOut {
  import opened Wrappers

  datatype Worker = Sending | Holding | Finished

  datatype Caller = Waiting | Draining | Returned

  /** `buffer` and `got` hold results, named by the worker they come from. */
  datatype State = State(workers: seq<Worker>, caller: Caller, buffer: seq<nat>, got: seq<nat>)

  datatype Action = Attempt(w: nat) | HandOver(w: nat) | Close | Receive | Return

  function Start(n: nat): State {
    State(seq(n, i => Sending), Waiting, [], [])
  }

  /** One step over a channel that holds up to `capacity` results; None when it cannot be taken.
      Nobody receives while the caller waits, so a result needs room in the channel. */
  function Next(s: State, capacity: nat, a: Action): Option<State> {
    match a
    case Attempt(w) =>
      if w < |s.workers| && s.workers[w] == Sending then Some(s.(workers := s.workers[w := Holding])) else None
    case HandOver(w) =>
      if w < |s.workers| && s.workers[w] == Holding && |s.buffer| < capacity
      then Some(s.(workers := s.workers[w := Finished], buffer := s.buffer + [w])) else None
    case Close =>
      if s.caller == Waiting && (forall w | 0 <= w < |s.workers| :: s.workers[w] == Finished)
      then Some(s.(caller := Draining)) else None
    case Receive =>
      if s.caller == Draining && s.buffer != []
      then Some(s.(buffer := s.buffer[1..], got := s.got + [s.buffer[0]])) else None
    case Return =>
      if s.caller == Draining && s.buffer == [] then Some(s.(caller := Returned)) else None
  }

  // ---------------------------------------------------------------- invariant

  ghost function FinishedCount(workers: seq<Worker>): (c: nat)
    ensures c <= |workers|
    ensures c == |workers| <==> forall w :: 0 <= w < |workers| ==> workers[w] == Finished
  {
    if workers == [] then 0
    else FinishedCount(workers[..|workers| - 1]) + if workers[|workers| - 1] == Finished then 1 else 0
  }

  /** The results are one from each of the workers that have finished. */
  ghost predicate OneEach(results: multiset<nat>, workers: seq<Worker>) {
    forall w: nat :: results[w] == if w < |workers| && workers[w] == Finished then 1 else 0
  }

  ghost predicate Inv(s: State, capacity: nat) {
    && |s.buffer| <= capacity
    && (s.caller == Waiting ==> s.got == [])
    && (s.caller != Waiting ==> forall w :: 0 <= w < |s.workers| ==> s.workers[w] == Finished)
    && (s.caller == Returned ==> s.buffer == [])
    && |s.got| + |s.buffer| == FinishedCount(s.workers)
    && OneEach(multiset(s.got + s.buffer), s.workers)
  }

  lemma {:induction false} CountAfter(workers: seq<Worker>, w: nat, next: Worker)
    requires w < |workers| && workers[w] != Finished
    ensures FinishedCount(workers[w := next]) == FinishedCount(workers) + if next == Finished then 1 else 0
  {
    var last := |workers| - 1;
    if w < last {
      CountAfter(workers[..last], w, next);
      assert workers[w := next][..last] == workers[..last][w := next];
    } else {
      assert workers[w := next][..last] == workers[..last];
    }
  }

  lemma HandOverKeepsInv(s: State, capacity: nat, w: nat)
    requires Inv(s, capacity) && Next(s, capacity, HandOver(w)).Some?
    ensures Inv(Next(s, capacity, HandOver(w)).value, capacity)
  {
    CountAfter(s.workers, w, Finished);
    assert s.got + (s.buffer + [w]) == s.got + s.buffer + [w];
  }

  lemma AttemptKeepsInv(s: State, capacity: nat, w: nat)
    requires Inv(s, capacity) && Next(s, capacity, Attempt(w)).Some?
    ensures Inv(Next(s, capacity, Attempt(w)).value, capacity)
  {
    CountAfter(s.workers, w, Holding);
  }

  lemma ReceiveKeepsInv(s: State, capacity: nat)
    requires Inv(s, capacity) && Next(s, capacity, Receive).Some?
    ensures Inv(Next(s, capacity, Receive).value, capacity)
  {
    assert s.buffer == [s.buffer[0]] + s.buffer[1..];
    assert s.got + [s.buffer[0]] + s.buffer[1..] == s.got + s.buffer;
  }

  lemma CallerKeepsInv(s: State, capacity: nat, a: Action)
    requires Inv(s, capacity) && (a == Close || a == Return) && Next(s, capacity, a).Some?
    ensures Inv(Next(s, capacity, a).value, capacity)
  {
  }

  lemma StepKeepsInv(s: State, capacity: nat, a: Action)
    requires Inv(s, capacity) && Next(s, capacity, a).Some?
    ensures Inv(Next(s, capacity, a).value, capacity)
  {
    match a {
      case Attempt(w) => AttemptKeepsInv(s, capacity, w);
      case HandOver(w) => HandOverKeepsInv(s, capacity, w);
      case Receive => ReceiveKeepsInv(s, capacity);
      case Close => CallerKeepsInv(s, capacity, Close);
      case Return => CallerKeepsInv(s, capacity, Return);
    }
  }

  lemma StepKeepsWorkers(s: State, capacity: nat, a: Action)
    requires Next(s, capacity, a).Some?
    ensures |Next(s, capacity, a).value.workers| == |s.workers|
  {
  }

  // -------------------------------------------------------------- termination

  ghost function WorkLeft(workers: seq<Worker>): nat {
    if workers == [] then 0
    else
      WorkLeft(workers[..|workers| - 1]) +
      match workers[|workers| - 1] { case Sending => 3 case Holding => 2 case Finished => 0 }
  }

  ghost function Measure(s: State): nat {
    WorkLeft(s.workers) + |s.buffer| + match s.caller { case Waiting => 2 case Draining => 1 case Returned => 0 }
  }

  lemma {:induction false} WorkDone(workers: seq<Worker>, w: nat, next: Worker)
    requires w < |workers|
    requires (workers[w] == Sending && next == Holding) || (workers[w] == Holding && next == Finished)
    ensures WorkLeft(workers[w := next]) == WorkLeft(workers) - if next == Holding then 1 else 2
  {
    var last := |workers| - 1;
    if w < last {
      WorkDone(workers[..last], w, next);
      assert workers[w := next][..last] == workers[..last][w := next];
    } else {
      assert workers[w := next][..last] == workers[..last];
    }
  }

  /** Every step leaves less to do, so every run ends. */
  lemma StepMakesProgress(s: State, capacity: nat, a: Action)
    requires Next(s, capacity, a).Some?
    ensures Measure(Next(s, capacity, a).value) < Measure(s)
  {
    match a
    case Attempt(w) => WorkDone(s.workers, w, Holding);
    case HandOver(w) => WorkDone(s.workers, w, Finished);
    case _ =>
  }

  // --------------------------------------------------------------------- runs

  ghost function After(n: nat, capacity: nat, actions: seq<Action>): Option<State> {
    if actions == [] then Some(Start(n))
    else
      match After(n, capacity, actions[..|actions| - 1])
      case None => None
      case Some(s) => Next(s, capacity, actions[|actions| - 1])
  }

  lemma StartInv(n: nat, capacity: nat)
    ensures Inv(Start(n), capacity) && |Start(n).workers| == n
  {
    NoneFinished(Start(n).workers);
  }

  lemma {:induction false} NoneFinished(workers: seq<Worker>)
    requires forall w :: 0 <= w < |workers| ==> workers[w] != Finished
    ensures FinishedCount(workers) == 0
  {
    if workers != [] {
      NoneFinished(workers[..|workers| - 1]);
    }
  }

  lemma {:induction false} RunKeepsInv(n: nat, capacity: nat, actions: seq<Action>)
    requires After(n, capacity, actions).Some?
    ensures Inv(After(n, capacity, actions).value, capacity) && |After(n, capacity, actions).value.workers| == n
  {
    if actions == [] {
      StartInv(n, capacity);
    } else {
      var before := actions[..|actions| - 1];
      RunKeepsInv(n, capacity, before);
      var s, a := After(n, capacity, before).value, actions[|actions| - 1];
      assert After(n, capacity, actions) == Next(s, capacity, a);
      StepKeepsInv(s, capacity, a);
      StepKeepsWorkers(s, capacity, a);
    }
  }

  lemma {:induction false} RunIsBounded(n: nat, capacity: nat, actions: seq<Action>)
    requires After(n, capacity, actions).Some?
    ensures |actions| + Measure(After(n, capacity, actions).value) <= Measure(Start(n))
  {
    if actions != [] {
      var before := actions[..|actions| - 1];
      RunIsBounded(n, capacity, before);
      StepMakesProgress(After(n, capacity, before).value, capacity, actions[|actions| - 1]);
    }
  }

  ghost predicate Stuck(s: State, capacity: nat) {
    forall a :: Next(s, capacity, a).None?
  }

  /** Where nothing can be done, all have been attempted, and a caller that waits does so for a worker
      that finds no room. */
  lemma StuckMeans(s: State, capacity: nat)
    requires Stuck(s, capacity)
    ensures forall w :: 0 <= w < |s.workers| ==> s.workers[w] != Sending
    ensures if s.caller == Waiting
            then |s.buffer| >= capacity && exists w :: 0 <= w < |s.workers| && s.workers[w] == Holding
            else s.caller == Returned
  {
    forall w: nat | w < |s.workers| ensures s.workers[w] != Sending {
      assert Next(s, capacity, Attempt(w)).None?;
    }
    assert Next(s, capacity, Close).None? && Next(s, capacity, Receive).None? && Next(s, capacity, Return).None?;
    if s.caller == Waiting {
      var w :| 0 <= w < |s.workers| && s.workers[w] != Finished;
      assert Next(s, capacity, HandOver(w)).None?;
    }
  }

  /** Where a broadcast to `n` connections ends up, under every interleaving, within a number of
      steps that only depends on `n`: every connection has been attempted; and either there is room
      for all the results, and the caller has returned with exactly one from each worker, or there
      is not, and the caller waits for ever for workers that cannot hand over theirs. With the
      unbuffered channel of the sender, that is as soon as there is a connection. */
  lemma BroadcastEnds(n: nat, capacity: nat, actions: seq<Action>)
    requires After(n, capacity, actions).Some?
    ensures |actions| <= Measure(Start(n))
    ensures
      var s := After(n, capacity, actions).value;
      Stuck(s, capacity) ==>
        && (forall w :: 0 <= w < |s.workers| ==> s.workers[w] != Sending)
        && (n <= capacity ==>
              s.caller == Returned && |s.got| == n && forall w: nat :: w < n ==> multiset(s.got)[w] == 1)
        && (n > capacity ==> s.caller == Waiting && s.got == [] && FinishedCount(s.workers) == capacity)
  {
    RunKeepsInv(n, capacity, actions);
    RunIsBounded(n, capacity, actions);
    DrainedWithinCapacity(n, capacity, actions);
    var s := After(n, capacity, actions).value;
    if Stuck(s, capacity) {
      StuckMeans(s, capacity);
      if s.caller != Waiting {
        assert s.got + s.buffer == s.got;
      }
    }
  }

  /** With more connections than room in the channel the caller never gets past its wait. */
  lemma CallerReturnsOnlyWithRoom(n: nat, capacity: nat, actions: seq<Action>)
    requires After(n, capacity, actions).Some? && n > capacity
    ensures After(n, capacity, actions).value.caller == Waiting
  {
    RunKeepsInv(n, capacity, actions);
    var s := After(n, capacity, actions).value;
    if s.caller != Waiting {
      DrainedWithinCapacity(n, capacity, actions);
    }
  }

  /** While the caller has not closed the channel nothing leaves it, so it never holds more results
      in all than it has room for. */
  lemma {:induction false} DrainedWithinCapacity(n: nat, capacity: nat, actions: seq<Action>)
    requires After(n, capacity, actions).Some?
    ensures FinishedCount(After(n, capacity, actions).value.workers) <= capacity
  {
    if actions == [] {
      NoneFinished(Start(n).workers);
    } else {
      var before := actions[..|actions| - 1];
      DrainedWithinCapacity(n, capacity, before);
      RunKeepsInv(n, capacity, before);
      var s, a := After(n, capacity, before).value, actions[|actions| - 1];
      CountWithinCapacity(s, capacity, a);
    }
  }

  lemma CountWithinCapacity(s: State, capacity: nat, a: Action)
    requires Inv(s, capacity) && Next(s, capacity, a).Some? && FinishedCount(s.workers) <= capacity
    ensures FinishedCount(Next(s, capacity, a).value.workers) <= capacity
  {
    if a.Attempt? {
      CountAfter(s.workers, a.w, Holding);
    } else if a.HandOver? {
      CountAfter(s.workers, a.w, Finished);
    }
  }
}
