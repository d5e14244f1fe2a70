/** A source that is loaded at most once, however many threads ask for it. */
module Once {
  import opened Wrappers
  import opened Sources

  class OnceSource<T> {
    var called: bool
    var stored: Loaded<T>
    ghost var loads: nat

    ghost predicate Valid()
      reads this
    {
      loads == if called then 1 else 0
    }

    constructor ()
      ensures Valid() && !called
    {
      called, stored, loads := false, Loaded([], []), 0;
    }

    /** `inner` is what the inner source would give if it were loaded now. */
    method Load(inner: Loaded<T>) returns (r: Loaded<T>)
      requires Valid()
      modifies this
      ensures Valid() && called && stored == r
      ensures r == if old(called) then old(stored) else inner
      ensures loads == old(loads) + if old(called) then 0 else 1
    {
      if !called {
        stored := inner;
        loads := loads + 1;
        called := true;
      }
      return stored;
    }
  }

  // -------------------------------------------------------------- many threads

  datatype Thread<+T> = Idle | Waiting | Holding | Loading | Returned(result: Loaded<T>)

  /** `inners` lists the results of the inner loads that have taken place. */
  datatype State<+T> = State(
    called: bool, stored: Loaded<T>, lock: Option<nat>, threads: seq<Thread<T>>, inners: seq<Loaded<T>>)

  datatype Action<+T> = Call | Acquire | LoadInner(result: Loaded<T>) | MarkCalled | Return

  ghost predicate Init<T>(s: State<T>) {
    !s.called && s.lock == None && s.inners == [] && forall t :: 0 <= t < |s.threads| ==> s.threads[t] == Idle
  }

  function Next<T>(s: State<T>, t: nat, a: Action<T>): Option<State<T>>
    requires t < |s.threads|
  {
    match (a, s.threads[t])
    case (Call, Idle) => Some(s.(threads := s.threads[t := Waiting]))
    case (Call, Returned(_)) => Some(s.(threads := s.threads[t := Waiting]))
    case (Acquire, Waiting) =>
      if s.lock.None? then Some(s.(lock := Some(t), threads := s.threads[t := Holding])) else None
    case (LoadInner(result), Holding) =>
      if s.called then None
      else Some(s.(stored := result, inners := s.inners + [result], threads := s.threads[t := Loading]))
    case (MarkCalled, Loading) => Some(s.(called := true, threads := s.threads[t := Holding]))
    case (Return, Holding) =>
      if s.called then Some(s.(lock := None, threads := s.threads[t := Returned(s.stored)])) else None
    case _ => None
  }

  ghost predicate ThreadOk<T>(s: State<T>, t: nat)
    requires t < |s.threads|
  {
    match s.threads[t]
    case Holding => s.lock == Some(t) && (!s.called ==> s.inners == [])
    case Loading => s.lock == Some(t) && !s.called && s.inners == [s.stored]
    case Returned(r) => s.lock != Some(t) && s.called && r == s.stored
    case _ => s.lock != Some(t)
  }

  ghost predicate Inv<T>(s: State<T>) {
    && (forall t :: 0 <= t < |s.threads| ==> ThreadOk(s, t))
    && (s.called ==> s.inners == [s.stored])
    && (s.lock.None? && !s.called ==> s.inners == [])
    && |s.inners| <= 1
  }

  lemma StepKeepsInv<T>(s: State<T>, t: nat, a: Action<T>)
    requires Inv(s) && t < |s.threads| && Next(s, t, a).Some?
    ensures Inv(Next(s, t, a).value)
  {
    var s' := Next(s, t, a).value;
    assert ThreadOk(s, t);
    forall u | 0 <= u < |s'.threads| ensures ThreadOk(s', u) {
      assert ThreadOk(s, u);
    }
  }

  datatype Event<+T> = Event(thread: nat, action: Action<T>)

  ghost function After<T>(s: State<T>, events: seq<Event<T>>): Option<State<T>> {
    if events == [] then Some(s)
    else
      match After(s, events[..|events| - 1])
      case None => None
      case Some(m) =>
        var e := events[|events| - 1];
        if e.thread < |m.threads| then Next(m, e.thread, e.action) else None
  }

  /** Under every interleaving the inner source is loaded at most once, and a call that has returned
      did so after that load and with its result, data and error alike. */
  lemma {:induction false} LoadedAtMostOnce<T>(s: State<T>, events: seq<Event<T>>)
    requires Init(s) && After(s, events).Some?
    ensures var s' := After(s, events).value;
            && Inv(s')
            && |s'.inners| <= 1
            && forall t :: 0 <= t < |s'.threads| && s'.threads[t].Returned? ==> s'.inners == [s'.threads[t].result]
  {
    if events != [] {
      LoadedAtMostOnce(s, events[..|events| - 1]);
      var e := events[|events| - 1];
      StepKeepsInv(After(s, events[..|events| - 1]).value, e.thread, e.action);
    }
    var s' := After(s, events).value;
    forall t | 0 <= t < |s'.threads| && s'.threads[t].Returned? ensures s'.inners == [s'.threads[t].result] {
      assert ThreadOk(s', t);
    }
  }

  ghost function InnerLoads<T>(events: seq<Event<T>>): seq<Loaded<T>> {
    if events == [] then []
    else
      var e := events[|events| - 1];
      InnerLoads(events[..|events| - 1]) + if e.action.LoadInner? then [e.action.result] else []
  }

  /** The log in the state is the inner loads of the run. */
  lemma {:induction false} InnersAreTheInnerLoads<T>(s: State<T>, events: seq<Event<T>>)
    requires Init(s) && After(s, events).Some?
    ensures After(s, events).value.inners == InnerLoads(events)
  {
    if events != [] {
      InnersAreTheInnerLoads(s, events[..|events| - 1]);
    }
  }
}
