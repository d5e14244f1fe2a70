/** Threads loading through one cache. The inner source is loaded outside the lock; the pass over
    the data, the swap of the buffers and the clearing happen under it, one small step at a time. */
module CacheThreads {
  import opened Wrappers
  import opened Caching

  datatype Thread<!D, !K, !I> =
    | Idle
    | Fetched(load: Load<D, K, I>, inner: seq<CacheError>)
    | Filling(load: Load<D, K, I>, inner: seq<CacheError>, next: nat, out: seq<I>, errs: seq<CacheError>)
    | Clearing(load: Load<D, K, I>, inner: seq<CacheError>, out: seq<I>, errs: seq<CacheError>, position: nat)
    | Done(load: Load<D, K, I>, inner: seq<CacheError>, out: seq<I>, errs: seq<CacheError>, position: nat)

  /** `history` records the loads in the order in which they swapped the buffers. */
  datatype State<!D, !K, !I> = State(
    bufferA: map<K, I>,
    bufferB: map<K, I>,
    readsA: bool,
    lock: Option<nat>,
    threads: seq<Thread<D, K, I>>,
    history: seq<Load<D, K, I>>)
  {
    function Read(): map<K, I> { if readsA then bufferA else bufferB }

    function Write(): map<K, I> { if readsA then bufferB else bufferA }

    function SetWrite(entries: map<K, I>): State<D, K, I> {
      if readsA then this.(bufferB := entries) else this.(bufferA := entries)
    }

    function SetThread(t: nat, thread: Thread<D, K, I>): State<D, K, I>
      requires t < |threads|
    {
      this.(threads := threads[t := thread])
    }
  }

  ghost predicate Init<D, K, I>(s: State<D, K, I>) {
    && s.bufferA == map[] && s.bufferB == map[] && s.lock == None && s.history == []
    && forall t :: 0 <= t < |s.threads| ==> s.threads[t] == Idle
  }

  datatype Action<!D, !K, !I> =
    | Fetch(load: Load<D, K, I>, inner: seq<CacheError>)
    | Acquire
    | FillOne
    | Swap
    | ClearOne(key: K)
    | Release

  /** One step of thread `t`; None when the thread cannot take it. */
  function Next<D, K(==), I>(keyOf: KeyFunc<D, K>, s: State<D, K, I>, t: nat, a: Action<D, K, I>)
    : Option<State<D, K, I>>
    requires t < |s.threads|
  {
    match (a, s.threads[t])
    case (Fetch(load, inner), Idle) => Some(s.SetThread(t, Fetched(load, inner)))
    case (Fetch(load, inner), Done(_, _, _, _, _)) => Some(s.SetThread(t, Fetched(load, inner)))
    case (Acquire, Fetched(load, inner)) =>
      if s.lock.None? then Some(s.SetThread(t, Filling(load, inner, 0, [], inner)).(lock := Some(t))) else None
    case (FillOne, Filling(load, inner, i, out, errs)) =>
      if i >= |load.data| then None
      else
        (match Resolve(s.Read(), keyOf, load.build, load.data[i])
         case Err(x) => Some(s.SetThread(t, Filling(load, inner, i + 1, out, errs + [x])))
         case Ok((k, item)) =>
           Some(s.SetThread(t, Filling(load, inner, i + 1, out + [item], errs)).SetWrite(s.Write()[k := item])))
    case (Swap, Filling(load, inner, i, out, errs)) =>
      if i != |load.data| then None
      else
        var cleared := Clearing(load, inner, out, errs, |s.history|);
        Some(s.SetThread(t, cleared).(readsA := !s.readsA, history := s.history + [load]))
    case (ClearOne(k), Clearing(_, _, _, _, _)) =>
      if k in s.Write() then Some(s.SetWrite(s.Write() - {k})) else None
    case (Release, Clearing(load, inner, out, errs, p)) =>
      if s.Write().Keys != {} then None else Some(s.SetThread(t, Done(load, inner, out, errs, p)).(lock := None))
    case _ => None
  }

  // ---------------------------------------------------------------- invariant

  /** The load at position `p` gave what the cache gives to it after the loads before `p`. */
  ghost predicate GivenAt<D, K, I>(
    keyOf: KeyFunc<D, K>, history: seq<Load<D, K, I>>, p: nat, load: Load<D, K, I>, inner: seq<CacheError>, out: seq<I>,
    errs: seq<CacheError>)
  {
    && p < |history| && history[p] == load
    && var pass := Run(ReadAfter(keyOf, history[..p]), keyOf, load.build, load.data);
       out == pass.out && errs == inner + pass.errs
  }

  /** A pass is under way and has treated the first `i` data. */
  ghost predicate Halfway<D, K, I>(
    keyOf: KeyFunc<D, K>, read: map<K, I>, write: map<K, I>, load: Load<D, K, I>, inner: seq<CacheError>, i: nat,
    out: seq<I>, errs: seq<CacheError>)
  {
    && i <= |load.data|
    && inner <= errs
    && Run(read, keyOf, load.build, load.data[..i]) == Pass(out, errs[|inner|..], write)
  }

  ghost predicate ThreadOk<D, K, I>(keyOf: KeyFunc<D, K>, s: State<D, K, I>, t: nat)
    requires t < |s.threads|
  {
    match s.threads[t]
    case Filling(load, inner, i, out, errs) =>
      s.lock == Some(t) && Halfway(keyOf, s.Read(), s.Write(), load, inner, i, out, errs)
    case Clearing(load, inner, out, errs, p) =>
      s.lock == Some(t) && GivenAt(keyOf, s.history, p, load, inner, out, errs)
    case Done(load, inner, out, errs, p) => s.lock != Some(t) && GivenAt(keyOf, s.history, p, load, inner, out, errs)
    case _ => s.lock != Some(t)
  }

  ghost predicate Inv<D, K, I>(keyOf: KeyFunc<D, K>, s: State<D, K, I>) {
    && (forall t :: 0 <= t < |s.threads| ==> ThreadOk(keyOf, s, t))
    && s.Read() == ReadAfter(keyOf, s.history)
    && (s.lock.None? ==> s.Write() == map[])
  }

  lemma {:induction false} FillOneStep<D, K, I>(
    keyOf: KeyFunc<D, K>, read: map<K, I>, write: map<K, I>, load: Load<D, K, I>, inner: seq<CacheError>, i: nat,
    out: seq<I>, errs: seq<CacheError>)
    requires Halfway(keyOf, read, write, load, inner, i, out, errs) && i < |load.data|
    ensures match Resolve(read, keyOf, load.build, load.data[i])
            case Err(x) => Halfway(keyOf, read, write, load, inner, i + 1, out, errs + [x])
            case Ok((k, item)) => Halfway(keyOf, read, write[k := item], load, inner, i + 1, out + [item], errs)
  {
    var data := load.data;
    assert data[..i + 1][..i] == data[..i];
    match Resolve(read, keyOf, load.build, data[i])
    case Err(x) => assert (errs + [x])[|inner|..] == errs[|inner|..] + [x];
    case Ok(_) =>
  }

  lemma {:induction false} SwapStep<D, K, I>(
    keyOf: KeyFunc<D, K>, history: seq<Load<D, K, I>>, read: map<K, I>, write: map<K, I>, load: Load<D, K, I>,
    inner: seq<CacheError>, out: seq<I>, errs: seq<CacheError>)
    requires Halfway(keyOf, read, write, load, inner, |load.data|, out, errs) && read == ReadAfter(keyOf, history)
    ensures GivenAt(keyOf, history + [load], |history|, load, inner, out, errs)
    ensures write == ReadAfter(keyOf, history + [load])
  {
    assert load.data[..|load.data|] == load.data;
    assert (history + [load])[..|history|] == history;
    assert inner + errs[|inner|..] == errs;
  }

  lemma {:induction false} ServedStays<D, K, I>(
    keyOf: KeyFunc<D, K>, history: seq<Load<D, K, I>>, more: seq<Load<D, K, I>>, p: nat, load: Load<D, K, I>,
    inner: seq<CacheError>, out: seq<I>, errs: seq<CacheError>)
    requires GivenAt(keyOf, history, p, load, inner, out, errs)
    ensures GivenAt(keyOf, history + more, p, load, inner, out, errs)
  {
    assert (history + more)[..p] == history[..p];
  }

  /** The thread that takes a step is left in order, and so are the shared parts of the state. */
  lemma {:induction false} OwnStep<D, K, I>(keyOf: KeyFunc<D, K>, s: State<D, K, I>, t: nat, a: Action<D, K, I>)
    requires Inv(keyOf, s) && t < |s.threads| && Next(keyOf, s, t, a).Some?
    ensures
      var s' := Next(keyOf, s, t, a).value;
      && t < |s'.threads| && ThreadOk(keyOf, s', t)
      && s'.Read() == ReadAfter(keyOf, s'.history)
      && (s'.lock.None? ==> s'.Write() == map[])
  {
    var th := s.threads[t];
    assert ThreadOk(keyOf, s, t);
    if a.FillOne? {
      FillOneStep(keyOf, s.Read(), s.Write(), th.load, th.inner, th.next, th.out, th.errs);
    } else if a.Swap? {
      SwapStep(keyOf, s.history, s.Read(), s.Write(), th.load, th.inner, th.out, th.errs);
    } else if a.Acquire? {
      assert th.load.data[..0] == [];
    }
  }

  /** A step never disturbs another thread: only the holder of the lock has anything to lose. */
  lemma {:induction false} OtherThread<D, K, I>(
    keyOf: KeyFunc<D, K>, s: State<D, K, I>, t: nat, a: Action<D, K, I>, u: nat)
    requires t < |s.threads| && Next(keyOf, s, t, a).Some? && ThreadOk(keyOf, s, t)
    requires u < |s.threads| && u != t && ThreadOk(keyOf, s, u)
    ensures u < |Next(keyOf, s, t, a).value.threads| && ThreadOk(keyOf, Next(keyOf, s, t, a).value, u)
  {
    if s.threads[u].Done? && a.Swap? {
      var d := s.threads[u];
      ServedStays(keyOf, s.history, [s.threads[t].load], d.position, d.load, d.inner, d.out, d.errs);
    }
  }

  lemma {:induction false} StepKeepsInv<D, K, I>(keyOf: KeyFunc<D, K>, s: State<D, K, I>, t: nat, a: Action<D, K, I>)
    requires Inv(keyOf, s) && t < |s.threads| && Next(keyOf, s, t, a).Some?
    ensures Inv(keyOf, Next(keyOf, s, t, a).value)
  {
    var s' := Next(keyOf, s, t, a).value;
    OwnStep(keyOf, s, t, a);
    forall u | 0 <= u < |s'.threads| ensures ThreadOk(keyOf, s', u) {
      if u != t {
        OtherThread(keyOf, s, t, a, u);
      }
    }
  }

  // --------------------------------------------------------------- executions

  datatype Event<!D, !K, !I> = Event(thread: nat, action: Action<D, K, I>)

  /** The state after a sequence of steps, if they can all be taken. */
  ghost function After<D, K, I>(
    keyOf: KeyFunc<D, K>, s: State<D, K, I>, events: seq<Event<D, K, I>>): Option<State<D, K, I>> {
    if events == [] then Some(s)
    else
      match After(keyOf, s, events[..|events| - 1])
      case None => None
      case Some(m) =>
        var e := events[|events| - 1];
        if e.thread < |m.threads| then Next(keyOf, m, e.thread, e.action) else None
  }

  lemma {:induction false} ReachableInv<D, K, I>(keyOf: KeyFunc<D, K>, s: State<D, K, I>, events: seq<Event<D, K, I>>)
    requires Init(s) && After(keyOf, s, events).Some?
    ensures Inv(keyOf, After(keyOf, s, events).value)
  {
    if events != [] {
      ReachableInv(keyOf, s, events[..|events| - 1]);
      var e := events[|events| - 1];
      StepKeepsInv(keyOf, After(keyOf, s, events[..|events| - 1]).value, e.thread, e.action);
    }
  }

  /** Under every interleaving of any number of threads, a finished load returned what the cache
      gives to that load when the loads run one after the other in the order of their swaps; and
      whenever the lock is free the write buffer is empty. */
  lemma {:induction false} LoadsAreLinearizable<D, K, I>(
    keyOf: KeyFunc<D, K>, s: State<D, K, I>, events: seq<Event<D, K, I>>, t: nat)
    requires Init(s) && After(keyOf, s, events).Some?
    requires var s' := After(keyOf, s, events).value; t < |s'.threads| && s'.threads[t].Done?
    ensures
      var s' := After(keyOf, s, events).value;
      var done := s'.threads[t];
      && GivenAt(keyOf, s'.history, done.position, done.load, done.inner, done.out, done.errs)
      && (s'.lock.None? ==> s'.Write() == map[])
  {
    ReachableInv(keyOf, s, events);
    assert ThreadOk(keyOf, After(keyOf, s, events).value, t);
  }

  // ----------------------------------------------------------- real-time order

  /** Where the load that a thread began when `floor` loads had swapped stands. */
  ghost predicate BeganAt<D, K, I>(s: State<D, K, I>, u: nat, floor: nat)
    requires u < |s.threads|
  {
    && floor <= |s.history|
    && match s.threads[u]
       case Idle => false
       case Clearing(_, _, _, _, p) => floor <= p
       case Done(_, _, _, _, p) => floor <= p
       case _ => true
  }

  lemma {:induction false} StepKeepsBegan<D, K, I>(
    keyOf: KeyFunc<D, K>, s: State<D, K, I>, t: nat, a: Action<D, K, I>, u: nat, floor: nat)
    requires t < |s.threads| && Next(keyOf, s, t, a).Some? && !(t == u && a.Fetch?)
    requires u < |s.threads| && BeganAt(s, u, floor)
    ensures u < |Next(keyOf, s, t, a).value.threads| && BeganAt(Next(keyOf, s, t, a).value, u, floor)
  {
  }

  lemma {:induction false} BeganStays<D, K, I>(
    keyOf: KeyFunc<D, K>, s: State<D, K, I>, events: seq<Event<D, K, I>>, began: nat, u: nat, floor: nat)
    requires began <= |events| && After(keyOf, s, events).Some? && After(keyOf, s, events[..began]).Some?
    requires forall k :: began <= k < |events| ==> !(events[k].thread == u && events[k].action.Fetch?)
    requires var m := After(keyOf, s, events[..began]).value; u < |m.threads| && BeganAt(m, u, floor)
    ensures var m := After(keyOf, s, events).value; u < |m.threads| && BeganAt(m, u, floor)
    decreases |events|
  {
    if began < |events| {
      var last := |events| - 1;
      assert events[..last][..began] == events[..began];
      BeganStays(keyOf, s, events[..last], began, u, floor);
      StepKeepsBegan(keyOf, After(keyOf, s, events[..last]).value, events[last].thread, events[last].action, u, floor);
    } else {
      assert events[..began] == events;
    }
  }

  /** The order of swaps respects real time: a load that had returned before another began comes
      before it. `began` is the step with which the later one fetched its data. */
  lemma {:induction false} ReturnedBeforeBegun<D, K, I>(
    keyOf: KeyFunc<D, K>, s: State<D, K, I>, events: seq<Event<D, K, I>>, t: nat, u: nat, began: nat)
    requires Init(s) && began < |events| && events[began].thread == u && events[began].action.Fetch?
    requires After(keyOf, s, events).Some? && After(keyOf, s, events[..began]).Some?
    requires forall k :: began < k < |events| ==> !(events[k].thread == u && events[k].action.Fetch?)
    requires var before := After(keyOf, s, events[..began]).value; t < |before.threads| && before.threads[t].Done?
    requires var now := After(keyOf, s, events).value; u < |now.threads| && now.threads[u].Done?
    ensures
      var before, now := After(keyOf, s, events[..began]).value, After(keyOf, s, events).value;
      before.threads[t].position < now.threads[u].position
  {
    var before := After(keyOf, s, events[..began]).value;
    ReachableInv(keyOf, s, events[..began]);
    assert ThreadOk(keyOf, before, t);
    FetchBegins(keyOf, s, events, began);
    BeganStays(keyOf, s, events, began + 1, u, |before.history|);
  }

  /** After the fetch, the load of its thread stands to come after all that had swapped. */
  lemma {:induction false} FetchBegins<D, K, I>(
    keyOf: KeyFunc<D, K>, s: State<D, K, I>, events: seq<Event<D, K, I>>, began: nat)
    requires began < |events| && events[began].action.Fetch?
    requires After(keyOf, s, events).Some? && After(keyOf, s, events[..began]).Some?
    ensures After(keyOf, s, events[..began + 1]).Some?
    ensures
      var m, u := After(keyOf, s, events[..began + 1]).value, events[began].thread;
      u < |m.threads| && BeganAt(m, u, |After(keyOf, s, events[..began]).value.history|)
  {
    var prefix := events[..began + 1];
    PrefixCanRun(keyOf, s, events, began + 1);
    assert prefix[..|prefix| - 1] == events[..began] && prefix[|prefix| - 1] == events[began];
  }

  lemma {:induction false} PrefixCanRun<D, K, I>(
    keyOf: KeyFunc<D, K>, s: State<D, K, I>, events: seq<Event<D, K, I>>, n: nat)
    requires n <= |events| && After(keyOf, s, events).Some?
    ensures After(keyOf, s, events[..n]).Some?
    decreases |events|
  {
    if n < |events| {
      var shorter := events[..|events| - 1];
      PrefixCanRun(keyOf, s, shorter, n);
      assert shorter[..n] == events[..n];
    } else {
      assert events[..n] == events;
    }
  }

  // ------------------------------------------------------------- transparency

  /** Every load in the state uses the one builder and draws its data from `from`. */
  ghost predicate LoadsFrom<D, K, I>(s: State<D, K, I>, build: BuildFunc<D, K, I>, from: iset<D>) {
    && (forall t :: 0 <= t < |s.threads| && !s.threads[t].Idle? ==> LoadFrom(s.threads[t].load, build, from))
    && forall i :: 0 <= i < |s.history| ==> LoadFrom(s.history[i], build, from)
  }

  ghost predicate LoadFrom<D, K, I>(load: Load<D, K, I>, build: BuildFunc<D, K, I>, from: iset<D>) {
    load.build == build && forall d <- load.data :: d in from
  }

  ghost predicate FetchesFrom<D, K, I>(events: seq<Event<D, K, I>>, build: BuildFunc<D, K, I>, from: iset<D>) {
    forall i :: 0 <= i < |events| && events[i].action.Fetch? ==> LoadFrom(events[i].action.load, build, from)
  }

  lemma {:induction false} StepKeepsLoadsFrom<D, K, I>(
    keyOf: KeyFunc<D, K>, s: State<D, K, I>, t: nat, a: Action<D, K, I>, build: BuildFunc<D, K, I>, from: iset<D>)
    requires LoadsFrom(s, build, from) && t < |s.threads| && Next(keyOf, s, t, a).Some?
    requires a.Fetch? ==> LoadFrom(a.load, build, from)
    ensures LoadsFrom(Next(keyOf, s, t, a).value, build, from)
  {
    assert !s.threads[t].Idle? ==> LoadFrom(s.threads[t].load, build, from);
  }

  lemma {:induction false} LoadsStayFrom<D, K, I>(
    keyOf: KeyFunc<D, K>, s: State<D, K, I>, events: seq<Event<D, K, I>>, build: BuildFunc<D, K, I>, from: iset<D>)
    requires Init(s) && After(keyOf, s, events).Some? && FetchesFrom(events, build, from)
    ensures LoadsFrom(After(keyOf, s, events).value, build, from)
  {
    if events != [] {
      var last := |events| - 1;
      LoadsStayFrom(keyOf, s, events[..last], build, from);
      assert events[last].action.Fetch? ==> LoadFrom(events[last].action.load, build, from);
      var m := After(keyOf, s, events[..last]).value;
      StepKeepsLoadsFrom(keyOf, m, events[last].thread, events[last].action, build, from);
    }
  }

  /** When the builder does not change and equal keys among the data loaded build equal items, a
      finished load returned exactly the items and errors of building its own snapshot anew, whatever
      the interleaving. */
  lemma {:induction false} ConcurrentLoadsAreTransparent<D(!new), K, I>(
    keyOf: KeyFunc<D, K>, build: BuildFunc<D, K, I>, from: iset<D>, s: State<D, K, I>, events: seq<Event<D, K, I>>,
    t: nat)
    requires Coherent(keyOf, build, from)
    requires Init(s) && After(keyOf, s, events).Some? && FetchesFrom(events, build, from)
    requires var s' := After(keyOf, s, events).value; t < |s'.threads| && s'.threads[t].Done?
    ensures
      var done := After(keyOf, s, events).value.threads[t];
      var anew := Uncached(keyOf, build, done.load.data);
      done.out == anew.out && done.errs == done.inner + anew.errs
  {
    LoadsAreLinearizable(keyOf, s, events, t);
    LoadsStayFrom(keyOf, s, events, build, from);
    var s' := After(keyOf, s, events).value;
    var done := s'.threads[t];
    var before := s'.history[..done.position];
    var datas := seq(|before|, i requires 0 <= i < |before| => before[i].data);
    assert LoadFrom(done.load, build, from) && forall i :: 0 <= i < |before| ==> LoadFrom(before[i], build, from);
    assert Loads(build, datas) == before;
    CoherentIsTransparentAt(keyOf, build, from, datas, done.load.data);
  }
}
