/** The caches of compiled policies: the general cache with the key that the repository chose, the
    policy's name followed by its resource version. */
module CompiledPolicies {
  import opened Wrappers
  import opened Cel
  import opened Policies
  import opened Compiler
  import opened Caching
  import CacheThreads

  function KeyOf(): KeyFunc<ValidatingPolicy, string> {
    (p: ValidatingPolicy) => Ok(p.name + p.resourceVersion)
  }

  ghost function CompilePolicy(): BuildFunc<ValidatingPolicy, string, CompiledPolicy> {
    (_: string, p: ValidatingPolicy) => if Accepts(p) then Ok(Artifact(p)) else Err("rejected")
  }

  type PolicyLoad = Load<ValidatingPolicy, string, CompiledPolicy>

  ghost predicate Unversioned(history: seq<PolicyLoad>) {
    forall i :: 0 <= i < |history| ==>
      history[i].build == CompilePolicy() && forall p <- history[i].data :: p.resourceVersion == ""
  }

  /** In a load that lists one policy of the name, and an accepted one, that is what is built. */
  lemma {:induction false} OnlyBuilt(data: seq<ValidatingPolicy>, p: ValidatingPolicy)
    requires p in data && Accepts(p) && forall q <- data :: q.name == p.name ==> q == p
    requires forall q <- data :: q.resourceVersion == ""
    ensures LastBuilt(KeyOf(), CompilePolicy(), data, p.name) == Some(Artifact(p))
  {
    var last := |data| - 1;
    assert data == data[..last] + [data[last]];
    assert data[last].name + "" == data[last].name;
    if data[last].name != p.name {
      OnlyBuilt(data[..last], p);
    }
  }

  /** Policies received from the control plane have no resource version, so an update of a policy is
      not compiled: it is served in the form compiled when the name first appeared ... */
  lemma {:induction false} UpdateKeepsTheEarlierForm(
    history: seq<PolicyLoad>, s: nat, p: ValidatingPolicy, update: ValidatingPolicy)
    requires Unversioned(history) && LongestStreak(KeyOf(), history, s, p.name)
    requires p in history[s].data && Accepts(p) && forall q <- history[s].data :: q.name == p.name ==> q == p
    requires update.name == p.name && update.resourceVersion == ""
    ensures Resolve(ReadAfter(KeyOf(), history), KeyOf(), CompilePolicy(), update) == Ok((p.name, Artifact(p)))
  {
    assert update.name + "" == p.name;
    OnlyBuilt(history[s].data, p);
    EntryIsFromStartOfStreak(KeyOf(), history, p.name);
  }

  /** ... until some load misses the name, after which it is compiled again. */
  lemma {:induction false} MissedNameIsCompiledAgain(history: seq<PolicyLoad>, update: ValidatingPolicy)
    requires Unversioned(history) && update.resourceVersion == ""
    requires history == [] || forall q <- history[|history| - 1].data :: q.name != update.name
    ensures Resolve(ReadAfter(KeyOf(), history), KeyOf(), CompilePolicy(), update)
         == Resolve(map[], KeyOf(), CompilePolicy(), update)
  {
    assert update.name + "" == update.name;
    EntryIsFromStartOfStreak(KeyOf(), history, update.name);
    if history != [] {
      var last := |history| - 1;
      assert !Occurs(KeyOf(), history[last], update.name) by {
        forall q | q in history[last].data ensures KeyOf()(q) != Ok(update.name) {
          assert q.name + "" == q.name;
        }
      }
      forall s: nat ensures !Streak(KeyOf(), history, s, update.name) {
        if Streak(KeyOf(), history, s, update.name) {
          BuildsOccurs(KeyOf(), history[s], update.name);
        }
      }
    }
  }

  // -------------------------------------------------------- the forms served

  /** The compiled forms that a server gives to a request when it lists `listed` after earlier loads. */
  ghost function Forms(history: seq<PolicyLoad>, listed: seq<ValidatingPolicy>): seq<CompiledPolicy> {
    Run(ReadAfter(KeyOf(), history), KeyOf(), CompilePolicy(), listed).out
  }

  /** No streak of loads with the policy's name is under way, or the item built by the first load of it
      is the policy's own form. */
  ghost predicate Current(history: seq<PolicyLoad>, p: ValidatingPolicy) {
    forall s: nat :: LongestStreak(KeyOf(), history, s, p.name) ==>
      Accepts(p) && LastBuilt(KeyOf(), history[s].build, history[s].data, p.name) == Some(Artifact(p))
  }

  lemma {:induction false} CurrentItem(history: seq<PolicyLoad>, p: ValidatingPolicy)
    requires p.resourceVersion == ""
    ensures Item(ReadAfter(KeyOf(), history), KeyOf(), CompilePolicy(), p) == Item(map[], KeyOf(), CompilePolicy(), p)
            <==> Current(history, p)
  {
    var read := ReadAfter(KeyOf(), history);
    assert p.name + "" == p.name;
    EntryIsFromStartOfStreak(KeyOf(), history, p.name);
    if p.name in read {
      var s: nat :| Streak(KeyOf(), history, s, p.name);
      var first := LongestStreakExists(KeyOf(), history, s, p.name);
      assert LongestStreak(KeyOf(), history, first, p.name);
    }
  }

  /** Policies received from the control plane are served in the forms that compiling them anew gives
      if and only if each of them is current. */
  lemma {:induction false} FormsAreFreshIff(history: seq<PolicyLoad>, listed: seq<ValidatingPolicy>)
    requires forall p <- listed :: p.resourceVersion == ""
    ensures Forms(history, listed) == Forms([], listed) <==> forall p <- listed :: Current(history, p)
  {
    SameItemsIff(ReadAfter(KeyOf(), history), KeyOf(), CompilePolicy(), listed);
    forall p | p in listed
      ensures Item(ReadAfter(KeyOf(), history), KeyOf(), CompilePolicy(), p) == Item(map[], KeyOf(), CompilePolicy(), p)
              <==> Current(history, p)
    {
      CurrentItem(history, p);
    }
  }

  ghost predicate FormOf(from: iset<ValidatingPolicy>, c: CompiledPolicy) {
    exists p :: p in from && Accepts(p) && c == Artifact(p)
  }

  lemma {:induction false} PassServesForms(
    from: iset<ValidatingPolicy>, read: map<string, CompiledPolicy>, listed: seq<ValidatingPolicy>)
    requires forall p <- listed :: p in from
    requires forall k :: k in read ==> FormOf(from, read[k])
    ensures forall c <- Run(read, KeyOf(), CompilePolicy(), listed).out :: FormOf(from, c)
  {
    if listed != [] {
      var last := |listed| - 1;
      PassServesForms(from, read, listed[..last]);
      assert listed[last] in from;
    }
  }

  /** Current or not, every form served is that of an accepted policy of some load. */
  lemma {:induction false} FormsAreGenuine(
    from: iset<ValidatingPolicy>, history: seq<PolicyLoad>, listed: seq<ValidatingPolicy>)
    requires forall i :: 0 <= i < |history| ==> CacheThreads.LoadFrom(history[i], CompilePolicy(), from)
    requires forall p <- listed :: p in from
    ensures forall c <- Forms(history, listed) :: FormOf(from, c)
  {
    var datas := seq(|history|, i requires 0 <= i < |history| => history[i].data);
    assert forall i :: 0 <= i < |history| ==> CacheThreads.LoadFrom(history[i], CompilePolicy(), from);
    assert Loads(CompilePolicy(), datas) == history;
    ReadIsGenuine(KeyOf(), CompilePolicy(), from, datas);
    var read := ReadAfter(KeyOf(), history);
    forall k | k in read ensures FormOf(from, read[k]) {
      assert Made(KeyOf(), CompilePolicy(), from, k, read[k]);
    }
    PassServesForms(from, read, listed);
  }

  // ------------------------------------------------------------ concurrency

  /** If one of two policies compiles, so does the other, to the same form. */
  ghost predicate SameForm(p: ValidatingPolicy, q: ValidatingPolicy) {
    (Accepts(p) <==> Accepts(q)) && (Accepts(p) ==> Artifact(p) == Artifact(q))
  }

  lemma {:induction false} CoherentIffSameForms(from: iset<ValidatingPolicy>)
    ensures Coherent(KeyOf(), CompilePolicy(), from)
            <==> (forall p, q :: p in from && q in from && p.name + p.resourceVersion == q.name + q.resourceVersion ==>
                    SameForm(p, q))
  {
    forall p, q | p in from && q in from
      ensures Agree(KeyOf(), CompilePolicy(), p, q) && Agree(KeyOf(), CompilePolicy(), q, p)
              <==> (p.name + p.resourceVersion == q.name + q.resourceVersion ==> SameForm(p, q))
    {
    }
    if Coherent(KeyOf(), CompilePolicy(), from) {
      forall p, q | p in from && q in from && p.name + p.resourceVersion == q.name + q.resourceVersion
        ensures SameForm(p, q)
      {
        assert Agree(KeyOf(), CompilePolicy(), p, q) && Agree(KeyOf(), CompilePolicy(), q, p);
      }
    }
  }

  type PolicyThreads = CacheThreads.State<ValidatingPolicy, string, CompiledPolicy>

  type PolicyEvent = CacheThreads.Event<ValidatingPolicy, string, CompiledPolicy>

  /** The concurrent caches of compiled policies are invisible as long as no two of the policies they
      load share name and version, written one after the other, without compiling to the same form. */
  lemma {:induction false} CompiledLoadsAreTransparent(
    from: iset<ValidatingPolicy>, s: PolicyThreads, events: seq<PolicyEvent>, t: nat)
    requires forall p, q :: p in from && q in from && p.name + p.resourceVersion == q.name + q.resourceVersion ==>
               SameForm(p, q)
    requires CacheThreads.Init(s) && CacheThreads.After(KeyOf(), s, events).Some?
    requires CacheThreads.FetchesFrom(events, CompilePolicy(), from)
    requires var s' := CacheThreads.After(KeyOf(), s, events).value; t < |s'.threads| && s'.threads[t].Done?
    ensures
      var done := CacheThreads.After(KeyOf(), s, events).value.threads[t];
      var anew := Uncached(KeyOf(), CompilePolicy(), done.load.data);
      done.out == anew.out && done.errs == done.inner + anew.errs
  {
    CoherentIffSameForms(from);
    CacheThreads.ConcurrentLoadsAreTransparent(KeyOf(), CompilePolicy(), from, s, events, t);
  }

  /** A policy without conditions, variables or rules. */
  function Empty(name: string, resourceVersion: string, fp: FailurePolicy): ValidatingPolicy {
    ValidatingPolicy(name, resourceVersion, Known(Envoy), [], [], [], Some(fp))
  }

  /** Nor do resource versions make the cache of compiled policies invisible: the end of a name and
      the start of a version can be confused, and then one policy is served in the other's form. */
  lemma {:induction false} NameAndVersionCanCollide()
    ensures !Transparent(KeyOf(), CompilePolicy(), iset{Empty("a", "12", FAIL), Empty("a1", "2", IGNORE)})
    ensures !TransparentAt(KeyOf(), CompilePolicy(), [[Empty("a", "12", FAIL)]], [Empty("a1", "2", IGNORE)])
  {
    var p, q := Empty("a", "12", FAIL), Empty("a1", "2", IGNORE);
    assert "a" + "12" == "a1" + "2";
    assert Accepts(p) && Accepts(q);
    assert Artifact(p).failurePolicy != Artifact(q).failurePolicy;
    assert !Agree(KeyOf(), CompilePolicy(), p, q);
    SecondLoadReuses(KeyOf(), CompilePolicy(), p, q);
    assert Drawn([[p]], iset{p, q});
  }
}
