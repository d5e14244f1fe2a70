/** The double-buffered cache: each load reuses the items of the previous one by key, builds the
    missing ones, and discards what was not asked for. */
module Caching {
  import opened Wrappers

  datatype CacheError = Inner(text: string) | KeyError(text: string) | BuildError(text: string)

  type KeyFunc<!D, !K> = D -> Result<K, string>

  type BuildFunc<!D, !K, !I> = (K, D) -> Result<I, string>

  // ------------------------------------------------------------ specification

  /** What one datum comes to, given the items of the previous load. */
  function Resolve<D, K, I>(read: map<K, I>, keyOf: KeyFunc<D, K>, build: BuildFunc<D, K, I>, d: D)
    : Result<(K, I), CacheError>
  {
    match keyOf(d)
    case Err(text) => Err(KeyError(text))
    case Ok(k) =>
      if k in read then Ok((k, read[k]))
      else
        match build(k, d)
        case Err(text) => Err(BuildError(text))
        case Ok(item) => Ok((k, item))
  }

  datatype Pass<!K, I> = Pass(out: seq<I>, errs: seq<CacheError>, written: map<K, I>)

  ghost function Record<K, I>(pass: Pass<K, I>, r: Result<(K, I), CacheError>): Pass<K, I> {
    match r
    case Err(x) => pass.(errs := pass.errs + [x])
    case Ok((k, item)) => pass.(out := pass.out + [item], written := pass.written[k := item])
  }

  ghost function Run<D, K, I>(
    read: map<K, I>, keyOf: KeyFunc<D, K>, build: BuildFunc<D, K, I>, data: seq<D>): Pass<K, I> {
    if data == [] then Pass([], [], map[])
    else
      var last := |data| - 1;
      Record(Run(read, keyOf, build, data[..last]), Resolve(read, keyOf, build, data[last]))
  }

  /** The datum's item under its key: the one in `read` or, if there is none, the one built. */
  ghost predicate Gives<D, K, I>(
    read: map<K, I>, keyOf: KeyFunc<D, K>, build: BuildFunc<D, K, I>, d: D, k: K, item: I)
  {
    keyOf(d) == Ok(k) && if k in read then item == read[k] else build(k, d) == Ok(item)
  }

  /** The datum has no key, or an item that is needed and cannot be built. */
  ghost predicate Fails<D, K, I>(
    read: map<K, I>, keyOf: KeyFunc<D, K>, build: BuildFunc<D, K, I>, d: D, x: CacheError)
  {
    if keyOf(d).Err? then x == KeyError(keyOf(d).error)
    else
      var k := keyOf(d).value;
      k !in read && build(k, d).Err? && x == BuildError(build(k, d).error)
  }

  /** `out` has, in order, the items of the data at `at`, whose keys are `keys`, and `errs` what is wrong with
      those at `bad`, which are all the others. */
  ghost predicate Divides<D, K, I>(
    read: map<K, I>, keyOf: KeyFunc<D, K>, build: BuildFunc<D, K, I>, data: seq<D>, out: seq<I>, errs: seq<CacheError>,
    at: seq<nat>, keys: seq<K>, bad: seq<nat>)
  {
    && |at| == |out| == |keys| && Ascending(at) && |bad| == |errs| && Ascending(bad)
    && (forall j :: 0 <= j < |at| ==> at[j] < |data| && Gives(read, keyOf, build, data[at[j]], keys[j], out[j]))
    && (forall j :: 0 <= j < |bad| ==> bad[j] < |data| && Fails(read, keyOf, build, data[bad[j]], errs[j]))
    && forall i: nat :: i < |data| ==> i in at || i in bad
  }

  /** `written` has the last item of each key. */
  ghost predicate KeepsLast<K, I>(keys: seq<K>, out: seq<I>, written: map<K, I>) {
    && |keys| == |out| && (forall k :: k in written ==> k in keys)
    && forall j :: 0 <= j < |keys| ==>
         keys[j] in written && (keys[j] !in keys[j + 1..] ==> written[keys[j]] == out[j])
  }

  /** What a pass over the data comes to. */
  lemma {:induction false} RunDivides<D, K, I>(
    read: map<K, I>, keyOf: KeyFunc<D, K>, build: BuildFunc<D, K, I>, data: seq<D>)
    returns (at: seq<nat>, keys: seq<K>, bad: seq<nat>)
    ensures var pass := Run(read, keyOf, build, data);
            && Divides(read, keyOf, build, data, pass.out, pass.errs, at, keys, bad)
            && KeepsLast(keys, pass.out, pass.written)
  {
    at, keys, bad := [], [], [];
    if data != [] {
      var last := |data| - 1;
      at, keys, bad := RunDivides(read, keyOf, build, data[..last]);
      var before := Run(read, keyOf, build, data[..last]);
      var r := Resolve(read, keyOf, build, data[last]);
      OneMoreDatum(read, keyOf, build, data, before, at, keys, bad);
      match r
      case Ok((k, item)) =>
        OneMoreWritten(keys, before.out, before.written, k, item);
        at, keys := at + [last], keys + [k];
      case Err(_) => bad := bad + [last];
    }
  }

  lemma {:induction false} OneMoreDatum<D, K, I>(
    read: map<K, I>, keyOf: KeyFunc<D, K>, build: BuildFunc<D, K, I>, data: seq<D>, before: Pass<K, I>, at: seq<nat>,
    keys: seq<K>, bad: seq<nat>)
    requires data != []
    requires Divides(read, keyOf, build, data[..|data| - 1], before.out, before.errs, at, keys, bad)
    ensures
      var r := Resolve(read, keyOf, build, data[|data| - 1]);
      var pass := Record(before, r);
      if r.Ok? then
        Divides(read, keyOf, build, data, pass.out, pass.errs, at + [|data| - 1], keys + [r.value.0], bad)
      else
        Divides(read, keyOf, build, data, pass.out, pass.errs, at, keys, bad + [|data| - 1])
  {
    var last := |data| - 1;
    forall i | 0 <= i < last ensures data[..last][i] == data[i] {}
    assert last in at + [last] && last in bad + [last];
    assert forall i :: i in at ==> i in at + [last];
    assert forall i :: i in bad ==> i in bad + [last];
  }

  lemma OneMoreWritten<K, I>(keys: seq<K>, out: seq<I>, written: map<K, I>, k: K, item: I)
    requires KeepsLast(keys, out, written)
    ensures KeepsLast(keys + [k], out + [item], written[k := item])
  {
    var more := keys + [k];
    assert more[|keys|] == k && forall x :: x in keys ==> x in more;
    forall j | 0 <= j < |keys| && more[j] !in more[j + 1..] ensures more[j] !in keys[j + 1..] && more[j] != k {
      assert more[j + 1..] == keys[j + 1..] + [k];
    }
  }

  /** What building everything anew gives. */
  ghost function Uncached<D, K, I>(keyOf: KeyFunc<D, K>, build: BuildFunc<D, K, I>, data: seq<D>): Pass<K, I> {
    Run(map[], keyOf, build, data)
  }

  /** One load: the data found and the builder as it behaved at the time. */
  datatype Load<!D, !K, !I> = LoadOf(data: seq<D>, build: BuildFunc<D, K, I>)

  /** The items available to the load that follows a history of loads. */
  ghost function ReadAfter<D, K, I>(keyOf: KeyFunc<D, K>, history: seq<Load<D, K, I>>): map<K, I> {
    if history == [] then map[]
    else
      var last := |history| - 1;
      Run(ReadAfter(keyOf, history[..last]), keyOf, history[last].build, history[last].data).written
  }

  // ---------------------------------------------------------------- the cache

  class Buffer<K(==), I> {
    var entries: map<K, I>

    constructor ()
      ensures entries == map[]
    {
      entries := map[];
    }

    /** Deletes the keys one by one. */
    method Clear()
      modifies this
      ensures entries == map[]
    {
      while entries.Keys != {}
        decreases entries.Keys
      {
        var k :| k in entries.Keys;
        entries := entries - {k};
      }
    }
  }

  class Cache<D, K(==), I> {
    const keyOf: KeyFunc<D, K>
    var writeBuffer: Buffer<K, I>
    var readBuffer: Buffer<K, I>
    ghost var history: seq<Load<D, K, I>>

    ghost predicate Valid()
      reads this, writeBuffer, readBuffer
    {
      && writeBuffer != readBuffer
      && writeBuffer.entries == map[]
      && readBuffer.entries == ReadAfter(keyOf, history)
    }

    constructor (keyOf: KeyFunc<D, K>)
      ensures Valid() && fresh(writeBuffer) && fresh(readBuffer)
      ensures history == [] && this.keyOf == keyOf
    {
      this.keyOf := keyOf;
      writeBuffer := new Buffer();
      readBuffer := new Buffer();
      history := [];
    }

    /** Processes the data that the inner source has just given, together with its error. */
    method Load(data: seq<D>, innerErrors: seq<CacheError>, build: BuildFunc<D, K, I>)
      returns (out: seq<I>, errs: seq<CacheError>)
      requires Valid()
      modifies this, writeBuffer, readBuffer
      ensures Valid()
      ensures writeBuffer == old(readBuffer) && readBuffer == old(writeBuffer)
      ensures history == old(history) + [LoadOf(data, build)]
      ensures var pass := Run(ReadAfter(keyOf, old(history)), keyOf, build, data);
              out == pass.out && errs == innerErrors + pass.errs
      ensures writeBuffer.entries == map[] && innerErrors <= errs
      ensures exists at, keys, bad ::
                && Divides(old(readBuffer.entries), keyOf, build, data, out, errs[|innerErrors|..], at, keys, bad)
                && KeepsLast(keys, out, readBuffer.entries)
    {
      out, errs := [], innerErrors;
      ghost var read := readBuffer.entries;
      for i := 0 to |data|
        invariant writeBuffer == old(writeBuffer) && readBuffer == old(readBuffer) && history == old(history)
        invariant readBuffer.entries == read
        invariant innerErrors <= errs
        invariant Run(read, keyOf, build, data[..i]) == Pass(out, errs[|innerErrors|..], writeBuffer.entries)
      {
        assert data[..i + 1][..i] == data[..i];
        var key := keyOf(data[i]);
        if key.Err? {
          errs := errs + [KeyError(key.error)];
          continue;
        }
        var k := key.value;
        var cached: I;
        if k in readBuffer.entries {
          cached := readBuffer.entries[k];
        } else {
          var built := build(k, data[i]);
          if built.Err? {
            errs := errs + [BuildError(built.error)];
            continue;
          }
          cached := built.value;
        }
        out := out + [cached];
        writeBuffer.entries := writeBuffer.entries[k := cached];
      }
      assert data[..|data|] == data;
      writeBuffer, readBuffer := readBuffer, writeBuffer;
      writeBuffer.Clear();
      ghost var at, keys, bad := RunDivides(read, keyOf, build, data);
      assert (innerErrors + errs[|innerErrors|..])[|innerErrors|..] == errs[|innerErrors|..];
      history := history + [LoadOf(data, build)];
      assert history[..|history| - 1] == old(history);
    }
  }

  // ------------------------------------------------------------------ history

  ghost predicate Occurs<D, K, I>(keyOf: KeyFunc<D, K>, load: Load<D, K, I>, k: K) {
    exists d <- load.data :: keyOf(d) == Ok(k)
  }

  /** The last item that the load's builder makes for the key, if any. */
  ghost function LastBuilt<D, K, I>(keyOf: KeyFunc<D, K>, build: BuildFunc<D, K, I>, data: seq<D>, k: K): Option<I> {
    if data == [] then None
    else
      var d := data[|data| - 1];
      if keyOf(d) == Ok(k) && build(k, d).Ok? then Some(build(k, d).value)
      else LastBuilt(keyOf, build, data[..|data| - 1], k)
  }

  ghost predicate Builds<D, K, I>(keyOf: KeyFunc<D, K>, load: Load<D, K, I>, k: K) {
    LastBuilt(keyOf, load.build, load.data, k).Some?
  }

  /** From load `s` on, where the key could be built, every load of the history contains the key. */
  ghost predicate Streak<D, K, I>(keyOf: KeyFunc<D, K>, history: seq<Load<D, K, I>>, s: nat, k: K) {
    s < |history| && Builds(keyOf, history[s], k) && forall j :: s < j < |history| ==> Occurs(keyOf, history[j], k)
  }

  ghost predicate LongestStreak<D, K, I>(keyOf: KeyFunc<D, K>, history: seq<Load<D, K, I>>, s: nat, k: K) {
    Streak(keyOf, history, s, k) && forall s' :: 0 <= s' < s ==> !Streak(keyOf, history, s', k)
  }

  lemma {:induction false} WrittenKey<D, K, I>(read: map<K, I>, keyOf: KeyFunc<D, K>, load: Load<D, K, I>, k: K)
    ensures
      var written := Run(read, keyOf, load.build, load.data).written;
      if k in read
      then if Occurs(keyOf, load, k) then k in written && written[k] == read[k] else k !in written
      else if Builds(keyOf, load, k)
           then k in written && written[k] == LastBuilt(keyOf, load.build, load.data, k).value
           else k !in written
    decreases |load.data|
  {
    if load.data != [] {
      var last := |load.data| - 1;
      assert load.data == load.data[..last] + [load.data[last]];
      WrittenKey(read, keyOf, LoadOf(load.data[..last], load.build), k);
    }
  }

  lemma {:induction false} BuildsOccurs<D, K, I>(keyOf: KeyFunc<D, K>, load: Load<D, K, I>, k: K)
    requires Builds(keyOf, load, k)
    ensures Occurs(keyOf, load, k)
    decreases |load.data|
  {
    var last := |load.data| - 1;
    if !(keyOf(load.data[last]) == Ok(k)) {
      BuildsOccurs(keyOf, LoadOf(load.data[..last], load.build), k);
      var d :| d in load.data[..last] && keyOf(d) == Ok(k);
      assert d in load.data;
    }
  }

  lemma {:induction false} StreakStep<D, K, I>(keyOf: KeyFunc<D, K>, history: seq<Load<D, K, I>>, s: nat, k: K)
    requires history != []
    ensures var last := |history| - 1;
            Streak(keyOf, history, s, k) <==>
            if s == last then Builds(keyOf, history[last], k)
            else Streak(keyOf, history[..last], s, k) && Occurs(keyOf, history[last], k)
  {
  }

  /** An item is available after a history of loads exactly when some load of it could build the
      key and no later load missed the key, whatever the builder would have made of it since; the
      item is then the last one built by the first load of the longest such streak. */
  lemma {:induction false} EntryIsFromStartOfStreak<D, K, I>(keyOf: KeyFunc<D, K>, history: seq<Load<D, K, I>>, k: K)
    ensures k in ReadAfter(keyOf, history) <==> exists s: nat :: Streak(keyOf, history, s, k)
    ensures forall s: nat :: LongestStreak(keyOf, history, s, k) ==>
              k in ReadAfter(keyOf, history) &&
              Some(ReadAfter(keyOf, history)[k]) == LastBuilt(keyOf, history[s].build, history[s].data, k)
    decreases |history|
  {
    if history != [] {
      var last := |history| - 1;
      var before, load := history[..last], history[last];
      EntryIsFromStartOfStreak(keyOf, before, k);
      WrittenKey(ReadAfter(keyOf, before), keyOf, load, k);
      if Builds(keyOf, load, k) {
        BuildsOccurs(keyOf, load, k);
        StreakStep(keyOf, history, last, k);
      }
      forall s: nat ensures Streak(keyOf, history, s, k) <==>
                            if s == last then Builds(keyOf, load, k)
                            else Streak(keyOf, before, s, k) && Occurs(keyOf, load, k) {
        StreakStep(keyOf, history, s, k);
      }
      forall s: nat | LongestStreak(keyOf, history, s, k)
        ensures k in ReadAfter(keyOf, history)
        ensures Some(ReadAfter(keyOf, history)[k]) == LastBuilt(keyOf, history[s].build, history[s].data, k)
      {
        if s < last {
          assert LongestStreak(keyOf, before, s, k);
        } else {
          assert forall s': nat :: Streak(keyOf, before, s', k) ==> Streak(keyOf, history, s', k);
        }
      }
    }
  }

  lemma {:induction false} LongestStreakExists<D, K, I>(keyOf: KeyFunc<D, K>, history: seq<Load<D, K, I>>, s: nat, k: K)
    returns (first: nat)
    requires Streak(keyOf, history, s, k)
    ensures LongestStreak(keyOf, history, first, k)
  {
    first := s;
    if s': nat :| s' < s && Streak(keyOf, history, s', k) {
      first := LongestStreakExists(keyOf, history, s', k);
    }
  }

  lemma {:induction false} RunOnlyResolves<D, K, I>(
    read: map<K, I>, read': map<K, I>, keyOf: KeyFunc<D, K>, build: BuildFunc<D, K, I>, data: seq<D>)
    requires forall d <- data :: Resolve(read, keyOf, build, d) == Resolve(read', keyOf, build, d)
    ensures Run(read, keyOf, build, data) == Run(read', keyOf, build, data)
  {
    if data != [] {
      RunOnlyResolves(read, read', keyOf, build, data[..|data| - 1]);
    }
  }

  ghost function Item<D, K, I>(read: map<K, I>, keyOf: KeyFunc<D, K>, build: BuildFunc<D, K, I>, d: D): Option<I> {
    match Resolve(read, keyOf, build, d)
    case Ok((_, item)) => Some(item)
    case Err(_) => None
  }

  /** A load gives the items of building anew exactly when it does so datum by datum: what is reused in
      excess of what can be built is never made up for. */
  lemma {:induction false} SameItemsIff<D, K, I>(
    read: map<K, I>, keyOf: KeyFunc<D, K>, build: BuildFunc<D, K, I>, data: seq<D>)
    ensures |Run(read, keyOf, build, data).out| >= |Uncached(keyOf, build, data).out|
    ensures Run(read, keyOf, build, data).out == Uncached(keyOf, build, data).out
            <==> forall d <- data :: Item(read, keyOf, build, d) == Item(map[], keyOf, build, d)
  {
    if data != [] {
      var last := |data| - 1;
      SameItemsIff(read, keyOf, build, data[..last]);
      assert data == data[..last] + [data[last]];
      var before, anew := Run(read, keyOf, build, data[..last]).out, Uncached(keyOf, build, data[..last]).out;
      var item, built := Item(read, keyOf, build, data[last]), Item(map[], keyOf, build, data[last]);
      assert item.None? ==> built.None?;
      if item.Some? && built.Some? && before + [item.value] == anew + [built.value] {
        assert (before + [item.value])[..|before|] == before && (anew + [built.value])[..|anew|] == anew;
      }
    }
  }

  // ------------------------------------------------------------- transparency

  /** Among the data of `from`, whatever can be built under a key is built the same from all of them
      that have the key. */
  ghost predicate Coherent<D(!new), K, I>(keyOf: KeyFunc<D, K>, build: BuildFunc<D, K, I>, from: iset<D>) {
    forall d, d' :: d in from && d' in from ==> Agree(keyOf, build, d, d')
  }

  ghost predicate Agree<D, K, I>(keyOf: KeyFunc<D, K>, build: BuildFunc<D, K, I>, d: D, d': D) {
    keyOf(d).Ok? && keyOf(d') == keyOf(d) && build(keyOf(d).value, d).Ok? ==>
      build(keyOf(d).value, d') == build(keyOf(d).value, d)
  }

  /** Every entry is what building some datum of `from` with its key gives. */
  ghost predicate Genuine<D(!new), K, I>(
    keyOf: KeyFunc<D, K>, build: BuildFunc<D, K, I>, from: iset<D>, entries: map<K, I>)
  {
    forall k :: k in entries ==> Made(keyOf, build, from, k, entries[k])
  }

  ghost predicate Made<D(!new), K, I>(keyOf: KeyFunc<D, K>, build: BuildFunc<D, K, I>, from: iset<D>, k: K, item: I) {
    exists d :: d in from && keyOf(d) == Ok(k) && build(k, d) == Ok(item)
  }

  lemma {:induction false} ResolvedIsMade<D(!new), K, I>(
    keyOf: KeyFunc<D, K>, build: BuildFunc<D, K, I>, from: iset<D>, read: map<K, I>, d: D)
    requires Genuine(keyOf, build, from, read) && d in from && Resolve(read, keyOf, build, d).Ok?
    ensures var (k, item) := Resolve(read, keyOf, build, d).value;
            Made(keyOf, build, from, k, item)
  {
  }

  lemma {:induction false} GenuineHitIsABuild<D(!new), K, I>(
    keyOf: KeyFunc<D, K>, build: BuildFunc<D, K, I>, from: iset<D>, read: map<K, I>, d: D)
    requires Coherent(keyOf, build, from) && Genuine(keyOf, build, from, read) && d in from
    ensures Resolve(read, keyOf, build, d) == Resolve(map[], keyOf, build, d)
  {
    if keyOf(d).Ok? && keyOf(d).value in read {
      var k := keyOf(d).value;
      assert Made(keyOf, build, from, k, read[k]);
      var d' :| d' in from && keyOf(d') == Ok(k) && build(k, d') == Ok(read[k]);
      assert Agree(keyOf, build, d', d);
    }
  }

  lemma {:induction false} RunIsGenuine<D(!new), K, I>(
    keyOf: KeyFunc<D, K>, build: BuildFunc<D, K, I>, from: iset<D>, read: map<K, I>, data: seq<D>)
    requires Genuine(keyOf, build, from, read) && forall d <- data :: d in from
    ensures Genuine(keyOf, build, from, Run(read, keyOf, build, data).written)
  {
    if data != [] {
      var d := data[|data| - 1];
      RunIsGenuine(keyOf, build, from, read, data[..|data| - 1]);
      if Resolve(read, keyOf, build, d).Ok? {
        ResolvedIsMade(keyOf, build, from, read, d);
      }
    }
  }

  ghost function Loads<D, K, I>(build: BuildFunc<D, K, I>, datas: seq<seq<D>>): seq<Load<D, K, I>> {
    seq(|datas|, i requires 0 <= i < |datas| => LoadOf(datas[i], build))
  }

  ghost predicate Drawn<D>(datas: seq<seq<D>>, from: iset<D>) {
    forall i :: 0 <= i < |datas| ==> forall d <- datas[i] :: d in from
  }

  /** Coherent or not, every item available was built from some datum of the loads. */
  lemma {:induction false} ReadIsGenuine<D(!new), K, I>(
    keyOf: KeyFunc<D, K>, build: BuildFunc<D, K, I>, from: iset<D>, datas: seq<seq<D>>)
    requires Drawn(datas, from)
    ensures Genuine(keyOf, build, from, ReadAfter(keyOf, Loads(build, datas)))
    decreases |datas|
  {
    if datas != [] {
      var last := |datas| - 1;
      ReadIsGenuine(keyOf, build, from, datas[..last]);
      assert Loads(build, datas)[..last] == Loads(build, datas[..last]);
      RunIsGenuine(keyOf, build, from, ReadAfter(keyOf, Loads(build, datas[..last])), datas[last]);
    }
  }

  /** Every history of loads drawn from `from` leaves the cache invisible to a load drawn from it. */
  ghost predicate Transparent<D(!new), K, I>(keyOf: KeyFunc<D, K>, build: BuildFunc<D, K, I>, from: iset<D>) {
    forall datas: seq<seq<D>>, data: seq<D> :: Drawn(datas, from) && (forall d <- data :: d in from) ==>
      TransparentAt(keyOf, build, datas, data)
  }

  /** After the loads `datas`, loading `data` gives the items and errors of building anew. */
  ghost predicate TransparentAt<D, K, I>(
    keyOf: KeyFunc<D, K>, build: BuildFunc<D, K, I>, datas: seq<seq<D>>, data: seq<D>)
  {
    var pass := Run(ReadAfter(keyOf, Loads(build, datas)), keyOf, build, data);
    var anew := Uncached(keyOf, build, data);
    pass.out == anew.out && pass.errs == anew.errs
  }

  lemma {:induction false} SecondLoadReuses<D, K, I>(keyOf: KeyFunc<D, K>, build: BuildFunc<D, K, I>, d: D, d': D)
    requires !Agree(keyOf, build, d, d')
    ensures !TransparentAt(keyOf, build, [[d]], [d'])
  {
    var k := keyOf(d).value;
    var loads := Loads(build, [[d]]);
    assert loads[..0] == [];
    assert [d][..0] == [] && [d'][..0] == [];
    assert Run(map[], keyOf, build, [d]) == Record(Run(map[], keyOf, build, []), Resolve(map[], keyOf, build, d));
    assert ReadAfter(keyOf, loads) == map[k := build(k, d).value];
    var read := ReadAfter(keyOf, loads);
    assert Run(read, keyOf, build, [d']) == Record(Run(read, keyOf, build, []), Resolve(read, keyOf, build, d'));
    assert Run(map[], keyOf, build, [d']) == Record(Run(map[], keyOf, build, []), Resolve(map[], keyOf, build, d'));
    assert Run(read, keyOf, build, [d']).out == [build(k, d).value];
    assert Run(map[], keyOf, build, [d']).out == match build(k, d') { case Ok(item) => [item] case Err(_) => [] };
    assert !TransparentAt(keyOf, build, [[d]], [d']) by {
      if build(k, d').Ok? {
        assert [build(k, d').value][0] != [build(k, d).value][0];
      }
    }
  }

  lemma {:induction false} CoherentIsTransparentAt<D(!new), K, I>(
    keyOf: KeyFunc<D, K>, build: BuildFunc<D, K, I>, from: iset<D>, datas: seq<seq<D>>, data: seq<D>)
    requires Coherent(keyOf, build, from) && Drawn(datas, from) && forall d <- data :: d in from
    ensures TransparentAt(keyOf, build, datas, data)
  {
    var read := ReadAfter(keyOf, Loads(build, datas));
    ReadIsGenuine(keyOf, build, from, datas);
    forall d | d in data ensures Resolve(read, keyOf, build, d) == Resolve(map[], keyOf, build, d) {
      GenuineHitIsABuild(keyOf, build, from, read, d);
    }
    RunOnlyResolves(read, map[], keyOf, build, data);
  }

  /** With a builder that does not change, the cache is invisible in every history of loads over some
      data exactly when, among those data, whatever can be built under a key is built the same from
      all that have the key. */
  lemma {:induction false} TransparentIffCoherent<D(!new), K, I>(
    keyOf: KeyFunc<D, K>, build: BuildFunc<D, K, I>, from: iset<D>)
    ensures Transparent(keyOf, build, from) <==> Coherent(keyOf, build, from)
  {
    if Coherent(keyOf, build, from) {
      forall datas: seq<seq<D>>, data: seq<D> | Drawn(datas, from) && forall d <- data :: d in from
        ensures TransparentAt(keyOf, build, datas, data)
      {
        CoherentIsTransparentAt(keyOf, build, from, datas, data);
      }
    } else {
      var d, d' :| d in from && d' in from && !Agree(keyOf, build, d, d');
      SecondLoadReuses(keyOf, build, d, d');
      assert Drawn([[d]], from);
    }
  }
}
