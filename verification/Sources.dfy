/** Sources of policies and the combinators that build one source from others. A source is seen
    through one load of it: the data and the aggregated errors, where no error is a nil error. */
module Sources {
  import opened Wrappers

  datatype Loaded<+T> = Loaded(data: seq<T>, errs: seq<string>)

  // ------------------------------------------------------------ specification

  ghost function Oks<T, U>(f: T -> Result<U, string>, items: seq<T>): seq<U> {
    if items == [] then []
    else Oks(f, items[..|items| - 1]) + match f(items[|items| - 1]) { case Ok(u) => [u] case Err(_) => [] }
  }

  ghost function Errs<T, U>(f: T -> Result<U, string>, items: seq<T>): seq<string> {
    if items == [] then []
    else Errs(f, items[..|items| - 1]) + match f(items[|items| - 1]) { case Ok(_) => [] case Err(x) => [x] }
  }

  ghost function Keep<T>(f: T -> bool, items: seq<T>): seq<T> {
    if items == [] then []
    else Keep(f, items[..|items| - 1]) + if f(items[|items| - 1]) then [items[|items| - 1]] else []
  }

  ghost function Concat<T>(lists: seq<seq<T>>): seq<T> {
    if lists == [] then [] else Concat(lists[..|lists| - 1]) + lists[|lists| - 1]
  }

  // -------------------------------------------------------------- combinators

  method TransformErr<T, U>(inner: Loaded<T>, transform: T -> Result<U, string>) returns (r: Loaded<U>)
    ensures r == Loaded(Oks(transform, inner.data), inner.errs + Errs(transform, inner.data))
  {
    var transformed: seq<U>, errs := [], inner.errs;
    for i := 0 to |inner.data|
      invariant transformed == Oks(transform, inner.data[..i])
      invariant errs == inner.errs + Errs(transform, inner.data[..i])
    {
      assert inner.data[..i + 1][..i] == inner.data[..i];
      var out := transform(inner.data[i]);
      if out.Err? {
        errs := errs + [out.error];
        continue;
      }
      transformed := transformed + [out.value];
    }
    assert inner.data[..|inner.data|] == inner.data;
    return Loaded(transformed, errs);
  }

  method Filter<T>(inner: Loaded<T>, accepts: T -> bool) returns (r: Loaded<T>)
    ensures r == Loaded(Keep(accepts, inner.data), inner.errs)
  {
    var filtered: seq<T> := [];
    for i := 0 to |inner.data|
      invariant filtered == Keep(accepts, inner.data[..i])
    {
      assert inner.data[..i + 1][..i] == inner.data[..i];
      if accepts(inner.data[i]) {
        filtered := filtered + [inner.data[i]];
      }
    }
    assert inner.data[..|inner.data|] == inner.data;
    return Loaded(filtered, inner.errs);
  }

  method Flatten<T>(inner: Loaded<seq<T>>) returns (r: Loaded<T>)
    ensures r == Loaded(Concat(inner.data), inner.errs)
  {
    var output: seq<T> := [];
    for i := 0 to |inner.data|
      invariant output == Concat(inner.data[..i])
    {
      assert inner.data[..i + 1][..i] == inner.data[..i];
      output := output + inner.data[i];
    }
    assert inner.data[..|inner.data|] == inner.data;
    return Loaded(output, inner.errs);
  }

  // ---------------------------------------------------------------- composite

  /** The data of the sources that loaded without error, in order, and the errors of all. */
  ghost function Composite<T>(children: seq<Loaded<T>>): Loaded<T> {
    if children == [] then Loaded([], [])
    else
      var rest, last := Composite(children[..|children| - 1]), children[|children| - 1];
      Loaded(rest.data + if last.errs == [] then last.data else [], rest.errs + last.errs)
  }

  method LoadComposite<T>(children: seq<Loaded<T>>) returns (r: Loaded<T>)
    ensures r == Composite(children)
  {
    var out: seq<T>, errs: seq<string> := [], [];
    for i := 0 to |children|
      invariant Loaded(out, errs) == Composite(children[..i])
    {
      assert children[..i + 1][..i] == children[..i];
      if children[i].errs != [] {
        errs := errs + children[i].errs;
        continue;
      }
      out := out + children[i].data;
    }
    assert children[..|children|] == children;
    return Loaded(out, errs);
  }

  /** A source alone gives its data if it has no error, and its errors. */
  lemma CompositeOfOne<T>(child: Loaded<T>)
    ensures Composite([child]).errs == child.errs
    ensures Composite([child]).data == if child.errs == [] then child.data else []
  {
    assert [child][..0] == [];
  }

  lemma {:induction false} CompositeConcat<T>(a: seq<Loaded<T>>, b: seq<Loaded<T>>)
    ensures Composite(a + b) == Loaded(Composite(a).data + Composite(b).data, Composite(a).errs + Composite(b).errs)
  {
    if b == [] {
      assert a + b == a;
    } else {
      assert (a + b)[..|a + b| - 1] == a + b[..|b| - 1];
      CompositeConcat(a, b[..|b| - 1]);
    }
  }

  lemma {:induction false} CompositeEmptyData<T>(children: seq<Loaded<T>>)
    ensures Composite(children).data == [] <==> forall c <- children :: c.errs == [] ==> c.data == []
  {
    if children != [] {
      var last := |children| - 1;
      assert children == children[..last] + [children[last]];
      CompositeEmptyData(children[..last]);
    }
  }

  /** Nesting a composite inside another never changes the errors; it keeps the data exactly when
      the nested composite has no error, or has nothing to lose by having one. */
  lemma NestingComposites<T>(before: seq<Loaded<T>>, nested: seq<Loaded<T>>, after: seq<Loaded<T>>)
    ensures Composite(before + [Composite(nested)] + after).errs == Composite(before + nested + after).errs
    ensures Composite(before + [Composite(nested)] + after).data == Composite(before + nested + after).data
            <==> (forall c <- nested :: c.errs == []) || (forall c <- nested :: c.errs == [] ==> c.data == [])
  {
    var inner := Composite(nested);
    CompositeConcat(before + [inner], after);
    CompositeConcat(before, [inner]);
    CompositeConcat(before + nested, after);
    CompositeConcat(before, nested);
    CompositeOfOne(inner);
    CompositeEmptyData(nested);
    CompositeErrors(nested);
    var x, y, z := Composite(before).data, Composite([inner]).data, Composite(after).data;
    if x + y + z == x + inner.data + z {
      assert |y| == |inner.data|;
    }
  }

  lemma {:induction false} CompositeErrors<T>(children: seq<Loaded<T>>)
    ensures Composite(children).errs == [] <==> forall c <- children :: c.errs == []
  {
    if children != [] {
      var last := |children| - 1;
      assert children == children[..last] + [children[last]];
      CompositeErrors(children[..last]);
    }
  }

  // ------------------------------------------------- policies in a file system

  datatype Entry = Entry(path: string, name: string, isDir: bool)

  /** One call-back of the directory walk; the walk ends at the first one that carries an error. */
  datatype Visit = Visit(entry: Option<Entry>, error: Option<string>)

  /** Everything the pipeline is given: file names and contents, decoding, and the compiler. */
  datatype Files<!V, !P> = Files(
    isYaml: string -> bool,
    isJson: string -> bool,
    read: string -> Result<string, string>,
    split: string -> Result<seq<string>, string>,
    load: string -> Result<Option<V>, string>,
    compile: V -> Result<P, string>)

  predicate IsPolicyFile<V, P>(files: Files<V, P>, entry: Option<Entry>) {
    entry.Some? && !entry.value.isDir && (files.isYaml(entry.value.name) || files.isJson(entry.value.name))
  }

  method Walk<V, P>(files: Files<V, P>, visits: seq<Visit>) returns (r: Loaded<Entry>)
    ensures r == Walked(files, visits)
  {
    var out: seq<Entry> := [];
    for i := 0 to |visits|
      invariant forall k :: 0 <= k < i ==> visits[k].error.None?
      invariant out == PolicyFiles(files, visits[..i])
    {
      assert visits[..i + 1][..i] == visits[..i];
      if IsPolicyFile(files, visits[i].entry) {
        out := out + [visits[i].entry.value];
      }
      if visits[i].error.Some? {
        assert Visited(visits) == i + 1;
        return Loaded(out, [visits[i].error.value]);
      }
    }
    assert visits[..|visits|] == visits;
    return Loaded(out, []);
  }

  ghost function PolicyFiles<V, P>(files: Files<V, P>, visits: seq<Visit>): seq<Entry> {
    if visits == [] then []
    else
      var last := visits[|visits| - 1].entry;
      PolicyFiles(files, visits[..|visits| - 1]) + if IsPolicyFile(files, last) then [last.value] else []
  }

  /** How many call-backs take place: up to and including the first with an error. */
  ghost function Visited(visits: seq<Visit>): (n: nat)
    ensures n <= |visits|
    ensures forall k :: 0 <= k < n - 1 ==> visits[k].error.None?
    ensures n < |visits| ==> n > 0 && visits[n - 1].error.Some?
  {
    if visits == [] then 0 else if visits[0].error.Some? then 1 else 1 + Visited(visits[1..])
  }

  ghost function Walked<V, P>(files: Files<V, P>, visits: seq<Visit>): Loaded<Entry> {
    var n := Visited(visits);
    Loaded(
      PolicyFiles(files, visits[..n]),
      if n > 0 && visits[n - 1].error.Some? then [visits[n - 1].error.value] else [])
  }

  /** The documents of an entry, read under the entry's own name. */
  function Documents<V, P>(files: Files<V, P>, entry: Entry): Result<seq<string>, string> {
    if entry.isDir then Ok([])
    else if files.isYaml(entry.name) then
      match files.read(entry.name)
      case Err(x) => Err(x)
      case Ok(bytes) => files.split(bytes)
    else if files.isJson(entry.name) then
      match files.read(entry.name)
      case Err(x) => Err(x)
      case Ok(doc) => Ok([doc])
    else Ok([])
  }

  /** The five-stage pipeline: walk, split into documents, load, drop what is no policy, compile. */
  method LoadFs<V, P>(files: Files<V, P>, visits: seq<Visit>) returns (r: Loaded<P>)
    ensures Right(files, visits, r)
    ensures var walk := Walked(files, visits);
            var one := OnePass(files, walk.data);
            r == Loaded(one.outputs, walk.errs + one.fileErrs + one.loadErrs + one.compileErrs)
  {
    var input := Walk(files, visits);
    var transform := TransformErr(input, Reader(files));
    var flatten := Flatten(transform);
    var load := TransformErr(flatten, files.load);
    var filter := Filter(load, IsPolicy);
    r := TransformErr(filter, Compiling(files));
    StagedIsOnePass(files, input.data);
    AllIsCovered(files, visits);
  }

  // -------------------------------------------- where the pipeline's output comes from

  /** The walk makes `n` call-backs: all of them, or up to and including the first with an error. */
  ghost predicate WalkEnds(visits: seq<Visit>, n: nat) {
    && n <= |visits|
    && (forall k :: 0 <= k < n - 1 ==> visits[k].error.None?)
    && (n < |visits| ==> n > 0 && visits[n - 1].error.Some?)
  }

  lemma {:induction false} WalkEndsOnce(visits: seq<Visit>, n: nat)
    ensures WalkEnds(visits, n) <==> n == Visited(visits)
  {
    if visits != [] && visits[0].error.None? && n > 0 {
      WalkEndsOnce(visits[1..], n - 1);
      assert WalkEnds(visits, n) <==> WalkEnds(visits[1..], n - 1) by {
        assert forall k :: 0 <= k < |visits| - 1 ==> visits[1..][k] == visits[k + 1];
        assert forall k :: 0 < k < |visits| ==> visits[k] == visits[1..][k - 1];
      }
    }
  }

  /** Document `j` of an entry: of the documents in a YAML file, or the one that a JSON file is. */
  ghost predicate Holds<V, P>(files: Files<V, P>, e: Entry, j: nat, doc: string) {
    && !e.isDir
    && if files.isYaml(e.name) then
         && files.read(e.name).Ok?
         && var docs := files.split(files.read(e.name).value);
            docs.Ok? && j < |docs.value| && docs.value[j] == doc
       else files.isJson(e.name) && j == 0 && files.read(e.name) == Ok(doc)
  }

  ghost predicate DocumentOf<V, P>(files: Files<V, P>, entry: Option<Entry>, j: nat, doc: string) {
    entry.Some? && Holds(files, entry.value, j, doc)
  }

  /** The document loads to a policy that compiles. */
  ghost predicate Compiles<V, P>(files: Files<V, P>, doc: string) {
    files.load(doc).Ok? && files.load(doc).value.Some? && files.compile(files.load(doc).value.value).Ok?
  }

  ghost predicate CompilesTo<V, P>(files: Files<V, P>, doc: string, p: P) {
    Compiles(files, doc) && files.compile(files.load(doc).value.value).value == p
  }

  /** Document `j` of the entry compiles to `p`. */
  ghost predicate Gives<V, P>(files: Files<V, P>, entry: Option<Entry>, j: nat, p: P) {
    exists doc :: DocumentOf(files, entry, j, doc) && CompilesTo(files, doc, p)
  }

  datatype Origin = Origin(visit: nat, doc: nat)

  ghost predicate Earlier(a: Origin, b: Origin) {
    a.visit < b.visit || (a.visit == b.visit && a.doc < b.doc)
  }

  /** The document stands at that place among the first `n` call-backs. */
  ghost predicate StandsAt<V, P>(files: Files<V, P>, visits: seq<Visit>, n: nat, o: Origin, doc: string) {
    o.visit < n <= |visits| && DocumentOf(files, visits[o.visit].entry, o.doc, doc)
  }

  /** `data` is what the documents at `origins` compile to, in the order of the walk and of the documents
      in each file, and these are all that compile. */
  ghost predicate ListsAll<V, P>(files: Files<V, P>, visits: seq<Visit>, n: nat, data: seq<P>, origins: seq<Origin>) {
    && |data| == |origins|
    && (forall j, k :: 0 <= j < k < |origins| ==> Earlier(origins[j], origins[k]))
    && (forall k :: 0 <= k < |origins| ==>
          origins[k].visit < n <= |visits| && Gives(files, visits[origins[k].visit].entry, origins[k].doc, data[k]))
    && forall o, doc :: StandsAt(files, visits, n, o, doc) && Compiles(files, doc) ==> o in origins
  }

  /** The document does not load, or is a policy that does not compile. */
  ghost predicate DocumentFails<V, P>(files: Files<V, P>, doc: string, x: string) {
    || files.load(doc) == Err(x)
    || (files.load(doc).Ok? && files.load(doc).value.Some? && files.compile(files.load(doc).value.value) == Err(x))
  }

  /** A policy file that cannot be read or split, or one of whose documents fails. */
  ghost predicate FileFails<V, P>(files: Files<V, P>, entry: Option<Entry>, x: string) {
    && entry.Some? && !entry.value.isDir
    && var e := entry.value;
       || ((files.isYaml(e.name) || files.isJson(e.name)) && files.read(e.name) == Err(x))
       || (files.isYaml(e.name) && files.read(e.name).Ok? && files.split(files.read(e.name).value) == Err(x))
       || exists j, doc :: Holds(files, e, j, doc) && DocumentFails(files, doc, x)
  }

  ghost predicate Covered<V, P>(files: Files<V, P>, visits: seq<Visit>, n: nat, data: seq<P>) {
    exists origins :: ListsAll(files, visits, n, data, origins)
  }

  /** The walk ended with the error, or a file visited fails with it. */
  ghost predicate Fails<V, P>(files: Files<V, P>, visits: seq<Visit>, n: nat, x: string)
    requires n <= |visits|
  {
    || (n > 0 && visits[n - 1].error == Some(x))
    || exists i :: 0 <= i < n && FileFails(files, visits[i].entry, x)
  }

  /** Exactly the documents that compile are given, in order, and exactly the failures are reported. */
  ghost predicate Right<V, P>(files: Files<V, P>, visits: seq<Visit>, r: Loaded<P>) {
    forall n :: WalkEnds(visits, n) ==>
      Covered(files, visits, n, r.data) && forall x :: x in r.errs <==> Fails(files, visits, n, x)
  }

  /** `at` are the positions of the documents that compile, and `data` what they compile to. */
  ghost predicate Picks<V, P>(files: Files<V, P>, docs: seq<string>, data: seq<P>, at: seq<nat>) {
    && |data| == |at| && Ascending(at)
    && (forall k :: 0 <= k < |at| ==> at[k] < |docs| && CompilesTo(files, docs[at[k]], data[k]))
    && forall j: nat :: j < |docs| && Compiles(files, docs[j]) ==> j in at
  }

  lemma {:induction false} OutputsOf<V, P>(files: Files<V, P>, t: Tally<P>, docs: seq<string>)
    returns (data: seq<P>, at: seq<nat>)
    ensures AddDocuments(files, t, docs).outputs == t.outputs + data && Picks(files, docs, data, at)
  {
    data, at := [], [];
    if docs != [] {
      var last := |docs| - 1;
      data, at := OutputsOf(files, t, docs[..last]);
      OneMoreDocument(files, docs, data, at);
      if Compiles(files, docs[last]) {
        data, at := data + [files.compile(files.load(docs[last]).value.value).value], at + [last];
      }
    }
  }

  lemma OneMoreDocument<V, P>(files: Files<V, P>, docs: seq<string>, data: seq<P>, at: seq<nat>)
    requires docs != [] && Picks(files, docs[..|docs| - 1], data, at)
    ensures
      var doc := docs[|docs| - 1];
      if Compiles(files, doc)
      then Picks(files, docs, data + [files.compile(files.load(doc).value.value).value], at + [|docs| - 1])
      else Picks(files, docs, data, at)
  {
    var last := |docs| - 1;
    forall j | 0 <= j < last ensures docs[..last][j] == docs[j] {}
    assert last in at + [last] && forall j :: j in at ==> j in at + [last];
  }

  /** The errors of a list of documents. */
  lemma {:induction false} FailuresOfDocuments<V, P>(files: Files<V, P>, t: Tally<P>, docs: seq<string>, x: string)
    ensures
      var u := AddDocuments(files, t, docs);
      && u.fileErrs == t.fileErrs
      && (x in u.loadErrs + u.compileErrs
          <==> x in t.loadErrs + t.compileErrs || exists j :: 0 <= j < |docs| && DocumentFails(files, docs[j], x))
  {
    if docs != [] {
      var last := |docs| - 1;
      FailuresOfDocuments(files, t, docs[..last], x);
      assert forall j :: 0 <= j < last ==> docs[..last][j] == docs[j];
    }
  }

  lemma DocumentsHold<V, P>(files: Files<V, P>, e: Entry)
    ensures Documents(files, e).Ok? ==>
              forall j: nat, doc :: Holds(files, e, j, doc) <==>
                                    j < |Documents(files, e).value| && Documents(files, e).value[j] == doc
    ensures Documents(files, e).Err? ==> forall j: nat, doc :: !Holds(files, e, j, doc)
  {
  }

  /** What one call-back adds. */
  ghost function AddEntry<V, P>(files: Files<V, P>, t: Tally<P>, entry: Option<Entry>): Tally<P> {
    if !IsPolicyFile(files, entry) then t
    else
      match Documents(files, entry.value)
      case Err(x) => t.(fileErrs := t.fileErrs + [x])
      case Ok(docs) => AddDocuments(files, t, docs)
  }

  lemma OneMoreVisit<V, P>(files: Files<V, P>, visits: seq<Visit>, n: nat)
    requires 0 < n <= |visits|
    ensures OnePass(files, PolicyFiles(files, visits[..n]))
         == AddEntry(files, OnePass(files, PolicyFiles(files, visits[..n - 1])), visits[n - 1].entry)
  {
    assert visits[..n][..n - 1] == visits[..n - 1];
    var before, entry := PolicyFiles(files, visits[..n - 1]), visits[n - 1].entry;
    if IsPolicyFile(files, entry) {
      var after := PolicyFiles(files, visits[..n]);
      assert after == before + [entry.value];
      assert after[..|after| - 1] == before;
    } else {
      assert PolicyFiles(files, visits[..n]) == before;
    }
  }

  lemma OutputsOfEntry<V, P>(files: Files<V, P>, t: Tally<P>, entry: Option<Entry>)
    returns (data: seq<P>, at: seq<nat>)
    ensures
      && AddEntry(files, t, entry).outputs == t.outputs + data && |data| == |at| && Ascending(at)
      && (forall k :: 0 <= k < |at| ==> Gives(files, entry, at[k], data[k]))
      && forall j, doc :: DocumentOf(files, entry, j, doc) && Compiles(files, doc) ==> j in at
  {
    data, at := [], [];
    if IsPolicyFile(files, entry) {
      DocumentsHold(files, entry.value);
      if Documents(files, entry.value).Ok? {
        var docs := Documents(files, entry.value).value;
        data, at := OutputsOf(files, t, docs);
        forall k | 0 <= k < |at| ensures Gives(files, entry, at[k], data[k]) {
          assert DocumentOf(files, entry, at[k], docs[at[k]]);
        }
      }
    }
  }

  lemma FailuresOfEntry<V, P>(files: Files<V, P>, t: Tally<P>, entry: Option<Entry>, x: string)
    ensures
      var u := AddEntry(files, t, entry);
      x in u.fileErrs + u.loadErrs + u.compileErrs
      <==> x in t.fileErrs + t.loadErrs + t.compileErrs || FileFails(files, entry, x)
  {
    if IsPolicyFile(files, entry) {
      DocumentsHold(files, entry.value);
      if Documents(files, entry.value).Ok? {
        var docs := Documents(files, entry.value).value;
        FailuresOfDocuments(files, t, docs, x);
        if j :| 0 <= j < |docs| && DocumentFails(files, docs[j], x) {
          assert Holds(files, entry.value, j, docs[j]);
        }
      }
    }
  }

  /** The origins of what the first `n` call-backs give, from those of the first `n - 1`. */
  lemma OneMoreOrigin<V, P>(
    files: Files<V, P>, visits: seq<Visit>, n: nat, data: seq<P>, origins: seq<Origin>, more: seq<P>, at: seq<nat>)
    returns (origins': seq<Origin>)
    requires 0 < n <= |visits| && ListsAll(files, visits, n - 1, data, origins)
    requires |more| == |at| && Ascending(at)
    requires forall k :: 0 <= k < |at| ==> Gives(files, visits[n - 1].entry, at[k], more[k])
    requires forall j, doc :: DocumentOf(files, visits[n - 1].entry, j, doc) && Compiles(files, doc) ==> j in at
    ensures ListsAll(files, visits, n, data + more, origins')
  {
    var later := seq(|at|, k requires 0 <= k < |at| => Origin(n - 1, at[k]));
    origins' := origins + later;
    LaterOrigins(n - 1, origins, at, later);
    forall k | 0 <= k < |origins'|
      ensures origins'[k].visit < n && Gives(files, visits[origins'[k].visit].entry, origins'[k].doc, (data + more)[k])
    {
      if k < |origins| {
        assert origins'[k] == origins[k] && (data + more)[k] == data[k];
      } else {
        assert origins'[k] == later[k - |origins|] && (data + more)[k] == more[k - |origins|];
      }
    }
    forall o, doc | StandsAt(files, visits, n, o, doc) && Compiles(files, doc) ensures o in origins' {
      if o.visit < n - 1 {
        assert StandsAt(files, visits, n - 1, o, doc);
      } else {
        assert o.doc in at;
        assert o in later;
      }
    }
  }

  lemma LaterOrigins(visit: nat, origins: seq<Origin>, at: seq<nat>, more: seq<Origin>)
    requires forall j, k :: 0 <= j < k < |origins| ==> Earlier(origins[j], origins[k])
    requires forall k :: 0 <= k < |origins| ==> origins[k].visit < visit
    requires Ascending(at) && |more| == |at| && forall k :: 0 <= k < |at| ==> more[k] == Origin(visit, at[k])
    ensures forall j, k :: 0 <= j < k < |origins + more| ==> Earlier((origins + more)[j], (origins + more)[k])
    ensures forall j :: j in at ==> Origin(visit, j) in more
  {
    forall j | j in at ensures Origin(visit, j) in more {
      var k :| 0 <= k < |at| && at[k] == j;
      assert more[k] == Origin(visit, j);
    }
  }

  lemma {:induction false} Trace<V, P>(files: Files<V, P>, visits: seq<Visit>, n: nat) returns (origins: seq<Origin>)
    requires n <= |visits|
    ensures ListsAll(files, visits, n, OnePass(files, PolicyFiles(files, visits[..n])).outputs, origins)
  {
    origins := [];
    if n > 0 {
      origins := Trace(files, visits, n - 1);
      OneMoreVisit(files, visits, n);
      var t := OnePass(files, PolicyFiles(files, visits[..n - 1]));
      var data, at := OutputsOfEntry(files, t, visits[n - 1].entry);
      origins := OneMoreOrigin(files, visits, n, t.outputs, origins, data, at);
    }
  }

  lemma {:induction false} FailuresOfFiles<V, P>(files: Files<V, P>, visits: seq<Visit>, n: nat, x: string)
    requires n <= |visits|
    ensures
      var t := OnePass(files, PolicyFiles(files, visits[..n]));
      x in t.fileErrs + t.loadErrs + t.compileErrs
      <==> exists i :: 0 <= i < n && FileFails(files, visits[i].entry, x)
  {
    if n > 0 {
      OneMoreVisit(files, visits, n);
      FailuresOfFiles(files, visits, n - 1, x);
      FailuresOfEntry(files, OnePass(files, PolicyFiles(files, visits[..n - 1])), visits[n - 1].entry, x);
    }
  }

  lemma WhatTheFilesGive<V, P>(files: Files<V, P>, visits: seq<Visit>, n: nat)
    requires WalkEnds(visits, n)
    ensures
      var walk := Walked(files, visits);
      var one := OnePass(files, walk.data);
      && Covered(files, visits, n, one.outputs)
      && forall x :: x in walk.errs + (one.fileErrs + one.loadErrs + one.compileErrs) <==> Fails(files, visits, n, x)
  {
    WalkEndsOnce(visits, n);
    var origins := Trace(files, visits, n);
    var walk := Walked(files, visits);
    var one := OnePass(files, walk.data);
    forall x ensures x in walk.errs + (one.fileErrs + one.loadErrs + one.compileErrs) <==> Fails(files, visits, n, x) {
      FailuresOfFiles(files, visits, n, x);
    }
  }

  lemma AllIsCovered<V, P>(files: Files<V, P>, visits: seq<Visit>)
    ensures
      var walk := Walked(files, visits);
      var one := OnePass(files, walk.data);
      Right(files, visits, Loaded(one.outputs, walk.errs + one.fileErrs + one.loadErrs + one.compileErrs))
  {
    var walk := Walked(files, visits);
    var one := OnePass(files, walk.data);
    assert walk.errs + one.fileErrs + one.loadErrs + one.compileErrs
        == walk.errs + (one.fileErrs + one.loadErrs + one.compileErrs);
    var errs := walk.errs + (one.fileErrs + one.loadErrs + one.compileErrs);
    forall n | WalkEnds(visits, n)
      ensures Covered(files, visits, n, one.outputs) && forall x :: x in errs <==> Fails(files, visits, n, x)
    {
      WhatTheFilesGive(files, visits, n);
    }
  }

  function Reader<V, P>(files: Files<V, P>): Entry -> Result<seq<string>, string> {
    e => Documents(files, e)
  }

  predicate IsPolicy<V>(v: Option<V>) {
    v.Some?
  }

  function Compiling<V, P>(files: Files<V, P>): Option<V> -> Result<P, string> {
    (v: Option<V>) => match v { case Some(policy) => files.compile(policy) case None => Err("not a policy") }
  }

  // ------------------------------------------------- the pipeline in one pass

  datatype Tally<P> = Tally(
    outputs: seq<P>,
    fileErrs: seq<string>,
    loadErrs: seq<string>,
    compileErrs: seq<string>,
    dropped: nat,
    documents: nat)

  /** Follows one document to its end: an output, an error, or dropped as no policy. */
  ghost function AddDocument<V, P>(files: Files<V, P>, t: Tally<P>, doc: string): Tally<P> {
    var t := t.(documents := t.documents + 1);
    match files.load(doc)
    case Err(x) => t.(loadErrs := t.loadErrs + [x])
    case Ok(None) => t.(dropped := t.dropped + 1)
    case Ok(Some(policy)) =>
      match files.compile(policy)
      case Err(x) => t.(compileErrs := t.compileErrs + [x])
      case Ok(p) => t.(outputs := t.outputs + [p])
  }

  ghost function AddDocuments<V, P>(files: Files<V, P>, t: Tally<P>, docs: seq<string>): Tally<P> {
    if docs == [] then t
    else AddDocument(files, AddDocuments(files, t, docs[..|docs| - 1]), docs[|docs| - 1])
  }

  ghost function OnePass<V, P>(files: Files<V, P>, entries: seq<Entry>): Tally<P> {
    if entries == [] then Tally([], [], [], [], 0, 0)
    else
      var t := OnePass(files, entries[..|entries| - 1]);
      match Documents(files, entries[|entries| - 1])
      case Err(x) => t.(fileErrs := t.fileErrs + [x])
      case Ok(docs) => AddDocuments(files, t, docs)
  }

  ghost predicate Staged<V, P>(files: Files<V, P>, t: Tally<P>, docs: seq<string>) {
    var policies := Keep(IsPolicy, Oks(files.load, docs));
    && t.outputs == Oks(Compiling(files), policies)
    && t.loadErrs == Errs(files.load, docs)
    && t.compileErrs == Errs(Compiling(files), policies)
    && t.documents == |docs|
    && |docs| == |t.outputs| + |t.loadErrs| + |t.compileErrs| + t.dropped
  }

  lemma StagedDocument<V, P>(files: Files<V, P>, t: Tally<P>, docs: seq<string>, doc: string)
    requires Staged(files, t, docs)
    ensures Staged(files, AddDocument(files, t, doc), docs + [doc])
  {
    assert (docs + [doc])[..|docs|] == docs;
    var loaded := Oks(files.load, docs);
    match files.load(doc)
    case Err(_) => assert Oks(files.load, docs + [doc]) == loaded;
    case Ok(v) =>
      assert Oks(files.load, docs + [doc]) == loaded + [v];
      assert (loaded + [v])[..|loaded|] == loaded;
      var policies := Keep(IsPolicy, loaded);
      if v.Some? {
        assert Keep(IsPolicy, loaded + [v]) == policies + [v];
        assert (policies + [v])[..|policies|] == policies;
      } else {
        assert Keep(IsPolicy, loaded + [v]) == policies;
      }
  }

  lemma {:induction false} StagedDocuments<V, P>(files: Files<V, P>, t: Tally<P>, docs: seq<string>, more: seq<string>)
    requires Staged(files, t, docs)
    ensures Staged(files, AddDocuments(files, t, more), docs + more)
    ensures AddDocuments(files, t, more).fileErrs == t.fileErrs
  {
    if more == [] {
      assert docs + more == docs;
    } else {
      var last := |more| - 1;
      StagedDocuments(files, t, docs, more[..last]);
      StagedDocument(files, AddDocuments(files, t, more[..last]), docs + more[..last], more[last]);
      assert docs + more[..last] + [more[last]] == docs + more;
    }
  }

  /** Running the stages one after the other over everything gives what following each document to
      its end gives, and every document ends as exactly one of output, error or dropped. */
  lemma {:induction false} StagedIsOnePass<V, P>(files: Files<V, P>, entries: seq<Entry>)
    ensures
      var t := OnePass(files, entries);
      && Staged(files, t, Concat(Oks(Reader(files), entries)))
      && t.fileErrs == Errs(Reader(files), entries)
    ensures
      var t := OnePass(files, entries);
      t.documents == |t.outputs| + |t.loadErrs| + |t.compileErrs| + t.dropped
  {
    if entries != [] {
      var last := |entries| - 1;
      StagedIsOnePass(files, entries[..last]);
      match Documents(files, entries[last])
      case Err(_) => assert Oks(Reader(files), entries) == Oks(Reader(files), entries[..last]);
      case Ok(docs) =>
        var lists := Oks(Reader(files), entries[..last]);
        assert Oks(Reader(files), entries) == lists + [docs];
        assert (lists + [docs])[..|lists|] == lists;
        StagedDocuments(files, OnePass(files, entries[..last]), Concat(lists), docs);
    }
  }

  ghost predicate ReadsItsPath<V, P>(files: Files<V, P>, e: Entry) {
    Documents(files, e) == Documents(files, Entry(e.path, e.path, e.isDir))
  }

  /** A file is read under its base name: whatever the files contain, that is the file the walk
      found exactly when the file sits at the root, so that its name is its path. */
  lemma FilesAreReadAtTheRoot<V, P>(
    e: Entry, load: string -> Result<Option<V>, string>, compile: V -> Result<P, string>)
    requires !e.isDir
    ensures (forall files: Files<V, P> :: ReadsItsPath(files, e)) <==> e.path == e.name
  {
    if e.path != e.name {
      var files := Files(
        _ => false, _ => true, name => if name == e.name then Ok("") else Err("not found"), _ => Ok([]), load, compile);
      assert !ReadsItsPath(files, e);
    }
  }
}
