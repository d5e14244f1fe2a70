/** Variables are computed on demand and memoised; here that is shown to terminate and to agree
    with computing every variable first, in declaration order. */
module Laziness {
  import opened Wrappers
  import opened Cel
  import opened Policies
  import opened Compiler

  ghost predicate Distinct(vs: seq<Variable>) {
    forall i, j :: 0 <= i < j < |vs| ==> vs[i].name != vs[j].name
  }

  /** Every variable reads only variables declared before it. */
  ghost predicate Scoped(vs: seq<Variable>) {
    forall i :: 0 <= i < |vs| ==> ScopedAt(vs, i)
  }

  ghost predicate ScopedAt(vs: seq<Variable>, i: nat)
    requires i < |vs|
  {
    Reads(vs[i].expression) <= Names(vs, i)
  }

  /** The reference semantics: the first `i` variables, each computed once, in declaration order. */
  function EagerVars(r: Request, vs: seq<Variable>, i: nat): (vars: Memo)
    requires i <= |vs|
    ensures vars.Keys == Names(vs, i)
  {
    if i == 0 then map[]
    else
      var before := EagerVars(r, vs, i - 1);
      before[vs[i - 1].name := Eval(r, before, vs[i - 1].expression)]
  }

  lemma {:induction false} AcceptedVariablesAreScoped(mode: Mode, vs: seq<Variable>, n: nat)
    requires n <= |vs| && TypesAfter(mode, vs, n).Some?
    ensures forall i :: 0 <= i < n ==> ScopedAt(vs, i)
  {
    if n > 0 {
      AcceptedVariablesAreScoped(mode, vs, n - 1);
      CheckedReadsAreRegistered(mode, TypesAfter(mode, vs, n - 1).value, vs[n - 1].expression);
    }
  }

  lemma {:induction false} Declaration(vs: seq<Variable>, i: nat, x: string) returns (j: nat)
    requires i <= |vs| && x in Names(vs, i)
    ensures j < i && vs[j].name == x
  {
    j := i - 1;
    if vs[j].name != x {
      j := Declaration(vs, i - 1, x);
    }
  }

  lemma {:induction false} EagerVarsStable(r: Request, vs: seq<Variable>, j: nat, n: nat)
    requires Distinct(vs) && j < n <= |vs|
    ensures vs[j].name in EagerVars(r, vs, n)
    ensures EagerVars(r, vs, n)[vs[j].name] == Eval(r, EagerVars(r, vs, j), vs[j].expression)
  {
    if j < n - 1 {
      EagerVarsStable(r, vs, j, n - 1);
    }
  }

  /** In the full environment, too, each variable has the value of its expression. */
  lemma EagerFixpoint(r: Request, vs: seq<Variable>, j: nat)
    requires Distinct(vs) && Scoped(vs) && j < |vs|
    ensures vs[j].name in EagerVars(r, vs, |vs|)
    ensures EagerVars(r, vs, |vs|)[vs[j].name] == Eval(r, EagerVars(r, vs, |vs|), vs[j].expression)
  {
    var all, before := EagerVars(r, vs, |vs|), EagerVars(r, vs, j);
    EagerVarsStable(r, vs, j, |vs|);
    assert ScopedAt(vs, j);
    forall x | x in Reads(vs[j].expression)
      ensures x in all && x in before && all[x] == before[x]
    {
      var k := Declaration(vs, j, x);
      EagerVarsStable(r, vs, k, j);
      EagerVarsStable(r, vs, k, |vs|);
    }
    EvalFrame(r, all, before, vs[j].expression);
  }

  /** A memo table is consistent with `all` when it holds only outcomes of `all`. */
  ghost predicate Consistent(memo: Memo, all: Memo) {
    forall x :: x in memo ==> x in all && memo[x] == all[x]
  }

  /** The j-th variable is registered under its name and `all` gives it the value of its expression. */
  ghost predicate SolvedAt(programs: map<string, Expr>, r: Request, vs: seq<Variable>, all: Memo, j: nat)
    requires j < |vs|
  {
    var v := vs[j];
    && v.name in programs && programs[v.name] == v.expression
    && v.name in all && all[v.name] == Eval(r, all, v.expression)
    && ScopedAt(vs, j)
  }

  ghost predicate Gives(o: Option<(Outcome, Memo)>, expected: Outcome, all: Memo) {
    o.Some? && o.value.0 == expected && Consistent(o.value.1, all)
  }

  /** Demanding any expression over the first `i` variables, from any consistent memo table, ends
      within `i` nested variables, gives the outcome of `all`, and leaves the table consistent. */
  lemma {:induction false} Demand(
    depth: nat, programs: map<string, Expr>, r: Request, vs: seq<Variable>, all: Memo, i: nat, memo: Memo, e: Expr)
    requires forall j :: 0 <= j < |vs| ==> SolvedAt(programs, r, vs, all, j)
    requires i <= |vs| && i <= depth && Reads(e) <= Names(vs, i) && Consistent(memo, all)
    ensures Gives(LazyEval(depth, programs, r, memo, e), Eval(r, all, e), all)
    decreases depth, e
  {
    match e
    case Header(obj, _) => Demand(depth, programs, r, vs, all, i, memo, obj);
    case Variables(x) =>
      var j := Declaration(vs, i, x);
      assert SolvedAt(programs, r, vs, all, j);
      if x !in memo {
        Demand(depth - 1, programs, r, vs, all, j, memo, vs[j].expression);
      }
    case Equals(l, rr) =>
      Demand(depth, programs, r, vs, all, i, memo, l);
      Demand(depth, programs, r, vs, all, i, LazyEval(depth, programs, r, memo, l).value.1, rr);
    case And(l, rr) =>
      Demand(depth, programs, r, vs, all, i, memo, l);
      Demand(depth, programs, r, vs, all, i, LazyEval(depth, programs, r, memo, l).value.1, rr);
    case Cond(c, a, b) =>
      Demand(depth, programs, r, vs, all, i, memo, c);
      var m := LazyEval(depth, programs, r, memo, c).value.1;
      Demand(depth, programs, r, vs, all, i, m, a);
      Demand(depth, programs, r, vs, all, i, m, b);
    case Respond(_, body) => Demand(depth, programs, r, vs, all, i, memo, body);
    case _ => EvalFrame(r, all, map[], e);
  }

  /** Lazy evaluation is eager evaluation: for variables with distinct names, each reading only
      earlier ones, a demand ends at any depth that is at least the number of variables, in any
      state of the memo table that earlier demands can have left, and gives the eager outcome. */
  lemma LazyIsEager(depth: nat, r: Request, vs: seq<Variable>, memo: Memo, e: Expr)
    requires Distinct(vs) && Scoped(vs) && |vs| <= depth
    requires Reads(e) <= Names(vs, |vs|) && Consistent(memo, EagerVars(r, vs, |vs|))
    ensures
      var all := EagerVars(r, vs, |vs|);
      Gives(LazyEval(depth, Programs(vs, |vs|), r, memo, e), Eval(r, all, e), all)
  {
    var programs, all := Programs(vs, |vs|), EagerVars(r, vs, |vs|);
    forall j | 0 <= j < |vs| ensures SolvedAt(programs, r, vs, all, j) {
      LastProgramWins(vs, j, |vs|);
      EagerFixpoint(r, vs, j);
      assert ScopedAt(vs, j);
    }
    Demand(depth, programs, r, vs, all, |vs|, memo, e);
  }

  /** The table keeps what it had, and gains entries of programs only. */
  ghost predicate Kept(before: Memo, after: Memo, programs: map<string, Expr>) {
    (forall x :: x in before ==> x in after && after[x] == before[x]) && after.Keys <= before.Keys + programs.Keys
  }

  ghost predicate Computed(memo: Memo, x: string, o: Outcome) {
    x in memo && memo[x] == o
  }

  lemma WhatIsRemembered(depth: nat, programs: map<string, Expr>, r: Request, memo: Memo, e: Expr)
    ensures
      var l := LazyEval(depth, programs, r, memo, e);
      l.Some? ==>
        && Kept(memo, l.value.1, programs)
        && (e.Variables? && e.name in programs ==> Computed(l.value.1, e.name, l.value.0))
  {
    if LazyEval(depth, programs, r, memo, e).Some? {
      Remembers(depth, programs, r, memo, e);
    }
  }

  /** Whatever is computed is remembered for good, and only the values of programs are; so a variable is
      computed at most once. */
  lemma {:induction false} Remembers(depth: nat, programs: map<string, Expr>, r: Request, memo: Memo, e: Expr)
    requires LazyEval(depth, programs, r, memo, e).Some?
    ensures
      var (o, m) := LazyEval(depth, programs, r, memo, e).value;
      && Kept(memo, m, programs)
      && (e.Variables? && e.name in programs ==>
            Computed(m, e.name, o) && forall d: nat :: LazyEval(d, programs, r, m, e) == Some((o, m)))
    decreases depth, e
  {
    match e
    case Header(obj, _) => Remembers(depth, programs, r, memo, obj);
    case Variables(x) =>
      if x !in memo && x in programs {
        Remembers(depth - 1, programs, r, memo, programs[x]);
      }
    case Equals(l, rr) =>
      Remembers(depth, programs, r, memo, l);
      var (o, m) := LazyEval(depth, programs, r, memo, l).value;
      if o.Ok? {
        Remembers(depth, programs, r, m, rr);
      }
    case And(l, rr) =>
      Remembers(depth, programs, r, memo, l);
      var (o, m) := LazyEval(depth, programs, r, memo, l).value;
      if o != Ok(BoolValue(false)) {
        Remembers(depth, programs, r, m, rr);
      }
    case Cond(c, a, b) =>
      Remembers(depth, programs, r, memo, c);
      var (o, m) := LazyEval(depth, programs, r, memo, c).value;
      if o.Ok? && o.value.BoolValue? {
        Remembers(depth, programs, r, m, if o.value.b then a else b);
      }
    case Respond(_, body) => Remembers(depth, programs, r, memo, body);
    case _ =>
  }

  // -------------------------------------------------- when is laziness safe?

  /** What a program with a rank reads has a lower rank, so that it does not lead back to itself. */
  ghost predicate Ranked(programs: map<string, Expr>, rank: map<string, nat>) {
    forall x, y :: x in programs && x in rank && y in programs && y in Reads(programs[x]) ==>
      y in rank && rank[y] < rank[x]
  }

  /** Repeated names or not, a demand ends when the programs it leads to do not read each other in a
      circle, whatever others do: a depth above the ranks of what is demanded is enough. */
  lemma {:induction false} AcyclicReadsEnd(
    depth: nat, programs: map<string, Expr>, rank: map<string, nat>, r: Request, memo: Memo, e: Expr)
    requires Ranked(programs, rank)
    requires forall y :: y in Reads(e) && y in programs ==> y in rank && rank[y] < depth
    ensures LazyEval(depth, programs, r, memo, e).Some?
    decreases depth, e
  {
    match e
    case Header(obj, _) => AcyclicReadsEnd(depth, programs, rank, r, memo, obj);
    case Variables(x) =>
      if x !in memo && x in programs {
        AcyclicReadsEnd(depth - 1, programs, rank, r, memo, programs[x]);
      }
    case Equals(l, rr) =>
      AcyclicReadsEnd(depth, programs, rank, r, memo, l);
      AcyclicReadsEnd(depth, programs, rank, r, LazyEval(depth, programs, r, memo, l).value.1, rr);
    case And(l, rr) =>
      AcyclicReadsEnd(depth, programs, rank, r, memo, l);
      AcyclicReadsEnd(depth, programs, rank, r, LazyEval(depth, programs, r, memo, l).value.1, rr);
    case Cond(c, a, b) =>
      AcyclicReadsEnd(depth, programs, rank, r, memo, c);
      var m := LazyEval(depth, programs, r, memo, c).value.1;
      AcyclicReadsEnd(depth, programs, rank, r, m, a);
      AcyclicReadsEnd(depth, programs, rank, r, m, b);
    case Respond(_, body) => AcyclicReadsEnd(depth, programs, rank, r, memo, body);
    case _ =>
  }

  /** Each declared variable, demanded on its own, is computed at some finite depth. */
  ghost predicate Computable(vs: seq<Variable>) {
    forall r, x :: x in Programs(vs, |vs|) ==> Ends(Programs(vs, |vs|), r, x)
  }

  ghost predicate Ends(programs: map<string, Expr>, r: Request, x: string) {
    exists depth: nat :: LazyEval(depth, programs, r, map[], Variables(x)).Some?
  }

  ghost predicate Named(vs: seq<Variable>, names: seq<string>) {
    |vs| == |names| && forall i :: 0 <= i < |vs| ==> vs[i].name == names[i]
  }

  lemma SelfReferenceNeverEnds(depth: nat, programs: map<string, Expr>, r: Request, x: string)
    requires x in programs && programs[x] == Variables(x)
    ensures LazyEval(depth, programs, r, map[], Variables(x)).None?
    decreases depth
  {
    if depth > 0 {
      SelfReferenceNeverEnds(depth - 1, programs, r, x);
    }
  }

  /** Variables that are all `true`, except that the one at `last` reads its own name. */
  ghost function SelfReading(names: seq<string>, last: nat): (vs: seq<Variable>)
    ensures Named(vs, names)
  {
    seq(|names|, i requires 0 <= i < |names| =>
      Variable(names[i], if i == last then Variables(names[i]) else BoolLit(true)))
  }

  lemma {:induction false} FirstIsDeclared(vs: seq<Variable>, j: nat, i: nat)
    requires j < i <= |vs|
    ensures vs[j].name in Names(vs, i)
  {
    if j < i - 1 {
      FirstIsDeclared(vs, j, i - 1);
    }
  }

  lemma {:induction false} SelfReadingAccepted(mode: Mode, names: seq<string>, first: nat, last: nat, n: nat)
    requires first < last < |names| && names[first] == names[last] && n <= |names|
    ensures
      var fields := TypesAfter(mode, SelfReading(names, last), n);
      fields.Some? && forall x :: x in fields.value ==> fields.value[x] == BoolType
  {
    if n > 0 {
      SelfReadingAccepted(mode, names, first, last, n - 1);
      var vs := SelfReading(names, last);
      if n - 1 == last {
        FirstIsDeclared(vs, first, last);
      }
    }
  }

  lemma LastOccurrence(names: seq<string>, i: nat, j: nat) returns (last: nat)
    requires i < j < |names| && names[i] == names[j]
    ensures i < last < |names| && names[last] == names[i]
    ensures forall k :: last < k < |names| ==> names[k] != names[last]
  {
    last := j;
    for n := j + 1 to |names|
      invariant i < last < |names| && names[last] == names[i]
      invariant forall k :: last < k < n ==> names[k] != names[last]
    {
      if names[n] == names[i] {
        last := n;
      }
    }
  }

  /** For a list of variable names, every accepted way of declaring variables under those names can
      be computed on demand exactly when no name is repeated: acceptance alone is not enough, since
      a second declaration of a name may read the first one's field and, at run time, itself. */
  lemma ComputableIffNamesDistinct(mode: Mode, names: seq<string>)
    ensures
      (forall vs :: Named(vs, names) && TypesAfter(mode, vs, |vs|).Some? ==> Computable(vs))
      <==> (forall i, j :: 0 <= i < j < |names| ==> names[i] != names[j])
  {
    if i, j :| 0 <= i < j < |names| && names[i] == names[j] {
      var last := LastOccurrence(names, i, j);
      var vs := SelfReading(names, last);
      SelfReadingAccepted(mode, names, i, last, |names|);
      LastProgramWins(vs, last, |vs|);
      var r := Request(mode, map[]);
      forall depth: nat ensures LazyEval(depth, Programs(vs, |vs|), r, map[], Variables(names[last])).None? {
        SelfReferenceNeverEnds(depth, Programs(vs, |vs|), r, names[last]);
      }
      assert !Ends(Programs(vs, |vs|), r, names[last]);
      assert !Computable(vs);
    } else {
      forall vs | Named(vs, names) && TypesAfter(mode, vs, |vs|).Some?
        ensures Computable(vs)
      {
        AcceptedVariablesAreScoped(mode, vs, |vs|);
        forall r, x | x in Programs(vs, |vs|)
          ensures Ends(Programs(vs, |vs|), r, x)
        {
          LazyIsEager(|vs|, r, vs, map[], Variables(x));
        }
      }
    }
  }
}
