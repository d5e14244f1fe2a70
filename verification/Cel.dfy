/** The expression language that policies are written in, reduced to the part that the policy
    compiler and evaluator depend on: a checker that looks fields of `variables` up in a growing
    type environment, an evaluator, and the lazy, memoising evaluator that the policy uses. */
module Cel {
  import opened Wrappers

  datatype Mode = Envoy | HTTP

  datatype Request = Request(mode: Mode, headers: map<string, string>)

  datatype Response = Response(mode: Mode, body: string)

  datatype Type = BoolType | StringType | NullType | RequestType(mode: Mode) | ResponseType(mode: Mode)

  datatype Value =
    | BoolValue(b: bool)
    | StringValue(s: string)
    | NullValue
    | RequestValue(request: Request)
    | ResponseValue(response: Response)

  datatype Expr =
    | Unparsable(text: string)
    | BoolLit(b: bool)
    | StringLit(s: string)
    | NullLit
    | Object
    | Header(obj: Expr, key: string)
    | Variables(name: string)
    | Equals(left: Expr, right: Expr)
    | And(left: Expr, right: Expr)
    | Cond(test: Expr, ifTrue: Expr, ifFalse: Expr)
    | Respond(mode: Mode, body: Expr)

  /** NoSuchKey and NullAccess are failures that a well-typed expression can meet;
      NoSuchVariable and NoSuchOverload are failures that the checker is there to exclude. */
  datatype Error =
    | NoSuchKey(key: string)
    | NullAccess
    | NoSuchVariable(name: string)
    | NoSuchOverload
    | NotBool
    | NotResponse
    | ImageData(text: string)

  type Outcome = Result<Value, Error>

  // ---------------------------------------------------------------- checker

  predicate Nullable(t: Type) {
    t.RequestType? || t.ResponseType?
  }

  /** The common type of the two branches of a conditional; null is assignable to message types. */
  function Join(t: Type, u: Type): Option<Type> {
    if t == u then Some(t)
    else if t == NullType && Nullable(u) then Some(u)
    else if u == NullType && Nullable(t) then Some(t)
    else None
  }

  function Check(mode: Mode, fields: map<string, Type>, e: Expr): Option<Type> {
    match e
    case Unparsable(_) => None
    case BoolLit(_) => Some(BoolType)
    case StringLit(_) => Some(StringType)
    case NullLit => Some(NullType)
    case Object => Some(RequestType(mode))
    case Header(obj, _) =>
      if Check(mode, fields, obj) == Some(RequestType(mode)) then Some(StringType) else None
    case Variables(x) => if x in fields then Some(fields[x]) else None
    case Equals(l, r) =>
      var t, u := Check(mode, fields, l), Check(mode, fields, r);
      if t.Some? && u.Some? && Join(t.value, u.value).Some? then Some(BoolType) else None
    case And(l, r) =>
      if Check(mode, fields, l) == Some(BoolType) && Check(mode, fields, r) == Some(BoolType)
      then Some(BoolType) else None
    case Cond(c, a, b) =>
      var t, u := Check(mode, fields, a), Check(mode, fields, b);
      if Check(mode, fields, c) == Some(BoolType) && t.Some? && u.Some? then Join(t.value, u.value) else None
    case Respond(m, body) =>
      // the library of the policy's own mode is the only one in scope
      if m == mode && Check(mode, fields, body) == Some(StringType) then Some(ResponseType(m)) else None
  }

  /** What checks, and with which type: no more than this, and no less. */
  lemma OperatorsCheck(mode: Mode, fields: map<string, Type>, a: Expr, b: Expr, c: Expr, t: Type)
    ensures
      var u, v := Check(mode, fields, a), Check(mode, fields, b);
      && (Check(mode, fields, Equals(a, b)) == Some(t)
          <==> t == BoolType && u.Some? && v.Some? && Join(u.value, v.value).Some?)
      && (Check(mode, fields, And(a, b)) == Some(t) <==> t == BoolType && u == v == Some(BoolType))
      && (Check(mode, fields, Cond(c, a, b)) == Some(t)
          <==> Check(mode, fields, c) == Some(BoolType) && u.Some? && v.Some? && Join(u.value, v.value) == Some(t))
  {
  }

  lemma MessagesCheck(mode: Mode, fields: map<string, Type>, a: Expr, x: string, m: Mode, t: Type)
    ensures Check(mode, fields, Header(a, x)) == Some(t)
            <==> Check(mode, fields, a) == Some(RequestType(mode)) && t == StringType
    ensures Check(mode, fields, Respond(m, a)) == Some(t)
            <==> m == mode && Check(mode, fields, a) == Some(StringType) && t == ResponseType(mode)
    ensures Check(mode, fields, Variables(x)) == Some(t) <==> x in fields && fields[x] == t
    ensures Check(mode, fields, Object) == Some(t) <==> t == RequestType(mode)
  {
  }

  /** The fields of `variables` that an expression mentions. */
  function Reads(e: Expr): set<string> {
    match e
    case Header(obj, _) => Reads(obj)
    case Variables(x) => {x}
    case Equals(l, r) => Reads(l) + Reads(r)
    case And(l, r) => Reads(l) + Reads(r)
    case Cond(c, a, b) => Reads(c) + Reads(a) + Reads(b)
    case Respond(_, body) => Reads(body)
    case _ => {}
  }

  lemma {:induction false} CheckedReadsAreRegistered(mode: Mode, fields: map<string, Type>, e: Expr)
    requires Check(mode, fields, e).Some?
    ensures Reads(e) <= fields.Keys
  {
    match e
    case Header(obj, _) => CheckedReadsAreRegistered(mode, fields, obj);
    case Equals(l, r) =>
      CheckedReadsAreRegistered(mode, fields, l);
      CheckedReadsAreRegistered(mode, fields, r);
    case And(l, r) =>
      CheckedReadsAreRegistered(mode, fields, l);
      CheckedReadsAreRegistered(mode, fields, r);
    case Cond(c, a, b) =>
      CheckedReadsAreRegistered(mode, fields, c);
      CheckedReadsAreRegistered(mode, fields, a);
      CheckedReadsAreRegistered(mode, fields, b);
    case Respond(_, body) => CheckedReadsAreRegistered(mode, fields, body);
    case _ =>
  }

  // -------------------------------------------------------------- evaluation

  function EvalHeader(obj: Outcome, key: string): Outcome {
    match obj
    case Ok(RequestValue(q)) => if key in q.headers then Ok(StringValue(q.headers[key])) else Err(NoSuchKey(key))
    case Ok(NullValue) => Err(NullAccess)
    case Ok(_) => Err(NoSuchOverload)
    case Err(_) => obj
  }

  function EvalEquals(l: Outcome, r: Outcome): Outcome {
    if l.Err? then l else if r.Err? then r else Ok(BoolValue(l.value == r.value))
  }

  /** A conjunction absorbs an error on one side when the other side is false. */
  function EvalAnd(l: Outcome, r: Outcome): Outcome {
    if l == Ok(BoolValue(false)) || r == Ok(BoolValue(false)) then Ok(BoolValue(false))
    else if l.Err? then l
    else if r.Err? then r
    else if l.value.BoolValue? && r.value.BoolValue? then Ok(BoolValue(true))
    else Err(NoSuchOverload)
  }

  function EvalRespond(mode: Mode, body: Outcome): Outcome {
    match body
    case Ok(StringValue(s)) => Ok(ResponseValue(Response(mode, s)))
    case Ok(_) => Err(NoSuchOverload)
    case Err(_) => body
  }

  /** Evaluation against variables whose outcomes are all known. */
  function Eval(r: Request, vars: map<string, Outcome>, e: Expr): Outcome {
    match e
    case Unparsable(_) => Err(NoSuchOverload)
    case BoolLit(b) => Ok(BoolValue(b))
    case StringLit(s) => Ok(StringValue(s))
    case NullLit => Ok(NullValue)
    case Object => Ok(RequestValue(r))
    case Header(obj, key) => EvalHeader(Eval(r, vars, obj), key)
    case Variables(x) => if x in vars then vars[x] else Err(NoSuchVariable(x))
    case Equals(l, rr) => EvalEquals(Eval(r, vars, l), Eval(r, vars, rr))
    case And(l, rr) => EvalAnd(Eval(r, vars, l), Eval(r, vars, rr))
    case Cond(c, a, b) =>
      (match Eval(r, vars, c)
       case Ok(BoolValue(t)) => if t then Eval(r, vars, a) else Eval(r, vars, b)
       case Ok(_) => Err(NoSuchOverload)
       case Err(x) => Err(x))
    case Respond(m, body) => EvalRespond(m, Eval(r, vars, body))
  }

  lemma LiteralsMean(r: Request, vars: map<string, Outcome>, b: bool, s: string, x: string)
    ensures Eval(r, vars, BoolLit(b)) == Ok(BoolValue(b))
    ensures Eval(r, vars, StringLit(s)) == Ok(StringValue(s))
    ensures Eval(r, vars, NullLit) == Ok(NullValue)
    ensures Eval(r, vars, Object) == Ok(RequestValue(r))
    ensures x in vars ==> Eval(r, vars, Variables(x)) == vars[x]
    ensures x !in vars ==> Eval(r, vars, Variables(x)) == Err(NoSuchVariable(x))
  {
  }

  /** A conjunction is false as soon as one side is, even if the other fails. */
  lemma ConjunctionMeans(r: Request, vars: map<string, Outcome>, a: Expr, b: Expr)
    ensures Eval(r, vars, And(a, b)) == Ok(BoolValue(false))
            <==> Eval(r, vars, a) == Ok(BoolValue(false)) || Eval(r, vars, b) == Ok(BoolValue(false))
    ensures Eval(r, vars, And(a, b)) == Ok(BoolValue(true))
            <==> Eval(r, vars, a) == Ok(BoolValue(true)) && Eval(r, vars, b) == Ok(BoolValue(true))
  {
  }

  /** A conditional is the branch that its test selects. */
  lemma ConditionalMeans(r: Request, vars: map<string, Outcome>, test: Expr, a: Expr, b: Expr)
    ensures Eval(r, vars, test) == Ok(BoolValue(true)) ==> Eval(r, vars, Cond(test, a, b)) == Eval(r, vars, a)
    ensures Eval(r, vars, test) == Ok(BoolValue(false)) ==> Eval(r, vars, Cond(test, a, b)) == Eval(r, vars, b)
    ensures Eval(r, vars, test).Err? ==> Eval(r, vars, Cond(test, a, b)) == Eval(r, vars, test)
  {
  }

  /** Equality compares values, and passes the first failure through. */
  lemma EqualityMeans(r: Request, vars: map<string, Outcome>, a: Expr, b: Expr)
    ensures
      var x, y, o := Eval(r, vars, a), Eval(r, vars, b), Eval(r, vars, Equals(a, b));
      && (o == Ok(BoolValue(true)) <==> x.Ok? && x == y)
      && (o == Ok(BoolValue(false)) <==> x.Ok? && y.Ok? && x != y)
      && (x.Err? ==> o == x) && (x.Ok? && y.Err? ==> o == y)
  {
  }

  /** A header is looked up in a request; a response carries a text. */
  lemma MessagesMean(r: Request, vars: map<string, Outcome>, e: Expr, key: string, mode: Mode)
    ensures forall q :: Eval(r, vars, e) == Ok(RequestValue(q)) ==>
              Eval(r, vars, Header(e, key)) ==
              if key in q.headers then Ok(StringValue(q.headers[key])) else Err(NoSuchKey(key))
    ensures Eval(r, vars, e) == Ok(NullValue) ==> Eval(r, vars, Header(e, key)) == Err(NullAccess)
    ensures forall s :: Eval(r, vars, e) == Ok(StringValue(s)) ==>
              Eval(r, vars, Respond(mode, e)) == Ok(ResponseValue(Response(mode, s)))
    ensures Eval(r, vars, e).Err? ==>
              Eval(r, vars, Header(e, key)) == Eval(r, vars, e) == Eval(r, vars, Respond(mode, e))
  {
  }

  /** Two environments that agree on what an expression reads give it the same outcome. */
  lemma {:induction false} EvalFrame(r: Request, vars: map<string, Outcome>, vars': map<string, Outcome>, e: Expr)
    requires forall x :: x in Reads(e) ==> x in vars && x in vars' && vars[x] == vars'[x]
    ensures Eval(r, vars, e) == Eval(r, vars', e)
  {
    match e
    case Header(obj, _) => EvalFrame(r, vars, vars', obj);
    case Equals(l, rr) =>
      EvalFrame(r, vars, vars', l);
      EvalFrame(r, vars, vars', rr);
    case And(l, rr) =>
      EvalFrame(r, vars, vars', l);
      EvalFrame(r, vars, vars', rr);
    case Cond(c, a, b) =>
      EvalFrame(r, vars, vars', c);
      EvalFrame(r, vars, vars', a);
      EvalFrame(r, vars, vars', b);
    case Respond(_, body) => EvalFrame(r, vars, vars', body);
    case _ =>
  }

  // ----------------------------------------------------------- type soundness

  predicate HasType(v: Value, t: Type) {
    match t
    case BoolType => v.BoolValue?
    case StringType => v.StringValue?
    case NullType => v.NullValue?
    case RequestType(m) => v.NullValue? || (v.RequestValue? && v.request.mode == m)
    case ResponseType(m) => v.NullValue? || (v.ResponseValue? && v.response.mode == m)
  }

  function Sample(t: Type): Value {
    match t
    case BoolType => BoolValue(true)
    case StringType => StringValue("")
    case NullType => NullValue
    case RequestType(m) => RequestValue(Request(m, map[]))
    case ResponseType(m) => ResponseValue(Response(m, ""))
  }

  /** The common type is the one of the two that has all the values of both. */
  lemma JoinIsTheLargerType(t: Type, u: Type, w: Type)
    ensures Join(t, u) == Some(w)
            <==> (w == t || w == u) && forall v :: HasType(v, t) || HasType(v, u) ==> HasType(v, w)
  {
    if (w == t || w == u) && forall v :: HasType(v, t) || HasType(v, u) ==> HasType(v, w) {
      assert HasType(Sample(t), t) && HasType(Sample(u), u);
    }
  }

  /** A failure that a checked expression can still meet. */
  predicate Ordinary(x: Error) {
    x.NoSuchKey? || x.NullAccess?
  }

  /** An outcome that a checked expression of type `t` may have. */
  predicate WellTyped(o: Outcome, t: Type) {
    match o
    case Ok(v) => HasType(v, t)
    case Err(x) => Ordinary(x)
  }

  ghost predicate EnvTyped(vars: map<string, Outcome>, fields: map<string, Type>) {
    forall x :: x in fields ==> x in vars && WellTyped(vars[x], fields[x])
  }

  lemma {:induction false} EvalSound(r: Request, fields: map<string, Type>, vars: map<string, Outcome>, e: Expr)
    requires Check(r.mode, fields, e).Some? && EnvTyped(vars, fields)
    ensures WellTyped(Eval(r, vars, e), Check(r.mode, fields, e).value)
  {
    match e
    case Header(obj, _) => EvalSound(r, fields, vars, obj);
    case Equals(l, rr) =>
      EvalSound(r, fields, vars, l);
      EvalSound(r, fields, vars, rr);
    case And(l, rr) =>
      EvalSound(r, fields, vars, l);
      EvalSound(r, fields, vars, rr);
    case Cond(c, a, b) =>
      EvalSound(r, fields, vars, c);
      EvalSound(r, fields, vars, a);
      EvalSound(r, fields, vars, b);
    case Respond(_, body) => EvalSound(r, fields, vars, body);
    case _ =>
  }

  // ---------------------------------------------------------- lazy evaluation

  type Memo = map<string, Outcome>

  /** Evaluation with variables that are computed on first use and then remembered. `depth` bounds
      how many variables may be under computation at once; None means the bound was exceeded, so an
      evaluation that never ends is one that gives None at every depth. */
  function LazyEval(depth: nat, programs: map<string, Expr>, r: Request, memo: Memo, e: Expr)
    : Option<(Outcome, Memo)>
    decreases depth, e
  {
    match e
    case Header(obj, key) =>
      (match LazyEval(depth, programs, r, memo, obj)
       case None => None
       case Some((o, m)) => Some((EvalHeader(o, key), m)))
    case Variables(x) =>
      if x in memo then Some((memo[x], memo))
      else if x !in programs then Some((Err(NoSuchVariable(x)), memo))
      else if depth == 0 then None
      else
        (match LazyEval(depth - 1, programs, r, memo, programs[x])
         case None => None
         case Some((o, m)) => Some((o, m[x := o])))
    case Equals(l, rr) =>
      (match LazyEval(depth, programs, r, memo, l)
       case None => None
       case Some((o, m)) =>
         if o.Err? then Some((o, m)) else
         match LazyEval(depth, programs, r, m, rr)
         case None => None
         case Some((o', m')) => Some((EvalEquals(o, o'), m')))
    case And(l, rr) =>
      (match LazyEval(depth, programs, r, memo, l)
       case None => None
       case Some((o, m)) =>
         if o == Ok(BoolValue(false)) then Some((o, m)) else
         match LazyEval(depth, programs, r, m, rr)
         case None => None
         case Some((o', m')) => Some((EvalAnd(o, o'), m')))
    case Cond(c, a, b) =>
      (match LazyEval(depth, programs, r, memo, c)
       case None => None
       case Some((Ok(BoolValue(t)), m)) => LazyEval(depth, programs, r, m, if t then a else b)
       case Some((Ok(_), m)) => Some((Err(NoSuchOverload), m))
       case Some((Err(x), m)) => Some((Err(x), m)))
    case Respond(mode, body) =>
      (match LazyEval(depth, programs, r, memo, body)
       case None => None
       case Some((o, m)) => Some((EvalRespond(mode, o), m)))
    case _ => Some((Eval(r, map[], e), memo))
  }
}
