/** The server side of replication: messages are dispatched to the processor of their mode, and
    each processor keeps the latest policy of every name and lists them in key order. */
module Replica {
  import opened Wrappers
  import opened Policies
  import opened Transfer
  import opened Listing

  /** A deletion, or a policy that the receiver can read. */
  type Message = w: WirePolicy | w.delete || Readable(w) witness WirePolicy("", true, None)

  type Store = map<string, ValidatingPolicy>

  // ------------------------------------------------------------ specification

  /** The effect of a message on a processor's policies. */
  ghost function Apply(m: Store, req: Message): Store {
    if req.delete then m - {req.name} else m[req.name := Unwire(req)]
  }

  class Listener {
    var resources: Store

    constructor ()
      ensures resources == map[]
    {
      resources := map[];
    }

    method Process(req: Message)
      modifies this
      ensures resources == Apply(old(resources), req)
    {
      if req.delete {
        resources := resources - {req.name};
        return;
      }
      var vpol := FromProto(req);
      resources := resources[req.name := vpol];
    }

    method Load() returns (out: seq<ValidatingPolicy>)
      ensures exists keys :: InOrder(resources, out, keys)
      ensures Lists(resources, out)
      ensures forall other :: Lists(resources, other) ==> other == out
    {
      out := ByKey(resources);
    }
  }

  // ------------------------------------------------------------ delivery order

  ghost function Replay(m: Store, msgs: seq<Message>): Store {
    if msgs == [] then m else Apply(Replay(m, msgs[..|msgs| - 1]), msgs[|msgs| - 1])
  }

  ghost function OfName(msgs: seq<Message>, name: string): seq<Message> {
    if msgs == [] then []
    else
      var last := msgs[|msgs| - 1];
      OfName(msgs[..|msgs| - 1], name) + if last.name == name then [last] else []
  }

  /** What a processor holds under a name after some messages for that name alone; the outer None
      means that none of them had anything to say. */
  ghost function Effect(own: seq<Message>): Option<Option<ValidatingPolicy>> {
    if own == [] then None
    else
      var last := own[|own| - 1];
      if last.delete then Some(None) else Some(Some(Unwire(last)))
  }

  ghost function Lookup(m: Store, name: string): Option<ValidatingPolicy> {
    if name in m then Some(m[name]) else None
  }

  lemma {:induction false} LastMessageWins(m: Store, msgs: seq<Message>, name: string)
    ensures Lookup(Replay(m, msgs), name) ==
            match Effect(OfName(msgs, name)) { case None => Lookup(m, name) case Some(held) => held }
  {
    if msgs != [] {
      LastMessageWins(m, msgs[..|msgs| - 1], name);
    }
  }

  /** Two deliveries leave every processor in the same state exactly when, name by name, their last
      messages say the same. */
  lemma DeliveriesAgree(a: seq<Message>, b: seq<Message>)
    ensures (forall m :: Replay(m, a) == Replay(m, b))
            <==> (forall name :: Effect(OfName(a, name)) == Effect(OfName(b, name)))
  {
    if name :| Effect(OfName(a, name)) != Effect(OfName(b, name)) {
      var p := ValidatingPolicy("", "", Unknown(""), [], [], [], None);
      var without, with: Store := map[], map[name := p];
      LastMessageWins(without, a, name);
      LastMessageWins(without, b, name);
      LastMessageWins(with, a, name);
      LastMessageWins(with, b, name);
      assert Lookup(without, name) == None && Lookup(with, name) == Some(p);
      assert Replay(without, a) != Replay(without, b) || Replay(with, a) != Replay(with, b);
    } else {
      forall m ensures Replay(m, a) == Replay(m, b) {
        forall name ensures Lookup(Replay(m, a), name) == Lookup(Replay(m, b), name) {
          LastMessageWins(m, a, name);
          LastMessageWins(m, b, name);
        }
        SameLookups(Replay(m, a), Replay(m, b));
      }
    }
  }

  lemma SameLookups(m: Store, m': Store)
    requires forall name :: Lookup(m, name) == Lookup(m', name)
    ensures m == m'
  {
    forall name ensures name in m <==> name in m' {
      assert Lookup(m, name) == Lookup(m', name);
    }
    forall name | name in m ensures m[name] == m'[name] {
      assert Lookup(m, name) == Lookup(m', name);
    }
  }

  /** Only the order of messages for the same name matters, to the map and so to its listing. */
  lemma DeliveryOrderIndependence(m: Store, a: seq<Message>, b: seq<Message>, out: seq<ValidatingPolicy>)
    requires forall name :: OfName(a, name) == OfName(b, name)
    ensures Replay(m, a) == Replay(m, b)
    ensures Lists(Replay(m, a), out) ==> forall other :: Lists(Replay(m, b), other) ==> other == out
  {
    DeliveriesAgree(a, b);
    if Lists(Replay(m, a), out) {
      ListingIsUnique(Replay(m, a), out);
    }
  }

  // ------------------------------------------------------------------ dispatch

  /** The effect of a message on all the processors of a server, by mode. */
  ghost function Dispatch(stores: map<string, Store>, req: Message): map<string, Store> {
    map mode | mode in stores ::
      if req.delete || mode == req.spec.value.evaluationMode then Apply(stores[mode], req) else stores[mode]
  }

  class PolicyListener {
    const processors: map<string, Listener>

    ghost predicate Valid() {
      forall a, b :: a in processors && b in processors && a != b ==> processors[a] != processors[b]
    }

    ghost function Stores(): map<string, Store>
      reads set m | m in processors :: processors[m]
    {
      map m | m in processors :: processors[m].resources
    }

    constructor (processors: map<string, Listener>)
      ensures this.processors == processors
    {
      this.processors := processors;
    }

    method Receive(req: Message)
      requires Valid()
      modifies set m | m in processors :: processors[m]
      ensures Stores() == Dispatch(old(Stores()), req)
    {
      if req.delete {
        var modes := processors.Keys;
        while modes != {}
          invariant modes <= processors.Keys
          invariant forall m :: m in processors.Keys ==>
                      processors[m].resources ==
                        if m in modes then old(processors[m].resources) else Apply(old(processors[m].resources), req)
        {
          var mode :| mode in modes;
          processors[mode].Process(req);
          modes := modes - {mode};
        }
        return;
      }
      if req.spec.value.evaluationMode in processors {
        processors[req.spec.value.evaluationMode].Process(req);
      }
    }
  }
}
