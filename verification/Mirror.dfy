/** The source that mirrors objects of the Kubernetes API: one reconcile per notification of a key,
    each looking the object up anew. */
module Mirror {
  import opened Wrappers
  import opened Listing

  datatype Lookup<+V> = NotFound | Failed | Found(object: V)

  class ApiSource<V(!new)> {
    var resources: map<string, V>

    constructor ()
      ensures resources == map[]
    {
      resources := map[];
    }

    /** A look-up that fails leaves everything as it is, and is reported. */
    method Reconcile(key: string, found: Lookup<V>) returns (ok: bool)
      modifies this
      ensures ok <==> !found.Failed?
      ensures resources == Reconciled(old(resources), key, found)
    {
      match found {
        case NotFound =>
          resources := resources - {key};
          return true;
        case Failed =>
          return false;
        case Found(v) =>
          resources := resources[key := v];
          return true;
      }
    }

    method Load() returns (out: seq<V>)
      ensures exists keys :: InOrder(resources, out, keys)
      ensures Lists(resources, out)
      ensures forall other :: Lists(resources, other) ==> other == out
    {
      out := ByKey(resources);
    }
  }

  // ------------------------------------------------------------ specification

  ghost function Reconciled<V>(m: map<string, V>, key: string, found: Lookup<V>): map<string, V> {
    match found
    case NotFound => m - {key}
    case Failed => m
    case Found(v) => m[key := v]
  }

  datatype Event<+V> = Event(key: string, found: Lookup<V>)

  ghost function After<V>(events: seq<Event<V>>): map<string, V> {
    if events == [] then map[]
    else
      var last := events[|events| - 1];
      Reconciled(After(events[..|events| - 1]), last.key, last.found)
  }

  /** What the last look-up of a key that did not fail found; nothing if there was none. */
  ghost function LastSeen<V>(events: seq<Event<V>>, key: string): Option<V> {
    if events == [] then None
    else
      var last := events[|events| - 1];
      if last.key == key && !last.found.Failed? then
        match last.found { case Found(v) => Some(v) case _ => None }
      else LastSeen(events[..|events| - 1], key)
  }

  lemma {:induction false} LastLookUpWins<V>(events: seq<Event<V>>, key: string)
    ensures match LastSeen(events, key)
            case None => key !in After(events)
            case Some(v) => key in After(events) && After(events)[key] == v
  {
    if events != [] {
      LastLookUpWins(events[..|events| - 1], key);
    }
  }

  /** The mirror equals the API's objects exactly when, key by key, the last look-up that did not
      fail saw what the API holds; the order of look-ups of different keys plays no part. */
  lemma MirrorsTheApi<V(!new)>(events: seq<Event<V>>, api: map<string, V>)
    ensures After(events) == api
            <==> forall key :: LastSeen(events, key) == if key in api then Some(api[key]) else None
  {
    forall key
      ensures LastSeen(events, key) == if key in After(events) then Some(After(events)[key]) else None
    {
      LastLookUpWins(events, key);
    }
    if forall key :: LastSeen(events, key) == if key in api then Some(api[key]) else None {
      forall key ensures key in api <==> key in After(events) {
        assert LastSeen(events, key) == if key in api then Some(api[key]) else None;
      }
      forall key | key in api ensures After(events)[key] == api[key] {
        assert LastSeen(events, key) == Some(api[key]);
      }
      assert After(events) == api;
    }
  }
}
