/** The values of a map in the order of its keys, as the sources that keep a map list them. */
module Listing {

  /** Strict lexicographic order. */
  predicate Before(a: string, b: string) {
    b != "" && (a == "" || a[0] < b[0] || (a[0] == b[0] && Before(a[1..], b[1..])))
  }

  /** A proper prefix comes first; otherwise the smaller character at the first difference decides. */
  lemma {:induction false} BeforeIsLexicographic(a: string, b: string)
    ensures Before(a, b) <==> Smaller(a, b)
  {
    if a != "" && b != "" && a[0] == b[0] {
      BeforeIsLexicographic(a[1..], b[1..]);
      if n: nat :| FirstDifference(a[1..], b[1..], n) {
        assert a == [a[0]] + a[1..] && b == [b[0]] + b[1..];
        assert a[..n + 1] == [a[0]] + a[1..][..n] && b[..n + 1] == [b[0]] + b[1..][..n];
        assert FirstDifference(a, b, n + 1);
      }
      if n: nat :| FirstDifference(a, b, n) {
        assert n > 0;
        assert a[1..][..n - 1] == a[..n][1..] && b[1..][..n - 1] == b[..n][1..];
        assert FirstDifference(a[1..], b[1..], n - 1);
      }
    } else if Before(a, b) {
      assert FirstDifference(a, b, 0);
    }
  }

  /** The texts agree on their first `n` characters; there `a` ends, or has the smaller character. */
  ghost predicate FirstDifference(a: string, b: string, n: nat) {
    && n <= |a| && n < |b| && a[..n] == b[..n]
    && (n < |a| ==> a[n] < b[n])
  }

  ghost predicate Smaller(a: string, b: string) {
    exists n :: FirstDifference(a, b, n)
  }

  lemma {:induction false} BeforeIsTotal(a: string, b: string)
    ensures a == b || Before(a, b) || Before(b, a)
    ensures Before(a, b) ==> a != b && !Before(b, a)
  {
    if a != "" && b != "" {
      BeforeIsTotal(a[1..], b[1..]);
      assert a == [a[0]] + a[1..] && b == [b[0]] + b[1..];
    }
  }

  lemma {:induction false} BeforeIsTransitive(a: string, b: string, c: string)
    requires Before(a, b) && Before(b, c)
    ensures Before(a, c)
  {
    if a != "" && a[0] == b[0] == c[0] {
      BeforeIsTransitive(a[1..], b[1..], c[1..]);
    }
  }

  ghost predicate Sorted(keys: seq<string>) {
    forall i, j :: 0 <= i < j < |keys| ==> Before(keys[i], keys[j])
  }

  ghost function Elements(keys: seq<string>): set<string> {
    set k <- keys
  }

  /** There is only one sorted list of a given set of keys. */
  lemma {:induction false} SortedIsUnique(xs: seq<string>, ys: seq<string>)
    requires Sorted(xs) && Sorted(ys) && Elements(xs) == Elements(ys)
    ensures xs == ys
  {
    SomeElement(xs);
    SomeElement(ys);
    if xs != [] {
      var x, y := xs[0], ys[0];
      assert x in Elements(ys) && y in Elements(xs);
      BeforeIsTotal(x, y);
      TailElements(xs);
      TailElements(ys);
      SortedIsUnique(xs[1..], ys[1..]);
    }
  }

  lemma SomeElement(xs: seq<string>)
    ensures xs == [] <==> Elements(xs) == {}
  {
    if xs != [] {
      assert xs[0] in Elements(xs);
    }
  }

  lemma TailElements(xs: seq<string>)
    requires Sorted(xs) && xs != []
    ensures Elements(xs[1..]) == Elements(xs) - {xs[0]} && Sorted(xs[1..])
    ensures forall k :: k in Elements(xs) ==> k == xs[0] || Before(xs[0], k)
  {
    forall k | k in xs[1..] ensures k != xs[0] {
      BeforeIsTotal(xs[0], k);
    }
    assert xs == [xs[0]] + xs[1..];
  }

  lemma SortedAround(keys: seq<string>, key: string, i: nat)
    requires Sorted(keys) && key !in keys && i <= |keys|
    requires i > 0 ==> !Before(key, keys[i - 1])
    requires forall k :: i <= k < |keys| ==> Before(key, keys[k])
    ensures Sorted(keys[..i] + [key] + keys[i..])
    ensures Elements(keys[..i] + [key] + keys[i..]) == Elements(keys) + {key}
  {
    if i > 0 {
      BeforeIsTotal(key, keys[i - 1]);
      forall k | 0 <= k < i - 1 ensures Before(keys[k], key) {
        BeforeIsTransitive(keys[k], keys[i - 1], key);
      }
    }
    assert keys == keys[..i] + keys[i..];
  }

  /** Inserts a key into a sorted list of other keys. */
  method Insert(keys: seq<string>, key: string) returns (r: seq<string>)
    requires Sorted(keys) && key !in keys
    ensures Sorted(r) && Elements(r) == Elements(keys) + {key} && |r| == |keys| + 1
  {
    var i := |keys|;
    while i > 0 && Before(key, keys[i - 1])
      invariant 0 <= i <= |keys|
      invariant forall k :: i <= k < |keys| ==> Before(key, keys[k])
    {
      i := i - 1;
    }
    SortedAround(keys, key, i);
    return keys[..i] + [key] + keys[i..];
  }

  /** `out` lists the values of `m` in the order of their keys. */
  ghost predicate Lists<V(!new)>(m: map<string, V>, out: seq<V>) {
    exists keys :: ListsBy(m, out, keys)
  }

  ghost predicate ListsBy<V>(m: map<string, V>, out: seq<V>, keys: seq<string>) {
    && Sorted(keys) && Elements(keys) == m.Keys && |out| == |keys|
    && forall i :: 0 <= i < |keys| ==> keys[i] in Elements(keys) && out[i] == m[keys[i]]
  }

  /** `keys` are the map's keys, lexicographically smaller ones first, and `out` is their values. */
  ghost predicate InOrder<V>(m: map<string, V>, out: seq<V>, keys: seq<string>) {
    && |keys| == |out| && (forall k :: k in m <==> k in keys)
    && (forall i :: 0 <= i < |keys| ==> keys[i] in m && out[i] == m[keys[i]])
    && forall i, j :: 0 <= i < j < |keys| ==> Smaller(keys[i], keys[j])
  }

  /** A listing has each value of the map once, in the order of the keys. */
  lemma ListsInOrder<V(!new)>(m: map<string, V>, out: seq<V>)
    requires Lists(m, out)
    ensures exists keys :: InOrder(m, out, keys)
  {
    var keys :| ListsBy(m, out, keys);
    assert forall k :: k in m <==> k in Elements(keys);
    assert forall k :: k in keys <==> k in Elements(keys);
    forall i, j | 0 <= i < j < |keys| ensures Smaller(keys[i], keys[j]) {
      BeforeIsLexicographic(keys[i], keys[j]);
    }
    assert InOrder(m, out, keys);
  }

  /** A listing is a function of the map. */
  lemma ListingIsUnique<V(!new)>(m: map<string, V>, out: seq<V>)
    requires Lists(m, out)
    ensures forall other :: Lists(m, other) ==> other == out
  {
    var keys :| ListsBy(m, out, keys);
    forall other | Lists(m, other) ensures other == out {
      var keys' :| ListsBy(m, other, keys');
      SortedIsUnique(keys, keys');
    }
  }

  /** Collects the keys, in any order, into sorted order, and then the values. */
  method ByKey<V(!new)>(m: map<string, V>) returns (out: seq<V>)
    ensures exists keys :: InOrder(m, out, keys)
    ensures Lists(m, out)
    ensures forall other :: Lists(m, other) ==> other == out
  {
    var keys: seq<string> := [];
    var rest := m.Keys;
    while rest != {}
      invariant rest <= m.Keys
      invariant Sorted(keys) && Elements(keys) == m.Keys - rest
    {
      var key :| key in rest;
      assert forall k <- keys :: k in Elements(keys);
      keys := Insert(keys, key);
      rest := rest - {key};
    }
    out := [];
    for i := 0 to |keys|
      invariant |out| == i
      invariant forall k :: 0 <= k < i ==> keys[k] in Elements(keys) && out[k] == m[keys[k]]
    {
      assert keys[i] in Elements(keys);
      out := out + [m[keys[i]]];
    }
    assert ListsBy(m, out, keys);
    ListingIsUnique(m, out);
    ListsInOrder(m, out);
  }
}
