/**
 * A .NET Dictionary<string, V> as the artifact manager uses it: a finite map
 * whose keys are enumerated in the order they were first added. Assigning to
 * a key that is present replaces its value and keeps its place; removing a
 * key drops it from the enumeration.
 */
module OrderedMaps {

  datatype OrderedMap<V> = OrderedMap(keys: seq<string>, values: map<string, V>)
  {
    /** Keys are unique and are exactly the keys of the map. */
    ghost predicate Valid() {
      Unique(keys) && forall k :: k in values <==> k in keys
    }
  }

  ghost predicate Unique(keys: seq<string>) {
    forall i, j :: 0 <= i < j < |keys| ==> keys[i] != keys[j]
  }

  function Empty<V>(): (m: OrderedMap<V>)
    ensures m.Valid() && m.values == map[]
  {
    OrderedMap([], map[])
  }

  /** dictionary[k] = v */
  function Put<V>(m: OrderedMap<V>, k: string, v: V): (r: OrderedMap<V>)
    requires m.Valid()
    ensures r.Valid() && r.values == m.values[k := v]
  {
    if k in m.values then OrderedMap(m.keys, m.values[k := v])
    else OrderedMap(m.keys + [k], m.values[k := v])
  }

  /** keys without any occurrence of k, the others in their order */
  function Without(keys: seq<string>, k: string): (r: seq<string>)
    ensures forall x :: x in r <==> x in keys && x != k
    ensures |r| <= |keys|
  {
    if |keys| == 0 then []
    else if keys[|keys| - 1] == k then Without(keys[..|keys| - 1], k)
    else Without(keys[..|keys| - 1], k) + [keys[|keys| - 1]]
  }

  /** Without keeps the relative order of the keys it keeps, so it keeps them
      unique. */
  lemma {:induction false} WithoutUnique(keys: seq<string>, k: string)
    requires Unique(keys)
    ensures Unique(Without(keys, k))
  {
    if |keys| > 0 {
      var init, last := keys[..|keys| - 1], keys[|keys| - 1];
      WithoutUnique(init, k);
      if last != k {
        var w := Without(init, k);
        assert last !in init;
        assert last !in w;
        assert Without(keys, k) == w + [last];
      }
    }
  }

  /** dictionary.Remove(k) */
  function Remove<V>(m: OrderedMap<V>, k: string): (r: OrderedMap<V>)
    requires m.Valid()
    ensures r.Valid() && r.values == m.values - {k}
  {
    WithoutUnique(m.keys, k);
    OrderedMap(Without(m.keys, k), m.values - {k})
  }

  /** Adding a new key: it gets the value, goes last, and every other key keeps
      its value and its place. */
  lemma PutNew<V>(m: OrderedMap<V>, k: string, v: V)
    requires m.Valid() && k !in m.values
    ensures var r := Put(m, k, v);
      && r.values[k] == v && r.keys == m.keys + [k]
      && forall x :: x != k ==> (x in r.values <==> x in m.values) && (x in m.values ==> r.values[x] == m.values[x])
  {
  }

  /** Removing a key touches no other key. */
  lemma RemoveOthers<V>(m: OrderedMap<V>, k: string)
    requires m.Valid()
    ensures var r := Remove(m, k);
      && k !in r.values && k !in r.keys
      && forall x :: x != k ==> (x in r.values <==> x in m.values) && (x in m.values ==> r.values[x] == m.values[x])
  {
  }
}
