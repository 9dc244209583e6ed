/** A JavaScript `Map` with numeric keys, as `MemStorage` uses it: the entries, plus the
    order in which keys were first inserted, which `Map.prototype.values()` (and so
    `Array.from(map.values())`) follows. Setting an existing key keeps its position;
    deleting a key removes it from the order. */
module JsMap {
  import opened Sequences

  datatype Option<T> = None | Some(value: T)

  datatype IdMap<V> = IdMap(order: seq<nat>, entries: map<nat, V>)

  predicate Distinct(s: seq<nat>) {
    forall i, j :: 0 <= i < j < |s| ==> s[i] != s[j]
  }

  /** The order lists every key exactly once. */
  ghost predicate Valid<V>(m: IdMap<V>) {
    Distinct(m.order) && forall k :: k in m.entries <==> k in m.order
  }

  /** `new Map()` */
  function Empty<V>(): (m: IdMap<V>)
    ensures Valid(m)
    ensures forall k :: Get(m, k) == None
    ensures Values(m) == []
  {
    IdMap([], map[])
  }

  /** `map.get(k)`: `undefined` becomes `None`. */
  function Get<V>(m: IdMap<V>, k: nat): (r: Option<V>)
    ensures r.Some? <==> k in m.entries
    ensures r.Some? ==> r.value == m.entries[k]
  {
    if k in m.entries then Some(m.entries[k]) else None
  }

  /** `map.set(k, v)` */
  function Set<V>(m: IdMap<V>, k: nat, v: V): (r: IdMap<V>)
    ensures Valid(m) ==> Valid(r)
    ensures Get(r, k) == Some(v)
    ensures forall k' :: k' != k ==> Get(r, k') == Get(m, k')
    ensures k in m.entries ==> r.order == m.order
    ensures k !in m.entries ==> r.order == m.order + [k]
  {
    var order := if k in m.entries then m.order else m.order + [k];
    IdMap(order, m.entries[k := v])
  }

  /** Keeping part of a list of distinct keys keeps them distinct. */
  lemma {:induction false} FilterDistinct(s: seq<nat>, p: nat -> bool)
    requires Distinct(s)
    ensures Distinct(Filter(s, p))
  {
    if s != [] {
      FilterDistinct(s[1..], p);
      FilterMembers(s[1..], p);
      assert s[0] !in s[1..];
    }
  }

  /** `map.delete(k)`; the source ignores the boolean it returns when the key is known.
      The other keys keep their iteration order. */
  function Delete<V>(m: IdMap<V>, k: nat): (r: IdMap<V>)
    requires Valid(m)
    ensures Valid(r)
    ensures Get(r, k) == None
    ensures forall k' :: k' != k ==> Get(r, k') == Get(m, k')
    ensures r.entries == m.entries - {k}
    ensures r.order == Filter(m.order, (x: nat) => x != k)
    ensures forall i :: 0 <= i < |m.order| && m.order[i] == k ==> r.order == m.order[..i] + m.order[i + 1..]
    ensures k !in m.entries ==> r == m
  {
    var p := (x: nat) => x != k;
    FilterMembers(m.order, p);
    FilterDistinct(m.order, p);
    forall i | 0 <= i < |m.order| && m.order[i] == k
      ensures Filter(m.order, p) == m.order[..i] + m.order[i + 1..]
    {
      FilterDropsOne(m.order, i, p);
    }
    assert k !in m.entries ==> Filter(m.order, p) == m.order && m.entries - {k} == m.entries by {
      if k !in m.entries {
        FilterAll(m.order, p);
      }
    }
    IdMap(Filter(m.order, p), m.entries - {k})
  }

  /** `Array.from(map.values())`: the values in insertion order of their keys. */
  function Values<V>(m: IdMap<V>): (vs: seq<V>)
    requires Valid(m)
    ensures |vs| == |m.order|
    ensures forall i :: 0 <= i < |vs| ==> vs[i] == m.entries[m.order[i]]
  {
    seq(|m.order|, i requires 0 <= i < |m.order| => m.entries[m.order[i]])
  }

  /** A value is listed exactly when some key holds it. */
  lemma ValuesMembership<V>(m: IdMap<V>, v: V)
    requires Valid(m)
    ensures v in Values(m) <==> exists k :: k in m.entries && m.entries[k] == v
  {
    var vs := Values(m);
    if v in vs {
      var i :| 0 <= i < |vs| && vs[i] == v;
      assert m.order[i] in m.entries;
    }
    if k :| k in m.entries && m.entries[k] == v {
      var i :| 0 <= i < |m.order| && m.order[i] == k;
      assert vs[i] == v;
    }
  }

  /** Setting a key that is not present appends its value to the iteration. */
  lemma ValuesOfFreshSet<V>(m: IdMap<V>, k: nat, v: V)
    requires Valid(m) && k !in m.entries
    ensures Values(Set(m, k, v)) == Values(m) + [v]
  {
    ValuesOfAppend(m, Set(m, k, v), k, v);
  }

  /** A map that extends `m` by the fresh key `k` lists `m`'s values, then `v`. */
  lemma ValuesOfAppend<V>(m: IdMap<V>, r: IdMap<V>, k: nat, v: V)
    requires Valid(m) && Valid(r) && k !in m.entries
    requires r.order == m.order + [k] && r.entries == m.entries[k := v]
    ensures Values(r) == Values(m) + [v]
  {
    assert |Values(r)| == |Values(m)| + 1;
    forall i | 0 <= i < |Values(m)|
      ensures Values(r)[i] == Values(m)[i]
    {
      assert m.order[i] in m.entries;
      assert m.order[i] != k;
    }
  }

  /** Deleting the key at position `i` drops its value from the listing; the other
      values keep their order. */
  lemma ValuesOfDelete<V>(m: IdMap<V>, k: nat, i: nat)
    requires Valid(m) && i < |m.order| && m.order[i] == k
    ensures Values(Delete(m, k)) == Values(m)[..i] + Values(m)[i + 1..]
    ensures Values(m) == Values(m)[..i] + [m.entries[k]] + Values(m)[i + 1..]
  {
    ValuesOfRemoved(m, Delete(m, k), i);
    SplitAround(Values(m), i);
  }

  lemma ValuesOfRemoved<V>(m: IdMap<V>, r: IdMap<V>, i: nat)
    requires Valid(m) && Valid(r) && i < |m.order|
    requires r.order == m.order[..i] + m.order[i + 1..]
    requires forall k :: k in r.entries ==> r.entries[k] == m.entries[k]
    ensures Values(r) == Values(m)[..i] + Values(m)[i + 1..]
  {
    forall j | 0 <= j < |r.order|
      ensures Values(r)[j] == (Values(m)[..i] + Values(m)[i + 1..])[j]
    {
      var j' := if j < i then j else j + 1;
      assert r.order[j] == m.order[j'] && r.order[j] in r.entries;
    }
  }

  /** Setting a present key replaces its value in place in the listing. */
  lemma ValuesOfUpdate<V>(m: IdMap<V>, k: nat, v: V, i: nat)
    requires Valid(m) && i < |m.order| && m.order[i] == k
    ensures Values(Set(m, k, v)) == Values(m)[i := v]
    ensures Values(m) == Values(m)[..i] + [m.entries[k]] + Values(m)[i + 1..]
    ensures Values(Set(m, k, v)) == Values(m)[..i] + [v] + Values(m)[i + 1..]
  {
    var r := Set(m, k, v);
    forall j | 0 <= j < |r.order|
      ensures Values(r)[j] == Values(m)[i := v][j]
    {
      assert m.order[j] in m.entries;
    }
    SplitAround(Values(m), i);
    SplitAround(Values(r), i);
  }
}
