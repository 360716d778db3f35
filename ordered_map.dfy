/**
  An insertion-ordered dictionary, as Python's `dict` is: entries are kept in
  the order in which their keys were first inserted, and assigning to a key
  that is already present replaces its value in place.
*/
module OrderedMaps {
  import opened Wrappers

  datatype Entry<K, V> = Entry(key: K, value: V)

  /** The entries in iteration order, as `d.items()` yields them. */
  type OrderedMap<K, V> = seq<Entry<K, V>>

  /** The keys in iteration order, as `list(d)` gives them. */
  function Keys<K, V>(m: OrderedMap<K, V>): (ks: seq<K>)
    ensures |ks| == |m|
    ensures forall i :: 0 <= i < |m| ==> ks[i] == m[i].key
  {
    seq(|m|, i requires 0 <= i < |m| => m[i].key)
  }

  /** No key occurs twice: the invariant every dictionary keeps. */
  predicate DistinctKeys<K(==), V>(m: OrderedMap<K, V>) {
    forall i, j :: 0 <= i < j < |m| ==> m[i].key != m[j].key
  }

  /** The position of the entry for `k`, if there is one. */
  function Find<K(==), V>(m: OrderedMap<K, V>, k: K): (r: Option<nat>)
    ensures r.Some? ==> r.value < |m| && m[r.value].key == k
    ensures r.Some? ==> forall i :: 0 <= i < r.value ==> m[i].key != k
    ensures r.None? <==> forall i :: 0 <= i < |m| ==> m[i].key != k
  {
    if m == [] then None
    else if m[0].key == k then Some(0)
    else match Find(m[1..], k)
      case None => None
      case Some(i) => Some(i + 1)
  }

  /** An entry with key `k` that no earlier entry shares is the one `Find` reports. */
  lemma FindFirst<K, V>(m: OrderedMap<K, V>, k: K, j: nat)
    requires j < |m| && m[j].key == k
    requires forall i :: 0 <= i < j ==> m[i].key != k
    ensures Find(m, k) == Some(j)
  {
  }

  /** `Find` looks at keys only: two maps with the same key sequence agree on it. */
  lemma FindSameKeys<K, V>(m: OrderedMap<K, V>, r: OrderedMap<K, V>)
    requires Keys(m) == Keys(r)
    ensures forall k :: Find(m, k) == Find(r, k)
  {
    forall k ensures Find(m, k) == Find(r, k) {
      match Find(m, k)
      case Some(j) => FindFirst(r, k, j);
      case None =>
    }
  }

  /** `d.get(k)`. */
  function Get<K(==), V>(m: OrderedMap<K, V>, k: K): (r: Option<V>)
    ensures r.None? <==> k !in Keys(m)
    ensures r.Some? ==> Entry(k, r.value) in m
  {
    match Find(m, k)
      case None => None
      case Some(i) => Some(m[i].value)
  }

  /** Replacing the value at one position leaves every other key's lookup alone. */
  lemma ReplaceKeepsOthers<K, V>(m: OrderedMap<K, V>, i: nat, v: V)
    requires i < |m|
    ensures forall k' :: k' != m[i].key ==> Get(m[i := Entry(m[i].key, v)], k') == Get(m, k')
  {
    var r := m[i := Entry(m[i].key, v)];
    assert Keys(r) == Keys(m);
    FindSameKeys(m, r);
  }

  /** Appending an entry leaves every other key's lookup alone. */
  lemma AppendKeepsOthers<K, V>(m: OrderedMap<K, V>, e: Entry<K, V>)
    ensures forall k' :: k' != e.key ==> Get(m + [e], k') == Get(m, k')
  {
    var r := m + [e];
    forall k' | k' != e.key ensures Find(r, k') == Find(m, k') {
      match Find(m, k')
      case Some(j) => FindFirst(r, k', j);
      case None =>
    }
  }

  /**
    `d[k] = v`: a key already present keeps its position and takes the new
    value; a new key is appended at the end.
  */
  function Put<K(==), V>(m: OrderedMap<K, V>, k: K, v: V): OrderedMap<K, V> {
    match Find(m, k)
    case None => m + [Entry(k, v)]
    case Some(i) => m[i := Entry(k, v)]
  }

  /**
    After `d[k] = v`, `k` maps to `v`, every other key keeps its value, the
    key order is unchanged or gains `k` at the end, keys stay distinct and
    no entry appears other than the old ones and the new pair.
  */
  lemma PutSpec<K, V>(m: OrderedMap<K, V>, k: K, v: V)
    ensures DistinctKeys(m) ==> DistinctKeys(Put(m, k, v))
    ensures Get(Put(m, k, v), k) == Some(v)
    ensures forall k' :: k' != k ==> Get(Put(m, k, v), k') == Get(m, k')
    ensures k in Keys(m) ==> Keys(Put(m, k, v)) == Keys(m)
    ensures k !in Keys(m) ==> Keys(Put(m, k, v)) == Keys(m) + [k]
    ensures forall e :: e in Put(m, k, v) ==> e in m || e == Entry(k, v)
  {
    match Find(m, k)
    case None =>
      var r := m + [Entry(k, v)];
      FindFirst(r, k, |m|);
      AppendKeepsOthers(m, Entry(k, v));
    case Some(i) =>
      var r := m[i := Entry(k, v)];
      FindFirst(r, k, i);
      ReplaceKeepsOthers(m, i, v);
  }
}
