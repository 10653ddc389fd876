/** Insertion-ordered dictionaries (the `OrderedDictionary` of swift-collections),
    modelled as a sequence of key/value pairs whose keys are distinct.
    Looking a key up finds its position; writing an existing key replaces the
    pair in place, writing a new key appends it at the end. */
module OrderedMap {

  datatype Option<+T> = None | Some(value: T)

  type OMap<K, V> = seq<(K, V)>

  /** The keys in insertion order. */
  function Keys<K, V>(m: OMap<K, V>): (ks: seq<K>)
    ensures |ks| == |m|
    ensures forall i :: 0 <= i < |m| ==> ks[i] == m[i].0
  {
    seq(|m|, i requires 0 <= i < |m| => m[i].0)
  }

  ghost predicate Distinct<T>(s: seq<T>) {
    forall i, j :: 0 <= i < j < |s| ==> s[i] != s[j]
  }

  /** A well-formed ordered dictionary holds each key at most once. */
  ghost predicate Valid<K, V>(m: OMap<K, V>) {
    Distinct(Keys(m))
  }

  /** Position of the first pair with key `k`, or `|m|` when there is none. */
  function Find<K(==), V>(m: OMap<K, V>, k: K): (i: nat)
    ensures i <= |m|
    ensures i < |m| ==> m[i].0 == k
    ensures forall j :: 0 <= j < i ==> m[j].0 != k
  {
    if |m| == 0 then 0
    else if m[0].0 == k then 0
    else 1 + Find(m[1..], k)
  }

  /** `Find` is determined by the keys alone: any position that is the first
      occurrence of `k` (or `|m|` when `k` is absent) is the one it returns. */
  lemma FindIsFirst<K, V>(m: OMap<K, V>, k: K, i: nat)
    requires i <= |m|
    requires i < |m| ==> m[i].0 == k
    requires forall j :: 0 <= j < i ==> m[j].0 != k
    ensures Find(m, k) == i
  {
  }

  /** The dictionary's subscript getter: `m[k]`. */
  function Get<K(==), V>(m: OMap<K, V>, k: K): (r: Option<V>)
    ensures r.Some? <==> k in Keys(m)
    ensures Valid(m) ==> forall i :: 0 <= i < |m| && m[i].0 == k ==> r == Some(m[i].1)
  {
    var i := Find(m, k);
    if i < |m| then Some(m[i].1) else None
  }

  /** The dictionary's subscript setter `m[k] = v`: an existing key keeps its
      position, a new key is appended. */
  function Put<K(==, !new), V>(m: OMap<K, V>, k: K, v: V): (r: OMap<K, V>)
    ensures Keys(r) == if k in Keys(m) then Keys(m) else Keys(m) + [k]
    ensures Valid(m) ==> Valid(r)
    ensures Get(r, k) == Some(v)
    ensures forall k' :: k' != k ==> Get(r, k') == Get(m, k')
    ensures forall i :: 0 <= i < |m| && m[i].0 != k ==> r[i] == m[i]
    ensures forall i :: 0 <= i < |r| ==> r[i] == (k, v) || (i < |m| && r[i] == m[i])
  {
    var i := Find(m, k);
    if i < |m| then
      ReplaceKeepsLookups(m, k, v, i);
      m[i := (k, v)]
    else
      AppendKeepsLookups(m, k, v);
      m + [(k, v)]
  }

  lemma ReplaceKeepsLookups<K(!new), V>(m: OMap<K, V>, k: K, v: V, i: nat)
    requires i == Find(m, k) && i < |m|
    ensures Keys(m[i := (k, v)]) == Keys(m)
    ensures Get(m[i := (k, v)], k) == Some(v)
    ensures forall k' :: k' != k ==> Get(m[i := (k, v)], k') == Get(m, k')
  {
    var r := m[i := (k, v)];
    assert Keys(r) == Keys(m);
    FindIsFirst(r, k, i);
    forall k' | k' != k
      ensures Get(r, k') == Get(m, k')
    {
      FindIsFirst(r, k', Find(m, k'));
    }
  }

  lemma AppendKeepsLookups<K(!new), V>(m: OMap<K, V>, k: K, v: V)
    requires Find(m, k) == |m|
    ensures Keys(m + [(k, v)]) == Keys(m) + [k]
    ensures Get(m + [(k, v)], k) == Some(v)
    ensures forall k' :: k' != k ==> Get(m + [(k, v)], k') == Get(m, k')
  {
    var r := m + [(k, v)];
    assert Keys(r) == Keys(m) + [k];
    FindIsFirst(r, k, |m|);
    forall k' | k' != k
      ensures Get(r, k') == Get(m, k')
    {
      AppendKeepsOtherLookup(m, k, v, k');
    }
  }

  lemma AppendKeepsOtherLookup<K, V>(m: OMap<K, V>, k: K, v: V, k': K)
    requires k' != k
    ensures Get(m + [(k, v)], k') == Get(m, k')
  {
    var r := m + [(k, v)];
    var f := Find(m, k');
    assert forall j :: 0 <= j < |m| ==> r[j] == m[j];
    if f < |m| {
      FindIsFirst(r, k', f);
    } else {
      FindIsFirst(r, k', |r|);
    }
  }
}
