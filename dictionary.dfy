/** A .NET `Dictionary` as the modelled code uses it: keys are only added or overwritten, never
    removed, so enumeration follows first insertion. It is an association list whose keys are
    distinct; storing an existing key replaces its value in place. */
module Dictionary {
  import opened Wrappers

  type Dict<K(==), V> = seq<(K, V)>

  /** `d[k] = v`. */
  function Put<K(==), V>(d: Dict<K, V>, k: K, v: V): (r: Dict<K, V>)
    ensures |r| == |d| || |r| == |d| + 1
  {
    if |d| == 0 then [(k, v)]
    else if d[0].0 == k then [(k, v)] + d[1..]
    else [d[0]] + Put(d[1..], k, v)
  }

  /** `TryGetValue`. */
  function Lookup<K(==), V>(d: Dict<K, V>, k: K): Option<V>
  {
    if |d| == 0 then None else if d[0].0 == k then Some(d[0].1) else Lookup(d[1..], k)
  }

  /** The keys in enumeration order. */
  function Keys<K(==), V>(d: Dict<K, V>): (r: seq<K>)
    ensures |r| == |d|
  {
    if |d| == 0 then [] else [d[0].0] + Keys(d[1..])
  }

  /** After `Put`, the key holds the new value and every other key keeps its old one. */
  lemma {:induction false} PutLookup<K, V>(d: Dict<K, V>, k: K, v: V, k': K)
    ensures Lookup(Put(d, k, v), k') == if k' == k then Some(v) else Lookup(d, k')
  {
    if |d| != 0 && d[0].0 != k {
      PutLookup(d[1..], k, v, k');
      assert Put(d, k, v)[1..] == Put(d[1..], k, v);
    }
  }

  /** A key already present keeps its place: `Put` does not change the enumeration order of keys. */
  lemma {:induction false} PutKeys<K, V>(d: Dict<K, V>, k: K, v: V)
    ensures Lookup(d, k).Some? ==> Keys(Put(d, k, v)) == Keys(d)
    ensures Lookup(d, k).None? ==> Keys(Put(d, k, v)) == Keys(d) + [k]
  {
    if |d| != 0 && d[0].0 != k {
      PutKeys(d[1..], k, v);
      assert Put(d, k, v)[1..] == Put(d[1..], k, v);
    }
  }

  /** A key can be looked up exactly when it is among the keys. */
  lemma {:induction false} LookupKeys<K, V>(d: Dict<K, V>, k: K)
    ensures Lookup(d, k).Some? <==> k in Keys(d)
  {
    if |d| != 0 {
      LookupKeys(d[1..], k);
    }
  }

  /** A value found by `Lookup` is stored in the dictionary under its key. */
  lemma {:induction false} LookupIn<K, V>(d: Dict<K, V>, k: K)
    requires Lookup(d, k).Some?
    ensures (k, Lookup(d, k).value) in d
  {
    if d[0].0 != k {
      LookupIn(d[1..], k);
    }
  }

  /** No key is stored twice; `Put` keeps this (PutDistinct). */
  predicate DistinctKeys<K(==), V>(d: Dict<K, V>)
  {
    forall i, j :: 0 <= i < j < |d| ==> d[i].0 != d[j].0
  }

  /** The i-th key is the key of the i-th entry. */
  lemma {:induction false} KeysAt<K, V>(d: Dict<K, V>, i: nat)
    requires i < |d|
    ensures Keys(d)[i] == d[i].0
    decreases i
  {
    if i > 0 {
      KeysAt(d[1..], i - 1);
    }
  }

  /** Storing a key keeps the keys distinct. */
  lemma PutDistinct<K, V>(d: Dict<K, V>, k: K, v: V)
    requires DistinctKeys(d)
    ensures DistinctKeys(Put(d, k, v))
  {
    var r := Put(d, k, v);
    PutKeys(d, k, v);
    LookupKeys(d, k);
    forall i | 0 <= i < |r| ensures Keys(r)[i] == r[i].0 {
      KeysAt(r, i);
    }
    forall i | 0 <= i < |d| ensures Keys(d)[i] == d[i].0 {
      KeysAt(d, i);
    }
  }

  /** In a dictionary with distinct keys every entry is what `Lookup` finds for its key. */
  lemma {:induction false} EntryLookup<K, V>(d: Dict<K, V>, i: nat)
    requires DistinctKeys(d) && i < |d|
    ensures Lookup(d, d[i].0) == Some(d[i].1)
    decreases i
  {
    if i > 0 {
      assert d[1..][i - 1] == d[i];
      EntryLookup(d[1..], i - 1);
    }
  }
}
