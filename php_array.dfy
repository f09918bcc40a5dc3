/**
 * PHP arrays with string (or integer) keys: an insertion-ordered dictionary in
 * which every key occurs once. Assigning to a key that is already present keeps
 * its position and replaces its value; a new key goes to the end.
 */
module PhpArray {

  datatype Arr<K(==, !new), V> = Arr(keys: seq<K>, vals: map<K, V>) {

    /** Every key occurs once in `keys`, and `keys` lists exactly the keys of `vals`. */
    predicate Valid() {
      && (forall i, j | 0 <= i < j < |keys| :: keys[i] != keys[j])
      && (forall k | k in vals :: k in keys)
      && (forall i | 0 <= i < |keys| :: keys[i] in vals)
    }

    /** PHP `count($a)`. */
    function Count(): nat {
      |keys|
    }

    /** PHP `$a[$k] = $v`. */
    function Put(k: K, v: V): (r: Arr<K, V>)
      requires Valid()
      ensures r.Valid()
      ensures r.vals == vals[k := v]
      ensures r.keys == if k in vals then keys else keys + [k]
    {
      if k in vals then Arr(keys, vals[k := v]) else Arr(keys + [k], vals[k := v])
    }

    /** The values in iteration order (what `foreach ($a as $v)` visits). */
    function Values(): (r: seq<V>)
      requires Valid()
      ensures |r| == |keys|
      ensures forall i :: 0 <= i < |keys| ==> r[i] == vals[keys[i]]
    {
      ValuesOf(keys, vals)
    }
  }

  function ValuesOf<K(==, !new), V>(ks: seq<K>, m: map<K, V>): (r: seq<V>)
    requires forall k :: k in ks ==> k in m
    ensures |r| == |ks|
    ensures forall i :: 0 <= i < |ks| ==> r[i] == m[ks[i]]
  {
    if ks == [] then [] else [m[ks[0]]] + ValuesOf(ks[1..], m)
  }

  /** The empty array `[]`. */
  function Empty<K(==, !new), V>(): (r: Arr<K, V>)
    ensures r.Valid() && r.keys == [] && r.vals == map[]
  {
    Arr([], map[])
  }

  /** Assigns, in order, the entries of `ks` (looked up in `m`) onto `a`. */
  function PutAll<K(==, !new), V>(a: Arr<K, V>, ks: seq<K>, m: map<K, V>): (r: Arr<K, V>)
    requires a.Valid()
    requires forall k :: k in ks ==> k in m
    ensures r.Valid()
    ensures forall k :: k in r.vals <==> k in a.vals || k in ks
    decreases |ks|
  {
    if ks == [] then a else PutAll(a.Put(ks[0], m[ks[0]]), ks[1..], m)
  }

  /**
   * PHP `array_merge($a, $b)` for string keys: the entries of `$a`, then those
   * of `$b`; a key of `$b` already in `$a` keeps its place and takes `$b`'s value.
   */
  function Merge<K(==, !new), V>(a: Arr<K, V>, b: Arr<K, V>): (r: Arr<K, V>)
    requires a.Valid() && b.Valid()
    ensures r.Valid()
    ensures forall k :: k in r.vals <==> k in a.vals || k in b.vals
    ensures forall k :: k in b.vals ==> r.vals[k] == b.vals[k]
    ensures forall k :: k in a.vals && k !in b.vals ==> r.vals[k] == a.vals[k]
  {
    MergeValues(a, b.keys, b.vals);
    PutAll(a, b.keys, b.vals)
  }

  lemma {:induction false} MergeValues<K(!new), V>(a: Arr<K, V>, ks: seq<K>, m: map<K, V>)
    requires a.Valid()
    requires forall k :: k in ks ==> k in m
    ensures forall k :: k in ks ==> PutAll(a, ks, m).vals[k] == m[k]
    ensures forall k :: k in a.vals && k !in ks ==> PutAll(a, ks, m).vals[k] == a.vals[k]
    decreases |ks|
  {
    if ks != [] {
      MergeValues(a.Put(ks[0], m[ks[0]]), ks[1..], m);
    }
  }
}
