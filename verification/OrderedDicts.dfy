/** Python's built-in `dict`, which the workflow uses for every per-ticker
    batch (`data`, `indicators`, `changes`). Iteration follows insertion order,
    and assigning to a key that is already present replaces its value but
    keeps its original position. */
module OrderedDicts {

  /** No element of `s` occurs twice. */
  ghost predicate Distinct<K>(s: seq<K>) {
    forall i, j :: 0 <= i < j < |s| ==> s[i] != s[j]
  }

  /** Some occurrence of `a` in `s` comes before some occurrence of `b`. */
  ghost predicate Precedes<K>(s: seq<K>, a: K, b: K) {
    exists p, q :: 0 <= p < q < |s| && s[p] == a && s[q] == b
  }

  /** `keys` is the iteration order, `vals` the mapping itself. */
  datatype Dict<K(==, !new), V> = Dict(keys: seq<K>, vals: map<K, V>) {

    /** No key is listed twice and the listed keys are exactly the mapped ones. */
    ghost predicate Valid() {
      && Distinct(keys)
      && (forall k :: k in vals <==> k in keys)
    }

    /** `d[k] = v` */
    function Insert(k: K, v: V): (d: Dict<K, V>)
      requires Valid()
      ensures d.Valid()
      ensures d.vals == vals[k := v]
      ensures k in vals ==> d.keys == keys
      ensures k !in vals ==> d.keys == keys + [k]
    {
      if k in vals then Dict(keys, vals[k := v]) else Dict(keys + [k], vals[k := v])
    }

    /** `d.items()`, in iteration order. */
    function Items(): (items: seq<(K, V)>)
      requires Valid()
      ensures |items| == |keys|
      ensures forall i :: 0 <= i < |keys| ==> items[i] == (keys[i], vals[keys[i]])
    {
      seq(|keys|, i requires 0 <= i < |keys| => (keys[i], vals[keys[i]]))
    }
  }

  /** `{}` */
  function Empty<K(==, !new), V>(): (d: Dict<K, V>)
    ensures d.Valid() && d.keys == [] && d.vals == map[]
  {
    Dict([], map[])
  }

  /** The dict holding the first `n` items of `d`, in `d`'s order: what a loop
      that copies `d` item by item has built after `n` steps. */
  function Prefix<K(==, !new), V>(d: Dict<K, V>, n: nat): (p: Dict<K, V>)
    requires d.Valid() && n <= |d.keys|
    ensures p.Valid()
    ensures p.keys == d.keys[..n]
    ensures forall k :: k in p.vals ==> k in d.vals && p.vals[k] == d.vals[k]
  {
    Dict(d.keys[..n], map k | k in d.keys[..n] :: d.vals[k])
  }

  /** Copying one more item extends the prefix by one insertion; copying them
      all rebuilds `d`. */
  lemma PrefixStep<K(!new), V>(d: Dict<K, V>, n: nat)
    requires d.Valid() && n < |d.keys|
    ensures d.keys[n] !in Prefix(d, n).vals
    ensures Prefix(d, n + 1) == Prefix(d, n).Insert(d.keys[n], d.vals[d.keys[n]])
  {
    assert d.keys[..n + 1] == d.keys[..n] + [d.keys[n]];
  }

  lemma PrefixAll<K(!new), V>(d: Dict<K, V>)
    requires d.Valid()
    ensures Prefix(d, |d.keys|) == d
  {
    assert d.keys[..|d.keys|] == d.keys;
  }

  /** Inserting a key that is not yet present appends exactly one item at the
      end of the iteration, and leaves the earlier items as they were. */
  lemma InsertNewItems<K(!new), V>(d: Dict<K, V>, k: K, v: V)
    requires d.Valid() && k !in d.vals
    ensures d.Insert(k, v).Items() == d.Items() + [(k, v)]
  {
    var e := d.Insert(k, v);
    assert forall i :: 0 <= i < |d.keys| ==> e.keys[i] == d.keys[i] && d.keys[i] != k;
  }
}
