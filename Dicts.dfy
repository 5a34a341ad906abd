/** Python's dict as the mount table uses it: a finite map that also remembers the order in
    which keys were first inserted, because `list(d.keys())` lists them in that order. */
module Dicts {

  datatype Dict<K(==,!new), V> = Dict(order: seq<K>, items: map<K, V>)

  predicate Distinct<K(==,!new)>(ks: seq<K>) {
    forall i, j :: 0 <= i < j < |ks| ==> ks[i] != ks[j]
  }

  /** Every key is listed once in `order`, and `order` lists exactly the keys. */
  ghost predicate Valid<K(!new), V>(d: Dict<K, V>) {
    Distinct(d.order) && (forall k :: k in d.order <==> k in d.items)
  }

  function Empty<K(==,!new), V>(): (d: Dict<K, V>)
    ensures Valid(d) && d.items == map[] && d.order == []
  {
    Dict([], map[])
  }

  /** `d[k] = v`: a new key goes to the end of the order, an existing key keeps its place. */
  function Set<K(==,!new), V>(d: Dict<K, V>, k: K, v: V): (r: Dict<K, V>)
    ensures Valid(d) ==> Valid(r)
    ensures r.items == d.items[k := v]
    ensures r.order == if k in d.items then d.order else d.order + [k]
  {
    if k in d.items then Dict(d.order, d.items[k := v]) else Dict(d.order + [k], d.items[k := v])
  }

  /** The elements of `ks` other than `k`, in their order. */
  function Remove<K(==,!new)>(ks: seq<K>, k: K): (r: seq<K>)
    ensures forall x :: x in r <==> x in ks && x != k
    ensures Distinct(ks) ==> Distinct(r)
    ensures k !in ks ==> r == ks
  {
    if ks == [] then []
    else
      var rest := Remove(ks[..|ks| - 1], k);
      var last := ks[|ks| - 1];
      assert Distinct(ks) ==> last !in ks[..|ks| - 1];
      if last == k then rest else rest + [last]
  }

  /** `d.pop(k, None)`: removes `k` when present and leaves the other keys in their order. */
  function Pop<K(==,!new), V>(d: Dict<K, V>, k: K): (r: Dict<K, V>)
    ensures Valid(d) ==> Valid(r)
    ensures r.items == d.items - {k}
    ensures r.order == Remove(d.order, k)
    ensures k !in d.items && Valid(d) ==> r == d
  {
    Dict(Remove(d.order, k), d.items - {k})
  }
}
