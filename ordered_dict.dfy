/**
 * A Python `dict` seen as the list of its entries in insertion order.
 * Assigning to a key that is already present replaces its value in place and
 * keeps its position; assigning to a new key appends the entry at the end.
 */
module OrderedDict {
  import opened Wrappers

  type Dict<K, V> = seq<(K, V)>

  /** The keys of `d`, in iteration order (`list(d.keys())`). */
  function Keys<K, V>(d: Dict<K, V>): seq<K>
  {
    seq(|d|, i requires 0 <= i < |d| => d[i].0)
  }

  /** No key occurs twice: every well-formed dict has this property. */
  ghost predicate DistinctKeys<K, V>(d: Dict<K, V>)
  {
    forall i, j :: 0 <= i < j < |d| ==> d[i].0 != d[j].0
  }

  /** The position of key `k` in `d`, if it is present. */
  function IndexOf<K(==,!new), V>(d: Dict<K, V>, k: K): (r: Option<nat>)
    ensures r.Some? ==> r.value < |d| && d[r.value].0 == k
    ensures r.Some? ==> forall j :: 0 <= j < r.value ==> d[j].0 != k
    ensures r.None? <==> forall j :: 0 <= j < |d| ==> d[j].0 != k
  {
    if d == [] then None
    else if d[0].0 == k then Some(0)
    else match IndexOf(d[1..], k)
      case None => None
      case Some(i) => Some(i + 1)
  }

  /** `d[k]`, or None where Python would raise `KeyError`. */
  function Get<K(==,!new), V>(d: Dict<K, V>, k: K): Option<V>
  {
    match IndexOf(d, k)
    case None => None
    case Some(i) => Some(d[i].1)
  }

  /** `d[k] = v`. */
  function Insert<K(==,!new), V>(d: Dict<K, V>, k: K, v: V): (r: Dict<K, V>)
    ensures k in Keys(d) ==> Keys(r) == Keys(d)
    ensures k !in Keys(d) ==> Keys(r) == Keys(d) + [k]
    ensures Get(r, k) == Some(v)
    ensures forall k' :: k' != k ==> Get(r, k') == Get(d, k')
    ensures DistinctKeys(d) ==> DistinctKeys(r)
  {
    match IndexOf(d, k)
    case None =>
      var r := d + [(k, v)];
      assert Keys(r) == Keys(d) + [k];
      assert forall j :: 0 <= j < |d| ==> r[j] == d[j];
      assert r[|d|].0 == k;
      r
    case Some(i) =>
      var r := d[i := (k, v)];
      assert Keys(d)[i] == k;
      assert Keys(r) == Keys(d);
      IndexOfSameKeys(r, d);
      r
  }

  /** The position of a key depends on the keys alone. */
  lemma IndexOfSameKeys<K(!new), V>(d1: Dict<K, V>, d2: Dict<K, V>)
    requires Keys(d1) == Keys(d2)
    ensures forall k :: IndexOf(d1, k) == IndexOf(d2, k)
  {
    forall k ensures IndexOf(d1, k) == IndexOf(d2, k) {
      assert |d1| == |Keys(d1)| && |d2| == |Keys(d2)|;
      assert forall j :: 0 <= j < |d1| ==> d1[j].0 == Keys(d1)[j] == Keys(d2)[j] == d2[j].0;
    }
  }
}
