/** A Python `dict` as the scripts use it: items kept in insertion order,
    `d[k] = v` overwriting the value of a present key where it stands and
    appending a new key at the end. */
module Dict {
  import opened Wrappers

  /** The items of a dict, in insertion order. */
  type Dict<K, V> = seq<(K, V)>

  function Keys<K, V>(d: Dict<K, V>): (r: seq<K>)
    ensures |r| == |d| && forall i :: 0 <= i < |d| ==> r[i] == d[i].0
  {
    if d == [] then [] else [d[0].0] + Keys(d[1..])
  }

  ghost predicate UniqueKeys<K, V>(d: Dict<K, V>) {
    forall i, j :: 0 <= i < j < |d| ==> d[i].0 != d[j].0
  }

  /** The position of key `k`. */
  function KeyIndex<K(==), V>(d: Dict<K, V>, k: K): (i: nat)
    requires k in Keys(d)
    ensures i < |d| && d[i].0 == k
    ensures forall j :: 0 <= j < i ==> d[j].0 != k
  {
    if d[0].0 == k then 0 else KeyIndex(d[1..], k) + 1
  }

  /** `d.get(k)`. */
  function Get<K(==), V>(d: Dict<K, V>, k: K): (r: Option<V>)
    ensures r.Some? <==> k in Keys(d)
    ensures r.Some? ==> r.value == d[KeyIndex(d, k)].1
  {
    if d == [] then None
    else if d[0].0 == k then Some(d[0].1)
    else Get(d[1..], k)
  }

  /** A position holding `k` with no earlier `k` is the key's position. */
  lemma {:induction false} KeyIndexFirst<K, V>(d: Dict<K, V>, k: K, i: nat)
    requires i < |d| && d[i].0 == k && forall j :: 0 <= j < i ==> d[j].0 != k
    ensures k in Keys(d) && KeyIndex(d, k) == i
  {
    assert Keys(d)[i] == k;
  }

  /** `d[k] = v`: a present key gets the new value where it stands; a new
      key is appended. */
  function Put<K(==), V>(d: Dict<K, V>, k: K, v: V): (r: Dict<K, V>)
    ensures |r| == if k in Keys(d) then |d| else |d| + 1
    ensures forall i :: 0 <= i < |d| && d[i].0 != k ==> r[i] == d[i]
  {
    if k in Keys(d) then d[KeyIndex(d, k) := (k, v)] else d + [(k, v)]
  }

  /** After `d[k] = v`, `k` maps to `v` and every other key keeps its value. */
  lemma {:induction false} PutGet<K, V>(d: Dict<K, V>, k: K, v: V, k': K)
    ensures Get(Put(d, k, v), k') == if k' == k then Some(v) else Get(d, k')
  {
    var r := Put(d, k, v);
    PutKeys(d, k, v);
    if k' == k {
      var i := if k in Keys(d) then KeyIndex(d, k) else |d|;
      KeyIndexFirst(r, k, i);
    } else if k' in Keys(d) {
      KeyIndexFirst(r, k', KeyIndex(d, k'));
    }
  }

  /** Keys stay in first-insertion order; a new key goes to the end. */
  lemma {:induction false} PutKeys<K, V>(d: Dict<K, V>, k: K, v: V)
    ensures Keys(Put(d, k, v)) == if k in Keys(d) then Keys(d) else Keys(d) + [k]
  {
    var r := Put(d, k, v);
    if k in Keys(d) {
      assert r[KeyIndex(d, k)].0 == k;
    }
  }

  /** `d[k] = v` never creates a second entry for a key. */
  lemma {:induction false} PutUnique<K, V>(d: Dict<K, V>, k: K, v: V)
    requires UniqueKeys(d)
    ensures UniqueKeys(Put(d, k, v))
  {
    var r := Put(d, k, v);
    PutKeys(d, k, v);
    forall i, j | 0 <= i < j < |r| ensures r[i].0 != r[j].0 {
      assert Keys(r)[i] == r[i].0 && Keys(r)[j] == r[j].0;
      if k !in Keys(d) && j == |d| {
        assert Keys(d)[i] == r[i].0;
      }
    }
  }

  /** The keys of a non-empty dict: those of all but its last item, and
      the last item's key. */
  lemma {:induction false} KeysInit<K, V>(d: Dict<K, V>, k: K)
    requires d != []
    ensures k in Keys(d) <==> k in Keys(d[..|d| - 1]) || k == d[|d| - 1].0
  {
    var p := d[..|d| - 1];
    assert Keys(d) == Keys(p) + [d[|d| - 1].0] by {
      forall i | 0 <= i < |d| ensures Keys(d)[i] == (Keys(p) + [d[|d| - 1].0])[i] {
      }
    }
  }

  /** With unique keys, looking up the key of an item finds that item. */
  lemma {:induction false} GetItem<K, V>(d: Dict<K, V>, i: nat)
    requires UniqueKeys(d) && i < |d|
    ensures Get(d, d[i].0) == Some(d[i].1)
  {
    assert Keys(d)[i] == d[i].0;
    assert KeyIndex(d, d[i].0) == i;
  }
}
