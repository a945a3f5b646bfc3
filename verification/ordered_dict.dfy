/** A Python dict as the model sees it: key/value pairs kept in insertion
    order, each key at most once. Iteration (`.keys()`, `.values()`,
    `.items()`) follows that order; assigning to an existing key keeps its
    position; `del` of a missing key raises KeyError. */
module OrderedDict {
  import opened Basics

  type Dict<K, V> = seq<(K, V)>

  function Keys<K, V>(d: Dict<K, V>): (ks: seq<K>)
    ensures |ks| == |d|
    ensures forall i :: 0 <= i < |d| ==> ks[i] == d[i].0
  {
    seq(|d|, i requires 0 <= i < |d| => d[i].0)
  }

  function Values<K, V>(d: Dict<K, V>): (vs: seq<V>)
    ensures |vs| == |d|
    ensures forall i :: 0 <= i < |d| ==> vs[i] == d[i].1
  {
    seq(|d|, i requires 0 <= i < |d| => d[i].1)
  }

  /** The invariant every Python dict keeps: no key occurs twice. */
  predicate DistinctKeys<K(==), V>(d: Dict<K, V>) {
    forall i, j :: 0 <= i < j < |d| ==> d[i].0 != d[j].0
  }

  /** Position of key k in insertion order. */
  function IndexOf<K(==), V>(d: Dict<K, V>, k: K): (i: nat)
    requires k in Keys(d)
    ensures i < |d| && d[i].0 == k
    ensures forall j :: 0 <= j < i ==> d[j].0 != k
  {
    if d[0].0 == k then 0
    else
      assert Keys(d) == [d[0].0] + Keys(d[1..]);
      1 + IndexOf(d[1..], k)
  }

  /** `d.get(k)`: the value stored under k, or None. */
  function Get<K(==), V(==)>(d: Dict<K, V>, k: K): (r: Option<V>)
    ensures r.Some? <==> k in Keys(d)
    ensures r.Some? ==> exists i :: 0 <= i < |d| && d[i] == (k, r.value)
  {
    if k in Keys(d) then Some(d[IndexOf(d, k)].1) else None
  }

  /** With distinct keys, looking up the key of any entry finds that entry. */
  lemma GetEntry<K, V>(d: Dict<K, V>, i: nat)
    requires DistinctKeys(d)
    requires i < |d|
    ensures Get(d, d[i].0) == Some(d[i].1)
  {
    assert Keys(d)[i] == d[i].0;
  }

  /** `d[k] = v`: an existing key keeps its position and gets the new value;
      a new key is appended at the end. */
  function Put<K(==), V(==)>(d: Dict<K, V>, k: K, v: V): (r: Dict<K, V>)
    ensures k in Keys(d) ==> Keys(r) == Keys(d)
    ensures k !in Keys(d) ==> Keys(r) == Keys(d) + [k]
    ensures k !in Keys(d) ==> r == d + [(k, v)]
    ensures forall i :: 0 <= i < |d| && d[i].0 != k ==> r[i] == d[i]
    ensures Get(r, k) == Some(v)
    ensures DistinctKeys(d) ==> DistinctKeys(r)
  {
    if k in Keys(d) then
      var i := IndexOf(d, k);
      var r := d[i := (k, v)];
      assert Keys(r) == Keys(d);
      r
    else
      var r := d + [(k, v)];
      assert Keys(r) == Keys(d) + [k];
      assert Keys(r)[|d|] == k;
      r
  }

  /** `del d[k]`: None stands for the KeyError raised when k is absent;
      otherwise the entry for k is gone and every other entry keeps its
      relative order. */
  function Delete<K(==), V>(d: Dict<K, V>, k: K): (r: Option<Dict<K, V>>)
    ensures r.Some? <==> k in Keys(d)
    ensures r.Some? ==> |r.value| == |d| - 1
    ensures r.Some? ==> forall i :: 0 <= i < |r.value| ==> r.value[i] == d[if i < IndexOf(d, k) then i else i + 1]
  {
    if k in Keys(d) then
      var n := IndexOf(d, k);
      var r := d[..n] + d[n + 1..];
      assert forall i :: 0 <= i < |r| ==> r[i] == d[if i < n then i else i + 1];
      Some(r)
    else
      None
  }

  /** Deleting k from a dict leaves a dict holding exactly the other keys. */
  lemma DeleteLeavesOtherKeys<K, V>(d: Dict<K, V>, k: K)
    requires DistinctKeys(d)
    requires k in Keys(d)
    ensures DistinctKeys(Delete(d, k).value)
    ensures forall x :: x in Keys(Delete(d, k).value) <==> x in Keys(d) && x != k
  {
    var r := Delete(d, k).value;
    var n := IndexOf(d, k);
    forall i, j | 0 <= i < j < |r| ensures r[i].0 != r[j].0 {
      assert r[i] == d[if i < n then i else i + 1];
      assert r[j] == d[if j < n then j else j + 1];
    }
    forall x | x in Keys(r) ensures x in Keys(d) && x != k {
      var i :| 0 <= i < |r| && Keys(r)[i] == x;
      var j := if i < n then i else i + 1;
      assert r[i] == d[j];
      assert x == Keys(d)[j];
    }
    forall x | x in Keys(d) && x != k ensures x in Keys(r) {
      var j :| 0 <= j < |d| && Keys(d)[j] == x;
      var i := if j < n then j else j - 1;
      assert r[i] == d[j];
      assert Keys(r)[i] == x;
    }
  }

  /** Deleting the key that was appended last gives back the dict before
      the append. */
  lemma DeleteLast<K, V>(d: Dict<K, V>, k: K, v: V)
    requires k !in Keys(d)
    ensures Delete(d + [(k, v)], k) == Some(d)
  {
    var e := d + [(k, v)];
    assert Keys(e)[|d|] == k;
    assert IndexOf(e, k) == |d| by {
      forall j | 0 <= j < |d| ensures e[j].0 != k {
        assert Keys(d)[j] == e[j].0;
      }
    }
    var r := Delete(e, k).value;
    assert forall i :: 0 <= i < |r| ==> r[i] == e[i] == d[i];
    assert r == d;
  }
}
