/** The pointer-id table of test.py: `{key: idx for idx, key in
    enumerate(key_positions)}`, one small integer per mapped key, fixed for
    the whole session. */
module PointerIdTable {

  /** Built the way the dict comprehension builds it: keys are visited in
      order and each visit stores its index (a later duplicate would
      overwrite an earlier one). */
  function PointerIds<K(==)>(keys: seq<K>): (ids: map<K, nat>)
    ensures forall i :: 0 <= i < |keys| ==> keys[i] in ids
    ensures forall k :: k in ids ==> ids[k] < |keys| && keys[ids[k]] == k
  {
    if |keys| == 0 then map[]
    else
      var init := keys[..|keys| - 1];
      var ids := PointerIds(init)[keys[|keys| - 1] := |keys| - 1];
      assert forall i :: 0 <= i < |keys| - 1 ==> keys[i] == init[i];
      ids
  }

  predicate Distinct<K(==)>(keys: seq<K>) {
    forall i, j :: 0 <= i < j < |keys| ==> keys[i] != keys[j]
  }

  /** For a dict's (distinct) keys the ids are the enumeration indices: the
      i-th key gets id i, every id names exactly one key, and the ids used are
      exactly 0 .. N-1. */
  lemma IdsAreEnumerationIndices<K>(keys: seq<K>)
    requires Distinct(keys)
    ensures forall i :: 0 <= i < |keys| ==> keys[i] in PointerIds(keys) && PointerIds(keys)[keys[i]] == i
    ensures forall a, b :: a in PointerIds(keys) && b in PointerIds(keys) && PointerIds(keys)[a] == PointerIds(keys)[b] ==> a == b
    ensures forall n :: n in PointerIds(keys).Values <==> 0 <= n < |keys|
  {
    var ids := PointerIds(keys);
    forall i | 0 <= i < |keys|
      ensures keys[i] in ids && ids[keys[i]] == i
    {
      var j := ids[keys[i]];
      assert keys[j] == keys[i];
    }
    forall n | n in ids.Values ensures 0 <= n < |keys| {
      var k :| k in ids && ids[k] == n;
    }
    forall n | 0 <= n < |keys| ensures n in ids.Values {
      assert keys[n] in ids && ids[keys[n]] == n;
    }
  }
}
