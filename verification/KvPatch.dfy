/**
 Key/value maps and the rule of os/types.h by which one map patches another. A value of length 0
 in the patch means that the key is to go.
 */
module KvPatch {
  import opened RbOrder

  type KvMap = map<Bytes, Bytes>

  /** The update rule of os/types.h, key by key: an empty value removes, another value sets,
      and keys that the patch does not name stay as they are. */
  function Patch(m: KvMap, patch: KvMap): (r: KvMap)
    ensures forall k :: k in r <==> if k in patch then patch[k] != [] else k in m
    ensures forall k :: k in r ==> r[k] == if k in patch then patch[k] else m[k]
  {
    map k | k in m.Keys + patch.Keys && (k in patch ==> patch[k] != []) :: if k in patch then patch[k] else m[k]
  }

  ghost predicate NoEmptyValue(m: KvMap) {
    forall k :: k in m ==> m[k] != []
  }

  lemma PatchTwice(m: KvMap, patch: KvMap)
    ensures Patch(Patch(m, patch), patch) == Patch(m, patch)
  {}

  /** Two patches in a row are one: the later one overrides the earlier. */
  lemma PatchCompose(m: KvMap, a: KvMap, b: KvMap)
    ensures Patch(Patch(m, a), b) == Patch(m, a + b)
  {
    var r, r' := Patch(Patch(m, a), b), Patch(m, a + b);
    assert forall k :: k in r' <==> k in r;
  }

  /** Patching an empty map copies the patch exactly when the patch has no empty value. */
  lemma PatchEmpty(patch: KvMap)
    ensures Patch(map[], patch) == patch <==> NoEmptyValue(patch)
  {}

  /** Without empty values a patch only overrides: no key is lost. */
  lemma PatchKeeps(m: KvMap, patch: KvMap)
    ensures NoEmptyValue(patch) ==> Patch(m, patch) == m + patch
    ensures NoEmptyValue(m) ==> NoEmptyValue(Patch(m, patch))
  {}
}
