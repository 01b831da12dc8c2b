/** The comparison functions that the maps of the repository are instantiated with. */
module RbOrder {

  newtype byte = n: int | 0 <= n < 256
  type Bytes = seq<byte>

  /** What CCEPH_IMPL_MAP expects of its comparison: the sign tells a total order. */
  ghost predicate TotalOrder<K(!new)>(cmp: (K, K) -> int) {
    && (forall a, b :: cmp(a, b) == 0 <==> a == b)
    && (forall a, b :: cmp(a, b) < 0 <==> cmp(b, a) > 0)
    && (forall a, b, c :: cmp(a, b) < 0 && cmp(b, c) < 0 ==> cmp(a, c) < 0)
  }

  /** cceph_os_coll_id_cmp of os/types.c and intcmp of common/util.c */
  function IntCmp(a: int, b: int): int {
    if a > b then 1 else if a < b then -1 else 0
  }

  lemma IntCmpTotal()
    ensures TotalOrder(IntCmp) && forall a, b :: IntCmp(a, b) < 0 <==> a < b
  {}

  /** strcmp, on the bytes before the terminator. */
  function StrCmp(a: Bytes, b: Bytes): int {
    if a == [] then (if b == [] then 0 else -1)
    else if b == [] then 1
    else if a[0] == b[0] then StrCmp(a[1..], b[1..])
    else if a[0] < b[0] then -1 else 1
  }

  lemma {:induction false} StrCmpEqual(a: Bytes, b: Bytes)
    ensures StrCmp(a, b) == 0 <==> a == b
    ensures StrCmp(a, b) < 0 <==> StrCmp(b, a) > 0
  {
    if a != [] && b != [] {
      assert a == [a[0]] + a[1..] && b == [b[0]] + b[1..];
      StrCmpEqual(a[1..], b[1..]);
    }
  }

  /** Two strings agree up to place `k`, where the first one ends or has the smaller byte. */
  ghost predicate Below(a: Bytes, b: Bytes, k: nat) {
    k <= |a| && k < |b| && a[..k] == b[..k] && (k < |a| ==> a[k] < b[k])
  }

  lemma {:induction false} StrCmpBelow(a: Bytes, b: Bytes)
    ensures StrCmp(a, b) < 0 <==> exists k: nat :: Below(a, b, k)
  {
    if a == [] || b == [] || a[0] != b[0] {
      assert a == [] && b != [] ==> Below(a, b, 0);
      assert a != [] && b != [] && a[0] < b[0] ==> Below(a, b, 0);
    } else {
      StrCmpBelow(a[1..], b[1..]);
      if k: nat :| Below(a[1..], b[1..], k) {
        assert a[..k + 1] == [a[0]] + a[1..][..k] && b[..k + 1] == [b[0]] + b[1..][..k];
        assert Below(a, b, k + 1);
      }
      if k: nat :| Below(a, b, k) {
        assert k > 0 && a[1..][..k - 1] == a[..k][1..] && b[1..][..k - 1] == b[..k][1..];
        assert Below(a[1..], b[1..], k - 1);
      }
    }
  }

  lemma {:induction false} StrCmpTransitive(a: Bytes, b: Bytes, c: Bytes)
    requires StrCmp(a, b) < 0 && StrCmp(b, c) < 0
    ensures StrCmp(a, c) < 0
  {
    if a != [] && b != [] && c != [] && a[0] == b[0] == c[0] {
      StrCmpTransitive(a[1..], b[1..], c[1..]);
    }
  }

  lemma StrCmpTotal()
    ensures TotalOrder(StrCmp)
  {
    forall a, b ensures StrCmp(a, b) == 0 <==> a == b
    {
      StrCmpEqual(a, b);
    }
    forall a, b ensures StrCmp(a, b) < 0 <==> StrCmp(b, a) > 0
    {
      StrCmpEqual(a, b);
    }
    forall a, b, c | StrCmp(a, b) < 0 && StrCmp(b, c) < 0 ensures StrCmp(a, c) < 0
    {
      StrCmpTransitive(a, b, c);
    }
  }
}
