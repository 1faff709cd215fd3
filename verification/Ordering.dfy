/** Strict weak orders, the `Compare` parameter of the tree. */
module Ordering {

  /** `less` is asymmetric, and "not less" is transitive. */
  ghost predicate StrictWeakOrder<K(!new)>(less: (K, K) -> bool) {
    && (forall a, b :: less(a, b) ==> !less(b, a))
    && (forall a, b, c :: !less(a, b) && !less(b, c) ==> !less(a, c))
  }

  predicate Equivalent<K>(less: (K, K) -> bool, a: K, b: K) {
    !less(a, b) && !less(b, a)
  }

  /** Non-strictly sorted: no later key is less than an earlier one. */
  ghost predicate Sorted<K(!new)>(less: (K, K) -> bool, s: seq<K>) {
    forall i, j :: 0 <= i < j < |s| ==> !less(s[j], s[i])
  }

  ghost predicate AllLess<K(!new)>(less: (K, K) -> bool, s: seq<K>, k: K) {
    forall i :: 0 <= i < |s| ==> less(s[i], k)
  }

  ghost predicate AllGreater<K(!new)>(less: (K, K) -> bool, s: seq<K>, k: K) {
    forall i :: 0 <= i < |s| ==> less(k, s[i])
  }

  ghost predicate NoneGreater<K(!new)>(less: (K, K) -> bool, s: seq<K>, k: K) {
    forall i :: 0 <= i < |s| ==> !less(k, s[i])
  }

  ghost predicate NoneLess<K(!new)>(less: (K, K) -> bool, s: seq<K>, k: K) {
    forall i :: 0 <= i < |s| ==> !less(s[i], k)
  }

  lemma {:induction false} SortedConcat<K(!new)>(less: (K, K) -> bool, a: seq<K>, k: K, b: seq<K>)
    requires StrictWeakOrder(less)
    ensures Sorted(less, a + [k] + b) <==>
            Sorted(less, a) && Sorted(less, b) && NoneGreater(less, a, k) && NoneLess(less, b, k)
  {
    var s := a + [k] + b;
    assert s[|a|] == k;
    assert forall i :: 0 <= i < |a| ==> s[i] == a[i];
    assert forall i :: 0 <= i < |b| ==> b[i] == s[|a| + 1 + i];
    assert forall i :: |a| < i < |s| ==> s[i] == b[i - |a| - 1];
    if Sorted(less, s) {
      forall i, j | 0 <= i < j < |b| ensures !less(b[j], b[i]) {
        assert !less(s[|a| + 1 + j], s[|a| + 1 + i]);
      }
    }
  }

  lemma BelowLess<K(!new)>(less: (K, K) -> bool, s: seq<K>, m: K, k: K)
    requires StrictWeakOrder(less) && NoneGreater(less, s, m) && less(m, k)
    ensures AllLess(less, s, k)
  {
    forall i | 0 <= i < |s| ensures less(s[i], k) {
      assert !less(m, s[i]) && !less(s[i], k) ==> !less(m, k);
    }
  }

  lemma AboveGreater<K(!new)>(less: (K, K) -> bool, s: seq<K>, m: K, k: K)
    requires StrictWeakOrder(less) && NoneLess(less, s, m) && less(k, m)
    ensures AllGreater(less, s, k)
  {
    forall i | 0 <= i < |s| ensures less(k, s[i]) {
      assert !less(s[i], m) && !less(k, s[i]) ==> !less(k, m);
    }
  }

  lemma NoneGreaterConcat<K(!new)>(less: (K, K) -> bool, a: seq<K>, k: K, b: seq<K>, x: K)
    ensures NoneGreater(less, a + [k] + b, x) <==>
            NoneGreater(less, a, x) && !less(x, k) && NoneGreater(less, b, x)
  {
    var s := a + [k] + b;
    assert s[|a|] == k;
    assert forall i :: 0 <= i < |a| ==> s[i] == a[i];
    if NoneGreater(less, s, x) {
      forall i | 0 <= i < |b| ensures !less(x, b[i]) {
        assert !less(x, s[|a| + 1 + i]);
      }
    }
  }

  lemma NoneGreaterUp<K(!new)>(less: (K, K) -> bool, s: seq<K>, m: K, k: K)
    requires StrictWeakOrder(less) && NoneGreater(less, s, m) && !less(k, m)
    ensures NoneGreater(less, s, k)
  {
    forall i | 0 <= i < |s| ensures !less(k, s[i]) {
      assert !less(m, s[i]);
    }
  }

  lemma NoneLessDown<K(!new)>(less: (K, K) -> bool, s: seq<K>, m: K, k: K)
    requires StrictWeakOrder(less) && NoneLess(less, s, m) && !less(m, k)
    ensures NoneLess(less, s, k)
  {
    forall i | 0 <= i < |s| ensures !less(s[i], k) {
      assert !less(s[i], m);
    }
  }

  /** A key goes anywhere between the keys it is not less than and those not less than it. */
  lemma SortedInsert<K(!new)>(less: (K, K) -> bool, a: seq<K>, k: K, b: seq<K>)
    requires StrictWeakOrder(less) && Sorted(less, a + b) && NoneGreater(less, a, k) && NoneLess(less, b, k)
    ensures Sorted(less, a + [k] + b)
  {
    var s := a + b;
    assert forall i :: 0 <= i < |a| ==> s[i] == a[i];
    forall i, j | 0 <= i < j < |b| ensures !less(b[j], b[i]) {
      assert !less(s[|a| + j], s[|a| + i]);
    }
    assert Sorted(less, a);
    SortedConcat(less, a, k, b);
  }

  lemma NoneGreaterAppend<K(!new)>(less: (K, K) -> bool, a: seq<K>, b: seq<K>, x: K)
    ensures NoneGreater(less, a + b, x) <==> NoneGreater(less, a, x) && NoneGreater(less, b, x)
  {
    var s := a + b;
    if NoneGreater(less, s, x) {
      forall i | 0 <= i < |a| ensures !less(x, a[i]) { assert !less(x, s[i]); }
      forall i | 0 <= i < |b| ensures !less(x, b[i]) { assert !less(x, s[|a| + i]); }
    }
  }

  lemma NoneLessAppend<K(!new)>(less: (K, K) -> bool, a: seq<K>, b: seq<K>, x: K)
    ensures NoneLess(less, a + b, x) <==> NoneLess(less, a, x) && NoneLess(less, b, x)
  {
    var s := a + b;
    if NoneLess(less, s, x) {
      forall i | 0 <= i < |a| ensures !less(a[i], x) { assert !less(s[i], x); }
      forall i | 0 <= i < |b| ensures !less(b[i], x) { assert !less(s[|a| + i], x); }
    }
  }

  /** What sortedness of `all`, which is l, k and r together, says for a search key x. */
  ghost predicate Split<K(!new)>(less: (K, K) -> bool, all: seq<K>, l: seq<K>, k: K, r: seq<K>, x: K) {
    && Sorted(less, l) && Sorted(less, r) && NoneGreater(less, l, k) && NoneLess(less, r, k)
    && (!less(x, k) ==> NoneGreater(less, l, x))
    && (NoneGreater(less, all, x) ==> NoneGreater(less, r, x) && !less(x, k))
    && (less(k, x) ==> AllLess(less, l, x))
    && (less(x, k) ==> AllGreater(less, r, x))
  }

  lemma SplitAt<K(!new)>(less: (K, K) -> bool, l: seq<K>, k: K, r: seq<K>, x: K)
    requires StrictWeakOrder(less) && Sorted(less, l + [k] + r)
    ensures Split(less, l + [k] + r, l, k, r, x)
  {
    SortedConcat(less, l, k, r);
    NoneGreaterConcat(less, l, k, r, x);
    if less(k, x) { BelowLess(less, l, k, x); }
    if less(x, k) { AboveGreater(less, r, k, x); } else { NoneGreaterUp(less, l, k, x); }
  }
}
