/**
 * "Keep the first entry for each key" — the specification shared by the two
 * dedup loops of the stream handler (queries by text, search results by URL).
 */
module FirstSeen {

  /** The keys present in `xs`. */
  function KeySet<T, K(==)>(xs: seq<T>, key: T -> K): set<K> {
    set i | 0 <= i < |xs| :: key(xs[i])
  }

  lemma KeySetSnoc<T, K>(xs: seq<T>, x: T, key: T -> K)
    ensures KeySet(xs + [x], key) == KeySet(xs, key) + {key(x)}
  {
    var ys := xs + [x];
    forall k | k in KeySet(ys, key) ensures k in KeySet(xs, key) + {key(x)} {
      var i :| 0 <= i < |ys| && key(ys[i]) == k;
      if i < |xs| { assert ys[i] == xs[i]; }
    }
    forall k | k in KeySet(xs, key) ensures k in KeySet(ys, key) {
      var i :| 0 <= i < |xs| && key(xs[i]) == k;
      assert ys[i] == xs[i];
    }
    assert ys[|xs|] == x;
  }

  /** `xs` with every entry whose key an earlier entry already had dropped. */
  function DedupBy<T, K(==)>(xs: seq<T>, key: T -> K): seq<T>
    decreases |xs|
  {
    if xs == [] then []
    else
      var d := DedupBy(xs[..|xs| - 1], key);
      var x := xs[|xs| - 1];
      if key(x) in KeySet(d, key) then d else d + [x]
  }

  /** The position of the first entry with key `k`, or -1. */
  function FirstIndex<T, K(==)>(xs: seq<T>, key: T -> K, k: K): (i: int)
    ensures -1 <= i < |xs|
    ensures i >= 0 ==> key(xs[i]) == k
    ensures forall j :: 0 <= j < |xs| && (i == -1 || j < i) ==> key(xs[j]) != k
    decreases |xs|
  {
    if xs == [] then -1
    else if key(xs[0]) == k then 0
    else
      var r := FirstIndex(xs[1..], key, k);
      if r < 0 then -1 else r + 1
  }

  lemma FirstIndexSnoc<T, K>(xs: seq<T>, x: T, key: T -> K, k: K)
    ensures FirstIndex(xs + [x], key, k) ==
      if FirstIndex(xs, key, k) >= 0 then FirstIndex(xs, key, k)
      else if key(x) == k then |xs| else -1
  {
    var ys := xs + [x];
    forall j | 0 <= j < |xs| ensures ys[j] == xs[j] { }
    assert ys[|xs|] == x;
  }

  /** The entries kept have the same keys as the whole input. */
  lemma {:induction false} DedupByKeys<T, K>(xs: seq<T>, key: T -> K)
    ensures KeySet(DedupBy(xs, key), key) == KeySet(xs, key)
    decreases |xs|
  {
    if xs != [] {
      var ys, x := xs[..|xs| - 1], xs[|xs| - 1];
      assert xs == ys + [x];
      DedupByKeys(ys, key);
      KeySetSnoc(ys, x, key);
      var d := DedupBy(ys, key);
      if key(x) !in KeySet(d, key) { KeySetSnoc(d, x, key); }
    }
  }

  /** No two kept entries share a key. */
  lemma {:induction false} DedupByDistinct<T, K>(xs: seq<T>, key: T -> K)
    ensures forall a, b :: 0 <= a < b < |DedupBy(xs, key)| ==> key(DedupBy(xs, key)[a]) != key(DedupBy(xs, key)[b])
    decreases |xs|
  {
    if xs != [] {
      var ys, x := xs[..|xs| - 1], xs[|xs| - 1];
      DedupByDistinct(ys, key);
      var d := DedupBy(ys, key);
      if key(x) !in KeySet(d, key) {
        var e := d + [x];
        forall a, b | 0 <= a < b < |e| ensures key(e[a]) != key(e[b]) {
          if b == |d| { assert key(e[a]) in KeySet(d, key) by { assert e[a] == d[a]; } }
          else { assert e[a] == d[a] && e[b] == d[b]; }
        }
      }
    }
  }

  /**
   * Each kept entry is the first input entry with its key, and the kept
   * entries come in the order in which their keys were first seen.
   */
  lemma {:induction false} DedupByFirst<T, K>(xs: seq<T>, key: T -> K)
    ensures forall a :: 0 <= a < |DedupBy(xs, key)| ==>
      0 <= FirstIndex(xs, key, key(DedupBy(xs, key)[a])) &&
      DedupBy(xs, key)[a] == xs[FirstIndex(xs, key, key(DedupBy(xs, key)[a]))]
    ensures forall a, b :: 0 <= a < b < |DedupBy(xs, key)| ==>
      FirstIndex(xs, key, key(DedupBy(xs, key)[a])) < FirstIndex(xs, key, key(DedupBy(xs, key)[b]))
    decreases |xs|
  {
    if xs != [] {
      var ys, x := xs[..|xs| - 1], xs[|xs| - 1];
      assert xs == ys + [x];
      DedupByFirst(ys, key);
      DedupByKeys(ys, key);
      var d := DedupBy(ys, key);
      var e := DedupBy(xs, key);
      forall a | 0 <= a < |d| ensures FirstIndex(xs, key, key(d[a])) == FirstIndex(ys, key, key(d[a])) {
        FirstIndexSnoc(ys, x, key, key(d[a]));
      }
      forall a | 0 <= a < |d| ensures xs[FirstIndex(ys, key, key(d[a]))] == ys[FirstIndex(ys, key, key(d[a]))] {
      }
      if key(x) !in KeySet(d, key) {
        assert e == d + [x];
        FirstIndexSnoc(ys, x, key, key(x));
        forall j | 0 <= j < |ys| ensures key(ys[j]) != key(x) {
          assert key(ys[j]) in KeySet(ys, key);
        }
        assert FirstIndex(xs, key, key(x)) == |ys|;
        forall a | 0 <= a < |e| ensures 0 <= FirstIndex(xs, key, key(e[a])) && e[a] == xs[FirstIndex(xs, key, key(e[a]))] {
          if a < |d| { assert e[a] == d[a]; }
        }
        forall a, b | 0 <= a < b < |e| ensures FirstIndex(xs, key, key(e[a])) < FirstIndex(xs, key, key(e[b])) {
          assert e[a] == d[a];
          if b < |d| { assert e[b] == d[b]; }
        }
      }
    }
  }
}
