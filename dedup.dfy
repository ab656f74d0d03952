/**
 * First-seen-wins de-duplication by key.  One definition serves both
 * pandas' `unique()` on the ID column (the key is the value itself) and the
 * scraper's loop that appends a record only when its ID has not been seen
 * (the key is the record's file ID).
 */
module Dedup {

  /** The keys of the elements of `s`. */
  function KeySet<T, K(==)>(s: seq<T>, key: T -> K): set<K> {
    set i | 0 <= i < |s| :: key(s[i])
  }

  /** No two elements of `s` share a key. */
  predicate DistinctKeys<T, K(==)>(s: seq<T>, key: T -> K) {
    forall i, j :: 0 <= i < j < |s| ==> key(s[i]) != key(s[j])
  }

  /** The index of the first element of `s` with key `k`, or `|s|` if none. */
  function FirstIndex<T, K(==)>(s: seq<T>, key: T -> K, k: K): (n: nat)
    ensures n <= |s|
    ensures n < |s| ==> key(s[n]) == k
    ensures forall j :: 0 <= j < n ==> key(s[j]) != k
    ensures n == |s| <==> k !in KeySet(s, key)
  {
    if s == [] then 0
    else if key(s[0]) == k then 0
    else
      var n := 1 + FirstIndex(s[1..], key, k);
      assert forall j :: 1 <= j < |s| ==> s[j] == s[1..][j - 1];
      n
  }

  lemma KeySetSnoc<T, K>(s: seq<T>, key: T -> K)
    requires s != []
    ensures KeySet(s, key) == KeySet(s[..|s| - 1], key) + {key(s[|s| - 1])}
  {
    var m := |s| - 1;
    forall k | k in KeySet(s, key) ensures k in KeySet(s[..m], key) + {key(s[m])} {
      var i :| 0 <= i < |s| && key(s[i]) == k;
      if i < m { assert s[..m][i] == s[i]; }
    }
    forall k | k in KeySet(s[..m], key) ensures k in KeySet(s, key) {
      var i :| 0 <= i < m && key(s[..m][i]) == k;
      assert s[i] == s[..m][i];
    }
  }

  /** Where a key first occurs does not depend on what follows that point. */
  lemma FirstIndexPrefix<T, K>(s: seq<T>, key: T -> K, k: K, n: nat)
    requires n <= |s|
    ensures FirstIndex(s[..n], key, k) < n ==> FirstIndex(s, key, k) == FirstIndex(s[..n], key, k)
    ensures FirstIndex(s[..n], key, k) == n ==> FirstIndex(s, key, k) >= n
  {
    assert forall j :: 0 <= j < n ==> s[..n][j] == s[j];
  }

  /** Keys that occur among the first `m` elements first occur where they do in that prefix. */
  lemma FirstIndexInPrefix<T, K>(s: seq<T>, key: T -> K, m: nat, p: seq<T>)
    requires m <= |s| && KeySet(p, key) <= KeySet(s[..m], key)
    ensures forall i :: 0 <= i < |p| ==> FirstIndex(s, key, key(p[i])) == FirstIndex(s[..m], key, key(p[i]))
  {
    forall i | 0 <= i < |p|
      ensures FirstIndex(s, key, key(p[i])) == FirstIndex(s[..m], key, key(p[i]))
    {
      FirstIndexPrefix(s, key, key(p[i]), m);
      assert key(p[i]) in KeySet(p, key);
    }
  }

  /**
   * Keeps, in order, the first element seen for each key: the result has
   * pairwise distinct keys and exactly the keys of `s`; `DedupFirstSeen`
   * says which element is kept for each key and in what order.
   */
  function DedupBy<T, K(==)>(s: seq<T>, key: T -> K): (r: seq<T>)
    ensures DistinctKeys(r, key)
    ensures KeySet(r, key) == KeySet(s, key)
  {
    if s == [] then []
    else
      var m := |s| - 1;
      var p := DedupBy(s[..m], key);
      var x := s[m];
      KeySetSnoc(s, key);
      if key(x) in KeySet(p, key) then p
      else
        var r := p + [x];
        KeySetSnoc(r, key);
        assert r[..|p|] == p;
        assert forall i :: 0 <= i < |p| ==> r[i] == p[i];
        assert forall i :: 0 <= i < |p| ==> key(p[i]) in KeySet(p, key);
        r
  }

  /**
   * Each kept element is the first element of `s` with its key, and the kept
   * elements appear in the order in which their keys first appear in `s`.
   */
  lemma {:induction false} DedupFirstSeen<T, K>(s: seq<T>, key: T -> K)
    ensures forall i :: 0 <= i < |DedupBy(s, key)| ==>
      FirstIndex(s, key, key(DedupBy(s, key)[i])) < |s|
      && DedupBy(s, key)[i] == s[FirstIndex(s, key, key(DedupBy(s, key)[i]))]
    ensures forall i, j :: 0 <= i < j < |DedupBy(s, key)| ==>
      FirstIndex(s, key, key(DedupBy(s, key)[i])) < FirstIndex(s, key, key(DedupBy(s, key)[j]))
    decreases |s|
  {
    if s != [] {
      var m := |s| - 1;
      var p := DedupBy(s[..m], key);
      var x := s[m];
      DedupFirstSeen(s[..m], key);
      FirstIndexInPrefix(s, key, m, p);
      FirstIndexPrefix(s, key, key(x), m);
      KeySetSnoc(s, key);
      if key(x) !in KeySet(p, key) {
        var r := p + [x];
        assert DedupBy(s, key) == r;
        assert forall i :: 0 <= i < |p| ==> r[i] == p[i];
      }
    }
  }

  /**
   * First seen wins: for an element among the first `n`, the result keeps
   * one element with its key, and that element is among the first `n` too.
   */
  lemma DedupKeepsEarliest<T, K>(s: seq<T>, key: T -> K, n: nat, x: T)
    requires n <= |s| && x in s[..n]
    ensures exists k :: 0 <= k < |DedupBy(s, key)| && key(DedupBy(s, key)[k]) == key(x)
    ensures forall k :: (0 <= k < |DedupBy(s, key)| && key(DedupBy(s, key)[k]) == key(x)
      ==> DedupBy(s, key)[k] in s[..n])
  {
    var r := DedupBy(s, key);
    DedupFirstSeen(s, key);
    var p :| 0 <= p < n && s[..n][p] == x;
    assert s[p] == x;
    assert key(x) in KeySet(s, key);
    var first := FirstIndex(s, key, key(x));
    assert first <= p;
    assert s[..n][first] == s[first];
    assert key(x) in KeySet(r, key);
  }

  /** One more element: kept exactly when its key is new. */
  lemma DedupSnoc<T, K>(s: seq<T>, x: T, key: T -> K)
    ensures DedupBy(s + [x], key)
      == if key(x) in KeySet(DedupBy(s, key), key) then DedupBy(s, key) else DedupBy(s, key) + [x]
  {
    assert (s + [x])[..|s|] == s;
  }

  /** Append-only: later elements never remove or replace a kept one. */
  lemma {:induction false} DedupPrefix<T, K>(s: seq<T>, n: nat, key: T -> K)
    requires n <= |s|
    ensures DedupBy(s[..n], key) <= DedupBy(s, key)
    decreases |s|
  {
    if n < |s| {
      var m := |s| - 1;
      assert s[..m][..n] == s[..n];
      DedupPrefix(s[..m], n, key);
    } else {
      assert s[..n] == s;
    }
  }
}
