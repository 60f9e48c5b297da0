/** The plain sorted map that the skip list stands for: entries in strictly ascending key order. */
module SortedEntries {
  import opened Collections
  import opened StableSorting

  ghost predicate IsSortedMap<K, V>(cmp: (K, K) -> Ordering, es: seq<(K, V)>) {
    forall i, j :: 0 <= i < j < |es| ==> cmp(es[i].0, es[j].0) == Less
  }

  ghost function Get<K, V>(cmp: (K, K) -> Ordering, es: seq<(K, V)>, k: K): Option<V> {
    if es == [] then None
    else if cmp(es[0].0, k) == Equal then Some(es[0].1)
    else Get(cmp, es[1..], k)
  }

  /** A key that is already there keeps its place and gets the new value. */
  ghost function Put<K, V>(cmp: (K, K) -> Ordering, es: seq<(K, V)>, k: K, v: V): seq<(K, V)> {
    if es == [] then [(k, v)]
    else
      match cmp(es[0].0, k)
      case Less => [es[0]] + Put(cmp, es[1..], k, v)
      case Equal => [(es[0].0, v)] + es[1..]
      case Greater => [(k, v)] + es
  }

  ghost function Without<K, V>(cmp: (K, K) -> Ordering, es: seq<(K, V)>, k: K): seq<(K, V)> {
    if es == [] then []
    else if cmp(es[0].0, k) == Equal then es[1..]
    else [es[0]] + Without(cmp, es[1..], k)
  }

  /** The entries whose keys lie in the half-open range. */
  ghost function Between<K, V>(cmp: (K, K) -> Ordering, es: seq<(K, V)>, start: K, end: K): seq<(K, V)> {
    if es == [] then []
    else (if cmp(es[0].0, start) != Less && cmp(es[0].0, end) == Less then [es[0]] else []) +
         Between(cmp, es[1..], start, end)
  }

  /** `p` splits the entries at `k`: those before it are smaller, those behind it are greater. */
  ghost predicate SplitsAt<K, V>(cmp: (K, K) -> Ordering, es: seq<(K, V)>, k: K, p: nat) {
    && p <= |es|
    && (forall i :: 0 <= i < p ==> cmp(es[i].0, k) == Less)
    && (forall i :: p < i < |es| ==> cmp(es[i].0, k) == Greater)
    && (p < |es| ==> cmp(es[p].0, k) != Less)
  }

  ghost predicate FoundAt<K, V>(cmp: (K, K) -> Ordering, es: seq<(K, V)>, k: K, p: nat) {
    p < |es| && cmp(es[p].0, k) == Equal
  }

  lemma Tails<A>(s: seq<A>, p: nat)
    requires 0 < p <= |s|
    ensures s[..p] == [s[0]] + s[1..][..p - 1] && s[p..] == s[1..][p - 1..]
    ensures p < |s| ==> s[p] == s[1..][p - 1] && s[p + 1..] == s[1..][p..]
  {
  }

  lemma {:induction false} PutAtSplit<K, V>(cmp: (K, K) -> Ordering, es: seq<(K, V)>, k: K, v: V, p: nat)
    requires SplitsAt(cmp, es, k, p)
    ensures Put(cmp, es, k, v) ==
            if FoundAt(cmp, es, k, p) then es[..p] + [(es[p].0, v)] + es[p + 1..] else es[..p] + [(k, v)] + es[p..]
  {
    if p > 0 {
      Tails(es, p);
      PutAtSplit(cmp, es[1..], k, v, p - 1);
    }
  }

  lemma {:induction false} GetAtSplit<K, V>(cmp: (K, K) -> Ordering, es: seq<(K, V)>, k: K, p: nat)
    requires SplitsAt(cmp, es, k, p)
    ensures Get(cmp, es, k) == if FoundAt(cmp, es, k, p) then Some(es[p].1) else None
  {
    if p > 0 {
      GetAtSplit(cmp, es[1..], k, p - 1);
    } else if !FoundAt(cmp, es, k, p) {
      AllGreater(cmp, es, k);
    }
  }

  lemma {:induction false} WithoutAtSplit<K, V>(cmp: (K, K) -> Ordering, es: seq<(K, V)>, k: K, p: nat)
    requires SplitsAt(cmp, es, k, p)
    ensures Without(cmp, es, k) == if FoundAt(cmp, es, k, p) then es[..p] + es[p + 1..] else es
  {
    if p > 0 {
      Tails(es, p);
      WithoutAtSplit(cmp, es[1..], k, p - 1);
    } else if !FoundAt(cmp, es, k, p) {
      AllGreater(cmp, es, k);
    }
  }

  lemma {:induction false} AllGreater<K, V>(cmp: (K, K) -> Ordering, es: seq<(K, V)>, k: K)
    requires forall i :: 0 <= i < |es| ==> cmp(es[i].0, k) == Greater
    ensures Get(cmp, es, k) == None && Without(cmp, es, k) == es
  {
    if es != [] {
      AllGreater(cmp, es[1..], k);
    }
  }

  lemma {:induction false} BetweenIsSlice<K, V>(cmp: (K, K) -> Ordering, es: seq<(K, V)>, start: K, end: K,
                                                lo: nat, hi: nat)
    requires lo <= hi <= |es|
    requires forall i :: 0 <= i < lo ==> cmp(es[i].0, start) == Less
    requires forall i :: lo <= i < |es| ==> cmp(es[i].0, start) != Less
    requires forall i :: lo <= i < hi ==> cmp(es[i].0, end) == Less
    requires forall i :: hi <= i < |es| ==> cmp(es[i].0, end) != Less
    ensures Between(cmp, es, start, end) == es[lo..hi]
  {
    if es != [] {
      BetweenIsSlice(cmp, es[1..], start, end, if lo > 0 then lo - 1 else 0, if hi > 0 then hi - 1 else 0);
      assert hi > 0 ==> es[1..][..hi - 1] == es[1..hi];
    }
  }

  lemma NotLessFrom<K(!new), V>(cmp: (K, K) -> Ordering, es: seq<(K, V)>, k: K, hi: nat, i: nat)
    requires IsTotalPreorder(cmp) && IsSortedMap(cmp, es)
    requires hi <= i < |es| && cmp(es[hi].0, k) != Less
    ensures cmp(es[i].0, k) != Less
  {
    assert i == hi || Le(cmp, es[hi].0, es[i].0);
    assert Le(cmp, k, es[hi].0);
    assert Le(cmp, k, es[i].0);
  }

  // ---------------------------------------------------------------- the laws of a map

  lemma {:induction false} PutThenGet<K(!new), V>(cmp: (K, K) -> Ordering, es: seq<(K, V)>, k: K, v: V, q: K)
    requires IsTotalPreorder(cmp)
    ensures Get(cmp, Put(cmp, es, k, v), q) == if cmp(k, q) == Equal then Some(v) else Get(cmp, es, q)
  {
    if es != [] {
      var x := es[0].0;
      assert cmp(x, k) == Equal ==> (cmp(x, q) == Equal <==> cmp(k, q) == Equal) by {
        EqualTransitive(cmp, x, k, q);
      }
      if cmp(x, k) == Less {
        PutThenGet(cmp, es[1..], k, v, q);
        EqualTransitive(cmp, x, q, k);
      }
    }
  }

  lemma EqualTransitive<K(!new)>(cmp: (K, K) -> Ordering, x: K, y: K, z: K)
    requires IsTotalPreorder(cmp)
    ensures cmp(x, y) == Equal ==> (cmp(x, z) == Equal <==> cmp(y, z) == Equal)
    ensures cmp(x, y) == Equal <==> cmp(y, x) == Equal
  {
    assert cmp(x, y) == Equal <==> Le(cmp, x, y) && Le(cmp, y, x);
    assert cmp(x, z) == Equal <==> Le(cmp, x, z) && Le(cmp, z, x);
    assert cmp(y, z) == Equal <==> Le(cmp, y, z) && Le(cmp, z, y);
  }

  lemma {:induction false} WithoutThenGet<K(!new), V>(cmp: (K, K) -> Ordering, es: seq<(K, V)>, k: K, q: K)
    requires IsTotalPreorder(cmp) && IsSortedMap(cmp, es)
    ensures Get(cmp, Without(cmp, es, k), q) == if cmp(k, q) == Equal then None else Get(cmp, es, q)
  {
    if es != [] {
      var x := es[0].0;
      EqualTransitive(cmp, x, k, q);
      EqualTransitive(cmp, x, q, k);
      EqualTransitive(cmp, k, q, x);
      if cmp(x, k) == Equal {
        if cmp(k, q) == Equal {
          forall i | 1 <= i < |es|
            ensures cmp(es[i].0, q) == Greater
          {
            assert cmp(x, es[i].0) == Less && Le(cmp, q, x);
            assert Le(cmp, es[i].0, q) ==> Le(cmp, es[i].0, x);
          }
          AllGreater(cmp, es[1..], q);
        }
      } else {
        WithoutThenGet(cmp, es[1..], k, q);
      }
    }
  }
}
