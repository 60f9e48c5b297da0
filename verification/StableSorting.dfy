/**
 * What a stable sort computes: insertion of each element after the ones it
 * does not precede. The result is sorted, keeps every class of equal elements
 * in order, and is the only sequence that does both.
 */
module StableSorting {

  datatype Ordering = Less | Equal | Greater

  predicate Le<T>(cmp: (T, T) -> Ordering, x: T, y: T) {
    cmp(x, y) != Greater
  }

  ghost predicate IsTotalPreorder<T(!new)>(cmp: (T, T) -> Ordering) {
    && (forall x, y :: cmp(x, y) == Less <==> cmp(y, x) == Greater)
    && (forall x, y, z :: Le(cmp, x, y) && Le(cmp, y, z) ==> Le(cmp, x, z))
  }

  ghost predicate IsSorted<T>(cmp: (T, T) -> Ordering, s: seq<T>) {
    forall i, j :: 0 <= i < j < |s| ==> Le(cmp, s[i], s[j])
  }

  /** The elements of `s` that compare equal to `x`, in order. */
  ghost function EqualTo<T>(cmp: (T, T) -> Ordering, s: seq<T>, x: T): seq<T> {
    if s == [] then []
    else (if cmp(x, s[0]) == Equal then [s[0]] else []) + EqualTo(cmp, s[1..], x)
  }

  /** `t` is `s` sorted, with equal elements in their original order. */
  ghost predicate IsStableSortOf<T(!new)>(cmp: (T, T) -> Ordering, s: seq<T>, t: seq<T>) {
    IsSorted(cmp, t) && forall x :: EqualTo(cmp, t, x) == EqualTo(cmp, s, x)
  }

  function Insert<T>(cmp: (T, T) -> Ordering, s: seq<T>, x: T): seq<T> {
    if s == [] then [x]
    else if Le(cmp, s[0], x) then [s[0]] + Insert(cmp, s[1..], x)
    else [x] + s
  }

  function StableSort<T>(cmp: (T, T) -> Ordering, s: seq<T>): seq<T> {
    if s == [] then [] else Insert(cmp, StableSort(cmp, s[..|s| - 1]), s[|s| - 1])
  }

  function Merge<T>(cmp: (T, T) -> Ordering, a: seq<T>, b: seq<T>): seq<T> {
    if a == [] then b
    else if b == [] then a
    else if Le(cmp, a[0], b[0]) then [a[0]] + Merge(cmp, a[1..], b)
    else [b[0]] + Merge(cmp, a, b[1..])
  }

  // ---------------------------------------------------------------- insertion

  lemma {:induction false} InsertMultiset<T>(cmp: (T, T) -> Ordering, s: seq<T>, x: T)
    ensures multiset(Insert(cmp, s, x)) == multiset(s) + multiset{x}
  {
    if s != [] && Le(cmp, s[0], x) {
      InsertMultiset(cmp, s[1..], x);
      assert s == [s[0]] + s[1..];
    }
  }

  lemma {:induction false} InsertAt<T>(cmp: (T, T) -> Ordering, s: seq<T>, x: T, j: nat)
    requires j <= |s|
    requires forall k :: 0 <= k < j ==> Le(cmp, s[k], x)
    requires j < |s| ==> !Le(cmp, s[j], x)
    ensures Insert(cmp, s, x) == s[..j] + [x] + s[j..]
  {
    if j > 0 {
      InsertAt(cmp, s[1..], x, j - 1);
    }
  }

  lemma {:induction false} InsertSorted<T(!new)>(cmp: (T, T) -> Ordering, s: seq<T>, x: T)
    requires IsTotalPreorder(cmp) && IsSorted(cmp, s)
    ensures IsSorted(cmp, Insert(cmp, s, x))
  {
    if s != [] {
      if Le(cmp, s[0], x) {
        InsertSorted(cmp, s[1..], x);
        InsertMultiset(cmp, s[1..], x);
        var rest := Insert(cmp, s[1..], x);
        forall k | 0 <= k < |rest|
          ensures Le(cmp, s[0], rest[k])
        {
          assert rest[k] in multiset(rest);
        }
      } else {
        assert Le(cmp, x, s[0]);
      }
    }
  }

  lemma {:induction false} EqualToAppend<T>(cmp: (T, T) -> Ordering, s: seq<T>, t: seq<T>, x: T)
    ensures EqualTo(cmp, s + t, x) == EqualTo(cmp, s, x) + EqualTo(cmp, t, x)
  {
    if s == [] {
      assert s + t == t;
    } else {
      EqualToAppend(cmp, s[1..], t, x);
      assert (s + t)[1..] == s[1..] + t;
    }
  }

  lemma {:induction false} NoneEqual<T>(cmp: (T, T) -> Ordering, s: seq<T>, x: T)
    requires forall k :: 0 <= k < |s| ==> cmp(x, s[k]) != Equal
    ensures EqualTo(cmp, s, x) == []
  {
    if s != [] {
      NoneEqual(cmp, s[1..], x);
    }
  }

  lemma EqualMeansBehind<T(!new)>(cmp: (T, T) -> Ordering, s: seq<T>, x: T, y: T, k: nat)
    requires IsTotalPreorder(cmp) && IsSorted(cmp, s) && k < |s| && cmp(y, x) == Equal
    ensures cmp(y, s[k]) == Equal ==> Le(cmp, s[0], x)
  {
    assert Le(cmp, s[0], s[k]);
    assert cmp(y, s[k]) == Equal ==> Le(cmp, s[k], y) && Le(cmp, y, x);
  }

  lemma NoneEqualBehind<T(!new)>(cmp: (T, T) -> Ordering, s: seq<T>, x: T, y: T)
    requires IsTotalPreorder(cmp) && IsSorted(cmp, s) && s != [] && !Le(cmp, s[0], x) && cmp(y, x) == Equal
    ensures EqualTo(cmp, s, y) == []
  {
    hide EqualTo, IsTotalPreorder, IsSorted;
    forall k: nat | k < |s|
      ensures cmp(y, s[k]) != Equal
    {
      EqualMeansBehind(cmp, s, x, y, k);
    }
    NoneEqual(cmp, s, y);
  }

  /** Insertion puts `x` behind the elements equal to it. */
  lemma {:induction false} InsertStable<T(!new)>(cmp: (T, T) -> Ordering, s: seq<T>, x: T, y: T)
    requires IsTotalPreorder(cmp) && IsSorted(cmp, s)
    ensures EqualTo(cmp, Insert(cmp, s, x), y) == EqualTo(cmp, s + [x], y)
  {
    hide IsTotalPreorder;
    EqualToAppend(cmp, s, [x], y);
    if s != [] {
      if Le(cmp, s[0], x) {
        InsertStable(cmp, s[1..], x, y);
        EqualToAppend(cmp, s[1..], [x], y);
      } else {
        EqualToAppend(cmp, [x], s, y);
        if cmp(y, x) == Equal {
          NoneEqualBehind(cmp, s, x, y);
        }
      }
    }
  }

  // ---------------------------------------------------------------- the stable sort

  lemma {:induction false} StableSortMultiset<T>(cmp: (T, T) -> Ordering, s: seq<T>)
    ensures multiset(StableSort(cmp, s)) == multiset(s)
    ensures |StableSort(cmp, s)| == |s|
  {
    if s != [] {
      var init, last := s[..|s| - 1], s[|s| - 1];
      StableSortMultiset(cmp, init);
      InsertMultiset(cmp, StableSort(cmp, init), last);
      assert s == init + [last];
    }
    assert |multiset(StableSort(cmp, s))| == |multiset(s)|;
  }

  lemma {:induction false} StableSortSorts<T(!new)>(cmp: (T, T) -> Ordering, s: seq<T>)
    requires IsTotalPreorder(cmp)
    ensures IsSorted(cmp, StableSort(cmp, s))
  {
    if s != [] {
      StableSortSorts(cmp, s[..|s| - 1]);
      InsertSorted(cmp, StableSort(cmp, s[..|s| - 1]), s[|s| - 1]);
    }
  }

  lemma {:induction false} StableSortKeepsOrder<T(!new)>(cmp: (T, T) -> Ordering, s: seq<T>, x: T)
    requires IsTotalPreorder(cmp)
    ensures EqualTo(cmp, StableSort(cmp, s), x) == EqualTo(cmp, s, x)
  {
    if s != [] {
      var init, last := s[..|s| - 1], s[|s| - 1];
      StableSortKeepsOrder(cmp, init, x);
      StableSortSorts(cmp, init);
      InsertStable(cmp, StableSort(cmp, init), last, x);
      EqualToAppend(cmp, StableSort(cmp, init), [last], x);
      EqualToAppend(cmp, init, [last], x);
      assert s == init + [last];
    }
  }

  lemma {:induction false} EqualToMember<T>(cmp: (T, T) -> Ordering, s: seq<T>, x: T)
    requires EqualTo(cmp, s, x) != []
    ensures exists k :: 0 <= k < |s| && cmp(x, s[k]) == Equal
  {
    if cmp(x, s[0]) != Equal {
      EqualToMember(cmp, s[1..], x);
      var k :| 0 <= k < |s[1..]| && cmp(x, s[1..][k]) == Equal;
      assert cmp(x, s[k + 1]) == Equal;
    }
  }

  lemma HeadEqualsItself<T(!new)>(cmp: (T, T) -> Ordering, s: seq<T>)
    requires IsTotalPreorder(cmp)
    ensures s != [] ==> EqualTo(cmp, s, s[0]) != []
    ensures s == [] ==> forall x :: EqualTo(cmp, s, x) == []
  {
    assert s != [] ==> cmp(s[0], s[0]) == Equal;
  }

  /** Two sorted sequences that agree on every class of equal elements are the same. */
  lemma {:induction false} SortedClassesDetermine<T(!new)>(cmp: (T, T) -> Ordering, a: seq<T>, b: seq<T>)
    requires IsTotalPreorder(cmp) && IsSorted(cmp, a) && IsSorted(cmp, b)
    requires forall x :: EqualTo(cmp, a, x) == EqualTo(cmp, b, x)
    ensures a == b
  {
    hide EqualTo, IsTotalPreorder, Le;
    HeadEqualsItself(cmp, a);
    HeadEqualsItself(cmp, b);
    if a != [] && b != [] {
      EqualToMember(cmp, b, a[0]);
      EqualToMember(cmp, a, b[0]);
      HeadsEqual(cmp, a, b);
      forall x
        ensures EqualTo(cmp, a[1..], x) == EqualTo(cmp, b[1..], x)
      {
        ClassesOfTails(cmp, a, b, x);
      }
      assert a == [a[0]] + a[1..] && b == [b[0]] + b[1..];
      SortedClassesDetermine(cmp, a[1..], b[1..]);
    }
  }

  lemma ClassesOfTails<T>(cmp: (T, T) -> Ordering, a: seq<T>, b: seq<T>, x: T)
    requires a != [] && b != [] && a[0] == b[0] && EqualTo(cmp, a, x) == EqualTo(cmp, b, x)
    ensures EqualTo(cmp, a[1..], x) == EqualTo(cmp, b[1..], x)
  {
    var head := if cmp(x, a[0]) == Equal then [a[0]] else [];
    var restA, restB := EqualTo(cmp, a[1..], x), EqualTo(cmp, b[1..], x);
    assert head + restA == EqualTo(cmp, a, x) == EqualTo(cmp, b, x) == head + restB;
    assert (head + restA)[|head|..] == restA && (head + restB)[|head|..] == restB;
  }

  lemma HeadsEqual<T(!new)>(cmp: (T, T) -> Ordering, a: seq<T>, b: seq<T>)
    requires IsTotalPreorder(cmp) && IsSorted(cmp, a) && IsSorted(cmp, b)
    requires a != [] && b != []
    requires exists k :: 0 <= k < |b| && cmp(a[0], b[k]) == Equal
    requires exists k :: 0 <= k < |a| && cmp(b[0], a[k]) == Equal
    requires EqualTo(cmp, a, a[0]) == EqualTo(cmp, b, a[0])
    ensures a[0] == b[0]
  {
    var i :| 0 <= i < |b| && cmp(a[0], b[i]) == Equal;
    var j :| 0 <= j < |a| && cmp(b[0], a[j]) == Equal;
    assert Le(cmp, b[0], b[i]) || i == 0;
    assert Le(cmp, b[i], a[0]) && Le(cmp, b[0], a[0]);
    assert Le(cmp, a[0], a[j]) || j == 0;
    assert Le(cmp, a[j], b[0]) && Le(cmp, a[0], b[0]);
    assert cmp(a[0], b[0]) == Equal && cmp(a[0], a[0]) == Equal;
  }

  /** The stable sort is sorted and stable, and nothing else is. */
  lemma StableSortCharacterised<T(!new)>(cmp: (T, T) -> Ordering, s: seq<T>, t: seq<T>)
    requires IsTotalPreorder(cmp)
    ensures IsStableSortOf(cmp, s, t) <==> t == StableSort(cmp, s)
  {
    StableSortSorts(cmp, s);
    forall x
      ensures EqualTo(cmp, StableSort(cmp, s), x) == EqualTo(cmp, s, x)
    {
      StableSortKeepsOrder(cmp, s, x);
    }
    if IsStableSortOf(cmp, s, t) {
      SortedClassesDetermine(cmp, t, StableSort(cmp, s));
    }
  }

  // ---------------------------------------------------------------- merging

  lemma {:induction false} InsertIntoMerge<T(!new)>(cmp: (T, T) -> Ordering, a: seq<T>, b: seq<T>, x: T)
    requires IsTotalPreorder(cmp)
    ensures Insert(cmp, Merge(cmp, a, b), x) == Merge(cmp, a, Insert(cmp, b, x))
    decreases |a| + |b|
  {
    if a == [] {
    } else if b == [] {
      InsertIntoMerge(cmp, a[1..], b, x);
      assert a == [a[0]] + a[1..] && Merge(cmp, a[1..], []) == a[1..];
    } else if Le(cmp, a[0], b[0]) {
      InsertIntoMerge(cmp, a[1..], b, x);
      assert Le(cmp, b[0], x) ==> Le(cmp, a[0], x);
    } else {
      InsertIntoMerge(cmp, a, b[1..], x);
      assert Le(cmp, b[0], x) || Le(cmp, x, b[0]);
    }
  }

  /** Merging two sorted halves sorts the whole. */
  lemma {:induction false} MergeSorts<T(!new)>(cmp: (T, T) -> Ordering, s: seq<T>, t: seq<T>)
    requires IsTotalPreorder(cmp)
    ensures Merge(cmp, StableSort(cmp, s), StableSort(cmp, t)) == StableSort(cmp, s + t)
    decreases |t|
  {
    if t == [] {
      assert s + t == s;
    } else {
      var init, last := t[..|t| - 1], t[|t| - 1];
      MergeSorts(cmp, s, init);
      InsertIntoMerge(cmp, StableSort(cmp, s), StableSort(cmp, init), last);
      assert (s + t)[..|s + t| - 1] == s + init;
    }
  }
}
