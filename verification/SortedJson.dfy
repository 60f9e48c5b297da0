/** Differences of values whose arrays are sorted for the comparison: when the entries replay on the old value. */
module SortedJson {
  import opened StableSorting
  import opened JsonDiffs
  import opened JsonEntries

  /** Every array, at any depth, is in the order in which its elements are compared. */
  ghost predicate IsArranged(v: Json) {
    match v
    case Obj(m) => forall k :: k in m ==> IsArranged(m[k])
    case Arr(s) => s == Arranged(s, true) && forall i :: 0 <= i < |s| ==> IsArranged(s[i])
    case _ => true
  }

  /** A value with every array put into that order. */
  ghost function InOrder(v: Json): Json {
    match v
    case Obj(m) => Obj(map k | k in m :: InOrder(m[k]))
    case Arr(s) =>
      var t := Arranged(s, true);
      Arr(seq(|t|, i requires 0 <= i < |t| => (assert t[i] in t && t[i] in s; InOrder(t[i]))))
    case _ => v
  }

  // ---------------------------------------------------------------- sorted sequences

  lemma {:induction false} SortedStays<T>(cmp: (T, T) -> Ordering, s: seq<T>)
    requires IsSorted(cmp, s)
    ensures StableSort(cmp, s) == s
  {
    if s != [] {
      var init, last := s[..|s| - 1], s[|s| - 1];
      SortedStays(cmp, init);
      InsertAt(cmp, init, last, |init|);
    }
  }

  lemma ItemsAreOrdered()
    ensures IsTotalPreorder(CompareItems)
  {
    forall x, y
      ensures CompareItems(x, y) == Less <==> CompareItems(y, x) == Greater
    {
      ComparesStrictly(ScalarKey(x), ScalarKey(y));
    }
    forall x, y, z | Le(CompareItems, x, y) && Le(CompareItems, y, z)
      ensures Le(CompareItems, x, z)
    {
      NotAfterIsTransitive(ScalarKey(x), ScalarKey(y), ScalarKey(z));
    }
  }

  lemma NotAfterIsTransitive(x: string, y: string, z: string)
    requires CompareStrings(x, y) != Greater && CompareStrings(y, z) != Greater
    ensures CompareStrings(x, z) != Greater
  {
    hide CompareStrings;
    ComparesStrictly(x, y);
    ComparesStrictly(y, z);
    ComparesStrictly(x, z);
    if x != y && y != z {
      BeforeIsTransitive(x, y, z);
    }
  }

  /** Elements with the keys of sorted ones are sorted, too. */
  lemma SameKeysArranged(s: seq<Json>, t: seq<Json>)
    requires |s| == |t| && forall i :: 0 <= i < |s| ==> ScalarKey(s[i]) == ScalarKey(Arranged(t, true)[i])
    ensures Arranged(s, true) == s
  {
    hide CompareStrings, ScalarKey;
    var u := Arranged(t, true);
    ItemsAreOrdered();
    StableSortSorts(CompareItems, t);
    forall i, j | 0 <= i < j < |s|
      ensures Le(CompareItems, s[i], s[j])
    {
      assert Le(CompareItems, u[i], u[j]);
    }
    SortedStays(CompareItems, s);
  }

  lemma KeyInOrder(v: Json)
    ensures ScalarKey(InOrder(v)) == ScalarKey(v)
  {
  }

  // ---------------------------------------------------------------- putting into order

  lemma {:induction false} InOrderIsArranged(v: Json)
    ensures IsArranged(InOrder(v))
    decreases v
  {
    match v
    case Obj(m) =>
      forall k | k in m
        ensures IsArranged(InOrder(m[k]))
      {
        InOrderIsArranged(m[k]);
      }
    case Arr(s) =>
      var t, u := Arranged(s, true), InOrder(v).items;
      forall i | 0 <= i < |t|
        ensures IsArranged(u[i]) && ScalarKey(u[i]) == ScalarKey(t[i])
      {
        assert t[i] in t && t[i] in s;
        InOrderIsArranged(t[i]);
        KeyInOrder(t[i]);
      }
      SameKeysArranged(u, s);
    case _ =>
  }

  /** Comparing with sorted arrays does not see the order. */
  lemma {:induction false} SameInOrder(v: Json)
    ensures Same(v, InOrder(v), true)
    decreases v
  {
    match v
    case Obj(m) =>
      forall k | k in m
        ensures Same(m[k], InOrder(m[k]), true)
      {
        SameInOrder(m[k]);
      }
    case Arr(s) =>
      var t, u := Arranged(s, true), InOrder(v).items;
      InOrderIsArranged(v);
      assert Arranged(u, true) == u;
      forall i | 0 <= i < |t|
        ensures Same(t[i], Item(u, i), true)
      {
        assert t[i] in t && t[i] in s;
        SameInOrder(t[i]);
      }
    case _ =>
  }

  lemma SameItem(s: seq<Json>, t: seq<Json>, i: nat)
    requires Same(Arr(s), Arr(t), false) && i < |s|
    ensures Same(s[i], Item(t, i), false)
  {
    hide Item;
    assert Arranged(s, false) == s && Arranged(t, false) == t;
    assert Same(Arranged(s, false)[i], Item(t, i), false);
  }

  lemma SameHasKey(v: Json, w: Json)
    requires Same(v, InOrder(w), false)
    ensures ScalarKey(v) == ScalarKey(w)
  {
    KeyInOrder(w);
  }

  /** Comparing with arrays as they are does. */
  lemma {:induction false} ArrangedIfSame(v: Json)
    requires Same(v, InOrder(v), false)
    ensures IsArranged(v)
    decreases v
  {
    match v
    case Obj(m) =>
      forall k | k in m
        ensures IsArranged(m[k])
      {
        ArrangedIfSame(m[k]);
      }
    case Arr(s) =>
      var t, u := Arranged(s, true), InOrder(v).items;
      forall i | 0 <= i < |s|
        ensures Same(s[i], InOrder(t[i]), false) && ScalarKey(s[i]) == ScalarKey(t[i])
      {
        SameItem(s, u, i);
        assert Item(u, i) == InOrder(t[i]);
        SameHasKey(s[i], t[i]);
      }
      SameKeysArranged(s, s);
      forall i | 0 <= i < |s|
        ensures IsArranged(s[i])
      {
        ArrangedIfSame(s[i]);
      }
    case _ =>
  }

  // ---------------------------------------------------------------- arranged values

  /** Between arranged values sorting makes no difference. */
  lemma {:induction false} ArrangedDiff(a: Json, b: Json)
    requires IsArranged(a) && IsArranged(b)
    ensures Diff(a, b, true) == Diff(a, b, false)
    decreases !a.Null?, a, 1, 0
  {
    hide Slot, SortedKeys;
    match (a, b)
    case (Obj(m), Obj(n)) =>
      ArrangedKeys(a, b, SortedKeys(m.Keys + n.Keys));
    case (Arr(s), Arr(t)) =>
      ArrangedItems(a, b, Max(|s|, |t|));
    case _ =>
  }

  lemma {:induction false} ArrangedSlot(v: Json, w: Json)
    requires IsArranged(v) && IsArranged(w)
    ensures Slot(v, w, true) == Slot(v, w, false)
    decreases !v.Null?, v, 2, 0
  {
    if v.Null? == w.Null? {
      ArrangedDiff(v, w);
    }
  }

  lemma {:induction false} ArrangedKeys(a: Json, b: Json, keys: seq<string>)
    requires a.Obj? && b.Obj? && IsArranged(a) && IsArranged(b)
    ensures DiffKeys(a, b, keys, true) == DiffKeys(a, b, keys, false)
    decreases true, a, 0, |keys|
  {
    hide Slot, Under;
    if keys != [] {
      var init, k := keys[..|keys| - 1], keys[|keys| - 1];
      ArrangedKeys(a, b, init);
      ArrangedSlot(Member(a.members, k), Member(b.members, k));
    }
  }

  lemma {:induction false} ArrangedItems(a: Json, b: Json, n: nat)
    requires a.Arr? && b.Arr? && IsArranged(a) && IsArranged(b)
    ensures DiffItems(a, b, n, true) == DiffItems(a, b, n, false)
    decreases true, a, 0, n
  {
    hide Slot, Under;
    if n > 0 {
      ArrangedItems(a, b, n - 1);
      ArrangedSlot(Item(a.items, n - 1), Item(b.items, n - 1));
    }
  }

  // ---------------------------------------------------------------- exactly when the entries replay

  ghost predicate AlwaysReplays(a: Json) {
    forall b {:trigger Diff(a, b, true)} :: IsArranged(b) ==> Same(Replay(a, Diff(a, b, true)), b, false)
  }

  /**
   * With sorted arrays the indices of the entries are those of the sorted arrays. They replay on the
   * old value, whatever arranged value is the new one, exactly if the old value is arranged itself.
   */
  lemma SortedEntriesReplay(a: Json)
    ensures AlwaysReplays(a) <==> IsArranged(a)
  {
    hide Diff, Same, Replay, IsArranged, InOrder;
    if IsArranged(a) {
      forall b {:trigger Diff(a, b, true)} | IsArranged(b)
        ensures Same(Replay(a, Diff(a, b, true)), b, false)
      {
        ArrangedDiff(a, b);
        ReplayReachesNew(a, b);
      }
    } else {
      SortedEntriesDoNotReplay(a);
    }
  }

  /** For any other old value there is even an arranged one that differs from it without any entry. */
  lemma SortedEntriesDoNotReplay(a: Json)
    requires !IsArranged(a)
    ensures var b := InOrder(a);
            IsArranged(b) && Diff(a, b, true) == [] && Replay(a, Diff(a, b, true)) == a && !Same(a, b, false)
  {
    hide Diff, Same, IsArranged, InOrder;
    InOrderIsArranged(a);
    SameInOrder(a);
    EmptyIffSame(a, InOrder(a), true);
    if Same(a, InOrder(a), false) {
      ArrangedIfSame(a);
    }
  }

  // ---------------------------------------------------------------- arrays in another order

  lemma SpelledByKey(v: Json, text: string)
    requires IsSpelled(v, text)
    ensures ScalarKey(v) == text && Same(v, v, true)
  {
  }

  ghost predicate AreSpelled(s: seq<Json>, texts: seq<string>) {
    |texts| == |s| && forall i {:trigger s[i]} :: 0 <= i < |s| ==> IsSpelled(s[i], texts[i])
  }

  lemma SameTextSameItem(s: seq<Json>, texts: seq<string>, x: Json, v: Json, w: Json)
    requires AreSpelled(s, texts) && forall i, j :: 0 <= i < j < |s| && texts[i] == texts[j] ==> s[i] == s[j]
    requires v in s && w in s && CompareItems(x, v) == Equal && CompareItems(x, w) == Equal
    ensures v == w
  {
    var i :| 0 <= i < |s| && s[i] == v;
    var j :| 0 <= j < |s| && s[j] == w;
    SpelledByKey(v, texts[i]);
    SpelledByKey(w, texts[j]);
    ComparesStrictly(ScalarKey(x), texts[i]);
    ComparesStrictly(ScalarKey(x), texts[j]);
  }

  lemma ArrangedAlike(s: seq<Json>, t: seq<Json>, texts: seq<string>)
    requires multiset(s) == multiset(t) && AreSpelled(s, texts)
    requires forall i, j :: 0 <= i < j < |s| && texts[i] == texts[j] ==> s[i] == s[j]
    ensures Arranged(s, true) == Arranged(t, true)
  {
    hide CompareItems, EqualTo, AreSpelled;
    var cmp := CompareItems;
    ItemsAreOrdered();
    StableSortSorts(cmp, t);
    forall x
      ensures EqualTo(cmp, StableSort(cmp, t), x) == EqualTo(cmp, s, x)
    {
      forall v, w | v in s && w in s && cmp(x, v) == Equal && cmp(x, w) == Equal
        ensures v == w
      {
        SameTextSameItem(s, texts, x, v, w);
      }
      ClassesAgree(cmp, s, t, x);
      StableSortKeepsOrder(cmp, t, x);
    }
    StableSortCharacterised(cmp, s, StableSort(cmp, t));
  }

  /**
   * With sorted arrays the order of strings, numbers and truth values does not count, as long as
   * different ones are not spelled alike.
   */
  lemma OrderDoesNotCount(s: seq<Json>, t: seq<Json>, texts: seq<string>)
    requires multiset(s) == multiset(t) && AreSpelled(s, texts)
    requires forall i, j :: 0 <= i < j < |s| && texts[i] == texts[j] ==> s[i] == s[j]
    ensures Diff(Arr(s), Arr(t), true) == []
  {
    hide Arranged, Diff;
    var u := Arranged(s, true);
    ArrangedAlike(s, t, texts);
    forall i | 0 <= i < |u|
      ensures Same(u[i], u[i], true)
    {
      assert u[i] in u && u[i] in s;
      var k :| 0 <= k < |s| && s[k] == u[i];
      SpelledByKey(u[i], texts[k]);
    }
    assert Same(Arr(s), Arr(t), true);
    EmptyIffSame(Arr(s), Arr(t), true);
  }

  // ---------------------------------------------------------------- an example

  lemma TwoArranged(x: Json, y: Json)
    ensures Arranged([x, y], true) == if CompareStrings(ScalarKey(x), ScalarKey(y)) == Greater then [y, x] else [x, y]
  {
    var cmp := CompareItems;
    assert [x, y][..1] == [x] && [x][..0] == [];
    assert StableSort(cmp, [x]) == Insert(cmp, [], x);
    assert StableSort(cmp, [x, y]) == Insert(cmp, [x], y);
  }

  lemma SortedExampleDiff(a: Json, b: Json, x: Json, y: Json, z: Json)
    requires a.Arr? && b.Arr? && Arranged(a.items, true) == [x, y] && Arranged(b.items, true) == [x, z]
    requires x.String? && y.String? && z.String? && y != z
    ensures Diff(a, b, true) == [DiffEntry([Index(1)], y, z)]
  {
    hide Arranged;
    var e := DiffEntry([Index(1)], y, z);
    assert DiffItems(a, b, 0, true) == [];
    assert Item([x, y], 0) == x == Item([x, z], 0) && Slot(x, x, true) == [];
    assert DiffItems(a, b, 1, true) == [] + Under(Index(0), []);
    assert Under(Index(1), [DiffEntry([], y, z)]) == [e] by {
      assert [Index(1)] + [] == [Index(1)];
    }
    assert Slot(y, z, true) == [DiffEntry([], y, z)];
    assert DiffItems(a, b, 2, true) == DiffItems(a, b, 1, true) + [e];
  }

  /** An input on which they do not replay: the old array is out of order. */
  lemma SortedExampleDoesNotReplay()
    ensures var a, b := Arr([String("b"), String("a")]), Arr([String("a"), String("c")]);
            !Same(Replay(a, Diff(a, b, true)), b, true)
  {
    hide Arranged, Diff;
    var x, y, z := String("a"), String("b"), String("c");
    var a, b := Arr([y, x]), Arr([x, z]);
    TwoArranged(y, x);
    TwoArranged(x, z);
    TwoArranged(y, z);
    SortedExampleDiff(a, b, x, y, z);
    var e := DiffEntry([Index(1)], y, z);
    assert Replay(a, [e]) == Store(a, e.path, z) by {
      assert [e][..0] == [];
    }
    assert Store(a, e.path, z) == Arr([y, z]) by {
      assert e.path[1..] == [];
    }
    var s, t := Arranged([y, z], true), Arranged([x, z], true);
    assert s[0] == y && Item(t, 0) == x && !Same(y, x, true);
  }
}
