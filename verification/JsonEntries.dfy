/** Which entries a JSON difference has: exactly one for each place where the values clash, in order. */
module JsonEntries {
  import opened Collections
  import opened StableSorting
  import opened JsonDiffs

  /** What stands at a path, arrays taken in the order in which they are compared; null where nothing does. */
  ghost function At(v: Json, path: seq<Step>, sortArrays: bool): Json
    decreases |path|
  {
    if path == [] then v
    else match (v, path[0])
      case (Obj(m), Key(k)) => At(Member(m, k), path[1..], sortArrays)
      case (Arr(s), Index(i)) => At(Item(Arranged(s, sortArrays), i), path[1..], sortArrays)
      case _ => Null
  }

  /** Above the end of the path both values hold objects, or both arrays. */
  ghost predicate Meet(a: Json, b: Json, path: seq<Step>, sortArrays: bool)
    decreases |path|
  {
    path == [] || match (a, b, path[0])
      case (Obj(m), Obj(n), Key(k)) => Meet(Member(m, k), Member(n, k), path[1..], sortArrays)
      case (Arr(s), Arr(t), Index(i)) =>
        Meet(Item(Arranged(s, sortArrays), i), Item(Arranged(t, sortArrays), i), path[1..], sortArrays)
      case _ => false
  }

  /** Different, and not two objects or two arrays, which are compared inside. */
  ghost predicate Clash(v: Json, w: Json) {
    v != w && !(v.Obj? && w.Obj?) && !(v.Arr? && w.Arr?)
  }

  ghost predicate IsClash(a: Json, b: Json, e: DiffEntry, sortArrays: bool) {
    && Meet(a, b, e.path, sortArrays) && Clash(e.old_, e.new_)
    && e.old_ == At(a, e.path, sortArrays) && e.new_ == At(b, e.path, sortArrays)
  }

  function Inside(e: DiffEntry): DiffEntry
    requires e.path != []
  {
    e.(path := e.path[1..])
  }

  lemma InUnder(step: Step, es: seq<DiffEntry>, e: DiffEntry)
    ensures e in Under(step, es) <==> e.path != [] && e.path[0] == step && Inside(e) in es
  {
    var us := Under(step, es);
    if e in us {
      var i :| 0 <= i < |us| && us[i] == e;
      assert e.path[1..] == es[i].path;
      assert es[i] == Inside(e);
    }
    if e.path != [] && e.path[0] == step && Inside(e) in es {
      var i :| 0 <= i < |es| && es[i] == Inside(e);
      assert e.path == [step] + e.path[1..];
      assert us[i] == e;
    }
  }

  lemma {:induction false} InKeys(a: Json, b: Json, keys: seq<string>, e: DiffEntry, sortArrays: bool)
    requires a.Obj? && b.Obj?
    ensures e in DiffKeys(a, b, keys, sortArrays) <==>
            e.path != [] && e.path[0].Key? && e.path[0].key in keys
            && Inside(e) in Slot(Member(a.members, e.path[0].key), Member(b.members, e.path[0].key), sortArrays)
    decreases |keys|
  {
    hide Slot, Under;
    if keys != [] {
      var init, k := keys[..|keys| - 1], keys[|keys| - 1];
      InKeys(a, b, init, e, sortArrays);
      InUnder(Key(k), Slot(Member(a.members, k), Member(b.members, k), sortArrays), e);
      assert keys == init + [k];
    }
  }

  lemma {:induction false} InItems(a: Json, b: Json, n: nat, e: DiffEntry, sortArrays: bool)
    requires a.Arr? && b.Arr?
    ensures var s, t := Arranged(a.items, sortArrays), Arranged(b.items, sortArrays);
            e in DiffItems(a, b, n, sortArrays) <==>
            e.path != [] && e.path[0].Index? && e.path[0].index < n
            && Inside(e) in Slot(Item(s, e.path[0].index), Item(t, e.path[0].index), sortArrays)
  {
    hide Slot, Under, Arranged;
    if n > 0 {
      var s, t := Arranged(a.items, sortArrays), Arranged(b.items, sortArrays);
      InItems(a, b, n - 1, e, sortArrays);
      InUnder(Index(n - 1), Slot(Item(s, n - 1), Item(t, n - 1), sortArrays), e);
    }
  }

  lemma NoClashOfNulls(e: DiffEntry, sortArrays: bool)
    ensures !IsClash(Null, Null, e, sortArrays)
  {
  }

  /** An entry is there if and only if the values clash at its path, with what stands there on either side. */
  lemma {:induction false} EntriesAreClashes(a: Json, b: Json, e: DiffEntry, sortArrays: bool)
    ensures e in Diff(a, b, sortArrays) <==> IsClash(a, b, e, sortArrays)
    decreases !a.Null?, a, 1
  {
    hide Slot, SortedKeys, DiffKeys, DiffItems, Arranged;
    match (a, b)
    case (Obj(m), Obj(n)) =>
      ObjectEntries(a, b, e, sortArrays);
    case (Arr(s), Arr(t)) =>
      ArrayEntries(a, b, e, sortArrays);
    case _ =>
  }

  lemma {:induction false} SlotEntries(v: Json, w: Json, e: DiffEntry, sortArrays: bool)
    ensures e in Slot(v, w, sortArrays) <==> IsClash(v, w, e, sortArrays)
    decreases !v.Null?, v, 2
  {
    hide Diff, Arranged;
    if v.Null? == w.Null? {
      EntriesAreClashes(v, w, e, sortArrays);
    }
  }

  lemma {:induction false} ObjectEntries(a: Json, b: Json, e: DiffEntry, sortArrays: bool)
    requires a.Obj? && b.Obj?
    ensures e in Diff(a, b, sortArrays) <==> IsClash(a, b, e, sortArrays)
    decreases !a.Null?, a, 0
  {
    hide Slot, SortedKeys, DiffKeys;
    var m, n := a.members, b.members;
    var keys := SortedKeys(m.Keys + n.Keys);
    assert forall k :: k in keys <==> k in Elems(keys);
    InKeys(a, b, keys, e, sortArrays);
    if e.path != [] && e.path[0].Key? {
      var k := e.path[0].key;
      if k in m {
        SlotEntries(Member(m, k), Member(n, k), Inside(e), sortArrays);
      } else {
        NoClashOfNulls(Inside(e), sortArrays);
        SlotOfNull(Member(n, k), Inside(e), sortArrays);
      }
    }
  }

  lemma SlotOfNull(w: Json, e: DiffEntry, sortArrays: bool)
    ensures e in Slot(Null, w, sortArrays) <==> IsClash(Null, w, e, sortArrays)
  {
  }

  lemma {:induction false} ArrayEntries(a: Json, b: Json, e: DiffEntry, sortArrays: bool)
    requires a.Arr? && b.Arr?
    ensures e in Diff(a, b, sortArrays) <==> IsClash(a, b, e, sortArrays)
    decreases !a.Null?, a, 0
  {
    hide Slot, DiffItems, Arranged;
    var s, t := Arranged(a.items, sortArrays), Arranged(b.items, sortArrays);
    InItems(a, b, Max(|a.items|, |b.items|), e, sortArrays);
    if e.path != [] && e.path[0].Index? {
      var i := e.path[0].index;
      if i < |s| {
        assert s[i] in s && s[i] in a.items;
        SlotEntries(Item(s, i), Item(t, i), Inside(e), sortArrays);
      } else {
        NoClashOfNulls(Inside(e), sortArrays);
        SlotOfNull(Item(t, i), Inside(e), sortArrays);
      }
    }
  }

  // ---------------------------------------------------------------- the order of the entries

  /** The strings agree up to `i`, where the first ends or has the smaller character. */
  ghost predicate SmallerAt(a: string, b: string, i: nat) {
    i <= |a| && i < |b| && a[..i] == b[..i] && (i == |a| || a[i] < b[i])
  }

  lemma SmallerInTail(a: string, b: string, i: nat)
    requires a != [] && b != [] && a[0] == b[0]
    ensures SmallerAt(a[1..], b[1..], i) <==> SmallerAt(a, b, i + 1)
  {
    if i < |a| && i < |b| {
      assert a[..i + 1] == [a[0]] + a[1..][..i] && b[..i + 1] == [b[0]] + b[1..][..i];
      assert a[1..][..i] == a[..i + 1][1..] && b[1..][..i] == b[..i + 1][1..];
    }
  }

  /** The order of strings is that of the first character in which they differ, a prefix coming first. */
  lemma {:induction false} BeforeIsLexicographic(a: string, b: string)
    ensures Before(a, b) <==> exists i: nat :: SmallerAt(a, b, i)
  {
    if a != [] && b != [] {
      assert forall i: nat :: SmallerAt(a, b, i) && i > 0 ==> a[0] == a[..i][0] && b[0] == b[..i][0];
      if a[0] == b[0] {
        BeforeIsLexicographic(a[1..], b[1..]);
        forall i: nat
          ensures SmallerAt(a[1..], b[1..], i) <==> SmallerAt(a, b, i + 1)
        {
          SmallerInTail(a, b, i);
        }
        if i: nat :| SmallerAt(a, b, i) {
          assert i > 0 && SmallerAt(a[1..], b[1..], i - 1);
        }
      } else {
        assert Before(a, b) <==> SmallerAt(a, b, 0);
      }
    } else {
      assert Before(a, b) <==> SmallerAt(a, b, 0);
    }
  }

  ghost predicate StepBefore(s: Step, t: Step) {
    match (s, t)
    case (Key(k), Key(l)) => Before(k, l)
    case (Index(i), Index(j)) => i < j
    case _ => false
  }

  /** The order of the first steps in which two paths differ. */
  ghost predicate PathBefore(p: seq<Step>, q: seq<Step>)
    decreases |p|
  {
    p != [] && q != [] && (StepBefore(p[0], q[0]) || (p[0] == q[0] && PathBefore(p[1..], q[1..])))
  }

  ghost predicate Ascending(es: seq<DiffEntry>) {
    forall i, j {:trigger es[i], es[j]} :: 0 <= i < j < |es| ==> PathBefore(es[i].path, es[j].path)
  }

  ghost predicate IsAscendingKeys(keys: seq<string>) {
    forall i, j :: 0 <= i < j < |keys| ==> Before(keys[i], keys[j])
  }

  lemma {:induction false} KeysAscend(keys: set<string>)
    ensures IsAscendingKeys(SortedKeys(keys))
    decreases |keys|
  {
    if keys != {} {
      var ks := SortedKeys(keys);
      FirstExists(keys);
      KeysAscend(keys - {ks[0]});
      assert IsFirst(keys, ks[0]) && ks[1..] == SortedKeys(keys - {ks[0]});
      forall j | 0 < j < |ks|
        ensures Before(ks[0], ks[j])
      {
        assert ks[j] in Elems(ks);
      }
    }
  }

  lemma UnderAscends(step: Step, es: seq<DiffEntry>)
    requires Ascending(es)
    ensures Ascending(Under(step, es))
  {
    var us := Under(step, es);
    forall i, j {:trigger us[i], us[j]} | 0 <= i < j < |us|
      ensures PathBefore(us[i].path, us[j].path)
    {
      assert us[i].path[1..] == es[i].path && us[j].path[1..] == es[j].path;
    }
  }

  /** All entries start with a step before the given one. */
  ghost predicate AllBefore(es: seq<DiffEntry>, step: Step) {
    forall i {:trigger es[i]} :: 0 <= i < |es| ==> es[i].path != [] && StepBefore(es[i].path[0], step)
  }

  lemma AppendAscends(d: seq<DiffEntry>, step: Step, es: seq<DiffEntry>)
    requires Ascending(d) && Ascending(es) && AllBefore(d, step)
    ensures Ascending(d + Under(step, es))
  {
    UnderAscends(step, es);
    var us := Under(step, es);
    var all := d + us;
    forall i, j {:trigger all[i], all[j]} | 0 <= i < j < |all|
      ensures PathBefore(all[i].path, all[j].path)
    {
      if i < |d| <= j {
        assert us[j - |d|].path[0] == step;
      }
    }
  }

  lemma AppendBefore(d: seq<DiffEntry>, step: Step, es: seq<DiffEntry>, next: Step)
    requires AllBefore(d, next) && StepBefore(step, next)
    ensures AllBefore(d + Under(step, es), next)
  {
    hide StepBefore;
  }

  /** The entries come in the order of their paths; in particular no path has two. */
  lemma {:induction false} EntriesAscend(a: Json, b: Json, sortArrays: bool)
    ensures Ascending(Diff(a, b, sortArrays))
    decreases !a.Null?, a, 1, 0
  {
    hide Slot, PathBefore, Before;
    match (a, b)
    case (Obj(m), Obj(n)) =>
      var keys := SortedKeys(m.Keys + n.Keys);
      KeysAscend(m.Keys + n.Keys);
      DiffKeysAscend(a, b, keys, sortArrays);
    case (Arr(s), Arr(t)) =>
      DiffItemsAscend(a, b, Max(|s|, |t|), sortArrays);
    case _ =>
  }

  lemma {:induction false} SlotAscends(v: Json, w: Json, sortArrays: bool)
    ensures Ascending(Slot(v, w, sortArrays))
    decreases !v.Null?, v, 2, 0
  {
    hide Diff, PathBefore;
    if v.Null? == w.Null? {
      EntriesAscend(v, w, sortArrays);
    }
  }

  lemma {:induction false} DiffKeysAscend(a: Json, b: Json, keys: seq<string>, sortArrays: bool)
    requires a.Obj? && b.Obj? && IsAscendingKeys(keys)
    ensures Ascending(DiffKeys(a, b, keys, sortArrays))
    decreases true, a, 0, |keys|
  {
    hide Slot, Under, Ascending, Before;
    if keys == [] {
      NothingAscends();
    } else {
      var init, k := keys[..|keys| - 1], keys[|keys| - 1];
      DiffKeysAscend(a, b, init, sortArrays);
      SlotAscends(Member(a.members, k), Member(b.members, k), sortArrays);
      forall l | l in init
        ensures Before(l, k)
      {
        var i :| 0 <= i < |init| && init[i] == l;
        assert keys[i] == l;
      }
      DiffKeysBefore(a, b, init, k, sortArrays);
      AppendAscends(DiffKeys(a, b, init, sortArrays), Key(k), Slot(Member(a.members, k), Member(b.members, k), sortArrays));
    }
  }

  lemma NothingAscends()
    ensures Ascending([])
  {
  }

  lemma {:induction false} DiffKeysBefore(a: Json, b: Json, keys: seq<string>, next: string, sortArrays: bool)
    requires a.Obj? && b.Obj? && forall l :: l in keys ==> Before(l, next)
    ensures AllBefore(DiffKeys(a, b, keys, sortArrays), Key(next))
    decreases |keys|
  {
    hide Slot, Under, Before;
    if keys != [] {
      var init, k := keys[..|keys| - 1], keys[|keys| - 1];
      assert forall l :: l in init ==> l in keys;
      DiffKeysBefore(a, b, init, next, sortArrays);
      AppendBefore(DiffKeys(a, b, init, sortArrays), Key(k), Slot(Member(a.members, k), Member(b.members, k), sortArrays),
                   Key(next));
    }
  }

  lemma {:induction false} DiffItemsAscend(a: Json, b: Json, n: nat, sortArrays: bool)
    requires a.Arr? && b.Arr?
    ensures Ascending(DiffItems(a, b, n, sortArrays)) && AllBefore(DiffItems(a, b, n, sortArrays), Index(n))
    decreases true, a, 0, n
  {
    hide Slot, Under, Ascending;
    if n == 0 {
      NothingAscends();
    } else {
      var s, t := Arranged(a.items, sortArrays), Arranged(b.items, sortArrays);
      assert n - 1 < |s| ==> s[n - 1] in s && s[n - 1] in a.items;
      DiffItemsAscend(a, b, n - 1, sortArrays);
      SlotAscends(Item(s, n - 1), Item(t, n - 1), sortArrays);
      AppendAscends(DiffItems(a, b, n - 1, sortArrays), Index(n - 1), Slot(Item(s, n - 1), Item(t, n - 1), sortArrays));
      StillBefore(DiffItems(a, b, n - 1, sortArrays), n - 1);
      AppendBefore(DiffItems(a, b, n - 1, sortArrays), Index(n - 1), Slot(Item(s, n - 1), Item(t, n - 1), sortArrays), Index(n));
    }
  }

  lemma StillBefore(es: seq<DiffEntry>, n: nat)
    requires AllBefore(es, Index(n))
    ensures AllBefore(es, Index(n + 1))
  {
  }

  // ---------------------------------------------------------------- arrays in another order

  /** The text by which a string, a number or a truth value is sorted. */
  ghost predicate IsSpelled(v: Json, text: string) {
    || v == String(text) || v == Number(text)
    || (v == Bool(true) && text == "true") || (v == Bool(false) && text == "false")
  }

  function Copies<T>(x: T, n: nat): seq<T> {
    seq(n, _ => x)
  }

  lemma OneMoreCopy<T>(x: T, n: nat)
    ensures [x] + Copies(x, n) == Copies(x, n + 1) && [] + Copies(x, n) == Copies(x, n) && Copies(x, 0) == []
  {
  }

  lemma {:induction false} ClassOfOne<T>(cmp: (T, T) -> Ordering, s: seq<T>, x: T, y: T)
    requires cmp(x, y) == Equal && forall v :: v in s && cmp(x, v) == Equal ==> v == y
    ensures EqualTo(cmp, s, x) == Copies(y, multiset(s)[y])
  {
    hide Copies;
    if s == [] {
      OneMoreCopy(y, 0);
    } else {
      assert s == [s[0]] + s[1..] && s[0] in s;
      ClassOfOne(cmp, s[1..], x, y);
      OneMoreCopy(y, multiset(s[1..])[y]);
    }
  }

  lemma ClassesAgree<T>(cmp: (T, T) -> Ordering, s: seq<T>, t: seq<T>, x: T)
    requires multiset(s) == multiset(t)
    requires forall v, w :: v in s && w in s && cmp(x, v) == Equal && cmp(x, w) == Equal ==> v == w
    ensures EqualTo(cmp, s, x) == EqualTo(cmp, t, x)
  {
    assert forall v :: v in s <==> v in multiset(s);
    assert forall v :: v in t <==> v in multiset(t);
    if y :| y in s && cmp(x, y) == Equal {
      ClassOfOne(cmp, s, x, y);
      ClassOfOne(cmp, t, x, y);
    } else {
      forall k | 0 <= k < |s|
        ensures cmp(x, s[k]) != Equal
      {
        assert s[k] in s;
      }
      forall k | 0 <= k < |t|
        ensures cmp(x, t[k]) != Equal
      {
        assert t[k] in t;
      }
      NoneEqual(cmp, s, x);
      NoneEqual(cmp, t, x);
    }
  }
}
