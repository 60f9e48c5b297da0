/** The structural difference of two JSON values, as a list of entries that can be replayed. */
module JsonDiffs {
  import opened Collections
  import opened StableSorting

  /** Numbers are compared by their text. */
  datatype Json =
    | Null
    | Bool(b: bool)
    | Number(text: string)
    | String(s: string)
    | Arr(items: seq<Json>)
    | Obj(members: map<string, Json>)

  datatype Step = Key(key: string) | Index(index: nat)

  datatype DiffEntry = DiffEntry(path: seq<Step>, old_: Json, new_: Json)

  /** A member that is missing reads as null. */
  function Member(m: map<string, Json>, k: string): Json {
    if k in m then m[k] else Null
  }

  /** So does an element past the end. */
  function Item(s: seq<Json>, i: nat): Json {
    if i < |s| then s[i] else Null
  }

  function Max(a: nat, b: nat): nat {
    if a >= b then a else b
  }

  // ---------------------------------------------------------------- the order of strings

  function CompareStrings(a: string, b: string): Ordering {
    if a == [] then if b == [] then Equal else Less
    else if b == [] then Greater
    else if a[0] < b[0] then Less
    else if a[0] > b[0] then Greater
    else CompareStrings(a[1..], b[1..])
  }

  ghost predicate Before(a: string, b: string) {
    CompareStrings(a, b) == Less
  }

  lemma {:induction false} ComparesStrictly(a: string, b: string)
    ensures CompareStrings(a, b) == Equal <==> a == b
    ensures Before(a, b) <==> CompareStrings(b, a) == Greater
  {
    if a != [] && b != [] {
      ComparesStrictly(a[1..], b[1..]);
      assert a == [a[0]] + a[1..] && b == [b[0]] + b[1..];
    }
  }

  lemma {:induction false} BeforeIsTransitive(a: string, b: string, c: string)
    requires Before(a, b) && Before(b, c)
    ensures Before(a, c)
  {
    if a != [] && c != [] && a[0] == b[0] == c[0] {
      BeforeIsTransitive(a[1..], b[1..], c[1..]);
    }
  }

  lemma {:induction false} FirstExists(keys: set<string>)
    requires keys != {}
    ensures exists k :: IsFirst(keys, k)
    decreases |keys|
  {
    var k :| k in keys;
    if keys == {k} {
      ComparesStrictly(k, k);
      assert IsFirst(keys, k);
    } else {
      FirstExists(keys - {k});
      var j :| IsFirst(keys - {k}, j);
      ComparesStrictly(j, k);
      ComparesStrictly(k, j);
      if Before(k, j) {
        forall q | q in keys && q != k
          ensures Before(k, q)
        {
          if q != j {
            BeforeIsTransitive(k, j, q);
          }
        }
        assert IsFirst(keys, k);
      } else {
        assert IsFirst(keys, j);
      }
    }
  }

  predicate IsFirst(keys: set<string>, k: string) {
    k in keys && forall q :: q in keys && q != k ==> CompareStrings(k, q) == Less
  }

  lemma FirstIsUnique(keys: set<string>, j: string, k: string)
    requires IsFirst(keys, j) && IsFirst(keys, k)
    ensures j == k
  {
    if j != k {
      ComparesStrictly(j, k);
    }
  }

  /** What sorting and dropping duplicates makes of the keys of both objects. */
  function SortedKeys(keys: set<string>): (r: seq<string>)
    ensures Elems(r) == keys && Distinct(r)
    decreases |keys|
  {
    if keys == {} then []
    else
      FirstExists(keys);
      assert forall j, k :: IsFirst(keys, j) && IsFirst(keys, k) ==> j == k by {
        forall j, k | IsFirst(keys, j) && IsFirst(keys, k) ensures j == k { FirstIsUnique(keys, j, k); }
      }
      var k :| k in keys && IsFirst(keys, k);
      DistinctPrepend(k, SortedKeys(keys - {k}));
      [k] + SortedKeys(keys - {k})
  }

  // ---------------------------------------------------------------- equality up to nulls

  /** Scalars sort by their text, everything else comes first. */
  function ScalarKey(v: Json): string {
    match v
    case String(s) => s
    case Number(text) => text
    case Bool(b) => if b then "true" else "false"
    case _ => ""
  }

  function CompareItems(a: Json, b: Json): Ordering {
    CompareStrings(ScalarKey(a), ScalarKey(b))
  }

  /** The elements in the order in which they are compared. */
  function Arranged(items: seq<Json>, sortArrays: bool): (r: seq<Json>)
    ensures |r| == |items| && forall v :: v in r ==> v in items
  {
    var sorted := StableSort(CompareItems, items);
    assert |sorted| == |items| && forall v :: v in sorted ==> v in items by {
      StableSortMultiset(CompareItems, items);
      assert forall v :: v in sorted ==> v in multiset(sorted);
    }
    if sortArrays then sorted else items
  }

  /** Equal when missing members and missing elements read as null. */
  ghost predicate Same(a: Json, b: Json, sortArrays: bool)
    decreases !a.Null?, a
  {
    match (a, b)
    case (Obj(m), Obj(n)) =>
      (forall k :: k in m ==> Same(m[k], Member(n, k), sortArrays)) && forall k :: k in n && k !in m ==> n[k] == Null
    case (Arr(s), Arr(t)) =>
      var s', t' := Arranged(s, sortArrays), Arranged(t, sortArrays);
      (forall i :: 0 <= i < |s'| ==> (assert s'[i] in s' && s'[i] in s; Same(s'[i], Item(t', i), sortArrays))) && forall i :: |s'| <= i < |t'| ==> t'[i] == Null
    case _ => a == b
  }

  // ---------------------------------------------------------------- the entries

  /** Moves entries below a step. */
  function Under(step: Step, es: seq<DiffEntry>): (r: seq<DiffEntry>)
    ensures |r| == |es| && forall i :: 0 <= i < |es| ==> r[i] == es[i].(path := [step] + es[i].path)
  {
    seq(|es|, i requires 0 <= i < |es| => es[i].(path := [step] + es[i].path))
  }

  ghost function Diff(a: Json, b: Json, sortArrays: bool): seq<DiffEntry>
    decreases !a.Null?, a, 1, 0
  {
    match (a, b)
    case (Obj(m), Obj(n)) => DiffKeys(a, b, SortedKeys(m.Keys + n.Keys), sortArrays)
    case (Arr(s), Arr(t)) => DiffItems(a, b, Max(|s|, |t|), sortArrays)
    case _ => if a == b then [] else [DiffEntry([], a, b)]
  }

  /** A value that appears or disappears is an entry of its own. */
  ghost function Slot(v: Json, w: Json, sortArrays: bool): seq<DiffEntry>
    decreases !v.Null?, v, 2, 0
  {
    if v.Null? != w.Null? then [DiffEntry([], v, w)] else Diff(v, w, sortArrays)
  }

  ghost function DiffKeys(a: Json, b: Json, keys: seq<string>, sortArrays: bool): seq<DiffEntry>
    requires a.Obj? && b.Obj?
    decreases true, a, 0, |keys|
  {
    if keys == [] then []
    else
      var k := keys[|keys| - 1];
      DiffKeys(a, b, keys[..|keys| - 1], sortArrays)
      + Under(Key(k), Slot(Member(a.members, k), Member(b.members, k), sortArrays))
  }

  ghost function DiffItems(a: Json, b: Json, n: nat, sortArrays: bool): seq<DiffEntry>
    requires a.Arr? && b.Arr?
    decreases true, a, 0, n
  {
    if n == 0 then []
    else
      var s, t := Arranged(a.items, sortArrays), Arranged(b.items, sortArrays);
      assert n - 1 < |s| ==> s[n - 1] in s && s[n - 1] in a.items;
      DiffItems(a, b, n - 1, sortArrays) + Under(Index(n - 1), Slot(Item(s, n - 1), Item(t, n - 1), sortArrays))
  }

  // ---------------------------------------------------------------- nothing reported means nothing differs

  lemma {:induction false} KeysAllEmpty(a: Json, b: Json, keys: seq<string>, sortArrays: bool)
    requires a.Obj? && b.Obj?
    ensures DiffKeys(a, b, keys, sortArrays) == [] <==>
            forall k :: k in keys ==> Slot(Member(a.members, k), Member(b.members, k), sortArrays) == []
    decreases |keys|
  {
    if keys != [] {
      var init, last := keys[..|keys| - 1], keys[|keys| - 1];
      KeysAllEmpty(a, b, init, sortArrays);
      assert keys == init + [last];
    }
  }

  ghost predicate SlotsEmpty(s: seq<Json>, t: seq<Json>, n: nat, sortArrays: bool) {
    forall i: nat {:trigger Item(s, i)} :: i < n ==> Slot(Item(s, i), Item(t, i), sortArrays) == []
  }

  lemma OneMoreSlot(s: seq<Json>, t: seq<Json>, n: nat, sortArrays: bool)
    ensures SlotsEmpty(s, t, 0, sortArrays)
    ensures SlotsEmpty(s, t, n + 1, sortArrays) <==>
            SlotsEmpty(s, t, n, sortArrays) && Slot(Item(s, n), Item(t, n), sortArrays) == []
  {
    hide Slot, Item;
  }

  lemma {:induction false} ItemsAllEmpty(a: Json, b: Json, n: nat, sortArrays: bool)
    requires a.Arr? && b.Arr?
    ensures DiffItems(a, b, n, sortArrays) == [] <==>
            SlotsEmpty(Arranged(a.items, sortArrays), Arranged(b.items, sortArrays), n, sortArrays)
  {
    hide Slot, SlotsEmpty, Arranged, Item, Under;
    var s, t := Arranged(a.items, sortArrays), Arranged(b.items, sortArrays);
    if n == 0 {
      OneMoreSlot(s, t, 0, sortArrays);
    } else {
      ItemsAllEmpty(a, b, n - 1, sortArrays);
      OneMoreSlot(s, t, n - 1, sortArrays);
    }
  }

  lemma {:induction false} ObjectsEmptyIffSame(a: Json, b: Json, sortArrays: bool)
    requires a.Obj? && b.Obj?
    ensures Diff(a, b, sortArrays) == [] <==> Same(a, b, sortArrays)
    decreases true, a, 0
  {
    hide Slot, SortedKeys;
    var m, n := a.members, b.members;
    var keys := SortedKeys(m.Keys + n.Keys);
    KeysAllEmpty(a, b, keys, sortArrays);
    assert forall k :: k in keys <==> k in Elems(keys);
    forall k {:trigger Slot(Member(m, k), Member(n, k), sortArrays)} | k in m || k in n
      ensures Slot(Member(m, k), Member(n, k), sortArrays) == [] <==>
              if k in m then Same(m[k], Member(n, k), sortArrays) else n[k] == Null
    {
      SlotEmptyIffSame(Member(m, k), Member(n, k), sortArrays);
    }
  }

  ghost predicate ItemsSame(s: seq<Json>, t: seq<Json>, n: nat, sortArrays: bool) {
    forall i: nat {:trigger Item(s, i)} :: i < n ==> Same(Item(s, i), Item(t, i), sortArrays)
  }

  lemma SameByItems(a: Json, b: Json, sortArrays: bool)
    requires a.Arr? && b.Arr?
    ensures var s, t := Arranged(a.items, sortArrays), Arranged(b.items, sortArrays);
            Same(a, b, sortArrays) <==> ItemsSame(s, t, Max(|s|, |t|), sortArrays)
  {
    var s, t := Arranged(a.items, sortArrays), Arranged(b.items, sortArrays);
    var n := Max(|s|, |t|);
    if ItemsSame(s, t, n, sortArrays) {
      assert forall i :: 0 <= i < |s| ==> s[i] == Item(s, i);
      assert forall i :: |s| <= i < |t| ==> t[i] == Item(t, i) && Item(s, i) == Null;
    }
  }

  lemma {:induction false} ArraysEmptyIffSame(a: Json, b: Json, sortArrays: bool)
    requires a.Arr? && b.Arr?
    ensures Diff(a, b, sortArrays) == [] <==> Same(a, b, sortArrays)
    decreases true, a, 0
  {
    hide Slot, Same, Arranged;
    var s, t := Arranged(a.items, sortArrays), Arranged(b.items, sortArrays);
    var n := Max(|s|, |t|);
    ItemsAllEmpty(a, b, n, sortArrays);
    SameByItems(a, b, sortArrays);
    forall i: nat {:trigger Item(s, i)} | i < n
      ensures Slot(Item(s, i), Item(t, i), sortArrays) == [] <==> Same(Item(s, i), Item(t, i), sortArrays)
    {
      assert i < |s| ==> s[i] in s && s[i] in a.items;
      SlotEmptyIffSame(Item(s, i), Item(t, i), sortArrays);
    }
  }

  /** The difference is empty exactly for values that are equal up to nulls. */
  lemma {:induction false} EmptyIffSame(a: Json, b: Json, sortArrays: bool)
    ensures Diff(a, b, sortArrays) == [] <==> Same(a, b, sortArrays)
    decreases !a.Null?, a, 1
  {
    if a.Obj? && b.Obj? {
      ObjectsEmptyIffSame(a, b, sortArrays);
    } else if a.Arr? && b.Arr? {
      ArraysEmptyIffSame(a, b, sortArrays);
    }
  }

  lemma {:induction false} SlotEmptyIffSame(v: Json, w: Json, sortArrays: bool)
    ensures Slot(v, w, sortArrays) == [] <==> Same(v, w, sortArrays)
    decreases !v.Null?, v, 2
  {
    if v.Null? == w.Null? {
      EmptyIffSame(v, w, sortArrays);
    }
  }

  // ---------------------------------------------------------------- replaying the entries

  /** At least `n` elements: what is missing is filled up with null. */
  function Padded(s: seq<Json>, n: nat): (r: seq<Json>)
    ensures |r| == Max(|s|, n) && forall i :: 0 <= i < |r| ==> r[i] == Item(s, i)
  {
    if |s| >= n then s else s + seq(n - |s|, _ => Null)
  }

  /** Stores a value at a path; a path that leads through something else than it names changes nothing. */
  function Store(v: Json, path: seq<Step>, x: Json): Json
    decreases |path|
  {
    if path == [] then x
    else match (v, path[0])
      case (Obj(m), Key(k)) => Obj(m[k := Store(Member(m, k), path[1..], x)])
      case (Arr(s), Index(i)) => Arr(Padded(s, i + 1)[i := Store(Item(s, i), path[1..], x)])
      case _ => v
  }

  function Fetch(v: Json, path: seq<Step>): Json
    decreases |path|
  {
    if path == [] then v
    else match (v, path[0])
      case (Obj(m), Key(k)) => Fetch(Member(m, k), path[1..])
      case (Arr(s), Index(i)) => Fetch(Item(s, i), path[1..])
      case _ => Null
  }

  function Replay(v: Json, es: seq<DiffEntry>): Json {
    if es == [] then v else Store(Replay(v, es[..|es| - 1]), es[|es| - 1].path, es[|es| - 1].new_)
  }

  lemma {:induction false} ReplayAppend(v: Json, d: seq<DiffEntry>, e: seq<DiffEntry>)
    ensures Replay(v, d + e) == Replay(Replay(v, d), e)
    decreases |e|
  {
    if e == [] {
      assert d + e == d;
    } else {
      ReplayAppend(v, d, e[..|e| - 1]);
      assert (d + e)[..|d + e| - 1] == d + e[..|e| - 1];
    }
  }

  lemma ReplayUnderLast(v: Json, step: Step, es: seq<DiffEntry>)
    requires es != []
    ensures var init, last := es[..|es| - 1], es[|es| - 1];
            Replay(v, Under(step, es)) == Store(Replay(v, Under(step, init)), [step] + last.path, last.new_)
  {
    var us := Under(step, es);
    assert us[..|us| - 1] == Under(step, es[..|es| - 1]);
  }

  lemma StoreBelow(step: Step, path: seq<Step>, x: Json)
    ensures forall m :: step.Key? ==> Store(Obj(m), [step] + path, x) == Obj(m[step.key := Store(Member(m, step.key), path, x)])
    ensures forall s :: step.Index? ==> Store(Arr(s), [step] + path, x) ==
                                        Arr(Padded(s, step.index + 1)[step.index := Store(Item(s, step.index), path, x)])
  {
    assert ([step] + path)[1..] == path && ([step] + path)[0] == step;
  }

  lemma ReplayNothing(v: Json, step: Step)
    ensures Replay(v, Under(step, [])) == v && Replay(v, []) == v
  {
  }

  lemma {:induction false} ReplayUnderKey(m: map<string, Json>, k: string, es: seq<DiffEntry>)
    requires es != []
    ensures Replay(Obj(m), Under(Key(k), es)) == Obj(m[k := Replay(Member(m, k), es)])
    decreases |es|
  {
    hide Under, Store;
    var init, last := es[..|es| - 1], es[|es| - 1];
    ReplayUnderLast(Obj(m), Key(k), es);
    StoreBelow(Key(k), last.path, last.new_);
    if init == [] {
      ReplayNothing(Obj(m), Key(k));
      ReplayNothing(Member(m, k), Key(k));
    } else {
      ReplayUnderKey(m, k, init);
      var x, y := Replay(Member(m, k), init), Replay(Member(m, k), es);
      assert Member(m[k := x], k) == x && m[k := x][k := y] == m[k := y];
    }
  }

  lemma {:induction false} ReplayUnderIndex(s: seq<Json>, i: nat, es: seq<DiffEntry>)
    requires es != []
    ensures Replay(Arr(s), Under(Index(i), es)) == Arr(Padded(s, i + 1)[i := Replay(Item(s, i), es)])
    decreases |es|
  {
    hide Under, Store;
    var init, last := es[..|es| - 1], es[|es| - 1];
    ReplayUnderLast(Arr(s), Index(i), es);
    StoreBelow(Index(i), last.path, last.new_);
    if init == [] {
      ReplayNothing(Arr(s), Index(i));
      ReplayNothing(Item(s, i), Index(i));
    } else {
      ReplayUnderIndex(s, i, init);
      StoreTwice(Padded(s, i + 1), i, Replay(Item(s, i), init), Replay(Item(s, i), es));
    }
  }

  lemma StoreTwice(s: seq<Json>, i: nat, x: Json, y: Json)
    requires i < |s|
    ensures s[i := x][i := y] == s[i := y] && Item(s[i := x], i) == x && Padded(s[i := x], i + 1) == s[i := x]
  {
  }

  /** After the entries of some members: one of those holds what its own entries make of it, any other is untouched. */
  ghost predicate MemberReplayed(m: map<string, Json>, m': map<string, Json>, n: map<string, Json>, keys: seq<string>,
                                 k: string)
  {
    && Member(m', k) == (if k in keys then Replay(Member(m, k), Slot(Member(m, k), Member(n, k), false)) else Member(m, k))
    && (k in m' ==> k in m || k in keys)
  }

  ghost predicate MembersReplayed(m: map<string, Json>, m': map<string, Json>, n: map<string, Json>, keys: seq<string>) {
    forall k {:trigger Member(m', k)} {:trigger MemberReplayed(m, m', n, keys, k)} :: MemberReplayed(m, m', n, keys, k)
  }

  lemma ThisMember(m: map<string, Json>, m': map<string, Json>, n: map<string, Json>, init: seq<string>, k: string)
    requires Member(m', k) == Replay(Member(m, k), Slot(Member(m, k), Member(n, k), false))
    ensures MemberReplayed(m, m', n, init + [k], k)
  {
    hide Slot, Replay;
    assert (init + [k])[|init|] == k;
  }

  lemma OtherMember(m: map<string, Json>, mid: map<string, Json>, m': map<string, Json>, n: map<string, Json>,
                    init: seq<string>, k: string, q: string)
    requires q != k && MemberReplayed(m, mid, n, init, q)
    requires m' == mid || m' == mid[k := Member(m', k)]
    ensures MemberReplayed(m, m', n, init + [k], q)
  {
    hide Slot, Replay;
    assert q in init + [k] <==> q in init;
    assert q in m' <==> q in mid;
    assert Member(m', q) == Member(mid, q);
  }

  lemma OneMoreMember(m: map<string, Json>, mid: map<string, Json>, m': map<string, Json>, n: map<string, Json>,
                      init: seq<string>, k: string)
    requires MembersReplayed(m, mid, n, init)
    requires Member(m', k) == Replay(Member(m, k), Slot(Member(m, k), Member(n, k), false))
    requires m' == mid || m' == mid[k := Member(m', k)]
    ensures MembersReplayed(m, m', n, init + [k])
  {
    hide MemberReplayed, Slot, Replay, Member;
    forall q
      ensures MemberReplayed(m, m', n, init + [k], q)
    {
      if q == k {
        ThisMember(m, m', n, init, k);
      } else {
        assert MemberReplayed(m, mid, n, init, q);
        OtherMember(m, mid, m', n, init, k, q);
      }
    }
  }

  lemma {:induction false} KeysReplayed(a: Json, b: Json, keys: seq<string>) returns (m': map<string, Json>)
    requires a.Obj? && b.Obj? && Distinct(keys)
    ensures Replay(a, DiffKeys(a, b, keys, false)) == Obj(m')
    ensures MembersReplayed(a.members, m', b.members, keys)
    decreases |keys|
  {
    hide Slot, Replay, Under;
    if keys == [] {
      m' := a.members;
      ReplayNothing(a, Index(0));
    } else {
      var init, k := keys[..|keys| - 1], keys[|keys| - 1];
      var mid := KeysReplayed(a, b, init);
      var es := Slot(Member(a.members, k), Member(b.members, k), false);
      ReplayAppend(a, DiffKeys(a, b, init, false), Under(Key(k), es));
      ReplayNothing(Obj(mid), Key(k));
      ReplayNothing(Member(a.members, k), Key(k));
      assert keys == init + [k] && k !in init;
      assert Member(mid, k) == Member(a.members, k);
      if es == [] {
        m' := mid;
      } else {
        ReplayUnderKey(mid, k, es);
        m' := mid[k := Replay(Member(a.members, k), es)];
      }
      OneMoreMember(a.members, mid, m', b.members, init, k);
    }
  }

  ghost predicate ItemsReplayed(s: seq<Json>, s': seq<Json>, t: seq<Json>, n: nat) {
    && |s| <= |s'| <= Max(|s|, n)
    && forall i: nat {:trigger Item(s', i)} ::
         Item(s', i) == if i < n then Replay(Item(s, i), Slot(Item(s, i), Item(t, i), false)) else Item(s, i)
  }

  lemma {:induction false} IndicesReplayed(a: Json, b: Json, n: nat) returns (s': seq<Json>)
    requires a.Arr? && b.Arr?
    ensures Replay(a, DiffItems(a, b, n, false)) == Arr(s')
    ensures ItemsReplayed(a.items, s', b.items, n)
    decreases n
  {
    hide Slot, Replay, Under;
    if n == 0 {
      s' := a.items;
      ReplayNothing(a, Index(0));
    } else {
      var i := n - 1;
      var mid := IndicesReplayed(a, b, i);
      var es := Slot(Item(a.items, i), Item(b.items, i), false);
      ReplayAppend(a, DiffItems(a, b, i, false), Under(Index(i), es));
      ReplayNothing(Arr(mid), Index(i));
      ReplayNothing(Item(a.items, i), Index(i));
      assert Item(mid, i) == Item(a.items, i);
      if es == [] {
        s' := mid;
        assert Item(s', i) == Replay(Item(a.items, i), es);
      } else {
        ReplayUnderIndex(mid, i, es);
        s' := Padded(mid, i + 1)[i := Replay(Item(a.items, i), es)];
        assert forall q: nat {:trigger Item(s', q)} :: q != i ==> Item(s', q) == Item(mid, q);
        assert Item(s', i) == Replay(Item(a.items, i), es);
      }
    }
  }

  lemma {:induction false} SameAsItself(v: Json)
    ensures Same(v, v, false)
    decreases v
  {
    match v
    case Obj(m) =>
      forall k | k in m
        ensures Same(m[k], m[k], false)
      {
        SameAsItself(m[k]);
      }
    case Arr(s) =>
      forall i | 0 <= i < |s|
        ensures Same(s[i], s[i], false)
      {
        SameAsItself(s[i]);
      }
    case _ =>
  }

  /** Replaying the difference on the old value gives the new one, up to nulls. */
  lemma {:induction false} ReplayReachesNew(a: Json, b: Json)
    ensures Same(Replay(a, Diff(a, b, false)), b, false)
    decreases !a.Null?, a, 1
  {
    if a.Obj? && b.Obj? {
      ObjectReplayReachesNew(a, b);
    } else if a.Arr? && b.Arr? {
      ArrayReplayReachesNew(a, b);
    } else {
      SameAsItself(b);
      if a != b {
        assert Diff(a, b, false)[..0] == [];
      }
    }
  }

  lemma {:induction false} SlotReplayReachesNew(v: Json, w: Json)
    ensures Same(Replay(v, Slot(v, w, false)), w, false)
    decreases !v.Null?, v, 2
  {
    if v.Null? == w.Null? {
      ReplayReachesNew(v, w);
    } else {
      SameAsItself(w);
      assert Slot(v, w, false)[..0] == [];
    }
  }

  lemma {:induction false} ObjectReplayReachesNew(a: Json, b: Json)
    requires a.Obj? && b.Obj?
    ensures Same(Replay(a, Diff(a, b, false)), b, false)
    decreases true, a, 0
  {
    hide Slot, Replay, SortedKeys;
    var m, n := a.members, b.members;
    var keys := SortedKeys(m.Keys + n.Keys);
    var m' := KeysReplayed(a, b, keys);
    assert forall k :: k in keys <==> k in Elems(keys);
    forall k {:trigger Member(m', k)} | k in m || k in n
      ensures Same(Member(m', k), Member(n, k), false)
    {
      SlotReplayReachesNew(Member(m, k), Member(n, k));
    }
    assert forall k :: k in n && k !in m' ==> Member(m', k) == Null && Member(n, k) == n[k];
    assert forall k :: k in m' ==> m'[k] == Member(m', k);
  }

  lemma {:induction false} ArrayReplayReachesNew(a: Json, b: Json)
    requires a.Arr? && b.Arr?
    ensures Same(Replay(a, Diff(a, b, false)), b, false)
    decreases true, a, 0
  {
    hide Slot, Replay;
    var s, t := a.items, b.items;
    var n := Max(|s|, |t|);
    var s' := IndicesReplayed(a, b, n);
    forall i: nat {:trigger Item(s', i)} | i < n
      ensures Same(Item(s', i), Item(t, i), false)
    {
      SlotReplayReachesNew(Item(s, i), Item(t, i));
    }
    SameByItems(Arr(s'), b, false);
  }

  // ---------------------------------------------------------------- what the entries say

  /** The entries for going back. */
  function Swapped(es: seq<DiffEntry>): (r: seq<DiffEntry>)
    ensures |r| == |es| && forall i :: 0 <= i < |es| ==> r[i] == DiffEntry(es[i].path, es[i].new_, es[i].old_)
  {
    seq(|es|, i requires 0 <= i < |es| => DiffEntry(es[i].path, es[i].new_, es[i].old_))
  }

  lemma SwappedParts(d: seq<DiffEntry>, step: Step, es: seq<DiffEntry>)
    ensures Swapped(d + Under(step, es)) == Swapped(d) + Under(step, Swapped(es))
  {
  }

  /** Exchanging the values exchanges old and new in every entry and changes nothing else. */
  lemma {:induction false} DiffSwaps(a: Json, b: Json, sortArrays: bool)
    ensures Diff(b, a, sortArrays) == Swapped(Diff(a, b, sortArrays))
    decreases !a.Null?, a, 1, 0
  {
    hide Slot, SortedKeys, Swapped;
    match (a, b)
    case (Obj(m), Obj(n)) =>
      assert m.Keys + n.Keys == n.Keys + m.Keys;
      KeysSwap(a, b, SortedKeys(m.Keys + n.Keys), sortArrays);
    case (Arr(s), Arr(t)) =>
      ItemsSwap(a, b, Max(|s|, |t|), sortArrays);
    case _ =>
      SwappedFew(a, b);
  }

  lemma SwappedFew(a: Json, b: Json)
    ensures Swapped([]) == [] && Swapped([DiffEntry([], a, b)]) == [DiffEntry([], b, a)]
  {
  }

  lemma {:induction false} SlotSwaps(v: Json, w: Json, sortArrays: bool)
    ensures Slot(w, v, sortArrays) == Swapped(Slot(v, w, sortArrays))
    decreases !v.Null?, v, 2, 0
  {
    SwappedFew(v, w);
    if v.Null? == w.Null? {
      DiffSwaps(v, w, sortArrays);
    }
  }

  lemma {:induction false} KeysSwap(a: Json, b: Json, keys: seq<string>, sortArrays: bool)
    requires a.Obj? && b.Obj?
    ensures DiffKeys(b, a, keys, sortArrays) == Swapped(DiffKeys(a, b, keys, sortArrays))
    decreases true, a, 0, |keys|
  {
    hide Slot, Swapped;
    if keys == [] {
      SwappedFew(a, b);
    } else {
      var init, k := keys[..|keys| - 1], keys[|keys| - 1];
      KeysSwap(a, b, init, sortArrays);
      SlotSwaps(Member(a.members, k), Member(b.members, k), sortArrays);
      SwappedParts(DiffKeys(a, b, init, sortArrays), Key(k), Slot(Member(a.members, k), Member(b.members, k), sortArrays));
    }
  }

  lemma {:induction false} ItemsSwap(a: Json, b: Json, n: nat, sortArrays: bool)
    requires a.Arr? && b.Arr?
    ensures DiffItems(b, a, n, sortArrays) == Swapped(DiffItems(a, b, n, sortArrays))
    decreases true, a, 0, n
  {
    hide Slot, Swapped;
    if n == 0 {
      SwappedFew(a, b);
    } else {
      var s, t := Arranged(a.items, sortArrays), Arranged(b.items, sortArrays);
      assert n - 1 < |s| ==> s[n - 1] in s && s[n - 1] in a.items;
      ItemsSwap(a, b, n - 1, sortArrays);
      SlotSwaps(Item(s, n - 1), Item(t, n - 1), sortArrays);
      SwappedParts(DiffItems(a, b, n - 1, sortArrays), Index(n - 1), Slot(Item(s, n - 1), Item(t, n - 1), sortArrays));
    }
  }

  /** Replaying the exchanged entries on the new value leads back to the old one, up to nulls. */
  lemma ReplayReturnsToOld(a: Json, b: Json)
    ensures Same(Replay(b, Swapped(Diff(a, b, false))), a, false)
  {
    DiffSwaps(a, b, false);
    ReplayReachesNew(b, a);
  }

  /** An entry holds what stands at its path in either value, and the two differ. */
  ghost predicate Records(e: DiffEntry, a: Json, b: Json) {
    Fetch(a, e.path) == e.old_ && Fetch(b, e.path) == e.new_ && e.old_ != e.new_
  }

  ghost predicate AllRecord(es: seq<DiffEntry>, a: Json, b: Json) {
    forall i {:trigger es[i]} :: 0 <= i < |es| ==> Records(es[i], a, b)
  }

  lemma RecordsAbove(step: Step, es: seq<DiffEntry>, v: Json, w: Json, a: Json, b: Json)
    requires AllRecord(es, v, w)
    requires match (a, b)
             case (Obj(m), Obj(n)) => step.Key? && Member(m, step.key) == v && Member(n, step.key) == w
             case (Arr(s), Arr(t)) => step.Index? && Item(s, step.index) == v && Item(t, step.index) == w
             case _ => false
    ensures AllRecord(Under(step, es), a, b)
  {
    var us := Under(step, es);
    forall i {:trigger us[i]} | 0 <= i < |us|
      ensures Records(us[i], a, b)
    {
      assert Records(es[i], v, w);
      assert us[i].path[1..] == es[i].path;
    }
  }

  lemma {:induction false} EntriesRecord(a: Json, b: Json)
    ensures AllRecord(Diff(a, b, false), a, b)
    decreases !a.Null?, a, 1, 0
  {
    hide Slot, SortedKeys;
    match (a, b)
    case (Obj(m), Obj(n)) =>
      KeysRecord(a, b, SortedKeys(m.Keys + n.Keys));
    case (Arr(s), Arr(t)) =>
      ItemsRecord(a, b, Max(|s|, |t|));
    case _ =>
  }

  lemma {:induction false} SlotRecords(v: Json, w: Json)
    ensures AllRecord(Slot(v, w, false), v, w)
    decreases !v.Null?, v, 2, 0
  {
    if v.Null? == w.Null? {
      EntriesRecord(v, w);
    }
  }

  lemma {:induction false} KeysRecord(a: Json, b: Json, keys: seq<string>)
    requires a.Obj? && b.Obj?
    ensures AllRecord(DiffKeys(a, b, keys, false), a, b)
    decreases true, a, 0, |keys|
  {
    hide Slot, Records;
    if keys != [] {
      var init, k := keys[..|keys| - 1], keys[|keys| - 1];
      var v, w := Member(a.members, k), Member(b.members, k);
      KeysRecord(a, b, init);
      SlotRecords(v, w);
      RecordsAbove(Key(k), Slot(v, w, false), v, w, a, b);
    }
  }

  lemma {:induction false} ItemsRecord(a: Json, b: Json, n: nat)
    requires a.Arr? && b.Arr?
    ensures AllRecord(DiffItems(a, b, n, false), a, b)
    decreases true, a, 0, n
  {
    hide Slot, Records;
    if n > 0 {
      var v, w := Item(a.items, n - 1), Item(b.items, n - 1);
      ItemsRecord(a, b, n - 1);
      SlotRecords(v, w);
      RecordsAbove(Index(n - 1), Slot(v, w, false), v, w, a, b);
    }
  }

  // ---------------------------------------------------------------- the collector

  function Below(path: seq<Step>, es: seq<DiffEntry>): (r: seq<DiffEntry>)
    ensures |r| == |es| && forall i :: 0 <= i < |es| ==> r[i] == es[i].(path := path + es[i].path)
  {
    seq(|es|, i requires 0 <= i < |es| => es[i].(path := path + es[i].path))
  }

  lemma BelowStep(path: seq<Step>, d: seq<DiffEntry>, step: Step, es: seq<DiffEntry>)
    ensures Below(path, d + Under(step, es)) == Below(path, d) + Below(path + [step], es)
  {
    var l, r := Below(path, d + Under(step, es)), Below(path, d) + Below(path + [step], es);
    forall i | 0 <= i < |l|
      ensures l[i] == r[i]
    {
      if i >= |d| {
        var p := es[i - |d|].path;
        assert path + ([step] + p) == path + [step] + p;
      }
    }
  }

  lemma BelowFew(path: seq<Step>, a: Json, b: Json)
    ensures Below(path, []) == [] && Below(path, [DiffEntry([], a, b)]) == [DiffEntry(path, a, b)]
  {
    assert path + [] == path;
  }

  lemma BelowTheRoot(es: seq<DiffEntry>)
    ensures Below([], es) == es
  {
    forall i | 0 <= i < |es|
      ensures Below([], es)[i] == es[i]
    {
      assert [] + es[i].path == es[i].path;
    }
  }

  method DiffJson(a: Json, b: Json, sortArrays: bool) returns (out: seq<DiffEntry>)
    ensures out == Diff(a, b, sortArrays)
  {
    out := CollectDiffEntries([], a, b, sortArrays, []);
    BelowTheRoot(Diff(a, b, sortArrays));
  }

  /** Appends the entries for two values at a path. */
  method CollectDiffEntries(path: seq<Step>, a: Json, b: Json, sortArrays: bool, soFar: seq<DiffEntry>)
      returns (out: seq<DiffEntry>)
    ensures out == soFar + Below(path, Diff(a, b, sortArrays))
    decreases !a.Null?, a, 2
  {
    hide Below, DiffKeys, DiffItems, SortedKeys;
    BelowFew(path, a, b);
    out := soFar;
    if a.Null? && b.Null? {
      return;
    }
    match (a, b)
    case (Obj(_), Obj(_)) =>
      out := CollectMembers(path, a, b, sortArrays, out);
    case (Arr(_), Arr(_)) =>
      out := CollectItems(path, a, b, sortArrays, out);
    case _ =>
      if a != b {
        out := out + [DiffEntry(path, a, b)];
      }
  }

  method CollectMembers(path: seq<Step>, a: Json, b: Json, sortArrays: bool, soFar: seq<DiffEntry>)
      returns (out: seq<DiffEntry>)
    requires a.Obj? && b.Obj?
    ensures out == soFar + Below(path, DiffKeys(a, b, SortedKeys(a.members.Keys + b.members.Keys), sortArrays))
    decreases true, a, 1
  {
    hide Below, Under, SortedKeys, Diff;
    var keys := SortedKeys(a.members.Keys + b.members.Keys);
    out := soFar;
    BelowFew(path, a, b);
    for i := 0 to |keys|
      invariant out == soFar + Below(path, DiffKeys(a, b, keys[..i], sortArrays))
    {
      var v1, v2 := Member(a.members, keys[i]), Member(b.members, keys[i]);
      BelowStep(path, DiffKeys(a, b, keys[..i], sortArrays), Key(keys[i]), Slot(v1, v2, sortArrays));
      assert keys[..i + 1][..i] == keys[..i];
      out := CollectSlot(path + [Key(keys[i])], v1, v2, sortArrays, out);
    }
    assert keys[..|keys|] == keys;
  }

  method CollectItems(path: seq<Step>, a: Json, b: Json, sortArrays: bool, soFar: seq<DiffEntry>)
      returns (out: seq<DiffEntry>)
    requires a.Arr? && b.Arr?
    ensures out == soFar + Below(path, DiffItems(a, b, Max(|a.items|, |b.items|), sortArrays))
    decreases true, a, 1
  {
    hide Below, Under, Diff;
    var left, right := Arranged(a.items, sortArrays), Arranged(b.items, sortArrays);
    out := soFar;
    BelowFew(path, a, b);
    for i := 0 to Max(|left|, |right|)
      invariant out == soFar + Below(path, DiffItems(a, b, i, sortArrays))
    {
      var v1, v2 := Item(left, i), Item(right, i);
      assert i < |left| ==> left[i] in left && left[i] in a.items;
      BelowStep(path, DiffItems(a, b, i, sortArrays), Index(i), Slot(v1, v2, sortArrays));
      out := CollectSlot(path + [Index(i)], v1, v2, sortArrays, out);
    }
  }

  method CollectSlot(path: seq<Step>, v1: Json, v2: Json, sortArrays: bool, soFar: seq<DiffEntry>)
      returns (out: seq<DiffEntry>)
    ensures out == soFar + Below(path, Slot(v1, v2, sortArrays))
    decreases !v1.Null?, v1, 3
  {
    if v1.Null? != v2.Null? {
      BelowFew(path, v1, v2);
      out := soFar + [DiffEntry(path, v1, v2)];
    } else {
      out := CollectDiffEntries(path, v1, v2, sortArrays, soFar);
    }
  }
}
