/** The paths of the entries of a JSON difference as text: when two entries can get the same key, and when not. */
module JsonPaths {
  import opened Collections
  import opened JsonDiffs

  function Decimal(n: nat): (r: string)
    ensures r != "" && forall i :: 0 <= i < |r| ==> '0' <= r[i] <= '9'
  {
    if n < 10 then ["0123456789"[n]] else Decimal(n / 10) + ["0123456789"[n % 10]]
  }

  function StepText(step: Step): string {
    match step case Key(k) => k case Index(i) => Decimal(i)
  }

  /** The key of an entry: the steps joined by dots, where an empty key so far takes no dot. */
  function Render(path: seq<Step>): string {
    if path == [] then ""
    else
      var before, step := Render(path[..|path| - 1]), StepText(path[|path| - 1]);
      if before == "" then step else before + "." + step
  }

  function Dotted(x: string, y: string): string {
    x + "." + y
  }

  ghost predicate DistinctTexts(es: seq<DiffEntry>) {
    forall i, j {:trigger es[i], es[j]} :: 0 <= i < j < |es| ==> Render(es[i].path) != Render(es[j].path)
  }

  /** A key that says where it ends. */
  predicate IsPlain(k: string) {
    k != "" && '.' !in k
  }

  ghost function PlainKeys(): iset<string> {
    iset k: string | IsPlain(k)
  }

  /** Every key of every object in a value, at any depth, is one of `keys`. */
  ghost predicate KeysWithin(v: Json, keys: iset<string>) {
    match v
    case Obj(m) => forall k :: k in m ==> k in keys && KeysWithin(m[k], keys)
    case Arr(s) => forall i :: 0 <= i < |s| ==> KeysWithin(s[i], keys)
    case _ => true
  }

  // ---------------------------------------------------------------- plain keys

  lemma {:induction false} DecimalInjective(m: nat, n: nat)
    ensures Decimal(m) == Decimal(n) ==> m == n
  {
    if Decimal(m) == Decimal(n) {
      var p, q := Decimal(m), Decimal(n);
      assert p[|p| - 1] == "0123456789"[m % 10] && q[|q| - 1] == "0123456789"[n % 10];
      if m >= 10 && n >= 10 {
        assert p[..|p| - 1] == Decimal(m / 10) && q[..|q| - 1] == Decimal(n / 10);
        DecimalInjective(m / 10, n / 10);
      }
    }
  }

  ghost predicate PlainPath(path: seq<Step>) {
    forall i {:trigger path[i]} :: 0 <= i < |path| ==> IsPlain(StepText(path[i]))
  }

  lemma DecimalIsPlain(i: nat)
    ensures IsPlain(Decimal(i))
  {
  }

  /** A path of plain steps as text starts with the text of its first step, followed by a dot if more follows. */
  lemma {:induction false} RenderFirst(step: Step, path: seq<Step>)
    requires IsPlain(StepText(step)) && PlainPath(path)
    ensures Render([step] + path) == StepText(step) + if path == [] then "" else "." + Render(path)
    ensures path != [] ==> Render(path) != ""
    decreases |path|
  {
    hide StepText, IsPlain;
    assert IsPlain(StepText(step)) ==> StepText(step) != "" by { PlainNotEmpty(StepText(step)); }
    var whole := [step] + path;
    if path == [] {
      assert whole[..0] == [];
    } else {
      var init, last := path[..|path| - 1], path[|path| - 1];
      assert whole[..|whole| - 1] == [step] + init;
      PlainNotEmpty(StepText(last));
      RenderFirst(step, init);
      if init != [] {
        assert StepText(step) + ("." + Render(init)) + "." + StepText(last)
            == StepText(step) + ("." + (Render(init) + "." + StepText(last)));
      }
    }
  }

  lemma PlainNotEmpty(t: string)
    requires IsPlain(t)
    ensures t != "" && '.' !in t
  {
  }

  function BeforeDot(s: string): string {
    if s == "" || s[0] == '.' then "" else [s[0]] + BeforeDot(s[1..])
  }

  lemma {:induction false} BeforeDotOf(t: string, rest: string)
    requires '.' !in t && (rest == "" || rest[0] == '.')
    ensures BeforeDot(t + rest) == t
    decreases |t|
  {
    if t == "" {
      assert t + rest == rest;
    } else {
      assert '.' !in t[1..] && (t + rest)[1..] == t[1..] + rest;
      BeforeDotOf(t[1..], rest);
    }
  }

  /** Equal texts of plain paths start with equal steps, and what follows is equal too. */
  lemma PlainTextsAgree(s: Step, p: seq<Step>, t: Step, q: seq<Step>)
    requires IsPlain(StepText(s)) && IsPlain(StepText(t)) && PlainPath(p) && PlainPath(q)
    requires Render([s] + p) == Render([t] + q)
    ensures StepText(s) == StepText(t) && Render(p) == Render(q)
  {
    hide StepText, Render, PlainPath, BeforeDot;
    RenderFirst(s, p);
    RenderFirst(t, q);
    EmptyPath();
    var x, y := StepText(s), StepText(t);
    var u, w := if p == [] then "" else "." + Render(p), if q == [] then "" else "." + Render(q);
    BeforeDotOf(x, u);
    BeforeDotOf(y, w);
    assert u == (x + u)[|x|..] && w == (y + w)[|y|..];
    assert p != [] ==> Render(p) == u[1..];
    assert q != [] ==> Render(q) == w[1..];
  }

  lemma EmptyPath()
    ensures Render([]) == ""
  {
  }

  /** Entries with plain paths that start with one of some steps. */
  ghost predicate StartWithin(es: seq<DiffEntry>, steps: iset<Step>) {
    forall i {:trigger es[i]} :: 0 <= i < |es| ==> es[i].path != [] && es[i].path[0] in steps && PlainPath(es[i].path)
  }

  ghost predicate PlainPaths(es: seq<DiffEntry>) {
    forall i {:trigger es[i]} :: 0 <= i < |es| ==> PlainPath(es[i].path)
  }

  lemma UnderPlain(step: Step, es: seq<DiffEntry>)
    requires IsPlain(StepText(step)) && PlainPaths(es)
    ensures StartWithin(Under(step, es), iset{step})
  {
    hide StepText, IsPlain;
  }

  lemma UnderDistinct(step: Step, es: seq<DiffEntry>)
    requires IsPlain(StepText(step)) && PlainPaths(es) && DistinctTexts(es)
    ensures DistinctTexts(Under(step, es))
  {
    hide StepText, IsPlain, Render;
    var us := Under(step, es);
    forall i, j {:trigger us[i], us[j]} | 0 <= i < j < |us|
      ensures Render(us[i].path) != Render(us[j].path)
    {
      if Render(us[i].path) == Render(us[j].path) {
        PlainTextsAgree(step, es[i].path, step, es[j].path);
        assert false;
      }
    }
  }

  /** Entries below steps of different text do not get the same text. */
  lemma AppendDistinct(d: seq<DiffEntry>, e: seq<DiffEntry>, steps: iset<Step>, step: Step)
    requires DistinctTexts(d) && DistinctTexts(e) && StartWithin(d, steps) && StartWithin(e, iset{step})
    requires forall s :: s in steps ==> StepText(s) != StepText(step)
    ensures DistinctTexts(d + e)
  {
    hide StepText, IsPlain, Render;
    var es := d + e;
    forall i, j {:trigger es[i], es[j]} | 0 <= i < j < |es|
      ensures Render(es[i].path) != Render(es[j].path)
    {
      if i < |d| <= j && Render(es[i].path) == Render(es[j].path) {
        assert es[i] == d[i] && es[j] == e[j - |d|];
        var p, q := es[i].path, es[j].path;
        assert p == [p[0]] + p[1..] && q == [q[0]] + q[1..];
        PlainTextsAgree(p[0], p[1..], q[0], q[1..]);
        assert false;
      }
    }
  }

  ghost function KeySteps(keys: seq<string>): iset<Step> {
    iset k | k in keys :: Key(k)
  }

  ghost function IndexSteps(n: nat): iset<Step> {
    iset i: nat | i < n :: Index(i)
  }

  /** Where every key of both values is non-empty and free of dots, no two entries get the same text. */
  lemma {:induction false} PlainKeysTellApart(a: Json, b: Json, sortArrays: bool)
    requires KeysWithin(a, PlainKeys()) && KeysWithin(b, PlainKeys())
    ensures DistinctTexts(Diff(a, b, sortArrays)) && PlainPaths(Diff(a, b, sortArrays))
    decreases !a.Null?, a, 1, 0
  {
    hide Slot, SortedKeys, DiffKeys, DiffItems, KeysWithin, DistinctTexts, PlainPath;
    FewEntries(a, b);
    match (a, b)
    case (Obj(m), Obj(n)) =>
      var keys := SortedKeys(m.Keys + n.Keys);
      assert forall k :: k in keys <==> k in Elems(keys);
      KeysTellApart(a, b, keys, sortArrays);
    case (Arr(s), Arr(t)) =>
      ItemsTellApart(a, b, Max(|s|, |t|), sortArrays);
    case _ =>
  }

  lemma FewEntries(a: Json, b: Json)
    ensures DistinctTexts([]) && DistinctTexts([DiffEntry([], a, b)])
    ensures PlainPaths([]) && PlainPaths([DiffEntry([], a, b)])
  {
  }

  lemma {:induction false} SlotTellsApart(v: Json, w: Json, sortArrays: bool)
    requires KeysWithin(v, PlainKeys()) && KeysWithin(w, PlainKeys())
    ensures DistinctTexts(Slot(v, w, sortArrays)) && PlainPaths(Slot(v, w, sortArrays))
    decreases !v.Null?, v, 2, 0
  {
    hide Diff, KeysWithin, DistinctTexts, PlainPaths;
    FewEntries(v, w);
    if v.Null? == w.Null? {
      PlainKeysTellApart(v, w, sortArrays);
    }
  }

  lemma MemberKeysWithin(v: Json, k: string, keys: iset<string>)
    requires v.Obj? && KeysWithin(v, keys)
    ensures KeysWithin(Member(v.members, k), keys) && (k in v.members ==> k in keys)
  {
  }

  lemma ItemKeysWithin(v: Json, i: nat, sortArrays: bool, keys: iset<string>)
    requires v.Arr? && KeysWithin(v, keys)
    ensures KeysWithin(Item(Arranged(v.items, sortArrays), i), keys)
  {
    hide Arranged;
    var s := Arranged(v.items, sortArrays);
    assert i < |s| ==> s[i] in s && s[i] in v.items;
  }

  lemma {:induction false} KeysTellApart(a: Json, b: Json, keys: seq<string>, sortArrays: bool)
    requires a.Obj? && b.Obj? && KeysWithin(a, PlainKeys()) && KeysWithin(b, PlainKeys())
    requires Distinct(keys) && forall k :: k in keys ==> k in a.members || k in b.members
    ensures var es := DiffKeys(a, b, keys, sortArrays); DistinctTexts(es) && StartWithin(es, KeySteps(keys))
    decreases true, a, 0, |keys|
  {
    hide Slot, KeysWithin, DistinctTexts, PlainPath, Under;
    if keys == [] {
      NoEntries(KeySteps(keys));
    } else {
      var init, k := keys[..|keys| - 1], keys[|keys| - 1];
      var v, w := Member(a.members, k), Member(b.members, k);
      KeysTellApart(a, b, init, sortArrays);
      MemberKeysWithin(a, k, PlainKeys());
      MemberKeysWithin(b, k, PlainKeys());
      SlotTellsApart(v, w, sortArrays);
      UnderPlain(Key(k), Slot(v, w, sortArrays));
      UnderDistinct(Key(k), Slot(v, w, sortArrays));
      assert keys == init + [k] && k !in init;
      AppendDistinct(DiffKeys(a, b, init, sortArrays), Under(Key(k), Slot(v, w, sortArrays)), KeySteps(init), Key(k));
      AppendWithin(DiffKeys(a, b, init, sortArrays), Under(Key(k), Slot(v, w, sortArrays)), KeySteps(init), Key(k), KeySteps(keys));
    }
  }

  lemma NoEntries(steps: iset<Step>)
    ensures DistinctTexts([]) && StartWithin([], steps)
  {
  }

  lemma AppendWithin(d: seq<DiffEntry>, e: seq<DiffEntry>, steps: iset<Step>, step: Step, all: iset<Step>)
    requires StartWithin(d, steps) && StartWithin(e, iset{step})
    requires steps <= all && step in all
    ensures StartWithin(d + e, all)
  {
    hide PlainPath;
  }

  lemma {:induction false} ItemsTellApart(a: Json, b: Json, n: nat, sortArrays: bool)
    requires a.Arr? && b.Arr? && KeysWithin(a, PlainKeys()) && KeysWithin(b, PlainKeys())
    ensures var es := DiffItems(a, b, n, sortArrays); DistinctTexts(es) && StartWithin(es, IndexSteps(n))
    decreases true, a, 0, n
  {
    hide Slot, KeysWithin, DistinctTexts, PlainPath, Under;
    if n == 0 {
      NoEntries(IndexSteps(n));
    } else {
      var i := n - 1;
      var s, t := Arranged(a.items, sortArrays), Arranged(b.items, sortArrays);
      var v, w := Item(s, i), Item(t, i);
      assert i < |s| ==> s[i] in s && s[i] in a.items;
      ItemsTellApart(a, b, i, sortArrays);
      ItemKeysWithin(a, i, sortArrays, PlainKeys());
      ItemKeysWithin(b, i, sortArrays, PlainKeys());
      SlotTellsApart(v, w, sortArrays);
      DecimalIsPlain(i);
      UnderPlain(Index(i), Slot(v, w, sortArrays));
      UnderDistinct(Index(i), Slot(v, w, sortArrays));
      forall s | s in IndexSteps(i)
        ensures StepText(s) != StepText(Index(i))
      {
        DecimalInjective(s.index, i);
      }
      AppendDistinct(DiffItems(a, b, i, sortArrays), Under(Index(i), Slot(v, w, sortArrays)), IndexSteps(i), Index(i));
      AppendWithin(DiffItems(a, b, i, sortArrays), Under(Index(i), Slot(v, w, sortArrays)), IndexSteps(i), Index(i), IndexSteps(n));
    }
  }

  // ---------------------------------------------------------------- other keys

  /** The entries of a member are among those of its object. */
  lemma {:induction false} MemberEntry(a: Json, b: Json, keys: seq<string>, k: string, e: DiffEntry, sortArrays: bool)
    requires a.Obj? && b.Obj? && k in keys
    requires e in Slot(Member(a.members, k), Member(b.members, k), sortArrays)
    ensures e.(path := [Key(k)] + e.path) in DiffKeys(a, b, keys, sortArrays)
    decreases |keys|
  {
    hide Slot, Under;
    var init, last := keys[..|keys| - 1], keys[|keys| - 1];
    if k == last {
      var es := Slot(Member(a.members, k), Member(b.members, k), sortArrays);
      var i :| 0 <= i < |es| && es[i] == e;
      assert Under(Key(k), es)[i] == e.(path := [Key(k)] + e.path);
    } else {
      assert keys == init + [last];
      MemberEntry(a, b, init, k, e, sortArrays);
    }
  }

  lemma ObjectEntry(a: Json, b: Json, k: string, e: DiffEntry, sortArrays: bool)
    requires a.Obj? && b.Obj? && k in a.members
    requires e in Slot(Member(a.members, k), Member(b.members, k), sortArrays)
    ensures e.(path := [Key(k)] + e.path) in Diff(a, b, sortArrays)
  {
    hide Slot, SortedKeys;
    var keys := SortedKeys(a.members.Keys + b.members.Keys);
    assert k in Elems(keys);
    MemberEntry(a, b, keys, k, e, sortArrays);
  }

  /** An object with the member `k` and, in the member `x`, a member `y`; both hold the value `v`. */
  function Nested(k: string, x: string, y: string, v: Json): Json {
    Obj(map[x := Obj(map[y := v])][k := v])
  }

  lemma NestedEntries(k: string, x: string, y: string, v: Json, w: Json, sortArrays: bool)
    requires k != x && v.Number? && w.Number? && v != w
    ensures var es := Diff(Nested(k, x, y, v), Nested(k, x, y, w), sortArrays);
            DiffEntry([Key(k)], v, w) in es && DiffEntry([Key(x), Key(y)], v, w) in es
  {
    hide SortedKeys, DiffKeys;
    var a, b := Nested(k, x, y, v), Nested(k, x, y, w);
    var e := DiffEntry([], v, w);
    assert Slot(v, w, sortArrays) == [e];
    assert [Key(k)] + [] == [Key(k)] && [Key(y)] + [] == [Key(y)] && [Key(x)] + [Key(y)] == [Key(x), Key(y)];
    ObjectEntry(a, b, k, e, sortArrays);
    ObjectEntry(Obj(map[y := v]), Obj(map[y := w]), y, e, sortArrays);
    ObjectEntry(a, b, x, e.(path := [Key(y)]), sortArrays);
  }

  lemma RenderFew(x: string, y: string)
    ensures Render([Key(x)]) == x && Render([Key(x), Key(y)]) == if x == "" then y else Dotted(x, y)
  {
    assert [Key(x)][..0] == [] && [Key(x), Key(y)][..1] == [Key(x)];
  }

  lemma SameTextTwice(es: seq<DiffEntry>, d: DiffEntry, e: DiffEntry)
    requires d in es && e in es && d != e && Render(d.path) == Render(e.path)
    ensures !DistinctTexts(es)
  {
    hide Render;
    var i :| 0 <= i < |es| && es[i] == d;
    var j :| 0 <= j < |es| && es[j] == e;
    assert i < j || j < i;
  }

  /** A key `x.y` beside a key `x` that holds a key `y`: one difference reports both members under the same text. */
  lemma RenderedPathsCollide(x: string, y: string, v: Json, w: Json, sortArrays: bool)
    requires x != "" && v.Number? && w.Number? && v != w
    ensures var k := Dotted(x, y);
            var es := Diff(Nested(k, x, y, v), Nested(k, x, y, w), sortArrays);
            && DiffEntry([Key(k)], v, w) in es && DiffEntry([Key(x), Key(y)], v, w) in es
            && Render([Key(k)]) == Render([Key(x), Key(y)]) && !DistinctTexts(es)
  {
    hide Diff, Render;
    var k := Dotted(x, y);
    assert |k| > |x|;
    NestedEntries(k, x, y, v, w, sortArrays);
    RenderFew(k, y);
    RenderFew(x, y);
    SameTextTwice(Diff(Nested(k, x, y, v), Nested(k, x, y, w), sortArrays), DiffEntry([Key(k)], v, w),
                  DiffEntry([Key(x), Key(y)], v, w));
  }

  /** A key `y` beside an empty key that holds a key `y`: the same happens. */
  lemma EmptyKeysCollide(y: string, v: Json, w: Json, sortArrays: bool)
    requires y != "" && v.Number? && w.Number? && v != w
    ensures var es := Diff(Nested(y, "", y, v), Nested(y, "", y, w), sortArrays);
            && DiffEntry([Key(y)], v, w) in es && DiffEntry([Key(""), Key(y)], v, w) in es
            && Render([Key(y)]) == Render([Key(""), Key(y)]) && !DistinctTexts(es)
  {
    hide Diff, Render;
    NestedEntries(y, "", y, v, w, sortArrays);
    RenderFew(y, y);
    RenderFew("", y);
    SameTextTwice(Diff(Nested(y, "", y, v), Nested(y, "", y, w), sortArrays), DiffEntry([Key(y)], v, w),
                  DiffEntry([Key(""), Key(y)], v, w));
  }

  // ---------------------------------------------------------------- exactly when

  /** With a key that holds a dot, its parts are keys too. */
  ghost predicate ClosedUnderSplitting(keys: iset<string>) {
    forall x, y {:trigger Dotted(x, y)} :: Dotted(x, y) in keys ==> x in keys && y in keys
  }

  ghost predicate AlwaysDistinct(keys: iset<string>) {
    forall a, b, sortArrays {:trigger Diff(a, b, sortArrays)} ::
      KeysWithin(a, keys) && KeysWithin(b, keys) ==> DistinctTexts(Diff(a, b, sortArrays))
  }

  lemma {:induction false} MoreKeys(v: Json, keys: iset<string>, more: iset<string>)
    requires KeysWithin(v, keys) && keys <= more
    ensures KeysWithin(v, more)
    decreases v
  {
    match v
    case Obj(m) =>
      forall k | k in m
        ensures KeysWithin(m[k], more)
      {
        MoreKeys(m[k], keys, more);
      }
    case Arr(s) =>
      forall i | 0 <= i < |s|
        ensures KeysWithin(s[i], more)
      {
        MoreKeys(s[i], keys, more);
      }
    case _ =>
  }

  lemma NestedWithin(k: string, x: string, y: string, v: Json, keys: iset<string>)
    requires k in keys && x in keys && y in keys && v.Number?
    ensures KeysWithin(Nested(k, x, y, v), keys)
  {
    assert KeysWithin(v, keys);
    assert KeysWithin(Obj(map[y := v]), keys);
  }

  lemma FirstDot(k: string) returns (x: string, y: string)
    requires '.' in k
    ensures Dotted(x, y) == k
  {
    var i :| 0 <= i < |k| && k[i] == '.';
    x, y := k[..i], k[i + 1..];
  }

  /**
   * Of the sets of keys that hold the parts of their dotted keys, exactly those of plain keys only
   * let the entries of any two values be told apart by their texts.
   */
  lemma TextsTellApartIffPlain(keys: iset<string>, some: string)
    requires ClosedUnderSplitting(keys) && some in keys && some != ""
    ensures AlwaysDistinct(keys) <==> keys <= PlainKeys()
  {
    hide Diff, DistinctTexts, KeysWithin, Nested;
    if keys <= PlainKeys() {
      forall a, b, sortArrays {:trigger Diff(a, b, sortArrays)} | KeysWithin(a, keys) && KeysWithin(b, keys)
        ensures DistinctTexts(Diff(a, b, sortArrays))
      {
        MoreKeys(a, keys, PlainKeys());
        MoreKeys(b, keys, PlainKeys());
        PlainKeysTellApart(a, b, sortArrays);
      }
    } else {
      var k :| k in keys && !IsPlain(k);
      OtherKeyCollides(keys, k, some);
    }
  }

  lemma OtherKeyCollides(keys: iset<string>, k: string, some: string)
    requires ClosedUnderSplitting(keys) && some in keys && some != "" && k in keys && !IsPlain(k)
    ensures !AlwaysDistinct(keys)
  {
    hide Diff, DistinctTexts, KeysWithin, Nested;
    var v, w := Number("1"), Number("2");
    var x, y := "", some;
    if k != "" {
      x, y := FirstDot(k);
    }
    var key := if x == "" then (if k == "" then some else k) else Dotted(x, y);
    if x == "" {
      EmptyKeysCollide(key, v, w, false);
      NestedWithin(key, "", key, v, keys);
      NestedWithin(key, "", key, w, keys);
    } else {
      RenderedPathsCollide(x, y, v, w, false);
      NestedWithin(key, x, y, v, keys);
      NestedWithin(key, x, y, w, keys);
    }
  }
}
