/** Weights of walks, relaxation, and when relaxed distances are shortest distances. */
module WeightedWalks {
  import opened Collections
  import opened Walks

  type Weights<!T> = map<T, map<T, real>>

  datatype WeightedEdge<T> = WeightedEdge(v1: T, v2: T, weight: real, directed: bool)

  function WeightOf<T(==)>(w: Weights<T>, u: T, v: T): Option<real> {
    if u in w && v in w[u] then Some(w[u][v]) else None
  }

  ghost function EdgeWeight<T>(w: Weights<T>, u: T, v: T): real {
    if u in w && v in w[u] then w[u][v] else 0.0
  }

  ghost function WalkWeight<T>(w: Weights<T>, p: seq<T>): real {
    if |p| <= 1 then 0.0
    else WalkWeight(w, p[..|p| - 1]) + EdgeWeight(w, p[|p| - 2], p[|p| - 1])
  }

  ghost predicate NonNegative<T(!new)>(g: Adjacency<T>, w: Weights<T>) {
    forall u, v :: Edge(g, u, v) ==> EdgeWeight(w, u, v) >= 0.0
  }

  ghost predicate IsNegativeCycle<T>(g: Adjacency<T>, w: Weights<T>, c: seq<T>) {
    IsClosedWalk(g, c) && WalkWeight(w, c) < 0.0
  }

  ghost predicate HasNegativeCycleFrom<T(!new)>(g: Adjacency<T>, w: Weights<T>, from: T) {
    exists c :: IsNegativeCycle(g, w, c) && Reach(g, from, c[0])
  }

  ghost predicate IsShortestWalk<T(!new)>(g: Adjacency<T>, w: Weights<T>, p: seq<T>, from: T, to: T) {
    && IsWalkBetween(g, p, from, to)
    && forall q :: IsWalkBetween(g, q, from, to) ==> WalkWeight(w, p) <= WalkWeight(w, q)
  }

  // ---------------------------------------------------------------- weights of walks

  lemma WeightAppend<T>(w: Weights<T>, p: seq<T>, v: T)
    requires p != []
    ensures WalkWeight(w, p + [v]) == WalkWeight(w, p) + EdgeWeight(w, p[|p| - 1], v)
  {
    assert (p + [v])[..|p|] == p;
  }

  lemma {:induction false} WeightJoin<T>(w: Weights<T>, p: seq<T>, q: seq<T>)
    requires p != [] && q != [] && p[|p| - 1] == q[0]
    ensures WalkWeight(w, p + q[1..]) == WalkWeight(w, p) + WalkWeight(w, q)
    decreases |q|
  {
    if |q| == 1 {
      assert p + q[1..] == p;
    } else {
      var init, last := q[..|q| - 1], q[|q| - 1];
      WeightJoin(w, p, init);
      assert p + q[1..] == (p + init[1..]) + [last];
      WeightAppend(w, p + init[1..], last);
    }
  }

  lemma WeightSplit<T>(w: Weights<T>, p: seq<T>, i: nat)
    requires i < |p|
    ensures WalkWeight(w, p) == WalkWeight(w, p[..i + 1]) + WalkWeight(w, p[i..])
  {
    WeightJoin(w, p[..i + 1], p[i..]);
    assert p[..i + 1] + p[i..][1..] == p;
  }

  lemma {:induction false} NonNegativeWalk<T(!new)>(g: Adjacency<T>, w: Weights<T>, p: seq<T>)
    requires NonNegative(g, w) && IsWalk(g, p)
    ensures WalkWeight(w, p) >= 0.0
    decreases |p|
  {
    if |p| > 1 {
      WalkSlice(g, p, 0, |p| - 1);
      assert p[..|p| - 1] == p[0..|p| - 1];
      NonNegativeWalk(g, w, p[..|p| - 1]);
      assert Edge(g, p[|p| - 2], p[|p| - 1]);
    }
  }

  lemma NonNegativeHasNoNegativeCycle<T(!new)>(g: Adjacency<T>, w: Weights<T>, from: T)
    requires NonNegative(g, w)
    ensures !HasNegativeCycleFrom(g, w, from)
  {
    forall c | IsClosedWalk(g, c)
      ensures !IsNegativeCycle(g, w, c)
    {
      NonNegativeWalk(g, w, c);
    }
  }

  /** Without a negative cycle, a walk can be cut down to one that repeats no node and weighs no more. */
  lemma {:induction false} Shorten<T(!new)>(g: Adjacency<T>, w: Weights<T>, p: seq<T>) returns (q: seq<T>)
    requires IsWalk(g, p) && !HasNegativeCycleFrom(g, w, p[0])
    ensures IsWalkBetween(g, q, p[0], p[|p| - 1])
    ensures |q| <= |g.Keys| && WalkWeight(w, q) <= WalkWeight(w, p)
    decreases |p|
  {
    if |p| <= |g.Keys| {
      return p;
    }
    Pigeonhole(p, g.Keys);
    var i, j :| 0 <= i < j < |p| && p[i] == p[j];
    q := CutOut(g, w, p, i, j);
    q := Shorten(g, w, q);
  }

  lemma WeightThirds<T>(w: Weights<T>, p: seq<T>, i: nat, j: nat)
    requires i < j < |p|
    ensures WalkWeight(w, p) == WalkWeight(w, p[..i + 1]) + WalkWeight(w, p[i..j + 1]) + WalkWeight(w, p[j..])
  {
    WeightSplit(w, p, i);
    WeightSplit(w, p[i..], j - i);
    assert p[i..][..j - i + 1] == p[i..j + 1] && p[i..][j - i..] == p[j..];
  }

  lemma CutOut<T(!new)>(g: Adjacency<T>, w: Weights<T>, p: seq<T>, i: nat, j: nat) returns (q: seq<T>)
    requires IsWalk(g, p) && !HasNegativeCycleFrom(g, w, p[0])
    requires i < j < |p| && p[i] == p[j]
    ensures IsWalkBetween(g, q, p[0], p[|p| - 1])
    ensures |q| < |p| && WalkWeight(w, q) <= WalkWeight(w, p)
  {
    var before, after := p[..i + 1], p[j..];
    WalkSlice(g, p, 0, i + 1);
    WalkSlice(g, p, j, |p|);
    assert before == p[0..i + 1] && after == p[j..|p|];
    q := before + after[1..];
    JoinWalks(g, before, after, p[0], p[i], p[|p| - 1]);
    WeightJoin(w, before, after);
    WeightThirds(w, p, i, j);
    CycleNotNegative(g, w, p, i, j);
  }

  lemma CycleNotNegative<T(!new)>(g: Adjacency<T>, w: Weights<T>, p: seq<T>, i: nat, j: nat)
    requires IsWalk(g, p) && !HasNegativeCycleFrom(g, w, p[0])
    requires i < j < |p| && p[i] == p[j]
    ensures WalkWeight(w, p[i..j + 1]) >= 0.0
  {
    var cycle := p[i..j + 1];
    WalkSlice(g, p, 0, i + 1);
    WalkSlice(g, p, i, j + 1);
    assert Reach(g, p[0], cycle[0]);
    assert !IsNegativeCycle(g, w, cycle);
  }

  // ---------------------------------------------------------------- relaxed distances

  /** Every edge that leaves `s` has been relaxed. */
  ghost predicate RelaxedFrom<T(!new)>(g: Adjacency<T>, w: Weights<T>, dist: map<T, real>, s: set<T>) {
    && s <= dist.Keys
    && forall u, v :: u in s && Edge(g, u, v) ==> v in dist && dist[v] <= dist[u] + EdgeWeight(w, u, v)
  }

  /** Relaxed distances bound every walk that leaves `s` only with its last edge. */
  lemma {:induction false} DistanceBound<T(!new)>(g: Adjacency<T>, w: Weights<T>, dist: map<T, real>, s: set<T>,
                                                  p: seq<T>)
    requires RelaxedFrom(g, w, dist, s)
    requires IsWalk(g, p) && p[0] in dist
    requires forall i :: 0 <= i < |p| - 1 ==> p[i] in s
    ensures p[|p| - 1] in dist && dist[p[|p| - 1]] <= dist[p[0]] + WalkWeight(w, p)
    decreases |p|
  {
    if |p| > 1 {
      var init := p[0..|p| - 1];
      WalkSlice(g, p, 0, |p| - 1);
      DistanceBound(g, w, dist, s, init);
      assert p[..|p| - 1] == init && Edge(g, p[|p| - 2], p[|p| - 1]);
    }
  }

  /** The same when all distances are relaxed: every walk is bounded. */
  lemma AllRelaxedBound<T(!new)>(g: Adjacency<T>, w: Weights<T>, dist: map<T, real>, p: seq<T>)
    requires RelaxedFrom(g, w, dist, dist.Keys)
    requires IsWalk(g, p) && p[0] in dist
    ensures p[|p| - 1] in dist && dist[p[|p| - 1]] <= dist[p[0]] + WalkWeight(w, p)
  {
    forall i | 0 <= i < |p|
      ensures p[i] in dist
    {
      WalkSlice(g, p, 0, i + 1);
      ClosedUnderEdges(g, dist.Keys, p[0], p[i]);
    }
    DistanceBound(g, w, dist, dist.Keys, p);
  }

  lemma AllRelaxedHasNoNegativeCycle<T(!new)>(g: Adjacency<T>, w: Weights<T>, dist: map<T, real>, from: T)
    requires RelaxedFrom(g, w, dist, dist.Keys) && from in dist
    ensures !HasNegativeCycleFrom(g, w, from)
  {
    forall c | IsClosedWalk(g, c) && Reach(g, from, c[0])
      ensures !IsNegativeCycle(g, w, c)
    {
      ClosedUnderEdges(g, dist.Keys, from, c[0]);
      AllRelaxedBound(g, w, dist, c);
    }
  }

  // ---------------------------------------------------------------- the search state

  ghost predicate Realized<T(!new)>(g: Adjacency<T>, w: Weights<T>, from: T, v: T, d: real) {
    exists p :: IsWalkBetween(g, p, from, v) && WalkWeight(w, p) == d
  }

  /** The edge from `prev[v]` was relaxed when `prev[v]` was set; distances have only fallen since. */
  ghost predicate RelaxedWhenSet<T>(g: Adjacency<T>, w: Weights<T>, dist: map<T, real>, prev: map<T, T>, v: T) {
    && v in dist && v in prev && prev[v] in dist && Edge(g, prev[v], v)
    && dist[v] >= dist[prev[v]] + EdgeWeight(w, prev[v], v)
  }

  /** Distances are weights of real walks; `prev` holds real edges that were relaxed when set. */
  ghost predicate SearchState<T(!new)>(g: Adjacency<T>, w: Weights<T>, from: T, dist: map<T, real>, prev: map<T, T>) {
    && from in dist && dist[from] <= 0.0 && dist.Keys <= g.Keys
    && dist.Keys == prev.Keys + {from}
    && (forall v {:trigger Realized(g, w, from, v, dist[v])} :: v in dist ==> Realized(g, w, from, v, dist[v]))
    && (forall v {:trigger RelaxedWhenSet(g, w, dist, prev, v)} :: v in prev ==> RelaxedWhenSet(g, w, dist, prev, v))
  }

  /** Following `prev` from `v` meets `from` for the first time after `n` steps. */
  ghost predicate Steps<T>(prev: map<T, T>, from: T, v: T, n: nat) {
    if n == 0 then v == from else v != from && v in prev && Steps(prev, from, prev[v], n - 1)
  }

  ghost predicate Rooted<T>(prev: map<T, T>, from: T, v: T) {
    exists n: nat :: Steps(prev, from, v, n)
  }

  ghost predicate IsTree<T(!new)>(from: T, dist: map<T, real>, prev: map<T, T>) {
    && from in dist && dist[from] == 0.0 && from !in prev
    && forall v {:trigger Rooted(prev, from, v)} :: v in dist ==> Rooted(prev, from, v)
  }

  lemma InitialState<T(!new)>(g: Adjacency<T>, w: Weights<T>, from: T)
    requires from in g
    ensures SearchState(g, w, from, map[from := 0.0], map[])
    ensures IsTree(from, map[from := 0.0], map[])
  {
    assert IsWalkBetween(g, [from], from, from) && WalkWeight(w, [from]) == 0.0;
    assert Steps(map[], from, from, 0);
  }

  /** An edge whose relaxation lowers, or first sets, the distance of its target. */
  ghost predicate Improves<T>(g: Adjacency<T>, w: Weights<T>, dist: map<T, real>, u: T, v: T) {
    u in dist && Edge(g, u, v) && (v in dist ==> dist[u] + EdgeWeight(w, u, v) < dist[v])
  }

  lemma RealizedExtends<T(!new)>(g: Adjacency<T>, w: Weights<T>, from: T, u: T, d: real, v: T)
    requires Realized(g, w, from, u, d)
    requires Edge(g, u, v) && v in g
    ensures Realized(g, w, from, v, d + EdgeWeight(w, u, v))
  {
    var p :| IsWalkBetween(g, p, from, u) && WalkWeight(w, p) == d;
    WalkAppend(g, p, v);
    WeightAppend(w, p, v);
    assert IsWalkBetween(g, p + [v], from, v);
  }

  lemma RelaxKeepsState<T(!new)>(g: Adjacency<T>, w: Weights<T>, from: T, dist: map<T, real>, prev: map<T, T>,
                                 u: T, v: T)
    requires SearchState(g, w, from, dist, prev)
    requires Improves(g, w, dist, u, v) && v in g
    ensures SearchState(g, w, from, dist[v := dist[u] + EdgeWeight(w, u, v)], prev[v := u])
  {
    RealizedExtends(g, w, from, u, dist[u], v);
    var dist', prev' := dist[v := dist[u] + EdgeWeight(w, u, v)], prev[v := u];
    forall x | x in prev'
      ensures RelaxedWhenSet(g, w, dist', prev', x)
    {
      assert x == v || RelaxedWhenSet(g, w, dist, prev, x);
    }
  }

  /** A walk to `u` closed by an edge back to its start is not negative. */
  lemma ClosingEdge<T(!new)>(g: Adjacency<T>, w: Weights<T>, from: T, p: seq<T>, u: T, v: T)
    requires !HasNegativeCycleFrom(g, w, from)
    requires Reach(g, from, v)
    requires IsWalkBetween(g, p, v, u) && Edge(g, u, v)
    ensures WalkWeight(w, p) + EdgeWeight(w, u, v) >= 0.0
  {
    var c := p + [v];
    WalkAppend(g, p, v);
    WeightAppend(w, p, v);
    assert IsClosedWalk(g, c);
    assert !IsNegativeCycle(g, w, c);
  }

  /**
   * Either `v` is not on the chain of `u`, which setting `prev[v]` then leaves
   * alone, or the chain gives a walk from `v` to `u`.
   */
  lemma {:induction false} ChainThrough<T(!new)>(g: Adjacency<T>, w: Weights<T>, from: T, dist: map<T, real>,
                                                 prev: map<T, T>, u: T, n: nat, v: T, parent: T)
    returns (p: seq<T>)
    requires SearchState(g, w, from, dist, prev)
    requires Steps(prev, from, u, n) && u in dist && v != from
    ensures p == [] ==> Steps(prev[v := parent], from, u, n)
    ensures p != [] ==> v in dist && IsWalkBetween(g, p, v, u) && WalkWeight(w, p) <= dist[u] - dist[v]
    decreases n
  {
    if u == v {
      p := [u];
    } else if n == 0 {
      p := [];
    } else {
      assert RelaxedWhenSet(g, w, dist, prev, u);
      p := ChainThrough(g, w, from, dist, prev, prev[u], n - 1, v, parent);
      if p != [] {
        WalkAppend(g, p, u);
        WeightAppend(w, p, u);
        p := p + [u];
      }
    }
  }

  lemma {:induction false} Reroot<T>(prev: map<T, T>, from: T, u: T, m: nat, v: T, x: T, n: nat)
    requires Steps(prev, from, x, n)
    requires v != from && Steps(prev[v := u], from, u, m)
    ensures Rooted(prev[v := u], from, x)
    decreases n
  {
    if x == from {
      assert Steps(prev[v := u], from, x, 0);
    } else if x == v {
      assert Steps(prev[v := u], from, x, m + 1);
    } else {
      Reroot(prev, from, u, m, v, prev[x], n - 1);
      var k: nat :| Steps(prev[v := u], from, prev[x], k);
      assert Steps(prev[v := u], from, x, k + 1);
    }
  }

  /** While no negative cycle is reachable, relaxing in place never ties `prev` into a loop. */
  lemma RelaxKeepsTree<T(!new)>(g: Adjacency<T>, w: Weights<T>, from: T, dist: map<T, real>, prev: map<T, T>,
                                u: T, v: T)
    requires !HasNegativeCycleFrom(g, w, from)
    requires SearchState(g, w, from, dist, prev) && IsTree(from, dist, prev)
    requires Improves(g, w, dist, u, v)
    ensures IsTree(from, dist[v := dist[u] + EdgeWeight(w, u, v)], prev[v := u])
  {
    assert Realized(g, w, from, u, dist[u]) && Rooted(prev, from, u);
    var toU :| IsWalkBetween(g, toU, from, u) && WalkWeight(w, toU) == dist[u];
    if v == from {
      ReachSelf(g, from);
      ClosingEdge(g, w, from, toU, u, v);
      assert false;
    }
    var m: nat :| Steps(prev, from, u, m);
    var p := ChainThrough(g, w, from, dist, prev, u, m, v, u);
    if p != [] {
      assert Realized(g, w, from, v, dist[v]);
      var toV :| IsWalkBetween(g, toV, from, v) && WalkWeight(w, toV) == dist[v];
      ClosingEdge(g, w, from, p, u, v);
      assert false;
    }
    forall x | x in dist || x == v
      ensures Rooted(prev[v := u], from, x)
    {
      if x == v {
        assert Steps(prev[v := u], from, v, m + 1);
      } else {
        assert Rooted(prev, from, x);
        var n: nat :| Steps(prev, from, x, n);
        Reroot(prev, from, u, m, v, x, n);
      }
    }
  }

  // ---------------------------------------------------------------- length of the chain

  lemma {:induction false} StepsUnique<T>(prev: map<T, T>, from: T, v: T, m: nat, n: nat)
    requires Steps(prev, from, v, m) && Steps(prev, from, v, n)
    ensures m == n
    decreases m
  {
    if m > 0 {
      StepsUnique(prev, from, prev[v], m - 1, n - 1);
    }
  }

  ghost predicate RootedWithin<T>(prev: map<T, T>, from: T, v: T, n: nat) {
    exists k: nat :: k <= n && Steps(prev, from, v, k)
  }

  /** The nodes of a chain are distinct, so a chain is shorter than the number of nodes. */
  lemma {:induction false} ChainNodes<T>(prev: map<T, T>, from: T, v: T, n: nat) returns (nodes: set<T>)
    requires Steps(prev, from, v, n)
    ensures nodes <= prev.Keys + {from} && |nodes| == n + 1
    ensures forall x :: x in nodes ==> RootedWithin(prev, from, x, n)
    decreases n
  {
    if n == 0 {
      nodes := {v};
    } else {
      var rest := ChainNodes(prev, from, prev[v], n - 1);
      if v in rest {
        var k: nat :| k <= n - 1 && Steps(prev, from, v, k);
        StepsUnique(prev, from, v, k, n);
        assert false;
      }
      nodes := rest + {v};
      forall x | x in nodes
        ensures RootedWithin(prev, from, x, n)
      {
        if x != v {
          var k: nat :| k <= n - 1 && Steps(prev, from, x, k);
          assert k <= n;
        }
      }
    }
  }
}
