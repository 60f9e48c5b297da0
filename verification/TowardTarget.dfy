/**
 * The part of a graph from which a target can be reached. Searching the whole graph does in this part
 * what searching the part alone would do, so negative cycles elsewhere do no harm to the target.
 */
module TowardTarget {
  import opened Collections
  import opened Walks
  import opened WeightedWalks

  ghost function Toward<T(!new)>(g: Adjacency<T>, to: T): set<T> {
    set x | x in g && Reach(g, x, to)
  }

  ghost function Part<T>(g: Adjacency<T>, s: set<T>): Adjacency<T> {
    map x | x in g && x in s :: g[x] * s
  }

  ghost function Limited<T, U>(m: map<T, U>, s: set<T>): map<T, U> {
    map x | x in m && x in s :: m[x]
  }

  /** A negative cycle on the way: reachable from `from`, and `to` can be reached from it. */
  ghost predicate HasNegativeCycleToward<T(!new)>(g: Adjacency<T>, w: Weights<T>, from: T, to: T) {
    exists c :: IsNegativeCycle(g, w, c) && Reach(g, from, c[0]) && Reach(g, c[0], to)
  }

  // ---------------------------------------------------------------- walks

  lemma WalkInPart<T>(g: Adjacency<T>, s: set<T>, p: seq<T>, u: T, v: T)
    requires IsWalkBetween(Part(g, s), p, u, v)
    ensures IsWalkBetween(g, p, u, v)
  {
    forall i, j | 0 <= i && j == i + 1 && j < |p|
      ensures Edge(g, p[i], p[j])
    {
      assert Edge(Part(g, s), p[i], p[j]);
    }
  }

  /** A walk to a node that reaches the target never leaves the part. */
  lemma WalkStays<T(!new)>(g: Adjacency<T>, to: T, p: seq<T>, u: T, v: T)
    requires IsWalkBetween(g, p, u, v) && Reach(g, v, to)
    ensures IsWalkBetween(Part(g, Toward(g, to)), p, u, v)
  {
    var s := Toward(g, to);
    forall i | 0 <= i < |p|
      ensures p[i] in s
    {
      WalkSlice(g, p, i, |p|);
      assert Reach(g, p[i], v);
      ReachTransitive(g, p[i], v, to);
    }
    forall i, j | 0 <= i && j == i + 1 && j < |p|
      ensures Edge(Part(g, s), p[i], p[j])
    {
      assert Edge(g, p[i], p[j]);
    }
  }

  lemma PartIsClosed<T>(g: Adjacency<T>, s: set<T>)
    requires s <= g.Keys
    ensures Closed(Part(g, s)) && Part(g, s).Keys == s
  {
  }

  lemma NoNegativeCycleInPart<T(!new)>(g: Adjacency<T>, w: Weights<T>, from: T, to: T)
    requires !HasNegativeCycleToward(g, w, from, to)
    ensures !HasNegativeCycleFrom(Part(g, Toward(g, to)), w, from)
  {
    var s := Toward(g, to);
    forall c | IsClosedWalk(Part(g, s), c) && Reach(Part(g, s), from, c[0])
      ensures !IsNegativeCycle(Part(g, s), w, c)
    {
      WalkInPart(g, s, c, c[0], c[0]);
      var p :| IsWalkBetween(Part(g, s), p, from, c[0]);
      WalkInPart(g, s, p, from, c[0]);
      assert c[0] in s && IsClosedWalk(g, c) && Reach(g, from, c[0]);
      assert !IsNegativeCycle(g, w, c);
    }
  }

  // ---------------------------------------------------------------- the search state

  lemma LimitedState<T(!new)>(g: Adjacency<T>, w: Weights<T>, from: T, to: T, dist: map<T, real>, prev: map<T, T>)
    requires SearchState(g, w, from, dist, prev) && Reach(g, from, to) && from in g
    ensures var s := Toward(g, to); SearchState(Part(g, s), w, from, Limited(dist, s), Limited(prev, s))
  {
    hide Realized, RelaxedWhenSet;
    var s := Toward(g, to);
    var h, dist', prev' := Part(g, s), Limited(dist, s), Limited(prev, s);
    forall v {:trigger Realized(h, w, from, v, dist'[v])} | v in dist'
      ensures Realized(h, w, from, v, dist'[v])
    {
      assert Realized(g, w, from, v, dist[v]);
      RealizedInPart(g, w, from, to, v, dist[v]);
    }
    forall v {:trigger RelaxedWhenSet(h, w, dist', prev', v)} | v in prev'
      ensures RelaxedWhenSet(h, w, dist', prev', v)
    {
      assert RelaxedWhenSet(g, w, dist, prev, v);
      RelaxedInPart(g, w, to, dist, prev, v);
    }
  }

  lemma RealizedInPart<T(!new)>(g: Adjacency<T>, w: Weights<T>, from: T, to: T, v: T, d: real)
    requires Realized(g, w, from, v, d) && Reach(g, v, to)
    ensures Realized(Part(g, Toward(g, to)), w, from, v, d)
  {
    var p :| IsWalkBetween(g, p, from, v) && WalkWeight(w, p) == d;
    WalkStays(g, to, p, from, v);
  }

  lemma EdgeInPart<T(!new)>(g: Adjacency<T>, to: T, u: T, v: T)
    requires Edge(g, u, v) && v in Toward(g, to)
    ensures u in Toward(g, to) && Edge(Part(g, Toward(g, to)), u, v)
  {
    var p :| IsWalkBetween(g, p, v, to);
    WalkPrepend(g, u, p);
    assert IsWalkBetween(g, [u] + p, u, to);
  }

  lemma RelaxedInPart<T(!new)>(g: Adjacency<T>, w: Weights<T>, to: T, dist: map<T, real>, prev: map<T, T>, v: T)
    requires RelaxedWhenSet(g, w, dist, prev, v) && v in Toward(g, to)
    ensures var s := Toward(g, to); RelaxedWhenSet(Part(g, s), w, Limited(dist, s), Limited(prev, s), v)
  {
    EdgeInPart(g, to, prev[v], v);
  }

  /** The predecessors of the nodes that reach the target form a tree. */
  ghost predicate IsTreeToward<T(!new)>(g: Adjacency<T>, from: T, to: T, dist: map<T, real>, prev: map<T, T>) {
    IsTree(from, Limited(dist, Toward(g, to)), Limited(prev, Toward(g, to)))
  }

  lemma InitialTreeToward<T(!new)>(g: Adjacency<T>, from: T, to: T)
    requires from in g && Reach(g, from, to)
    ensures IsTreeToward<T>(g, from, to, map[from := 0.0], map[])
  {
    var s := Toward(g, to);
    var dist: map<T, real>, prev: map<T, T> := map[from := 0.0], map[];
    assert Limited(dist, s) == dist && Limited(prev, s) == prev;
    assert Steps(prev, from, from, 0);
  }

  lemma RelaxKeepsTreeToward<T(!new)>(g: Adjacency<T>, w: Weights<T>, from: T, to: T, dist: map<T, real>,
                                      prev: map<T, T>, u: T, v: T)
    requires !HasNegativeCycleToward(g, w, from, to) && Reach(g, from, to) && from in g
    requires SearchState(g, w, from, dist, prev) && IsTreeToward(g, from, to, dist, prev)
    requires Improves(g, w, dist, u, v)
    ensures IsTreeToward(g, from, to, dist[v := dist[u] + EdgeWeight(w, u, v)], prev[v := u])
  {
    hide HasNegativeCycleToward, HasNegativeCycleFrom, IsTree, SearchState;
    var s := Toward(g, to);
    var d := dist[u] + EdgeWeight(w, u, v);
    if v in s {
      EdgeInPart(g, to, u, v);
      LimitedState(g, w, from, to, dist, prev);
      NoNegativeCycleInPart(g, w, from, to);
      assert Improves(Part(g, s), w, Limited(dist, s), u, v);
      RelaxKeepsTree(Part(g, s), w, from, Limited(dist, s), Limited(prev, s), u, v);
      assert Limited(dist[v := d], s) == Limited(dist, s)[v := d] && Limited(prev[v := u], s) == Limited(prev, s)[v := u];
    } else {
      assert Limited(dist[v := d], s) == Limited(dist, s) && Limited(prev[v := u], s) == Limited(prev, s);
    }
  }

  lemma {:induction false} StepsInWhole<T>(prev: map<T, T>, s: set<T>, from: T, v: T, n: nat)
    requires Steps(Limited(prev, s), from, v, n)
    ensures Steps(prev, from, v, n)
    decreases n
  {
    if n > 0 {
      StepsInWhole(prev, s, from, prev[v], n - 1);
    }
  }

  lemma RootedToward<T(!new)>(g: Adjacency<T>, from: T, to: T, dist: map<T, real>, prev: map<T, T>)
    requires IsTreeToward(g, from, to, dist, prev) && to in g && to in dist
    ensures Rooted(prev, from, to) && from in dist && dist[from] == 0.0
  {
    var s := Toward(g, to);
    ReachSelf(g, to);
    assert Rooted(Limited(prev, s), from, to);
    var n: nat :| Steps(Limited(prev, s), from, to, n);
    StepsInWhole(prev, s, from, to, n);
  }

  // ---------------------------------------------------------------- when there is a lightest walk

  ghost predicate HasShortestWalk<T(!new)>(g: Adjacency<T>, w: Weights<T>, from: T, to: T) {
    exists p :: IsShortestWalk(g, w, p, from, to)
  }

  /** Going round a cycle `n` times. */
  ghost function Rounds<T>(c: seq<T>, n: nat): seq<T>
    requires c != []
  {
    if n == 0 then [c[0]] else Rounds(c, n - 1) + c[1..]
  }

  ghost function Times(n: nat, x: real): real {
    n as real * x
  }

  lemma {:induction false} RoundsAreWalk<T>(g: Adjacency<T>, w: Weights<T>, c: seq<T>, n: nat)
    requires c != [] && IsWalkBetween(g, c, c[0], c[0])
    ensures IsWalkBetween(g, Rounds(c, n), c[0], c[0]) && WalkWeight(w, Rounds(c, n)) == Times(n, WalkWeight(w, c))
  {
    hide WalkWeight, Times;
    OneRoundMore(n, WalkWeight(w, c));
    if n == 0 {
      NoEdge(w, c[0]);
    } else {
      RoundsAreWalk(g, w, c, n - 1);
      JoinWalks(g, Rounds(c, n - 1), c, c[0], c[0], c[0]);
      WeightJoin(w, Rounds(c, n - 1), c);
    }
  }

  lemma NoEdge<T>(w: Weights<T>, v: T)
    ensures WalkWeight(w, [v]) == 0.0
  {
  }

  lemma OneRoundMore(n: nat, x: real)
    ensures Times(n, x) == if n == 0 then 0.0 else Times(n - 1, x) + x
  {
    assert n > 0 ==> n as real == (n - 1) as real + 1.0;
  }

  /** Enough rounds of a negative cycle undercut any weight. */
  lemma EnoughRounds(x: real, bound: real) returns (n: nat)
    requires x < 0.0
    ensures Times(n, x) < bound
  {
    var y := if bound < 0.0 then bound / x else 0.0;
    if bound < 0.0 {
      QuotientNotNegative(bound, x);
    }
    n := y.Floor + 1;
    Undercut(n as real, y, x);
  }

  lemma QuotientNotNegative(b: real, x: real)
    requires b < 0.0 && x < 0.0
    ensures b / x >= 0.0 && b / x * x == b
  {
    var q := b / x;
    assert q * x == b;
    assert q < 0.0 ==> q * x > 0.0;
  }

  lemma Undercut(n: real, y: real, x: real)
    requires n > y && x < 0.0
    ensures n * x < y * x
  {
    assert (n - y) * x < 0.0;
  }

  lemma JoinThree<T>(g: Adjacency<T>, w: Weights<T>, a: seq<T>, r: seq<T>, b: seq<T>, from: T, v: T, to: T)
    returns (q: seq<T>)
    requires IsWalkBetween(g, a, from, v) && IsWalkBetween(g, r, v, v) && IsWalkBetween(g, b, v, to)
    ensures IsWalkBetween(g, q, from, to) && WalkWeight(w, q) == WalkWeight(w, a) + WalkWeight(w, r) + WalkWeight(w, b)
  {
    hide WalkWeight;
    JoinWalks(g, a, r, from, v, v);
    WeightJoin(w, a, r);
    JoinWalks(g, a + r[1..], b, from, v, to);
    WeightJoin(w, a + r[1..], b);
    q := a + r[1..] + b[1..];
  }

  /** With a negative cycle on the way there is no lightest walk: more ways round are lighter. */
  lemma NegativeCycleUndercuts<T(!new)>(g: Adjacency<T>, w: Weights<T>, from: T, to: T, p: seq<T>)
    requires HasNegativeCycleToward(g, w, from, to)
    ensures !IsShortestWalk(g, w, p, from, to)
  {
    hide WalkWeight, Times, Rounds, IsWalk;
    var c :| IsNegativeCycle(g, w, c) && Reach(g, from, c[0]) && Reach(g, c[0], to);
    var a :| IsWalkBetween(g, a, from, c[0]);
    var b :| IsWalkBetween(g, b, c[0], to);
    var n := EnoughRounds(WalkWeight(w, c), WalkWeight(w, p) - WalkWeight(w, a) - WalkWeight(w, b));
    RoundsAreWalk(g, w, c, n);
    var q := JoinThree(g, w, a, Rounds(c, n), b, from, c[0], to);
  }
}
