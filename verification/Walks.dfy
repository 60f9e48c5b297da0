/** Walks, reachability and closed walks in a directed graph given by its adjacency map. */
module Walks {

  type Adjacency<!T> = map<T, set<T>>

  ghost predicate Closed<T>(g: Adjacency<T>) {
    forall u :: u in g ==> g[u] <= g.Keys
  }

  ghost predicate Edge<T>(g: Adjacency<T>, u: T, v: T) {
    u in g && v in g[u]
  }

  ghost predicate IsWalk<T>(g: Adjacency<T>, p: seq<T>) {
    && |p| > 0
    && (forall i :: 0 <= i < |p| ==> p[i] in g)
    && (forall i, j :: 0 <= i && j == i + 1 && j < |p| ==> Edge(g, p[i], p[j]))
  }

  ghost predicate IsWalkBetween<T>(g: Adjacency<T>, p: seq<T>, u: T, v: T) {
    IsWalk(g, p) && p[0] == u && p[|p| - 1] == v
  }

  ghost predicate Reach<T(!new)>(g: Adjacency<T>, u: T, v: T) {
    exists p :: IsWalkBetween(g, p, u, v)
  }

  /** A closed walk with at least one edge. */
  ghost predicate IsClosedWalk<T>(g: Adjacency<T>, c: seq<T>) {
    IsWalk(g, c) && |c| >= 2 && c[0] == c[|c| - 1]
  }

  ghost predicate Acyclic<T(!new)>(g: Adjacency<T>) {
    forall c :: !IsClosedWalk(g, c)
  }

  ghost predicate Mutual<T(!new)>(g: Adjacency<T>, u: T, v: T) {
    Reach(g, u, v) && Reach(g, v, u)
  }

  lemma ReachSelf<T(!new)>(g: Adjacency<T>, u: T)
    requires u in g
    ensures Reach(g, u, u)
  {
    assert IsWalkBetween(g, [u], u, u);
  }

  lemma ReachEdge<T(!new)>(g: Adjacency<T>, u: T, v: T)
    requires Closed(g)
    requires Edge(g, u, v)
    ensures Reach(g, u, v)
  {
    assert IsWalkBetween(g, [u, v], u, v);
  }

  lemma WalkSlice<T>(g: Adjacency<T>, p: seq<T>, i: nat, j: nat)
    requires IsWalk(g, p) && i < j <= |p|
    ensures IsWalkBetween(g, p[i..j], p[i], p[j - 1])
  {
  }

  lemma WalkPrepend<T>(g: Adjacency<T>, u: T, p: seq<T>)
    requires IsWalk(g, p) && Edge(g, u, p[0])
    ensures IsWalk(g, [u] + p)
  {
  }

  lemma WalkAppend<T>(g: Adjacency<T>, p: seq<T>, v: T)
    requires IsWalk(g, p) && Edge(g, p[|p| - 1], v) && v in g
    ensures IsWalk(g, p + [v])
  {
  }

  lemma JoinWalks<T>(g: Adjacency<T>, p: seq<T>, q: seq<T>, u: T, v: T, w: T)
    requires IsWalkBetween(g, p, u, v) && IsWalkBetween(g, q, v, w)
    ensures IsWalkBetween(g, p + q[1..], u, w)
  {
  }

  lemma ReachTransitive<T(!new)>(g: Adjacency<T>, u: T, v: T, w: T)
    requires Reach(g, u, v) && Reach(g, v, w)
    ensures Reach(g, u, w)
  {
    var p :| IsWalkBetween(g, p, u, v);
    var q :| IsWalkBetween(g, q, v, w);
    JoinWalks(g, p, q, u, v, w);
  }

  lemma ReachThenEdge<T(!new)>(g: Adjacency<T>, u: T, v: T, w: T)
    requires Closed(g)
    requires Reach(g, u, v) && Edge(g, v, w)
    ensures Reach(g, u, w)
  {
    ReachEdge(g, v, w);
    ReachTransitive(g, u, v, w);
  }

  lemma MutualTransitive<T(!new)>(g: Adjacency<T>, u: T, v: T, w: T)
    requires Mutual(g, u, v) && Mutual(g, v, w)
    ensures Mutual(g, u, w)
  {
    ReachTransitive(g, u, v, w);
    ReachTransitive(g, w, v, u);
  }

  /** A walk that starts inside a set and ends outside it crosses the border on some edge. */
  lemma {:induction false} CrossingEdge<T(!new)>(g: Adjacency<T>, u: T, v: T, s: set<T>)
    returns (a: T, b: T)
    requires Reach(g, u, v)
    requires u in s && v !in s
    ensures a in s && b !in s && Edge(g, a, b)
    ensures Reach(g, u, a) && Reach(g, b, v)
  {
    var p :| IsWalkBetween(g, p, u, v);
    var i := 0;
    while p[i + 1] in s
      invariant 0 <= i < |p| - 1
      invariant p[i] in s
      decreases |p| - i
    {
      i := i + 1;
    }
    a, b := p[i], p[i + 1];
    assert IsWalkBetween(g, p[..i + 1], u, a);
    assert IsWalkBetween(g, p[i + 1..], b, v);
  }

  /** What a set closed under edges contains, it contains everything reachable from. */
  lemma ClosedUnderEdges<T(!new)>(g: Adjacency<T>, s: set<T>, u: T, v: T)
    requires forall a, b :: a in s && Edge(g, a, b) ==> b in s
    requires u in s && Reach(g, u, v)
    ensures v in s
  {
    if v !in s {
      var a, b := CrossingEdge(g, u, v, s);
    }
  }

  ghost predicate IsReverse<T(!new)>(g: Adjacency<T>, h: Adjacency<T>) {
    g.Keys == h.Keys && forall u, v :: Edge(h, v, u) <==> Edge(g, u, v)
  }

  lemma ReverseReach<T(!new)>(g: Adjacency<T>, h: Adjacency<T>, u: T, v: T)
    requires IsReverse(g, h)
    requires Reach(g, u, v)
    ensures Reach(h, v, u)
  {
    var p :| IsWalkBetween(g, p, u, v);
    var q := seq(|p|, i requires 0 <= i < |p| => p[|p| - 1 - i]);
    forall i | 0 <= i < |q| - 1
      ensures Edge(h, q[i], q[i + 1])
    {
      assert Edge(g, p[|p| - 2 - i], p[|p| - 2 - i + 1]);
    }
    assert IsWalkBetween(h, q, v, u);
  }

  lemma MutualReverse<T(!new)>(g: Adjacency<T>, h: Adjacency<T>, u: T, v: T)
    requires IsReverse(g, h)
    ensures Mutual(g, u, v) <==> Mutual(h, u, v)
  {
    assert IsReverse(h, g);
    if Mutual(g, u, v) {
      ReverseReach(g, h, u, v);
      ReverseReach(g, h, v, u);
    }
    if Mutual(h, u, v) {
      ReverseReach(h, g, u, v);
      ReverseReach(h, g, v, u);
    }
  }
}
