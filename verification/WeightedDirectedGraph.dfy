/** Shortest paths in a weighted directed graph: Dijkstra, relaxation in topological order, Bellman-Ford. */
module WeightedDirectedGraphs {
  import opened Collections
  import opened Walks
  import opened WeightedWalks
  import opened TowardTarget
  import TopologicalOrder
  import opened DirectedGraphs

  /** A walk as the list of its edges. */
  ghost function EdgesOf<T>(w: Weights<T>, p: seq<T>): seq<WeightedEdge<T>>
    requires p != []
  {
    seq(|p| - 1, i requires 0 <= i < |p| - 1 => WeightedEdge(p[i], p[i + 1], EdgeWeight(w, p[i], p[i + 1]), true))
  }

  lemma OneEdge<T>(w: Weights<T>, u: T, v: T)
    ensures WalkWeight(w, [u, v]) == EdgeWeight(w, u, v)
  {
    assert [u, v][..1] == [u];
  }

  lemma PrependEdge<T>(w: Weights<T>, u: T, p: seq<T>)
    requires p != []
    ensures EdgesOf(w, [u] + p) == [WeightedEdge(u, p[0], EdgeWeight(w, u, p[0]), true)] + EdgesOf(w, p)
    ensures WalkWeight(w, [u] + p) == EdgeWeight(w, u, p[0]) + WalkWeight(w, p)
  {
    hide WalkWeight;
    OneEdge(w, u, p[0]);
    WeightJoin(w, [u, p[0]], p);
    assert [u, p[0]] + p[1..] == [u] + p;
  }

  lemma NoEdges<T>(w: Weights<T>, v: T)
    ensures EdgesOf(w, [v]) == [] && WalkWeight(w, [v]) == 0.0
  {
  }

  ghost predicate IsEdgeOf<T>(g: Adjacency<T>, w: Weights<T>, e: WeightedEdge<T>) {
    Edge(g, e.v1, e.v2) && e.weight == EdgeWeight(w, e.v1, e.v2)
  }

  /** `edges` lists exactly the weighted edges, in any order. */
  ghost predicate ListsEdges<T(!new)>(g: Adjacency<T>, w: Weights<T>, edges: seq<WeightedEdge<T>>) {
    && (forall i :: 0 <= i < |edges| ==> IsEdgeOf(g, w, edges[i]))
    && (forall u, v :: Edge(g, u, v) ==> WeightedEdge(u, v, EdgeWeight(w, u, v), true) in edges)
  }

  // ---------------------------------------------------------------- Bellman-Ford rounds

  /** Every edge has been relaxed at least with the distances of the previous round. */
  ghost predicate RoundDone<T(!new)>(g: Adjacency<T>, w: Weights<T>, dist: map<T, real>, dist': map<T, real>) {
    && (forall v :: v in dist ==> v in dist' && dist'[v] <= dist[v])
    && (forall u, v :: u in dist && Edge(g, u, v) ==> v in dist' && dist'[v] <= dist[u] + EdgeWeight(w, u, v))
  }

  /** While the edges of `node` are relaxed: `todo` are the ends still to come; distances in `s` and of `node` stay. */
  ghost predicate Spreads<T>(g: Adjacency<T>, w: Weights<T>, node: T, s: set<T>, dist0: map<T, real>,
                             dist: map<T, real>, todo: set<T>)
  {
    && node in g && node in dist0 && s <= dist0.Keys && todo <= g[node]
    && (forall x :: x in dist0 ==> x in dist && dist[x] <= dist0[x])
    && (forall x :: x in s + {node} ==> dist[x] == dist0[x])
    && (forall x :: x in dist && x !in s + {node} ==>
          (x in dist0 && dist[x] == dist0[x]) || (Edge(g, node, x) && dist[x] == dist0[node] + EdgeWeight(w, node, x)))
    && (forall v :: v in g[node] - todo ==> v in dist && dist[v] <= dist0[node] + EdgeWeight(w, node, v))
  }

  lemma SpreadStart<T(!new)>(g: Adjacency<T>, w: Weights<T>, node: T, s: set<T>, dist: map<T, real>)
    requires node in g && node in dist && RelaxedFrom(g, w, dist, s)
    ensures Spreads(g, w, node, s, dist, dist, g[node])
  {
  }

  lemma SpreadStep<T>(g: Adjacency<T>, w: Weights<T>, node: T, s: set<T>, dist0: map<T, real>, dist: map<T, real>,
                      todo: set<T>, next: T)
    requires Spreads(g, w, node, s, dist0, dist, todo) && next in todo
    requires next in s + {node} ==> !Improves(g, w, dist0, node, next)
    ensures node in dist && Edge(g, node, next)
    ensures var dist' := if Improves(g, w, dist, node, next) then dist[next := dist[node] + EdgeWeight(w, node, next)] else dist;
            Spreads(g, w, node, s, dist0, dist', todo - {next})
  {
    assert node in s + {node};
  }

  lemma SpreadEnd<T(!new)>(g: Adjacency<T>, w: Weights<T>, node: T, s: set<T>, dist0: map<T, real>, dist: map<T, real>)
    requires Spreads(g, w, node, s, dist0, dist, {}) && RelaxedFrom(g, w, dist0, s)
    ensures RelaxedFrom(g, w, dist, s + {node})
    ensures forall x :: x in s + {node} ==> dist[x] == dist0[x]
    ensures forall x :: x in dist && x !in s + {node} ==>
      (x in dist0 && dist[x] == dist0[x]) || (Edge(g, node, x) && dist[x] == dist0[node] + EdgeWeight(w, node, x))
  {
    forall u, v | u in s + {node} && Edge(g, u, v)
      ensures v in dist && dist[v] <= dist[u] + EdgeWeight(w, u, v)
    {
      if u == node {
        assert v in g[node] - {};
      }
    }
  }

  /** Distances bound every walk of at most `k` edges. */
  ghost predicate BoundsWalks<T(!new)>(g: Adjacency<T>, w: Weights<T>, from: T, dist: map<T, real>, k: nat) {
    forall p :: IsWalk(g, p) && p[0] == from && |p| <= k + 1 ==> BoundsWalk(w, dist, p)
  }

  ghost predicate BoundsWalk<T>(w: Weights<T>, dist: map<T, real>, p: seq<T>)
    requires p != []
  {
    p[|p| - 1] in dist && dist[p[|p| - 1]] <= WalkWeight(w, p)
  }

  lemma RoundExtendsBound<T(!new)>(g: Adjacency<T>, w: Weights<T>, from: T, dist: map<T, real>,
                                   dist': map<T, real>, k: nat)
    requires BoundsWalks(g, w, from, dist, k) && RoundDone(g, w, dist, dist')
    ensures BoundsWalks(g, w, from, dist', k + 1)
  {
    forall p | IsWalk(g, p) && p[0] == from && |p| <= k + 2
      ensures BoundsWalk(w, dist', p)
    {
      if |p| == 1 {
        assert BoundsWalk(w, dist, p);
      } else {
        WalkSlice(g, p, 0, |p| - 1);
        assert p[..|p| - 1] == p[0..|p| - 1];
        assert BoundsWalk(w, dist, p[..|p| - 1]);
        assert Edge(g, p[|p| - 2], p[|p| - 1]);
      }
    }
  }

  /** Walks of fewer edges than there are nodes decide all walks, unless a negative cycle is reachable. */
  lemma RoundsSuffice<T(!new)>(g: Adjacency<T>, w: Weights<T>, from: T, dist: map<T, real>, prev: map<T, T>, k: nat)
    requires Closed(g) && SearchState(g, w, from, dist, prev)
    requires k + 1 >= |g.Keys| && BoundsWalks(g, w, from, dist, k)
    requires !HasNegativeCycleFrom(g, w, from)
    ensures RelaxedFrom(g, w, dist, dist.Keys)
  {
    forall u, v | u in dist && Edge(g, u, v)
      ensures v in dist && dist[v] <= dist[u] + EdgeWeight(w, u, v)
    {
      RealizedExtends(g, w, from, u, dist[u], v);
      var p :| IsWalkBetween(g, p, from, v) && WalkWeight(w, p) == dist[u] + EdgeWeight(w, u, v);
      var q := Shorten(g, w, p);
      assert BoundsWalk(w, dist, q);
    }
  }

  /** The target can be reached and no negative cycle lies on the way. */
  ghost predicate GrowsToward<T(!new)>(g: Adjacency<T>, w: Weights<T>, from: T, to: T) {
    from in g && Reach(g, from, to) && !HasNegativeCycleToward(g, w, from, to)
  }

  /** Every edge between nodes that reach the target has been relaxed. */
  ghost predicate IsRelaxedToward<T(!new)>(g: Adjacency<T>, w: Weights<T>, to: T, dist: map<T, real>) {
    var dist' := Limited(dist, Toward(g, to));
    RelaxedFrom(Part(g, Toward(g, to)), w, dist', dist'.Keys)
  }

  lemma OnTheWay<T(!new)>(g: Adjacency<T>, w: Weights<T>, from: T, to: T)
    ensures HasNegativeCycleToward(g, w, from, to) ==>
              HasNegativeCycleFrom(g, w, from) && !HasShortestWalk(g, w, from, to)
    ensures HasShortestWalk(g, w, from, to) ==> Reach(g, from, to)
  {
    if HasNegativeCycleToward(g, w, from, to) {
      forall p
        ensures !IsShortestWalk(g, w, p, from, to)
      {
        NegativeCycleUndercuts(g, w, from, to, p);
      }
    }
  }

  lemma StartToward<T(!new)>(g: Adjacency<T>, w: Weights<T>, from: T, to: T)
    ensures GrowsToward(g, w, from, to) ==> IsTreeToward<T>(g, from, to, map[from := 0.0], map[])
  {
    if GrowsToward(g, w, from, to) {
      InitialTreeToward(g, from, to);
    }
  }

  lemma RelaxToward<T(!new)>(g: Adjacency<T>, w: Weights<T>, from: T, to: T, dist: map<T, real>, prev: map<T, T>, u: T, v: T)
    requires SearchState(g, w, from, dist, prev)
    ensures GrowsToward(g, w, from, to) && IsTreeToward(g, from, to, dist, prev) && Improves(g, w, dist, u, v) ==>
              IsTreeToward(g, from, to, dist[v := dist[u] + EdgeWeight(w, u, v)], prev[v := u])
  {
    hide SearchState, IsTreeToward;
    if GrowsToward(g, w, from, to) && IsTreeToward(g, from, to, dist, prev) && Improves(g, w, dist, u, v) {
      RelaxKeepsTreeToward(g, w, from, to, dist, prev, u, v);
    }
  }

  lemma RelaxedAlsoToward<T(!new)>(g: Adjacency<T>, w: Weights<T>, to: T, dist: map<T, real>)
    requires RelaxedFrom(g, w, dist, dist.Keys)
    ensures IsRelaxedToward(g, w, to, dist)
  {
    hide Reach;
    var s := Toward(g, to);
    assert forall u, v :: Edge(Part(g, s), u, v) ==> Edge(g, u, v) && u in s && v in s;
  }

  /** The rounds that suffice for the whole graph suffice for the part, where there is no negative cycle. */
  lemma RoundsSufficeToward<T(!new)>(g: Adjacency<T>, w: Weights<T>, from: T, to: T, dist: map<T, real>, prev: map<T, T>,
                                     k: nat)
    requires Closed(g) && SearchState(g, w, from, dist, prev) && GrowsToward(g, w, from, to)
    requires k + 1 >= |g.Keys| && BoundsWalks(g, w, from, dist, k)
    ensures IsRelaxedToward(g, w, to, dist)
  {
    hide SearchState, HasNegativeCycleFrom, HasNegativeCycleToward, RelaxedFrom;
    var s := Toward(g, to);
    var h, dist' := Part(g, s), Limited(dist, s);
    PartIsClosed(g, s);
    SubsetCardinality(s, g.Keys);
    LimitedState(g, w, from, to, dist, prev);
    NoNegativeCycleInPart(g, w, from, to);
    forall p | IsWalk(h, p) && p[0] == from && |p| <= k + 1
      ensures BoundsWalk(w, dist', p)
    {
      WalkInPart(g, s, p, from, p[|p| - 1]);
      assert BoundsWalk(w, dist, p);
      assert p[|p| - 1] in s;
    }
    RoundsSuffice(h, w, from, dist', Limited(prev, s), k);
  }

  lemma ReachedToward<T(!new)>(g: Adjacency<T>, w: Weights<T>, from: T, to: T, dist: map<T, real>, prev: map<T, T>)
    requires GrowsToward(g, w, from, to) && to in g && SearchState(g, w, from, dist, prev)
    requires IsTreeToward(g, from, to, dist, prev) && IsRelaxedToward(g, w, to, dist)
    ensures to in dist && Rooted(prev, from, to) && from in dist && dist[from] == 0.0
  {
    hide HasNegativeCycleToward, Realized, RelaxedWhenSet, IsTreeToward;
    var s := Toward(g, to);
    ReachSelf(g, to);
    var p :| IsWalkBetween(g, p, from, to);
    WalkStays(g, to, p, from, to);
    ClosedUnderEdges(Part(g, s), Limited(dist, s).Keys, from, to);
    RootedToward(g, from, to, dist, prev);
  }

  lemma WalkTowardIsShortest<T(!new)>(g: Adjacency<T>, w: Weights<T>, from: T, to: T, dist: map<T, real>, p: seq<T>)
    requires Reach(g, from, to) && from in g && to in g && IsRelaxedToward(g, w, to, dist)
    requires from in dist && dist[from] <= 0.0
    requires IsWalkBetween(g, p, from, to) && to in dist && WalkWeight(w, p) <= dist[to]
    ensures IsShortestWalk(g, w, p, from, to)
  {
    var s := Toward(g, to);
    ReachSelf(g, to);
    WalkStays(g, to, p, from, to);
    TreeWalkIsShortest(Part(g, s), w, from, Limited(dist, s), to, p);
    forall q | IsWalkBetween(g, q, from, to)
      ensures WalkWeight(w, p) <= WalkWeight(w, q)
    {
      WalkStays(g, to, q, from, to);
    }
  }

  /** A tree of relaxed distances holds a shortest walk to every node that `from` reaches. */
  lemma TreeWalkIsShortest<T(!new)>(g: Adjacency<T>, w: Weights<T>, from: T, dist: map<T, real>, to: T, p: seq<T>)
    requires RelaxedFrom(g, w, dist, dist.Keys) && from in dist && dist[from] <= 0.0
    requires IsWalkBetween(g, p, from, to) && to in dist && WalkWeight(w, p) <= dist[to]
    ensures IsShortestWalk(g, w, p, from, to)
  {
    forall q | IsWalkBetween(g, q, from, to)
      ensures WalkWeight(w, p) <= WalkWeight(w, q)
    {
      AllRelaxedBound(g, w, dist, q);
    }
  }

  // ---------------------------------------------------------------- Dijkstra

  /** Settled nodes are relaxed and no farther than any other node with a distance. */
  ghost predicate Settled<T(!new)>(g: Adjacency<T>, w: Weights<T>, dist: map<T, real>, visited: set<T>) {
    && RelaxedFrom(g, w, dist, visited)
    && (forall u, x :: u in visited && x in dist && x !in visited ==> dist[u] <= dist[x])
  }

  ghost predicate IsClosest<T(!new)>(dist: map<T, real>, visited: set<T>, c: T) {
    && c in dist && c !in visited
    && forall x :: x in dist && x !in visited ==> dist[c] <= dist[x]
  }

  /** The closest unsettled node has its final distance: no walk to it weighs less. */
  lemma ClosestIsFinal<T(!new)>(g: Adjacency<T>, w: Weights<T>, from: T, dist: map<T, real>, visited: set<T>,
                                to: T, p: seq<T>)
    requires NonNegative(g, w) && RelaxedFrom(g, w, dist, visited)
    requires from in dist && dist[from] <= 0.0 && IsClosest(dist, visited, to)
    requires IsWalkBetween(g, p, from, to)
    ensures dist[to] <= WalkWeight(w, p)
  {
    var i := 0;
    while p[i] in visited
      invariant 0 <= i < |p|
      invariant forall k :: 0 <= k < i ==> p[k] in visited
      decreases |p| - i
    {
      i := i + 1;
    }
    var prefix, suffix := p[0..i + 1], p[i..|p|];
    WalkSlice(g, p, 0, i + 1);
    WalkSlice(g, p, i, |p|);
    DistanceBound(g, w, dist, visited, prefix);
    NonNegativeWalk(g, w, suffix);
    WeightSplit(w, p, i);
    assert p[..i + 1] == prefix && p[i..] == suffix;
  }

  class WeightedDirectedGraph<T(==, !new)> {
    const graph: DirectedGraph<T>
    var weights: Weights<T>
    var hasNegativeCycle: bool

    ghost predicate Valid()
      reads this, graph
    {
      graph.Valid() && forall u, v :: Edge(graph.adj, u, v) <==> WeightOf(weights, u, v).Some?
    }

    constructor ()
      ensures Valid() && fresh(graph) && graph.adj == map[] && !hasNegativeCycle
    {
      graph := new DirectedGraph<T>();
      weights := map[];
      hasNegativeCycle := false;
    }

    /** An edge that is already there keeps its weight. */
    method AddEdge(u: T, v: T, weight: real) returns (added: bool)
      requires Valid()
      modifies this`weights, graph
      ensures Valid()
      ensures added == !Edge(old(graph.adj), u, v)
      ensures graph.adj.Keys == old(graph.adj.Keys) + {u, v}
      ensures forall a, b ::
                WeightOf(weights, a, b) == if added && a == u && b == v then Some(weight) else WeightOf(old(weights), a, b)
    {
      added := graph.AddEdge(u, v);
      if added {
        var row := if u in weights then weights[u] else map[];
        weights := weights[u := row[v := weight]];
      }
    }

    method DeleteEdge(u: T, v: T) returns (removed: bool)
      requires Valid()
      modifies this`weights, graph
      ensures Valid()
      ensures removed == Edge(old(graph.adj), u, v)
      ensures graph.adj.Keys == old(graph.adj.Keys)
      ensures forall a, b ::
                WeightOf(weights, a, b) == if a == u && b == v then None else WeightOf(old(weights), a, b)
    {
      removed := graph.DeleteEdge(u, v);
      if removed {
        var row := weights[u] - {v};
        assert forall b :: b in row <==> b in weights[u] && b != v;
        weights := if row == map[] then weights - {u} else weights[u := row];
      }
    }

    method Edges() returns (edges: seq<WeightedEdge<T>>)
      requires Valid()
      ensures ListsEdges(graph.adj, weights, edges)
    {
      edges := [];
      var sources := weights.Keys;
      while sources != {}
        invariant sources <= weights.Keys
        invariant forall e :: e in edges <==> e.directed && e.v1 !in sources && WeightOf(weights, e.v1, e.v2) == Some(e.weight)
        decreases sources
      {
        var u :| u in sources;
        var targets := weights[u].Keys;
        while targets != {}
          invariant targets <= weights[u].Keys
          invariant forall e :: e in edges <==>
              e.directed && (e.v1 !in sources || (e.v1 == u && e.v2 !in targets)) &&
              WeightOf(weights, e.v1, e.v2) == Some(e.weight)
          decreases targets
        {
          var v :| v in targets;
          targets := targets - {v};
          edges := edges + [WeightedEdge(u, v, weights[u][v], true)];
        }
        sources := sources - {u};
      }
      forall i | 0 <= i < |edges|
        ensures IsEdgeOf(graph.adj, weights, edges[i])
      {
        assert edges[i] in edges;
      }
    }

    /** What one relaxation does to the search, with everything that it keeps. */
    method Relax(from: T, u: T, v: T, weight: real, dist: map<T, real>, prev: map<T, T>)
      returns (dist': map<T, real>, prev': map<T, T>, changed: bool)
      requires Valid() && SearchState(graph.adj, weights, from, dist, prev)
      requires u in dist && Edge(graph.adj, u, v) && weight == EdgeWeight(weights, u, v)
      ensures SearchState(graph.adj, weights, from, dist', prev')
      ensures !HasNegativeCycleFrom(graph.adj, weights, from) && IsTree(from, dist, prev) ==> IsTree(from, dist', prev')
      ensures changed == Improves(graph.adj, weights, dist, u, v)
      ensures dist' == if changed then dist[v := dist[u] + weight] else dist
      ensures prev' == if changed then prev[v := u] else prev
    {
      var candidate := dist[u] + weight;
      dist', prev', changed := dist, prev, false;
      if v !in dist || candidate < dist[v] {
        RelaxKeepsState(graph.adj, weights, from, dist, prev, u, v);
        if !HasNegativeCycleFrom(graph.adj, weights, from) && IsTree(from, dist, prev) {
          RelaxKeepsTree(graph.adj, weights, from, dist, prev, u, v);
        }
        dist', prev', changed := dist[v := candidate], prev[v := u], true;
      }
    }

    method SelectClosest(visited: set<T>, dist: map<T, real>) returns (closest: Option<T>)
      requires dist.Keys <= graph.adj.Keys
      ensures closest.None? ==> dist.Keys <= visited
      ensures closest.Some? ==> IsClosest(dist, visited, closest.value)
    {
      closest := None;
      var nodes := graph.adj.Keys;
      while nodes != {}
        invariant closest.None? ==> dist.Keys <= visited + nodes
        invariant closest.Some? ==> closest.value in dist && closest.value !in visited
        invariant closest.Some? ==> forall x :: x in dist && x !in visited && x !in nodes ==> dist[closest.value] <= dist[x]
        decreases nodes
      {
        var node :| node in nodes;
        nodes := nodes - {node};
        if node !in visited && node in dist && (closest.None? || dist[node] < dist[closest.value]) {
          closest := Some(node);
        }
      }
    }

    method Dijkstra(from: T, to: T) returns (prev: map<T, T>, dist: map<T, real>)
      requires Valid() && from in graph.adj && NonNegative(graph.adj, weights)
      ensures SearchState(graph.adj, weights, from, dist, prev) && IsTree(from, dist, prev)
      ensures Reach(graph.adj, from, to) ==> to in dist
      ensures forall p :: IsWalkBetween(graph.adj, p, from, to) ==> to in dist && dist[to] <= WalkWeight(weights, p)
    {
      NonNegativeHasNoNegativeCycle(graph.adj, weights, from);
      InitialState(graph.adj, weights, from);
      dist, prev := map[from := 0.0], map[];
      var visited: set<T> := {};
      while true
        invariant SearchState(graph.adj, weights, from, dist, prev) && IsTree(from, dist, prev)
        invariant Settled(graph.adj, weights, dist, visited) && to !in visited
        decreases graph.adj.Keys - visited
      {
        var closest := SelectClosest(visited, dist);
        if closest.None? {
          if Reach(graph.adj, from, to) {
            ClosedUnderEdges(graph.adj, visited, from, to);
          }
          return;
        }
        var curr := closest.value;
        if curr == to {
          forall p | IsWalkBetween(graph.adj, p, from, to)
            ensures dist[to] <= WalkWeight(weights, p)
          {
            ClosestIsFinal(graph.adj, weights, from, dist, visited, to, p);
          }
          return;
        }
        forall v | v in visited + {curr}
          ensures !Improves(graph.adj, weights, dist, curr, v)
        {
          assert v in dist && dist[v] <= dist[curr];
        }
        dist, prev := RelaxNeighbours(from, curr, visited, dist, prev);
        visited := visited + {curr};
      }
    }

    /**
     * Relaxes every edge that leaves `node`. When none of them improves a node
     * of `s` or `node` itself, `s` stays relaxed and `node` joins it.
     */
    method RelaxNeighbours(from: T, node: T, ghost s: set<T>, dist0: map<T, real>, prev0: map<T, T>)
      returns (dist: map<T, real>, prev: map<T, T>)
      requires Valid() && !HasNegativeCycleFrom(graph.adj, weights, from)
      requires SearchState(graph.adj, weights, from, dist0, prev0) && IsTree(from, dist0, prev0)
      requires RelaxedFrom(graph.adj, weights, dist0, s) && node in dist0
      requires forall v :: v in s + {node} ==> !Improves(graph.adj, weights, dist0, node, v)
      ensures SearchState(graph.adj, weights, from, dist, prev) && IsTree(from, dist, prev)
      ensures RelaxedFrom(graph.adj, weights, dist, s + {node})
      ensures forall x :: x in s + {node} ==> dist[x] == dist0[x]
      ensures forall x :: x in dist && x !in s + {node} ==>
          (x in dist0 && dist[x] == dist0[x]) ||
          (Edge(graph.adj, node, x) && dist[x] == dist0[node] + EdgeWeight(weights, node, x))
    {
      hide HasNegativeCycleFrom, IsTree, Realized, RelaxedWhenSet, RelaxedFrom, Spreads;
      dist, prev := dist0, prev0;
      var todo := graph.adj[node];
      SpreadStart(graph.adj, weights, node, s, dist0);
      while todo != {}
        invariant todo <= graph.adj[node]
        invariant SearchState(graph.adj, weights, from, dist, prev) && IsTree(from, dist, prev)
        invariant Spreads(graph.adj, weights, node, s, dist0, dist, todo)
        decreases todo
      {
        var next :| next in todo;
        SpreadStep(graph.adj, weights, node, s, dist0, dist, todo, next);
        todo := todo - {next};
        match WeightOf(weights, node, next)
        case None =>
        case Some(weight) =>
          var relaxed;
          dist, prev, relaxed := Relax(from, node, next, weight, dist, prev);
      }
      SpreadEnd(graph.adj, weights, node, s, dist0, dist);
    }

    method AcyclicShortest(from: T, to: T) returns (prev: map<T, T>, dist: map<T, real>)
      requires Valid() && from in graph.adj && NonNegative(graph.adj, weights)
      ensures SearchState(graph.adj, weights, from, dist, prev) && IsTree(from, dist, prev)
      ensures Reach(graph.adj, from, to) ==> to in dist
      ensures forall p :: IsWalkBetween(graph.adj, p, from, to) ==> to in dist && dist[to] <= WalkWeight(weights, p)
    {
      var sorted := graph.Sorted();
      if sorted.None? {
        prev, dist := Dijkstra(from, to);
        return;
      }
      NonNegativeHasNoNegativeCycle(graph.adj, weights, from);
      prev, dist := RelaxInOrder(from, sorted.value);
      forall p | IsWalkBetween(graph.adj, p, from, to)
        ensures to in dist && dist[to] <= WalkWeight(weights, p)
      {
        AllRelaxedBound(graph.adj, weights, dist, p);
      }
    }

    lemma OrderCovers(from: T, order: seq<T>, dist: map<T, real>, prev: map<T, T>)
      requires TopologicalOrder.IsTopologicalOrder(graph.adj, order)
      requires SearchState(graph.adj, weights, from, dist, prev)
      ensures dist.Keys <= Elems(order)
    {
    }

    lemma NoneBehindImproved(order: seq<T>, i: nat, dist: map<T, real>, s: set<T>)
      requires Valid() && TopologicalOrder.IsTopologicalOrder(graph.adj, order)
      requires i < |order| && s <= Elems(order[..i])
      ensures forall v :: v in s + {order[i]} ==> !Improves(graph.adj, weights, dist, order[i], v)
    {
      TopologicalOrder.TargetsComeLater(graph.adj, order, i);
    }

    /** Edges only lead to later nodes, so what has been relaxed stays relaxed. */
    method RelaxInOrder(from: T, order: seq<T>) returns (prev: map<T, T>, dist: map<T, real>)
      requires Valid() && from in graph.adj && !HasNegativeCycleFrom(graph.adj, weights, from)
      requires TopologicalOrder.IsTopologicalOrder(graph.adj, order)
      ensures SearchState(graph.adj, weights, from, dist, prev) && IsTree(from, dist, prev)
      ensures RelaxedFrom(graph.adj, weights, dist, dist.Keys)
    {
      hide HasNegativeCycleFrom, IsTree, SearchState, Improves, TopologicalOrder.IsTopologicalOrder;
      InitialState(graph.adj, weights, from);
      dist, prev := map[from := 0.0], map[];
      for i := 0 to |order|
        invariant SearchState(graph.adj, weights, from, dist, prev) && IsTree(from, dist, prev)
        invariant RelaxedFrom(graph.adj, weights, dist, dist.Keys * Elems(order[..i]))
      {
        var node := order[i];
        assert Elems(order[..i + 1]) == Elems(order[..i]) + {node};
        if node in dist {
          ghost var s := dist.Keys * Elems(order[..i]);
          NoneBehindImproved(order, i, dist, s);
          TopologicalOrder.TargetsComeLater(graph.adj, order, i);
          dist, prev := RelaxNeighbours(from, node, s, dist, prev);
          assert dist.Keys * Elems(order[..i + 1]) == s + {node};
        } else {
          assert dist.Keys * Elems(order[..i + 1]) == dist.Keys * Elems(order[..i]);
        }
      }
      OrderCovers(from, order, dist, prev);
      assert order[..|order|] == order && dist.Keys * Elems(order) == dist.Keys;
    }

    method RelaxRound(from: T, edges: seq<WeightedEdge<T>>, dist0: map<T, real>, prev0: map<T, T>, ghost to: T)
      returns (dist: map<T, real>, prev: map<T, T>, changed: bool)
      requires Valid() && ListsEdges(graph.adj, weights, edges)
      requires SearchState(graph.adj, weights, from, dist0, prev0)
      ensures SearchState(graph.adj, weights, from, dist, prev)
      ensures !HasNegativeCycleFrom(graph.adj, weights, from) && IsTree(from, dist0, prev0) ==> IsTree(from, dist, prev)
      ensures GrowsToward(graph.adj, weights, from, to) && IsTreeToward(graph.adj, from, to, dist0, prev0) ==>
          IsTreeToward(graph.adj, from, to, dist, prev)
      ensures RoundDone(graph.adj, weights, dist0, dist)
      ensures !changed ==> dist == dist0
    {
      hide HasNegativeCycleFrom, IsTree, SearchState, GrowsToward, IsTreeToward;
      dist, prev, changed := dist0, prev0, false;
      for i := 0 to |edges|
        invariant SearchState(graph.adj, weights, from, dist, prev)
        invariant !HasNegativeCycleFrom(graph.adj, weights, from) && IsTree(from, dist0, prev0) ==> IsTree(from, dist, prev)
        invariant GrowsToward(graph.adj, weights, from, to) && IsTreeToward(graph.adj, from, to, dist0, prev0) ==>
            IsTreeToward(graph.adj, from, to, dist, prev)
        invariant forall v :: v in dist0 ==> v in dist && dist[v] <= dist0[v]
        invariant forall k :: 0 <= k < i && edges[k].v1 in dist0 ==>
            edges[k].v2 in dist && dist[edges[k].v2] <= dist0[edges[k].v1] + edges[k].weight
        invariant !changed ==> dist == dist0
      {
        var edge := edges[i];
        if edge.v1 in dist {
          var relaxed;
          RelaxToward(graph.adj, weights, from, to, dist, prev, edge.v1, edge.v2);
          dist, prev, relaxed := Relax(from, edge.v1, edge.v2, edge.weight, dist, prev);
          changed := changed || relaxed;
        }
      }
      forall u, v | u in dist0 && Edge(graph.adj, u, v)
        ensures v in dist && dist[v] <= dist0[u] + EdgeWeight(weights, u, v)
      {
        var k :| 0 <= k < |edges| && edges[k] == WeightedEdge(u, v, EdgeWeight(weights, u, v), true);
      }
    }

    /** `to` only stands for the node whose path is wanted; the search does not depend on it. */
    method BellmanFord(from: T, ghost to: T) returns (prev: map<T, T>, dist: map<T, real>)
      requires Valid() && from in graph.adj
      modifies this`hasNegativeCycle
      ensures SearchState(graph.adj, weights, from, dist, prev)
      ensures hasNegativeCycle <==> HasNegativeCycleFrom(graph.adj, weights, from)
      ensures !hasNegativeCycle ==> IsTree(from, dist, prev) && RelaxedFrom(graph.adj, weights, dist, dist.Keys)
      ensures GrowsToward(graph.adj, weights, from, to) ==>
          IsTreeToward(graph.adj, from, to, dist, prev) && IsRelaxedToward(graph.adj, weights, to, dist)
    {
      hide HasNegativeCycleFrom, IsTree, GrowsToward, IsTreeToward, IsRelaxedToward;
      var edges := Edges();
      InitialState(graph.adj, weights, from);
      StartToward(graph.adj, weights, from, to);
      dist, prev := map[from := 0.0], map[];
      ghost var settled := false;
      for round := 0 to SaturatingSub(|graph.adj|, 1)
        invariant SearchState(graph.adj, weights, from, dist, prev)
        invariant !HasNegativeCycleFrom(graph.adj, weights, from) ==> IsTree(from, dist, prev)
        invariant GrowsToward(graph.adj, weights, from, to) ==> IsTreeToward(graph.adj, from, to, dist, prev)
        invariant BoundsWalks(graph.adj, weights, from, dist, round)
        invariant !settled
      {
        ghost var before := dist;
        var changed;
        dist, prev, changed := RelaxRound(from, edges, dist, prev, to);
        if !changed {
          settled := true;
          break;
        }
        RoundExtendsBound(graph.adj, weights, from, before, dist, round);
      }
      if settled {
        RelaxedAlsoToward(graph.adj, weights, to, dist);
      } else {
        if !HasNegativeCycleFrom(graph.adj, weights, from) {
          RoundsSuffice(graph.adj, weights, from, dist, prev, SaturatingSub(|graph.adj|, 1));
        }
        if GrowsToward(graph.adj, weights, from, to) {
          RoundsSufficeToward(graph.adj, weights, from, to, dist, prev, SaturatingSub(|graph.adj|, 1));
        }
      }

      hasNegativeCycle := false;
      for i := 0 to |edges|
        invariant !hasNegativeCycle
        invariant forall k :: 0 <= k < i ==> !Improves(graph.adj, weights, dist, edges[k].v1, edges[k].v2)
      {
        var u, v := edges[i].v1, edges[i].v2;
        if u in dist && (v !in dist || dist[u] + edges[i].weight < dist[v]) {
          hasNegativeCycle := true;
          break;
        }
      }
      if !hasNegativeCycle {
        forall u, v | u in dist && Edge(graph.adj, u, v)
          ensures v in dist && dist[v] <= dist[u] + EdgeWeight(weights, u, v)
        {
          var k :| 0 <= k < |edges| && edges[k] == WeightedEdge(u, v, EdgeWeight(weights, u, v), true);
          assert !Improves(graph.adj, weights, dist, edges[k].v1, edges[k].v2);
        }
        AllRelaxedHasNoNegativeCycle(graph.adj, weights, dist, from);
      }
    }

    /**
     * Follows `prev` back from `to`. Where that leads to `from` the step limit is never reached
     * and the walk found weighs no more than the recorded distance.
     */
    method ReconstructPath(from: T, to: T, prev: map<T, T>, ghost dist: map<T, real>)
      returns (path: seq<WeightedEdge<T>>, ghost walk: seq<T>)
      requires Valid() && to in graph.adj && SearchState(graph.adj, weights, from, dist, prev)
      ensures path == [] || (IsWalkBetween(graph.adj, walk, from, to) && path == EdgesOf(weights, walk))
      ensures to in dist && Rooted(prev, from, to) && from in dist && dist[from] == 0.0 ==>
          IsWalkBetween(graph.adj, walk, from, to) && path == EdgesOf(weights, walk) &&
          WalkWeight(weights, walk) <= dist[to]
    {
      hide Realized, HasNegativeCycleFrom, EdgesOf, WalkWeight;
      path, walk := [], [to];
      NoEdges(weights, to);
      if from == to {
        return;
      }
      var curr := to;
      ghost var rooted := to in dist && Rooted(prev, from, to) && from in dist && dist[from] == 0.0;
      ghost var n: nat := 0;
      if rooted {
        n :| Steps(prev, from, to, n);
        ghost var nodes := ChainNodes(prev, from, to, n);
        SubsetCardinality(nodes, graph.adj.Keys);
      }
      var maxSteps := |graph.adj| + 1;
      for step := 0 to maxSteps
        invariant IsWalkBetween(graph.adj, walk, curr, to) && path == EdgesOf(weights, walk)
        invariant curr == to || (to in dist && curr in dist)
        invariant to in dist ==> WalkWeight(weights, walk) <= dist[to] - dist[curr]
        invariant rooted ==> step <= n && Steps(prev, from, curr, n - step)
      {
        if curr == from {
          break;
        }
        if curr !in prev {
          return [], [to];
        }
        var parent := prev[curr];
        assert RelaxedWhenSet(graph.adj, weights, dist, prev, curr);
        match WeightOf(weights, parent, curr)
        case None =>
          return [], [to];
        case Some(weight) =>
          WalkPrepend(graph.adj, parent, walk);
          PrependEdge(weights, parent, walk);
          path := [WeightedEdge(parent, curr, weight, true)] + path;
          walk := [parent] + walk;
          curr := parent;
      }
      if curr != from {
        return [], [to];
      }
    }

    method ShortestPath(from: T, to: T) returns (path: seq<WeightedEdge<T>>)
      requires Valid()
      modifies this`hasNegativeCycle
      ensures !Reach(graph.adj, from, to) ==> path == [] && hasNegativeCycle == old(hasNegativeCycle)
      ensures Reach(graph.adj, from, to) ==>
          (hasNegativeCycle <==> HasNegativeCycleFrom(graph.adj, weights, from))
      ensures Reach(graph.adj, from, to) && !hasNegativeCycle ==>
          exists p :: IsShortestWalk(graph.adj, weights, p, from, to) && path == EdgesOf(weights, p)
      ensures Reach(graph.adj, from, to) && !HasNegativeCycleToward(graph.adj, weights, from, to) ==>
          exists p :: IsShortestWalk(graph.adj, weights, p, from, to) && path == EdgesOf(weights, p)
      ensures HasShortestWalk(graph.adj, weights, from, to) ==>
          exists p :: IsShortestWalk(graph.adj, weights, p, from, to) && path == EdgesOf(weights, p)
      ensures path == [] || exists p :: IsWalkBetween(graph.adj, p, from, to) && path == EdgesOf(weights, p)
    {
      OnTheWay(graph.adj, weights, from, to);
      var reachable := graph.Reachable(from, to);
      if !reachable {
        return [];
      }
      hasNegativeCycle := false;
      var edges := Edges();
      var hasNegativeEdge := exists e :: e in edges && e.weight < 0.0;
      var prev: map<T, T>, dist: map<T, real>;
      ghost var walk: seq<T>;
      if hasNegativeEdge {
        prev, dist := BellmanFord(from, to);
        path, walk := ReconstructPath(from, to, prev, dist);
        if !HasNegativeCycleToward(graph.adj, weights, from, to) {
          ReachedToward(graph.adj, weights, from, to, dist, prev);
          WalkTowardIsShortest(graph.adj, weights, from, to, dist, walk);
        }
      } else {
        assert NonNegative(graph.adj, weights) by {
          forall u, v | Edge(graph.adj, u, v)
            ensures EdgeWeight(weights, u, v) >= 0.0
          {
            assert WeightedEdge(u, v, EdgeWeight(weights, u, v), true) in edges;
          }
        }
        NonNegativeHasNoNegativeCycle(graph.adj, weights, from);
        var cyclic := graph.HasCycle();
        if cyclic {
          prev, dist := Dijkstra(from, to);
        } else {
          prev, dist := AcyclicShortest(from, to);
        }
        path, walk := ReconstructPath(from, to, prev, dist);
        assert IsShortestWalk(graph.adj, weights, walk, from, to);
      }
    }
  }
}
