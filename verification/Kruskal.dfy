/** The weighted undirected graph and Kruskal's minimum spanning forest. */
module WeightedUndirectedGraphs {
  import opened Collections
  import opened Walks
  import opened WeightedWalks
  import opened SpanningForests
  import opened StableSorting
  import opened UnionFind

  ghost predicate IsTotalOrder<T(!new)>(cmp: (T, T) -> Ordering) {
    && IsTotalPreorder(cmp)
    && forall x, y :: cmp(x, y) == Equal <==> x == y
  }

  /** By weight, then by the two ends. */
  function CompareEdges<T>(cmp: (T, T) -> Ordering, a: WeightedEdge<T>, b: WeightedEdge<T>): Ordering {
    if a.weight < b.weight then Less
    else if a.weight > b.weight then Greater
    else if cmp(a.v1, b.v1) != Equal then cmp(a.v1, b.v1)
    else cmp(a.v2, b.v2)
  }

  lemma EdgeOrder<T(!new)>(cmp: (T, T) -> Ordering)
    requires IsTotalOrder(cmp)
    ensures IsTotalPreorder((a: WeightedEdge<T>, b: WeightedEdge<T>) => CompareEdges(cmp, a, b))
  {
    var order := (a: WeightedEdge<T>, b: WeightedEdge<T>) => CompareEdges(cmp, a, b);
    forall a, b, c | Le(order, a, b) && Le(order, b, c)
      ensures Le(order, a, c)
    {
      assert Le(cmp, a.v1, b.v1) && Le(cmp, b.v1, c.v1) ==> Le(cmp, a.v1, c.v1);
      assert Le(cmp, a.v2, b.v2) && Le(cmp, b.v2, c.v2) ==> Le(cmp, a.v2, c.v2);
      assert Le(cmp, b.v1, c.v1) && Le(cmp, c.v1, b.v1) ==> b.v1 == c.v1;
    }
  }

  lemma SortedEdges<T(!new)>(cmp: (T, T) -> Ordering, edges: seq<WeightedEdge<T>>)
    requires IsTotalOrder(cmp) && Distinct(edges)
    ensures var sorted := StableSort((a: WeightedEdge<T>, b: WeightedEdge<T>) => CompareEdges(cmp, a, b), edges);
            ByWeight(sorted) && Distinct(sorted) && Elems(sorted) == Elems(edges)
  {
    var order := (a: WeightedEdge<T>, b: WeightedEdge<T>) => CompareEdges(cmp, a, b);
    EdgeOrder(cmp);
    StableSortSorts(order, edges);
    StableSortMultiset(order, edges);
    DistinctRearranged(edges, StableSort(order, edges));
    var sorted := StableSort(order, edges);
    forall i, j | 0 <= i < j < |sorted|
      ensures sorted[i].weight <= sorted[j].weight
    {
      assert Le(order, sorted[i], sorted[j]);
    }
  }

  /** Each undirected edge once, from its smaller end. */
  ghost function UndirectedEdges<T(!new)>(cmp: (T, T) -> Ordering, w: Weights<T>): set<WeightedEdge<T>> {
    set u, v | u in w && v in w[u] && Le(cmp, u, v) :: WeightedEdge(u, v, w[u][v], false)
  }

  // ---------------------------------------------------------------- the picking loop

  /** The picked edges connect whatever an edge seen so far connects, and were picked greedily. */
  ghost predicate PickInvariant<T(!new)>(nodes: set<T>, sorted: seq<WeightedEdge<T>>, seen: nat,
                                         picked: seq<WeightedEdge<T>>, rep: map<T, T>)
    requires seen <= |sorted|
  {
    && Distinct(picked) && Elems(picked) <= Elems(sorted[..seen])
    && Represents(nodes, Elems(picked), rep)
    && |rep.Values| == |nodes| - |picked|
    && ConnectsAll(nodes, Elems(picked), Elems(sorted[..seen]))
    && IsGreedy(nodes, Elems(sorted), picked)
  }

  ghost predicate ByWeight<T>(es: seq<WeightedEdge<T>>) {
    forall i, j :: 0 <= i < j < |es| ==> es[i].weight <= es[j].weight
  }

  lemma StartPicking<T(!new)>(nodes: set<T>, sorted: seq<WeightedEdge<T>>, rep: map<T, T>)
    requires rep.Keys == nodes && forall v :: v in nodes ==> rep[v] == v
    ensures PickInvariant(nodes, sorted, 0, [], rep)
  {
    NoEdges(nodes, rep);
    assert Elems<WeightedEdge<T>>([]) == {} && Elems(sorted[..0]) == {};
    assert rep.Values == nodes by {
      assert forall v :: v in nodes ==> rep[v] in rep.Values;
    }
  }

  lemma SkipEdge<T(!new)>(nodes: set<T>, sorted: seq<WeightedEdge<T>>, seen: nat, picked: seq<WeightedEdge<T>>,
                          rep: map<T, T>)
    requires seen < |sorted| && EdgesWithin(nodes, Elems(sorted))
    requires PickInvariant(nodes, sorted, seen, picked, rep)
    requires sorted[seen].v1 in rep && sorted[seen].v2 in rep && rep[sorted[seen].v1] == rep[sorted[seen].v2]
    ensures PickInvariant(nodes, sorted, seen + 1, picked, rep)
  {
    assert Elems(sorted[..seen + 1]) == Elems(sorted[..seen]) + {sorted[seen]};
    assert Connected(nodes, Elems(picked), sorted[seen].v1, sorted[seen].v2);
  }

  lemma PickEdge<T(!new)>(nodes: set<T>, sorted: seq<WeightedEdge<T>>, seen: nat, picked: seq<WeightedEdge<T>>,
                          rep: map<T, T>, from: T, to: T)
    requires seen < |sorted| && EdgesWithin(nodes, Elems(sorted)) && ByWeight(sorted) && Distinct(sorted)
    requires PickInvariant(nodes, sorted, seen, picked, rep)
    requires var e := sorted[seen];
             && e.v1 in rep && e.v2 in rep && rep[e.v1] != rep[e.v2]
             && ((from == rep[e.v1] && to == rep[e.v2]) || (from == rep[e.v2] && to == rep[e.v1]))
    ensures PickInvariant(nodes, sorted, seen + 1, picked + [sorted[seen]], MergeClasses(rep, from, to))
  {
    var e := sorted[seen];
    assert e in Elems(sorted);
    assert Elems(sorted[..seen + 1]) == Elems(sorted[..seen]) + {e};
    assert e !in sorted[..seen] && Elems(sorted[..seen]) <= Elems(sorted);
    assert e !in Elems(picked);
    DistinctAppend(picked, e);
    MergeRepresents(nodes, Elems(picked), rep, e, from, to);
    assert rep[rep[e.v1]] == rep[e.v1] && rep[rep[e.v2]] == rep[e.v2];
    MergeCount(rep, from, to);
    StillConnectsAll(nodes, Elems(picked), Elems(sorted[..seen]), e);
    PickIsGreedy(nodes, sorted, seen, picked);
  }

  lemma StillConnectsAll<T(!new)>(nodes: set<T>, picked: set<WeightedEdge<T>>, seen: set<WeightedEdge<T>>,
                                  e: WeightedEdge<T>)
    requires EdgesWithin(nodes, picked) && EdgesWithin(nodes, seen) && e.v1 in nodes && e.v2 in nodes
    requires ConnectsAll(nodes, picked, seen)
    ensures ConnectsAll(nodes, picked + {e}, seen + {e})
  {
    forall d | d in seen + {e}
      ensures Connected(nodes, picked + {e}, d.v1, d.v2)
    {
      if d == e {
        ConnectedByEdge(nodes, picked + {e}, e);
      } else {
        ConnectedMonotone(nodes, picked, picked + {e}, d.v1, d.v2);
      }
    }
  }

  lemma PickIsGreedy<T(!new)>(nodes: set<T>, sorted: seq<WeightedEdge<T>>, seen: nat, picked: seq<WeightedEdge<T>>)
    requires seen < |sorted| && ByWeight(sorted) && IsGreedy(nodes, Elems(sorted), picked)
    requires ConnectsAll(nodes, Elems(picked), Elems(sorted[..seen]))
    ensures IsGreedy(nodes, Elems(sorted), picked + [sorted[seen]])
  {
    var longer := picked + [sorted[seen]];
    forall i, d | 0 <= i < |longer| && d in Elems(sorted) && d.weight < longer[i].weight
      ensures Connected(nodes, Elems(longer[..i]), d.v1, d.v2)
    {
      assert longer[..i] == picked[..i];
      if i == |picked| {
        assert picked[..i] == picked;
        var j :| 0 <= j < |sorted| && sorted[j] == d;
        assert sorted[..seen][j] == d;
      }
    }
  }

  /** Once the edges are used up, or at most one component is left, the picked edges span the graph. */
  lemma PickedSpans<T(!new)>(nodes: set<T>, sorted: seq<WeightedEdge<T>>, seen: nat,
                             picked: seq<WeightedEdge<T>>, rep: map<T, T>)
    requires EdgesWithin(nodes, Elems(sorted)) && seen <= |sorted|
    requires PickInvariant(nodes, sorted, seen, picked, rep)
    requires seen == |sorted| || |picked| >= |nodes| - 1
    ensures IsSpanningForest(nodes, Elems(sorted), picked) && IsGreedy(nodes, Elems(sorted), picked)
  {
    var es := Elems(sorted);
    assert Elems(sorted[..seen]) <= es && sorted[..|sorted|] == sorted;
    FewComponentsMakeForest(nodes, picked, rep);
    if !ConnectsAll(nodes, Elems(picked), es) {
      OneComponent(nodes, es, Elems(picked), rep);
    }
    forall u, v | u in nodes && v in nodes
      ensures Connected(nodes, Elems(picked), u, v) <==> Connected(nodes, es, u, v)
    {
      if Connected(nodes, Elems(picked), u, v) {
        ConnectedMonotone(nodes, Elems(picked), es, u, v);
      } else if Connected(nodes, es, u, v) {
        ConnectedThrough(nodes, es, Elems(picked), u, v);
      }
    }
  }

  lemma OneComponent<T(!new)>(nodes: set<T>, es: set<WeightedEdge<T>>, picked: set<WeightedEdge<T>>, rep: map<T, T>)
    requires EdgesWithin(nodes, es) && Represents(nodes, picked, rep) && |rep.Values| <= 1
    ensures ConnectsAll(nodes, picked, es)
  {
    forall e | e in es
      ensures Connected(nodes, picked, e.v1, e.v2)
    {
      assert rep[e.v1] in rep.Values && rep[e.v2] in rep.Values;
      if rep[e.v1] != rep[e.v2] {
        SubsetCardinality({rep[e.v1], rep[e.v2]}, rep.Values);
      }
    }
  }

  function WithIsolated<T>(g: Adjacency<T>, u: T): Adjacency<T> {
    if u in g then g else g[u := {}]
  }

  function WithEdgeBothWays<T(!new)>(g: Adjacency<T>, u: T, v: T): (r: Adjacency<T>)
    requires Closed(g)
    ensures Closed(r) && r.Keys == g.Keys + {u, v}
    ensures forall a, b :: Edge(r, a, b) <==> Edge(g, a, b) || (a == u && b == v) || (a == v && b == u)
  {
    var grown := WithIsolated(WithIsolated(g, u), v);
    var there := grown[u := grown[u] + {v}];
    there[v := there[v] + {u}]
  }

  function WithWeight<T(!new)>(w: Weights<T>, u: T, v: T, weight: real): (r: Weights<T>)
    ensures forall a, b :: WeightOf(r, a, b) == if a == u && b == v then Some(weight) else WeightOf(w, a, b)
  {
    var row := if u in w then w[u] else map[];
    w[u := row[v := weight]]
  }

  /** Takes edges, lightest first, that join two components, until one component is left. */
  method PickEdges<T(==, !new)>(nodes: set<T>, sorted: seq<WeightedEdge<T>>)
    returns (picked: seq<WeightedEdge<T>>, ghost rep: map<T, T>, ghost seen: nat)
    requires EdgesWithin(nodes, Elems(sorted)) && ByWeight(sorted) && Distinct(sorted)
    ensures seen <= |sorted| && PickInvariant(nodes, sorted, seen, picked, rep)
    ensures seen == |sorted| || |picked| >= |nodes| - 1
  {
    var uf := new SimpleUf<T>(nodes);
    picked := [];
    StartPicking(nodes, sorted, uf.rep);
    var pos, enough := 0, false;
    while pos < |sorted| && !enough
      invariant pos <= |sorted| && uf.Valid() && fresh(uf)
      invariant PickInvariant(nodes, sorted, pos, picked, uf.rep)
      invariant enough ==> |picked| >= |nodes| - 1
    {
      var united;
      picked, united := ConsiderEdge(uf, nodes, sorted, pos, picked);
      pos := pos + 1;
      enough := united && |nodes| > 0 && |picked| >= |nodes| - 1;
    }
    rep, seen := uf.rep, pos;
  }

  method ConsiderEdge<T(==, !new)>(uf: SimpleUf<T>, ghost nodes: set<T>, sorted: seq<WeightedEdge<T>>, pos: nat,
                                   picked: seq<WeightedEdge<T>>)
    returns (picked': seq<WeightedEdge<T>>, united: bool)
    requires EdgesWithin(nodes, Elems(sorted)) && ByWeight(sorted) && Distinct(sorted) && pos < |sorted|
    requires uf.Valid() && PickInvariant(nodes, sorted, pos, picked, uf.rep)
    modifies uf
    ensures uf.Valid()
    ensures picked' == if united then picked + [sorted[pos]] else picked
    ensures PickInvariant(nodes, sorted, pos + 1, picked', uf.rep)
  {
    var edge := sorted[pos];
    assert edge in Elems(sorted);
    ghost var rep := uf.rep;
    united := uf.Union(edge.v1, edge.v2);
    if united {
      ghost var from, to := MergedPair(rep, uf.rep, edge);
      PickEdge(nodes, sorted, pos, picked, rep, from, to);
      picked' := picked + [edge];
    } else {
      SkipEdge(nodes, sorted, pos, picked, rep);
      picked' := picked;
    }
  }

  lemma MergedPair<T>(rep: map<T, T>, rep': map<T, T>, e: WeightedEdge<T>) returns (from: T, to: T)
    requires e.v1 in rep && e.v2 in rep
    requires rep' == MergeClasses(rep, rep[e.v1], rep[e.v2]) || rep' == MergeClasses(rep, rep[e.v2], rep[e.v1])
    ensures rep' == MergeClasses(rep, from, to)
    ensures (from == rep[e.v1] && to == rep[e.v2]) || (from == rep[e.v2] && to == rep[e.v1])
  {
    if rep' == MergeClasses(rep, rep[e.v1], rep[e.v2]) {
      from, to := rep[e.v1], rep[e.v2];
    } else {
      from, to := rep[e.v2], rep[e.v1];
    }
  }

  class WeightedUndirectedGraph<T(==, !new)> {
    const cmp: (T, T) -> Ordering
    var adj: Adjacency<T>
    var weights: Weights<T>

    ghost predicate Valid()
      reads this
    {
      && IsTotalOrder(cmp) && Closed(adj)
      && (forall u, v :: Edge(adj, u, v) <==> WeightOf(weights, u, v).Some?)
      && (forall u, v :: WeightOf(weights, u, v) == WeightOf(weights, v, u))
    }

    constructor (cmp: (T, T) -> Ordering)
      requires IsTotalOrder(cmp)
      ensures Valid() && adj == map[] && weights == map[] && this.cmp == cmp
    {
      this.cmp := cmp;
      adj, weights := map[], map[];
    }

    /** Adds the edge in both directions; an edge that is already there gets the new weight. */
    method AddEdge(u: T, v: T, weight: real)
      requires Valid()
      modifies this
      ensures Valid() && adj.Keys == old(adj.Keys) + {u, v}
      ensures forall a, b ::
                WeightOf(weights, a, b) ==
                if (a == u && b == v) || (a == v && b == u) then Some(weight) else WeightOf(old(weights), a, b)
    {
      adj := WithEdgeBothWays(adj, u, v);
      weights := WithWeight(WithWeight(weights, u, v, weight), v, u, weight);
    }

    method Edges() returns (edges: seq<WeightedEdge<T>>)
      requires Valid()
      ensures Distinct(edges) && Elems(edges) == UndirectedEdges(cmp, weights)
    {
      edges := [];
      var sources := weights.Keys;
      while sources != {}
        invariant sources <= weights.Keys && Distinct(edges)
        invariant Elems(edges) == set e | e in UndirectedEdges(cmp, weights) && e.v1 !in sources
        decreases sources
      {
        var u :| u in sources;
        var targets := weights[u].Keys;
        while targets != {}
          invariant targets <= weights[u].Keys && Distinct(edges)
          invariant Elems(edges) ==
              set e | e in UndirectedEdges(cmp, weights) && (e.v1 !in sources || (e.v1 == u && e.v2 !in targets))
          decreases targets
        {
          var v :| v in targets;
          targets := targets - {v};
          if Le(cmp, u, v) {
            var edge := WeightedEdge(u, v, weights[u][v], false);
            DistinctAppend(edges, edge);
            edges := edges + [edge];
          }
        }
        sources := sources - {u};
      }
    }

    lemma EdgesAreWithin()
      requires Valid()
      ensures EdgesWithin(adj.Keys, UndirectedEdges(cmp, weights))
    {
      forall e | e in UndirectedEdges(cmp, weights)
        ensures e.v1 in adj && e.v2 in adj
      {
        assert WeightOf(weights, e.v1, e.v2).Some? && Edge(adj, e.v1, e.v2);
      }
    }

    /** What the listed edges connect is what the graph connects. */
    lemma EdgesConnect(u: T, v: T)
      requires Valid()
      ensures Connected(adj.Keys, UndirectedEdges(cmp, weights), u, v) <==> Reach(adj, u, v)
    {
      var es := UndirectedEdges(cmp, weights);
      var g := AdjacencyOf(adj.Keys, es);
      forall a, b
        ensures Edge(g, a, b) <==> Edge(adj, a, b)
      {
        EdgeListed(a, b);
      }
      SameEdgesSameReach(g, adj, u, v);
    }

    lemma EdgeListed(a: T, b: T)
      requires Valid()
      ensures Joined(UndirectedEdges(cmp, weights), a, b) <==> Edge(adj, a, b)
    {
      var es := UndirectedEdges(cmp, weights);
      if Edge(adj, a, b) {
        assert WeightOf(weights, a, b).Some? && WeightOf(weights, b, a).Some?;
        if Le(cmp, a, b) {
          assert WeightedEdge(a, b, weights[a][b], false) in es;
        } else {
          assert WeightedEdge(b, a, weights[b][a], false) in es;
        }
      }
      if Joined(es, a, b) {
        var e :| e in es && ((e.v1 == a && e.v2 == b) || (e.v1 == b && e.v2 == a));
        assert WeightOf(weights, e.v1, e.v2).Some? && WeightOf(weights, e.v2, e.v1).Some?;
      }
    }

    /**
     * Kruskal: the picked edges are a forest that connects exactly what the graph
     * connects, and no such forest is lighter.
     */
    method Mst() returns (picked: seq<WeightedEdge<T>>)
      requires Valid()
      ensures IsForest(adj.Keys, picked)
      ensures Elems(picked) <= UndirectedEdges(cmp, weights)
      ensures forall u, v :: u in adj && v in adj ==> (Connected(adj.Keys, Elems(picked), u, v) <==> Reach(adj, u, v))
      ensures forall b :: IsSpanningForest(adj.Keys, UndirectedEdges(cmp, weights), b) ==>
                            TotalWeight(picked) <= TotalWeight(b)
    {
      var edges := Edges();
      ghost var nodes, es := adj.Keys, UndirectedEdges(cmp, weights);
      var sorted := StableSort((a: WeightedEdge<T>, b: WeightedEdge<T>) => CompareEdges(cmp, a, b), edges);
      SortedEdges(cmp, edges);
      EdgesAreWithin();
      forall u, v
        ensures Connected(nodes, es, u, v) <==> Reach(adj, u, v)
      {
        EdgesConnect(u, v);
      }
      ghost var rep, seen;
      picked, rep, seen := PickEdges(adj.Keys, sorted);
      PickedSpans(nodes, sorted, seen, picked, rep);
      forall b | IsSpanningForest(nodes, es, b)
        ensures TotalWeight(picked) <= TotalWeight(b)
      {
        GreedyIsMinimal(nodes, es, picked, b);
      }
    }
  }

  lemma SameEdgesSameReach<T(!new)>(g: Adjacency<T>, h: Adjacency<T>, u: T, v: T)
    requires g.Keys == h.Keys && forall a, b :: Edge(g, a, b) <==> Edge(h, a, b)
    ensures Reach(g, u, v) <==> Reach(h, u, v)
  {
    assert forall p :: IsWalkBetween(g, p, u, v) <==> IsWalkBetween(h, p, u, v);
  }
}
