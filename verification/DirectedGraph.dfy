/** The directed graph container and its queries. */
module DirectedGraphs {
  import opened Collections
  import opened BreadthFirst
  import opened Walks
  import TopologicalOrder
  import Kosaraju

  ghost function EdgeSet<T(!new)>(g: Adjacency<T>): set<(T, T)> {
    set u, v | u in g && v in g[u] :: (u, v)
  }

  lemma OneMoreEdge<T(!new)>(g: Adjacency<T>, h: Adjacency<T>, u: T, v: T)
    requires !Edge(g, u, v)
    requires forall a, b :: Edge(h, a, b) <==> Edge(g, a, b) || (a == u && b == v)
    ensures |EdgeSet(h)| == |EdgeSet(g)| + 1
  {
    forall e
      ensures e in EdgeSet(h) <==> e in EdgeSet(g) + {(u, v)}
    {
      assert e in EdgeSet(h) <==> Edge(h, e.0, e.1);
      assert e in EdgeSet(g) <==> Edge(g, e.0, e.1);
    }
    assert EdgeSet(h) == EdgeSet(g) + {(u, v)};
    assert (u, v) !in EdgeSet(g);
  }

  lemma {:induction false} FewerEdgesFrom<T(!new)>(g: Adjacency<T>, h: Adjacency<T>, u: T, targets: set<T>)
    requires forall b :: b in targets ==> Edge(g, u, b)
    requires forall a, b :: Edge(h, a, b) <==> Edge(g, a, b) && !(a == u && b in targets)
    ensures |EdgeSet(h)| == |EdgeSet(g)| - |targets|
  {
    if targets == {} {
      forall e
        ensures e in EdgeSet(h) <==> e in EdgeSet(g)
      {
        assert e in EdgeSet(h) <==> Edge(h, e.0, e.1);
        assert e in EdgeSet(g) <==> Edge(g, e.0, e.1);
      }
      assert EdgeSet(h) == EdgeSet(g);
    } else {
      var x :| x in targets;
      var fewer := g[u := g[u] - {x}];
      OneMoreEdge(fewer, g, u, x);
      FewerEdgesFrom(fewer, h, u, targets - {x});
    }
  }

  /** Each node of the first `n` components has the number of a component it lies in. */
  ghost predicate IsIdMap<T(!new)>(components: seq<seq<T>>, n: nat, idMap: map<T, nat>)
    requires n <= |components|
  {
    && (forall x {:trigger x in idMap} :: x in idMap <==> Kosaraju.InSome(components, n, x))
    && forall x {:trigger idMap[x]} :: x in idMap ==> idMap[x] < n && x in components[idMap[x]]
  }

  class DirectedGraph<T(==, !new)> {
    var adj: Adjacency<T>
    var edgeCnt: nat

    ghost predicate Valid()
      reads this
    {
      Closed(adj) && edgeCnt == |EdgeSet(adj)|
    }

    constructor ()
      ensures Valid() && adj == map[]
    {
      adj := map[];
      edgeCnt := 0;
      new;
      assert EdgeSet(adj) == {};
    }

    method AddNode(u: T) returns (added: bool)
      requires Valid()
      modifies this
      ensures Valid() && added == (u !in old(adj))
      ensures adj == if added then old(adj)[u := {}] else old(adj)
    {
      added := u !in adj;
      if added {
        assert EdgeSet(adj[u := {}]) == EdgeSet(adj);
        adj := adj[u := {}];
      }
    }

    method AddEdge(u: T, v: T) returns (inserted: bool)
      requires Valid()
      modifies this
      ensures Valid()
      ensures inserted == !Edge(old(adj), u, v)
      ensures adj.Keys == old(adj.Keys) + {u, v}
      ensures forall a, b :: Edge(adj, a, b) <==> Edge(old(adj), a, b) || (a == u && b == v)
    {
      var _ := AddNode(u);
      var _ := AddNode(v);
      ghost var before := adj;
      assert forall a, b :: Edge(before, a, b) <==> Edge(old(adj), a, b);
      inserted := v !in adj[u];
      if inserted {
        adj := adj[u := adj[u] + {v}];
        edgeCnt := edgeCnt + 1;
        OneMoreEdge(before, adj, u, v);
      }
    }

    method DeleteEdge(u: T, v: T) returns (removed: bool)
      requires Valid()
      modifies this
      ensures Valid()
      ensures removed == Edge(old(adj), u, v)
      ensures adj.Keys == old(adj.Keys)
      ensures forall a, b :: Edge(adj, a, b) <==> Edge(old(adj), a, b) && !(a == u && b == v)
    {
      removed := u in adj && v in adj[u];
      if removed {
        ghost var before := adj;
        adj := adj[u := adj[u] - {v}];
        OneMoreEdge(adj, before, u, v);
        edgeCnt := SaturatingSub(edgeCnt, 1);
      }
    }

    /** Neither subtraction saturates: the count stays the number of edges. */
    method DeleteNode(u: T) returns (removed: bool)
      requires Valid()
      modifies this
      ensures Valid()
      ensures removed == (u in old(adj))
      ensures adj.Keys == old(adj.Keys) - {u}
      ensures forall a, b :: Edge(adj, a, b) <==> Edge(old(adj), a, b) && a != u && b != u
    {
      hide EdgeSet;
      if u !in adj {
        return false;
      }
      var outgoing := adj[u];
      FewerEdgesFrom(adj, adj - {u}, u, outgoing);
      adj := adj - {u};
      edgeCnt := SaturatingSub(edgeCnt, |outgoing|);
      var incomingRemoved := RemoveIncoming(u);
      edgeCnt := SaturatingSub(edgeCnt, incomingRemoved);
      return true;
    }

    /** Takes `u` out of every set of successors and counts how often. */
    method RemoveIncoming(u: T) returns (incomingRemoved: nat)
      modifies this`adj
      ensures adj.Keys == old(adj.Keys)
      ensures forall a :: a in adj ==> adj[a] == old(adj)[a] - {u}
      ensures |EdgeSet(adj)| + incomingRemoved == |EdgeSet(old(adj))|
    {
      hide EdgeSet;
      incomingRemoved := 0;
      var todo := adj.Keys;
      while todo != {}
        invariant todo <= adj.Keys == old(adj.Keys)
        invariant forall a :: a in adj ==> adj[a] == if a in todo then old(adj)[a] else old(adj)[a] - {u}
        invariant |EdgeSet(adj)| + incomingRemoved == |EdgeSet(old(adj))|
        decreases todo
      {
        var a :| a in todo;
        todo := todo - {a};
        if u in adj[a] {
          ghost var before := adj;
          adj := adj[a := adj[a] - {u}];
          OneMoreEdge(adj, before, a, u);
          incomingRemoved := incomingRemoved + 1;
        } else {
          assert adj[a] - {u} == adj[a];
        }
      }
    }

    method Reverse() returns (g: DirectedGraph<T>)
      requires Valid()
      ensures fresh(g) && g.Valid() && IsReverse(adj, g.adj)
    {
      g := new DirectedGraph<T>();
      g.AddNodes(adj.Keys);
      var nodes := adj.Keys;
      while nodes != {}
        invariant fresh(g) && g.Valid()
        invariant nodes <= adj.Keys == g.adj.Keys
        invariant forall u, v :: Edge(g.adj, v, u) <==> Edge(adj, u, v) && u !in nodes
        decreases nodes
      {
        var u :| u in nodes;
        nodes := nodes - {u};
        ReverseEdgesFrom(u, g);
      }
    }

    method AddNodes(nodes: set<T>)
      requires Valid() && adj == map[]
      modifies this
      ensures Valid() && adj.Keys == nodes
      ensures forall a :: a in adj ==> adj[a] == {}
    {
      var todo := nodes;
      while todo != {}
        invariant Valid() && todo <= nodes
        invariant adj.Keys == nodes - todo
        invariant forall a :: a in adj ==> adj[a] == {}
        decreases todo
      {
        var u :| u in todo;
        todo := todo - {u};
        var _ := AddNode(u);
      }
    }

    method ReverseEdgesFrom(u: T, g: DirectedGraph<T>)
      requires Valid() && g.Valid() && g != this
      requires u in adj && g.adj.Keys == adj.Keys
      modifies g
      ensures g.Valid() && g.adj.Keys == adj.Keys
      ensures forall a, v :: Edge(g.adj, v, a) <==> Edge(old(g.adj), v, a) || (a == u && Edge(adj, u, v))
    {
      var todo := adj[u];
      while todo != {}
        invariant g.Valid() && g.adj.Keys == adj.Keys
        invariant todo <= adj[u]
        invariant forall a, v :: Edge(g.adj, v, a) <==> Edge(old(g.adj), v, a) || (a == u && v in adj[u] - todo)
        decreases todo
      {
        var v :| v in todo;
        todo := todo - {v};
        var _ := g.AddEdge(v, u);
      }
    }

    method StrongComponents() returns (components: seq<seq<T>>)
      requires Valid()
      ensures Kosaraju.IsPartition(adj, components, adj.Keys)
    {
      var reverseGraph := Reverse();
      components := Kosaraju.Components(adj, reverseGraph.adj);
    }

    method ComponentIdMap() returns (idMap: map<T, nat>)
      requires Valid()
      ensures idMap.Keys == adj.Keys
      ensures forall u, v :: u in adj && v in adj ==> (idMap[u] == idMap[v] <==> Mutual(adj, u, v))
    {
      hide Mutual, Distinct, Kosaraju.IsPartition, Kosaraju.InSome;
      var components := StrongComponents();
      idMap := map[];
      forall x ensures !Kosaraju.InSome(components, 0, x) { Kosaraju.InOneMore(components, 0, x); }
      for i := 0 to |components|
        invariant IsIdMap(components, i, idMap)
      {
        ghost var before := idMap;
        for j := 0 to |components[i]|
          invariant forall x :: x in idMap <==> x in before || x in components[i][..j]
          invariant forall x :: x in idMap ==> idMap[x] == if x in components[i][..j] then i else before[x]
        {
          idMap := idMap[components[i][j] := i];
          assert components[i][..j + 1] == components[i][..j] + [components[i][j]];
        }
        assert components[i][..|components[i]|] == components[i];
        forall x ensures Kosaraju.InSome(components, i + 1, x) <==> Kosaraju.InSome(components, i, x) || x in components[i] {
          Kosaraju.InOneMore(components, i, x);
        }
      }
      forall x ensures x in adj <==> Kosaraju.InSome(components, |components|, x) {
        Kosaraju.PartitionCovers(adj, components, adj.Keys, x);
      }
      assert idMap.Keys == adj.Keys;
      forall u, v | u in adj && v in adj
        ensures idMap[u] == idMap[v] <==> Mutual(adj, u, v)
      {
        Kosaraju.SameComponent(adj, components, u, v, idMap[u], idMap[v]);
      }
    }

    method StronglyConnected(u: T, v: T) returns (yes: bool)
      requires Valid()
      ensures yes <==> Mutual(adj, u, v)
    {
      var idMap := ComponentIdMap();
      if u in idMap && v in idMap {
        yes := idMap[u] == idMap[v];
      } else {
        yes := false;
      }
    }

    method Sorted() returns (result: Option<seq<T>>)
      requires Valid()
      ensures result.Some? <==> Acyclic(adj)
      ensures result.Some? ==> TopologicalOrder.IsTopologicalOrder(adj, result.value)
    {
      result := TopologicalOrder.Sorted(adj);
    }

    method Cycle() returns (cycle: Option<seq<T>>)
      requires Valid()
      ensures cycle.None? <==> Acyclic(adj)
      ensures cycle.Some? ==> IsClosedWalk(adj, cycle.value)
    {
      cycle := TopologicalOrder.DetectCycle(adj);
    }

    method HasCycle() returns (yes: bool)
      requires Valid()
      ensures yes <==> !Acyclic(adj)
    {
      var cycle := TopologicalOrder.DetectCycle(adj);
      yes := cycle.Some?;
    }

    /** Breadth-first search: visits exactly what `from` reaches, each node along the fewest edges. */
    method BfsPrev(from: T) returns (visited: set<T>, prev: map<T, T>, ghost depth: map<T, nat>)
      requires Valid()
      ensures from !in adj ==> visited == {} && prev == map[]
      ensures from in adj ==> IsSearchTree(adj, from, visited, prev, depth)
      ensures from in adj ==> forall v :: v in visited <==> Reach(adj, from, v)
      ensures from in adj ==> forall v, w {:trigger IsWalkBetween(adj, w, from, v)} :: IsWalkBetween(adj, w, from, v) ==>
                v in visited && depth[v] + 1 <= |w|
    {
      hide IsSearchState;
      visited, prev, depth := {}, map[], map[];
      if from !in adj {
        return;
      }
      visited, depth := {from}, map[from := 0];
      var q := [from];
      ghost var d: nat := 0;
      SearchStarts(adj, from);
      while q != []
        invariant IsSearchState(adj, from, visited, prev, depth, q, Elems(q), d)
        invariant visited <= adj.Keys
        decreases adj.Keys - visited, |q|
      {
        var curr := q[0];
        Dequeue(adj, from, visited, prev, depth, q, d);
        q := q[1..];
        visited, prev, depth, q := VisitNeighbours(from, curr, visited, prev, depth, q);
        d := depth[curr];
      }
      SearchEnds(adj, from, visited, prev, depth, d);
      SearchIsComplete(adj, from, visited, prev, depth);
    }

    /** Follows the edges of one node. */
    method VisitNeighbours(from: T, curr: T, visited0: set<T>, prev0: map<T, T>, ghost depth0: map<T, nat>, q0: seq<T>)
        returns (visited: set<T>, prev: map<T, T>, ghost depth: map<T, nat>, q: seq<T>)
      requires Valid() && curr in visited0 && visited0 <= adj.Keys && curr in depth0
      requires IsSearchState(adj, from, visited0, prev0, depth0, q0, Elems(q0) + {curr}, depth0[curr])
      ensures curr in depth && IsSearchState(adj, from, visited, prev, depth, q, Elems(q), depth[curr])
      ensures visited0 <= visited <= adj.Keys && (visited == visited0 ==> q == q0)
    {
      hide IsSearchState;
      visited, prev, depth, q := visited0, prev0, depth0, q0;
      var todo := adj[curr];
      while todo != {}
        invariant curr in depth && IsSearchState(adj, from, visited, prev, depth, q, Elems(q) + {curr}, depth[curr])
        invariant todo <= adj[curr] <= todo + visited
        invariant visited0 <= visited <= adj.Keys && (visited == visited0 ==> q == q0)
        invariant curr in visited
        decreases todo
      {
        var next :| next in todo;
        todo := todo - {next};
        if next !in visited {
          Discover(adj, from, visited, prev, depth, q, Elems(q) + {curr}, curr, next);
          assert Elems(q) + {curr} + {next} == Elems(q + [next]) + {curr};
          visited := visited + {next};
          prev := prev[next := curr];
          depth := depth[next := depth[curr] + 1];
          q := q + [next];
        }
      }
      Close(adj, from, visited, prev, depth, q, curr);
    }

    method Reachable(from: T, to: T) returns (yes: bool)
      requires Valid()
      ensures yes <==> Reach(adj, from, to)
    {
      if from !in adj || to !in adj {
        return false;
      }
      if from == to {
        ReachSelf(adj, from);
        return true;
      }
      var visited, _, _ := BfsPrev(from);
      yes := to in visited;
    }

    method Path(from: T, to: T) returns (path: Option<seq<T>>)
      requires Valid()
      ensures path.Some? <==> Reach(adj, from, to)
      ensures path.Some? ==> IsWalkBetween(adj, path.value, from, to) && Distinct(path.value)
      ensures path.Some? ==> forall w {:trigger IsWalkBetween(adj, w, from, to)} :: IsWalkBetween(adj, w, from, to) ==>
                |path.value| <= |w|
    {
      if from !in adj || to !in adj {
        return None;
      }
      if from == to {
        ReachSelf(adj, from);
        return Some([from]);
      }
      var visited, prev, depth := BfsPrev(from);
      if to !in visited {
        return None;
      }
      path := ReconstructNodePath(from, to, prev, |adj|, visited, depth);
    }

    /** The step limit, one more than the number of nodes, is never what ends the walk back. */
    method ReconstructNodePath(from: T, to: T, prev: map<T, T>, nodeLimit: nat,
                               ghost visited: set<T>, ghost depth: map<T, nat>)
      returns (path: Option<seq<T>>)
      requires Valid() && IsSearchTree(adj, from, visited, prev, depth)
      requires to in visited && nodeLimit == |adj|
      ensures path.Some? && IsWalkBetween(adj, path.value, from, to) && Distinct(path.value)
      ensures |path.value| == depth[to] + 1
    {
      var back := [to];
      var curr := to;
      ghost var ancestors := DepthBound(adj, from, visited, prev, depth, to);
      SubsetCardinality(ancestors, adj.Keys);
      for step := 0 to nodeLimit + 1
        invariant curr in visited && depth[curr] + step == depth[to] && |back| == step + 1
        invariant IsWalkBetween(adj, back, curr, to)
        invariant Distinct(back) && forall x :: x in back ==> x in depth && depth[x] >= depth[curr]
      {
        if curr == from {
          return Some(back);
        }
        var parent := prev[curr];
        WalkPrepend(adj, parent, back);
        assert parent !in back;
        DistinctPrepend(parent, back);
        back := [parent] + back;
        curr := parent;
      }
      return None;
    }
  }
}
