/** Breadth-first search: the tree it builds, and why the tree's depths are the fewest edges. */
module BreadthFirst {
  import opened Collections
  import opened Walks

  /** `prev` is a tree of real edges rooted at `from` that spans `visited`. */
  ghost predicate IsSearchTree<T(!new)>(g: Adjacency<T>, from: T, visited: set<T>, prev: map<T, T>,
                                        depth: map<T, nat>) {
    && depth.Keys == visited <= g.Keys
    && prev.Keys == visited - {from}
    && from in visited && depth[from] == 0
    && (forall v :: v in prev ==> prev[v] in visited && Edge(g, prev[v], v) && depth[prev[v]] + 1 == depth[v])
  }

  lemma {:induction false} TreePathReach<T(!new)>(g: Adjacency<T>, from: T, visited: set<T>, prev: map<T, T>,
                                                  depth: map<T, nat>, v: T)
    requires Closed(g) && IsSearchTree(g, from, visited, prev, depth)
    requires v in visited
    ensures Reach(g, from, v)
    decreases depth[v]
  {
    if v == from {
      ReachSelf(g, from);
    } else {
      TreePathReach(g, from, visited, prev, depth, prev[v]);
      ReachThenEdge(g, from, prev[v], v);
    }
  }

  /** A node at depth `depth[v]` has that many ancestors, so depths stay below the number of nodes. */
  lemma {:induction false} DepthBound<T(!new)>(g: Adjacency<T>, from: T, visited: set<T>, prev: map<T, T>,
                                               depth: map<T, nat>, v: T)
    returns (ancestors: set<T>)
    requires IsSearchTree(g, from, visited, prev, depth)
    requires v in visited
    ensures ancestors <= visited && |ancestors| == depth[v] + 1
    ensures forall x :: x in ancestors ==> depth[x] <= depth[v]
    decreases depth[v]
  {
    if v == from {
      ancestors := {v};
    } else {
      ancestors := DepthBound(g, from, visited, prev, depth, prev[v]);
      ancestors := ancestors + {v};
    }
  }

  /** The queue is ordered by depth, from `d` on, and nothing visited is deeper than the layer after `d`. */
  ghost predicate IsLayered<T>(visited: set<T>, depth: map<T, nat>, q: seq<T>, d: nat) {
    && depth.Keys == visited
    && (forall i {:trigger q[i]} :: 0 <= i < |q| ==> q[i] in visited && depth[q[i]] >= d)
    && (forall i, j {:trigger q[i], q[j]} :: 0 <= i < j < |q| ==> q[i] in visited && q[j] in visited && depth[q[i]] <= depth[q[j]])
    && (forall v {:trigger depth[v]} :: v in visited ==> depth[v] <= d + 1)
  }

  /** The edges of every visited node that is not open lead to visited nodes at most one layer deeper. */
  ghost predicate IsExplored<T(!new)>(g: Adjacency<T>, visited: set<T>, depth: map<T, nat>, open: set<T>) {
    depth.Keys == visited && forall u, v {:trigger Edge(g, u, v)} :: u in visited && u !in open && Edge(g, u, v) ==>
                               v in visited && depth[v] <= depth[u] + 1
  }

  ghost predicate IsSearchState<T(!new)>(g: Adjacency<T>, from: T, visited: set<T>, prev: map<T, T>, depth: map<T, nat>,
                                         q: seq<T>, open: set<T>, d: nat) {
    IsSearchTree(g, from, visited, prev, depth) && IsLayered(visited, depth, q, d) && IsExplored(g, visited, depth, open)
  }

  lemma SearchStarts<T(!new)>(g: Adjacency<T>, from: T)
    requires from in g
    ensures IsSearchState(g, from, {from}, map[], map[from := 0], [from], Elems([from]), 0)
  {
    assert [from][0] in Elems([from]);
  }

  /** Taking the head off the queue: it is still open, and its layer is the current one. */
  lemma Dequeue<T(!new)>(g: Adjacency<T>, from: T, visited: set<T>, prev: map<T, T>, depth: map<T, nat>, q: seq<T>, d: nat)
    requires IsSearchState(g, from, visited, prev, depth, q, Elems(q), d) && q != []
    ensures q[0] in visited && q[0] in depth
    ensures IsSearchState(g, from, visited, prev, depth, q[1..], Elems(q[1..]) + {q[0]}, depth[q[0]])
  {
    HeadAndTail(q);
    var rest := q[1..];
    assert forall i {:trigger rest[i]} :: 0 <= i < |rest| ==> rest[i] == q[i + 1];
    assert Elems(q) == Elems(rest) + {q[0]};
  }

  /** A node met for the first time goes to the end of the queue, one layer below. */
  lemma Discover<T(!new)>(g: Adjacency<T>, from: T, visited: set<T>, prev: map<T, T>, depth: map<T, nat>, q: seq<T>,
                          open: set<T>, curr: T, next: T)
    requires curr in depth && IsSearchState(g, from, visited, prev, depth, q, open, depth[curr])
    requires Closed(g) && Edge(g, curr, next) && next !in visited
    ensures IsSearchState(g, from, visited + {next}, prev[next := curr], depth[next := depth[curr] + 1], q + [next],
                          open + {next}, depth[curr])
    ensures Elems(q + [next]) == Elems(q) + {next}
  {
    var depth', q' := depth[next := depth[curr] + 1], q + [next];
    assert forall i {:trigger q'[i]} :: 0 <= i < |q| ==> q'[i] == q[i];
  }

  /** When all its edges are followed, a node is not open any more. */
  lemma Close<T(!new)>(g: Adjacency<T>, from: T, visited: set<T>, prev: map<T, T>, depth: map<T, nat>, q: seq<T>, curr: T)
    requires curr in depth
    requires IsSearchState(g, from, visited, prev, depth, q, Elems(q) + {curr}, depth[curr])
    requires forall v :: Edge(g, curr, v) ==> v in visited
    ensures IsSearchState(g, from, visited, prev, depth, q, Elems(q), depth[curr])
  {
  }

  lemma SearchEnds<T(!new)>(g: Adjacency<T>, from: T, visited: set<T>, prev: map<T, T>, depth: map<T, nat>, d: nat)
    requires IsSearchState(g, from, visited, prev, depth, [], Elems([]), d)
    ensures IsSearchTree(g, from, visited, prev, depth) && IsExplored(g, visited, depth, {})
  {
  }

  /** Walking `i` edges from the start leads no deeper than layer `i`. */
  lemma {:induction false} DepthAlongWalk<T(!new)>(g: Adjacency<T>, from: T, visited: set<T>, prev: map<T, T>,
                                                   depth: map<T, nat>, w: seq<T>, i: nat)
    requires IsSearchTree(g, from, visited, prev, depth) && IsExplored(g, visited, depth, {})
    requires IsWalk(g, w) && w[0] == from && i < |w|
    ensures w[i] in visited && depth[w[i]] <= i
  {
    if i > 0 {
      DepthAlongWalk(g, from, visited, prev, depth, w, i - 1);
      assert Edge(g, w[i - 1], w[i]);
    }
  }

  /** The search visits exactly what the start reaches, and no walk is shorter than the depth. */
  lemma SearchIsComplete<T(!new)>(g: Adjacency<T>, from: T, visited: set<T>, prev: map<T, T>, depth: map<T, nat>)
    requires Closed(g) && IsSearchTree(g, from, visited, prev, depth) && IsExplored(g, visited, depth, {})
    ensures forall v :: v in visited <==> Reach(g, from, v)
    ensures forall v, w {:trigger IsWalkBetween(g, w, from, v)} :: IsWalkBetween(g, w, from, v) ==>
              v in visited && depth[v] + 1 <= |w|
  {
    forall v, w {:trigger IsWalkBetween(g, w, from, v)} | IsWalkBetween(g, w, from, v)
      ensures v in visited && depth[v] + 1 <= |w|
    {
      DepthAlongWalk(g, from, visited, prev, depth, w, |w| - 1);
    }
    forall v
      ensures v in visited <==> Reach(g, from, v)
    {
      if v in visited {
        TreePathReach(g, from, visited, prev, depth, v);
      }
    }
  }
}
