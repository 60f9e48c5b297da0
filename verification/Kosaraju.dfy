/**
 * Kosaraju's algorithm: a depth-first finish order of the reversed graph `h`,
 * then collection on the original graph `g`, latest finish first.
 */
module Kosaraju {
  import opened Collections
  import opened Walks

  // ---------------------------------------------------------------- finish order

  ghost function Position<T>(order: seq<T>, x: T): (i: nat)
    requires x in order
    ensures i < |order| && order[i] == x
  {
    var i :| 0 <= i < |order| && order[i] == x;
    i
  }

  /** Visited nodes that are not finished: the ones on the recursion stack. */
  ghost function OnStack<T>(visited: set<T>, order: seq<T>): set<T> {
    visited - Elems(order)
  }

  /** `r` finishes no earlier than `y`: it is still on the stack, or comes no earlier in `order`. */
  ghost predicate OutlastsOn<T>(order: seq<T>, r: T, y: T) {
    r in order ==> y in order && Position(order, r) >= Position(order, y)
  }

  /** Some node of the component of `u` finishes no earlier than `y`. */
  ghost predicate ComponentOutlasts<T(!new)>(h: Adjacency<T>, visited: set<T>, order: seq<T>, u: T, y: T) {
    exists r :: r in visited && Mutual(h, u, r) && OutlastsOn(order, r, y)
  }

  /** What the depth-first search keeps between any two of its steps. */
  ghost predicate FinishInvariant<T(!new)>(h: Adjacency<T>, visited: set<T>, order: seq<T>) {
    && Distinct(order)
    && Elems(order) <= visited <= h.Keys
    && (forall u, v :: u in order && Edge(h, u, v) ==> v in visited)
    && (forall u, y :: u in order && y in visited && Reach(h, u, y) ==>
          ComponentOutlasts(h, visited, order, u, y))
  }

  /** Entering an unvisited node that every node on the stack reaches. */
  lemma EnterNode<T(!new)>(h: Adjacency<T>, visited: set<T>, order: seq<T>, node: T)
    requires FinishInvariant(h, visited, order)
    requires node in h && node !in visited
    ensures FinishInvariant(h, visited + {node}, order)
  {
    var entered := visited + {node};
    forall u, y | u in order && y in entered && Reach(h, u, y)
      ensures ComponentOutlasts(h, entered, order, u, y)
    {
      var target := y;
      if y == node {
        // the first step out of the finished nodes lands on the stack
        var a, b := CrossingEdge(h, u, y, Elems(order));
        assert b in visited;
        ReachEdgeAfter(h, u, a, b);
        target := b;
      }
      assert ComponentOutlasts(h, visited, order, u, target);
      var r :| r in visited && Mutual(h, u, r) && OutlastsOn(order, r, target);
      assert OutlastsOn(order, r, y);
    }
  }

  lemma ReachEdgeAfter<T(!new)>(h: Adjacency<T>, u: T, a: T, b: T)
    requires Reach(h, u, a) && Edge(h, a, b) && b in h
    ensures Reach(h, u, b)
  {
    assert IsWalkBetween(h, [a, b], a, b);
    ReachTransitive(h, u, a, b);
  }

  lemma PositionAfterAppend<T>(order: seq<T>, node: T, x: T)
    requires Distinct(order) && node !in order && x in order
    ensures Position(order + [node], x) == Position(order, x) < |order|
    ensures Position(order + [node], node) == |order|
  {
  }

  /** Leaving `node` keeps the promise for one pair of nodes. */
  lemma LeaveNodePair<T(!new)>(h: Adjacency<T>, visited: set<T>, order: seq<T>, node: T, u: T, y: T)
    requires Distinct(order) && node in visited && node in h && node !in order
    requires u == node || (u in order && ComponentOutlasts(h, visited, order, u, y))
    requires y in visited && Reach(h, u, y)
    requires y !in order ==> Reach(h, y, node)
    ensures ComponentOutlasts(h, visited, order + [node], u, y)
  {
    var left := order + [node];
    var r := node;
    if u == node {
      ReachSelf(h, node);
    } else {
      r :| r in visited && Mutual(h, u, r) && OutlastsOn(order, r, y);
    }
    if r == node && y !in left {
      ReachTransitive(h, node, u, y);
      assert Mutual(h, node, y);
      MutualTransitive(h, u, node, y);
      assert OutlastsOn(left, y, y);
    } else {
      if y in order {
        PositionAfterAppend(order, node, y);
      }
      if r in order {
        PositionAfterAppend(order, node, r);
      }
      assert OutlastsOn(left, r, y);
    }
  }

  /** Leaving a node all of whose successors are visited. */
  lemma LeaveNode<T(!new)>(h: Adjacency<T>, visited: set<T>, order: seq<T>, node: T)
    requires FinishInvariant(h, visited, order)
    requires node in visited && node !in order
    requires forall v :: Edge(h, node, v) ==> v in visited
    requires forall s :: s in OnStack(visited, order) ==> Reach(h, s, node)
    ensures FinishInvariant(h, visited, order + [node])
  {
    var left := order + [node];
    assert forall x :: x in left <==> x in order || x == node;
    forall u, y | u in left && y in visited && Reach(h, u, y)
      ensures ComponentOutlasts(h, visited, left, u, y)
    {
      LeaveNodePair(h, visited, order, node, u, y);
    }
  }

  method DfsFinishOrder<T(==, !new)>(h: Adjacency<T>, node: T, visited: set<T>, order: seq<T>)
    returns (visited': set<T>, order': seq<T>)
    requires Closed(h) && node in h && node !in visited
    requires FinishInvariant(h, visited, order)
    requires forall s :: s in OnStack(visited, order) ==> Reach(h, s, node)
    ensures FinishInvariant(h, visited', order')
    ensures visited + {node} <= visited'
    ensures order <= order'
    ensures OnStack(visited', order') == OnStack(visited, order)
    decreases h.Keys - visited
  {
    visited' := visited + {node};
    order' := order;
    EnterNode(h, visited, order, node);
    ReachSelf(h, node);
    var todo := h[node];
    while todo != {}
      invariant FinishInvariant(h, visited', order')
      invariant visited + {node} <= visited'
      invariant order <= order'
      invariant OnStack(visited', order') == OnStack(visited, order) + {node}
      invariant todo <= h[node] <= todo + visited'
      decreases todo
    {
      var next :| next in todo;
      todo := todo - {next};
      if next !in visited' {
        forall s | s in OnStack(visited', order')
          ensures Reach(h, s, next)
        {
          ReachThenEdge(h, s, node, next);
        }
        visited', order' := DfsFinishOrder(h, next, visited', order');
      }
    }
    assert node in OnStack(visited', order');
    LeaveNode(h, visited', order', node);
    order' := order' + [node];
    assert OnStack(visited', order') == OnStack(visited, order);
  }

  // ---------------------------------------------------------------- collection

  method DfsCollectComponent<T(==, !new)>(g: Adjacency<T>, node: T, visited: set<T>, component: seq<T>)
    returns (visited': set<T>, component': seq<T>)
    requires Closed(g) && node in g && node !in visited && visited <= g.Keys
    requires Distinct(component) && Elems(component) <= visited
    ensures visited + {node} <= visited' <= g.Keys
    ensures component <= component' && Distinct(component')
    ensures Elems(component') == Elems(component) + (visited' - visited)
    ensures forall x :: x in visited' - visited ==> Reach(g, node, x)
    ensures forall x, y :: x in visited' - visited && Edge(g, x, y) ==> y in visited'
    decreases g.Keys - visited
  {
    visited' := visited + {node};
    component' := component + [node];
    ReachSelf(g, node);
    var todo := g[node];
    while todo != {}
      invariant visited + {node} <= visited' <= g.Keys
      invariant component <= component' && Distinct(component')
      invariant Elems(component') == Elems(component) + (visited' - visited)
      invariant forall x :: x in visited' - visited ==> Reach(g, node, x)
      invariant forall x, y :: x in visited' - visited && x != node && Edge(g, x, y) ==> y in visited'
      invariant todo <= g[node] <= todo + visited'
      decreases todo
    {
      var next :| next in todo;
      todo := todo - {next};
      if next !in visited' {
        ReachEdge(g, node, next);
        ghost var before := visited';
        visited', component' := DfsCollectComponent(g, next, visited', component');
        forall x | x in visited' - before
          ensures Reach(g, node, x)
        {
          ReachTransitive(g, node, next, x);
        }
      }
    }
  }

  // ---------------------------------------------------------------- components

  ghost predicate IsComponent<T(!new)>(g: Adjacency<T>, c: seq<T>) {
    && c != []
    && Distinct(c)
    && Elems(c) <= g.Keys
    && (forall u, v :: u in c ==> (v in c <==> Mutual(g, u, v)))
  }

  /** Every node lies in exactly one of `cs`, and each of them is one whole component. */
  ghost predicate IsPartition<T(!new)>(g: Adjacency<T>, cs: seq<seq<T>>, covered: set<T>) {
    && (forall i :: 0 <= i < |cs| ==> IsComponent(g, cs[i]))
    && (forall i, j :: 0 <= i < j < |cs| ==> Elems(cs[i]) !! Elems(cs[j]))
    && (forall x :: x in covered <==> exists i :: 0 <= i < |cs| && x in cs[i])
  }

  /** What outlasts the node at `k` is that node itself or finishes later. */
  lemma OutlastsFromPosition<T>(finish: seq<T>, k: nat, r: T)
    requires k < |finish| && Distinct(finish) && r in finish
    requires OutlastsOn(finish, r, finish[k])
    ensures r == finish[k] || r in finish[k + 1..]
  {
    var node := finish[k];
    assert finish[Position(finish, node)] == finish[k];
    assert Position(finish, node) == k;
    if Position(finish, r) > k {
      assert r == finish[k + 1..][Position(finish, r) - k - 1];
    }
  }

  /** A node reachable from the latest unvisited finisher of the reversed graph reaches it back. */
  lemma CollectedReachesBack<T(!new)>(g: Adjacency<T>, h: Adjacency<T>, finish: seq<T>, k: nat, visited: set<T>, x: T)
    requires IsReverse(g, h)
    requires k < |finish| && Distinct(finish) && Elems(finish) == h.Keys
    requires ComponentOutlasts(h, h.Keys, finish, x, finish[k])
    requires forall y :: y in finish[k + 1..] ==> y in visited
    requires forall a, b :: a in visited && Mutual(g, a, b) ==> b in visited
    requires x !in visited
    ensures Mutual(g, finish[k], x)
  {
    var r :| r in h.Keys && Mutual(h, x, r) && OutlastsOn(finish, r, finish[k]);
    assert r in Elems(finish);
    OutlastsFromPosition(finish, k, r);
    MutualReverse(g, h, x, r);
    assert Mutual(g, r, x);
  }

  /** Collecting from the latest unvisited finisher of the reversed graph gives exactly its component. */
  lemma CollectedIsComponent<T(!new)>(g: Adjacency<T>, h: Adjacency<T>, finish: seq<T>, k: nat,
                                      visited: set<T>, visited': set<T>)
    requires IsReverse(g, h)
    requires k < |finish| && FinishInvariant(h, h.Keys, finish) && Elems(finish) == h.Keys
    requires visited <= visited' <= g.Keys && finish[k] in visited' - visited
    requires Elems(finish[k + 1..]) <= visited
    requires forall x, y :: x in visited && Mutual(g, x, y) ==> y in visited
    requires forall x :: x in visited' - visited ==> Reach(g, finish[k], x)
    requires forall x, y :: x in visited' && Edge(g, x, y) ==> y in visited'
    ensures forall x :: x in visited' - visited <==> Mutual(g, finish[k], x)
  {
    var node, later := finish[k], finish[k + 1..];
    assert forall y :: y in later ==> y in visited by {
      assert forall y :: y in later <==> y in Elems(later);
    }
    forall x
      ensures x in visited' - visited <==> Mutual(g, node, x)
    {
      if x in visited' - visited {
        ReverseReach(g, h, node, x);
        assert x in Elems(finish) && node in Elems(finish);
        CollectedReachesBack(g, h, finish, k, visited, x);
      } else if Mutual(g, node, x) {
        ClosedUnderEdges(g, visited', node, x);
        assert Mutual(g, x, node);
      }
    }
  }

  lemma ComponentMembers<T(!new)>(g: Adjacency<T>, node: T, c: seq<T>)
    requires c != [] && Distinct(c) && Elems(c) <= g.Keys
    requires forall x :: x in c <==> Mutual(g, node, x)
    ensures IsComponent(g, c)
  {
    forall u, v | u in c
      ensures v in c <==> Mutual(g, u, v)
    {
      assert Mutual(g, node, u);
      if v in c {
        MutualTransitive(g, u, node, v);
      }
      if Mutual(g, u, v) {
        MutualTransitive(g, node, u, v);
      }
    }
  }

  /** One more component, collected from `node`, keeps the partition of what has been visited. */
  lemma PartitionGrows<T(!new)>(g: Adjacency<T>, cs: seq<seq<T>>, visited: set<T>, node: T, c: seq<T>)
    requires IsPartition(g, cs, visited)
    requires c != [] && Distinct(c) && Elems(c) <= g.Keys && Elems(c) !! visited
    requires forall x :: x in c <==> Mutual(g, node, x)
    ensures IsPartition(g, cs + [c], visited + Elems(c))
  {
    ComponentMembers(g, node, c);
    var grown := cs + [c];
    forall i | 0 <= i < |cs|
      ensures Elems(cs[i]) !! Elems(c)
    {
      forall x | x in cs[i]
        ensures x in visited
      {
      }
    }
    forall x
      ensures x in visited + Elems(c) <==> exists i :: 0 <= i < |grown| && x in grown[i]
    {
      if x in visited {
        var i :| 0 <= i < |cs| && x in cs[i];
        assert x in grown[i];
      } else if x in c {
        assert x in grown[|cs|];
      }
    }
  }

  /** The node lies in one of the first `n` parts. */
  ghost predicate InSome<T>(cs: seq<seq<T>>, n: nat, x: T)
    requires n <= |cs|
  {
    exists i {:trigger cs[i]} :: 0 <= i < n && x in cs[i]
  }

  lemma InOneMore<T>(cs: seq<seq<T>>, n: nat, x: T)
    requires n <= |cs|
    ensures n == 0 ==> !InSome(cs, n, x)
    ensures n < |cs| ==> (InSome(cs, n + 1, x) <==> InSome(cs, n, x) || x in cs[n])
  {
    if n < |cs| && InSome(cs, n, x) {
      var i :| 0 <= i < n && x in cs[i];
    }
  }

  lemma PartitionCovers<T(!new)>(g: Adjacency<T>, cs: seq<seq<T>>, covered: set<T>, x: T)
    requires IsPartition(g, cs, covered)
    ensures x in covered <==> InSome(cs, |cs|, x)
  {
  }

  /** Two nodes lie in the same part exactly when each reaches the other. */
  lemma SameComponent<T(!new)>(g: Adjacency<T>, cs: seq<seq<T>>, u: T, v: T, i: nat, j: nat)
    requires IsPartition(g, cs, g.Keys)
    requires i < |cs| && j < |cs| && u in cs[i] && v in cs[j]
    ensures i == j <==> Mutual(g, u, v)
  {
    assert IsComponent(g, cs[i]);
    assert u in Elems(cs[i]) && v in Elems(cs[j]);
    assert i != j ==> Elems(cs[i]) !! Elems(cs[j]);
    assert v in cs[i] <==> v in Elems(cs[i]);
  }

  /** What the collecting loop keeps of the nodes visited so far. */
  ghost predicate CollectInvariant<T(!new)>(g: Adjacency<T>, cs: seq<seq<T>>, visited: set<T>) {
    && visited <= g.Keys
    && (forall x, y :: x in visited && Edge(g, x, y) ==> y in visited)
    && (forall x, y :: x in visited && Mutual(g, x, y) ==> y in visited)
    && IsPartition(g, cs, visited)
  }

  lemma CollectStep<T(!new)>(g: Adjacency<T>, cs: seq<seq<T>>, visited: set<T>, node: T, c: seq<T>)
    requires CollectInvariant(g, cs, visited)
    requires c != [] && Distinct(c) && Elems(c) <= g.Keys && Elems(c) !! visited
    requires forall x :: x in c <==> Mutual(g, node, x)
    requires forall x, y :: x in visited + Elems(c) && Edge(g, x, y) ==> y in visited + Elems(c)
    ensures CollectInvariant(g, cs + [c], visited + Elems(c))
  {
    PartitionGrows(g, cs, visited, node, c);
    forall x, y | x in Elems(c) && Mutual(g, x, y)
      ensures y in c
    {
      MutualTransitive(g, node, x, y);
    }
  }

  method Components<T(==, !new)>(g: Adjacency<T>, h: Adjacency<T>) returns (components: seq<seq<T>>)
    requires Closed(g) && Closed(h) && IsReverse(g, h)
    ensures IsPartition(g, components, g.Keys)
  {
    var order := FinishOrder(h);
    ghost var finish := order;
    var visited: set<T> := {};
    components := [];
    while order != []
      invariant order <= finish
      invariant CollectInvariant(g, components, visited)
      invariant Elems(finish[|order|..]) <= visited
      decreases |order|
    {
      var node := order[|order| - 1];
      order := order[..|order| - 1];
      ghost var k := |order|;
      assert finish[k..] == [node] + finish[k + 1..];
      if node in visited {
        continue;
      }
      assert node == finish[k] && node in Elems(finish);
      var visited', component := DfsCollectComponent(g, node, visited, []);
      CollectedIsComponent(g, h, finish, k, visited, visited');
      assert visited' == visited + Elems(component);
      CollectStep(g, components, visited, node, component);
      components := components + [component];
      visited := visited';
    }
    assert finish[0..] == finish;
  }

  method FinishOrder<T(==, !new)>(h: Adjacency<T>) returns (order: seq<T>)
    requires Closed(h)
    ensures FinishInvariant(h, h.Keys, order) && Elems(order) == h.Keys
  {
    var visited: set<T> := {};
    order := [];
    var roots := h.Keys;
    while roots != {}
      invariant FinishInvariant(h, visited, order)
      invariant OnStack(visited, order) == {}
      invariant roots <= h.Keys <= roots + visited
      decreases roots
    {
      var root :| root in roots;
      roots := roots - {root};
      if root !in visited {
        visited, order := DfsFinishOrder(h, root, visited, order);
      }
    }
    assert visited - Elems(order) == {};
    assert visited == h.Keys;
  }
}
