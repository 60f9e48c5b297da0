/** Kahn's topological sort and the depth-first search for a cycle. */
module TopologicalOrder {
  import opened Collections
  import opened Walks

  ghost predicate IsTopologicalOrder<T(!new)>(g: Adjacency<T>, order: seq<T>) {
    && Distinct(order)
    && Elems(order) == g.Keys
    && (forall i, j :: 0 <= i < |order| && 0 <= j < |order| && Edge(g, order[i], order[j]) ==> i < j)
  }

  /** A rank that falls along every edge rules out closed walks. */
  lemma AcyclicByRank<T(!new)>(g: Adjacency<T>, rank: map<T, int>)
    requires g.Keys <= rank.Keys
    requires forall u, v :: Edge(g, u, v) && v in g ==> rank[u] > rank[v]
    ensures Acyclic(g)
  {
    forall c | IsClosedWalk(g, c)
      ensures false
    {
      var i := 1;
      assert Edge(g, c[0], c[0 + 1]);
      while i < |c| - 1
        invariant 1 <= i < |c|
        invariant rank[c[0]] > rank[c[i]]
      {
        assert Edge(g, c[i], c[i + 1]);
        i := i + 1;
      }
    }
  }

  lemma TopologicalImpliesAcyclic<T(!new)>(g: Adjacency<T>, order: seq<T>)
    requires IsTopologicalOrder(g, order)
    ensures Acyclic(g)
  {
    assert forall u :: u in g ==> u in Elems(order);
    var rank := map u | u in g :: (var i :| 0 <= i < |order| && order[i] == u; -i);
    AcyclicByRank(g, rank);
  }

  ghost predicate HasPredecessorIn<T(!new)>(g: Adjacency<T>, s: set<T>, v: T) {
    exists u :: u in s && Edge(g, u, v)
  }

  /** When every node of a non-empty set has a predecessor in the set, some walk closes. */
  lemma CycleWithoutSource<T(!new)>(g: Adjacency<T>, s: set<T>)
    requires s != {} && s <= g.Keys
    requires forall v {:trigger HasPredecessorIn(g, s, v)} :: v in s ==> HasPredecessorIn(g, s, v)
    ensures !Acyclic(g)
  {
    var first :| first in s;
    CycleBackFrom(g, s, [first]);
  }

  lemma CloseCycle<T(!new)>(g: Adjacency<T>, u: T, p: seq<T>)
    requires IsWalk(g, p) && Edge(g, u, p[0]) && u in p
    ensures !Acyclic(g)
  {
    var k :| 0 <= k < |p| && p[k] == u;
    WalkSlice(g, p, 0, k + 1);
    WalkPrepend(g, u, p[0..k + 1]);
    assert IsClosedWalk(g, [u] + p[0..k + 1]);
  }

  lemma {:induction false} CycleBackFrom<T(!new)>(g: Adjacency<T>, s: set<T>, p: seq<T>)
    requires forall v {:trigger HasPredecessorIn(g, s, v)} :: v in s ==> HasPredecessorIn(g, s, v)
    requires IsWalk(g, p) && Distinct(p) && Elems(p) <= s <= g.Keys
    ensures !Acyclic(g)
    decreases |s| - |p|
  {
    assert p[0] in Elems(p) && HasPredecessorIn(g, s, p[0]);
    var u :| u in s && Edge(g, u, p[0]);
    if u in p {
      CloseCycle(g, u, p);
    } else {
      var longer := [u] + p;
      WalkPrepend(g, u, p);
      DistinctPrepend(u, p);
      DistinctCardinality(longer);
      SubsetCardinality(Elems(longer), s);
      CycleBackFrom(g, s, longer);
    }
  }

  lemma TargetsComeLater<T(!new)>(g: Adjacency<T>, order: seq<T>, i: nat)
    requires IsTopologicalOrder(g, order) && i < |order|
    ensures forall v :: Edge(g, order[i], v) ==> v !in Elems(order[..i + 1])
  {
  }

  // ---------------------------------------------------------------- Kahn

  /** The sources of the edges into `v` that start in `s`. */
  ghost function InFrom<T>(g: Adjacency<T>, s: set<T>, v: T): set<T> {
    set u | u in s && Edge(g, u, v)
  }

  lemma InFromGrows<T>(g: Adjacency<T>, s: set<T>, u: T, v: T)
    requires u !in s
    ensures |InFrom(g, s + {u}, v)| == |InFrom(g, s, v)| + (if Edge(g, u, v) then 1 else 0)
  {
    if Edge(g, u, v) {
      assert InFrom(g, s + {u}, v) == InFrom(g, s, v) + {u};
    } else {
      assert InFrom(g, s + {u}, v) == InFrom(g, s, v);
    }
  }

  ghost function Pending(yes: bool): nat {
    if yes then 1 else 0
  }

  lemma NoneInFrom<T(!new)>(g: Adjacency<T>)
    ensures forall v :: |InFrom(g, {}, v)| == 0
  {
  }

  method Indegrees<T(==, !new)>(g: Adjacency<T>) returns (indegree: map<T, nat>)
    requires Closed(g)
    ensures indegree.Keys == g.Keys
    ensures forall v :: v in g ==> indegree[v] == |InFrom(g, g.Keys, v)|
  {
    hide InFrom;
    indegree := map v | v in g.Keys :: 0;
    var nodes := g.Keys;
    NoneInFrom(g);
    assert g.Keys - nodes == {};
    while nodes != {}
      invariant nodes <= g.Keys == indegree.Keys
      invariant forall v :: v in g ==> indegree[v] == |InFrom(g, g.Keys - nodes, v)|
      decreases nodes
    {
      var u :| u in nodes;
      indegree := CountEdgesFrom(g, g.Keys - nodes, u, indegree);
      assert g.Keys - (nodes - {u}) == g.Keys - nodes + {u};
      nodes := nodes - {u};
    }
    assert g.Keys - nodes == g.Keys;
  }

  method CountEdgesFrom<T(==, !new)>(g: Adjacency<T>, ghost done: set<T>, u: T, counts: map<T, nat>)
    returns (indegree: map<T, nat>)
    requires Closed(g) && u in g && u !in done
    requires counts.Keys == g.Keys
    requires forall v :: v in g ==> counts[v] == |InFrom(g, done, v)|
    ensures indegree.Keys == g.Keys
    ensures forall v :: v in g ==> indegree[v] == |InFrom(g, done + {u}, v)|
  {
    indegree := counts;
    var todo := g[u];
    while todo != {}
      invariant indegree.Keys == g.Keys && todo <= g[u]
      invariant forall v :: v in g ==> indegree[v] == counts[v] + Pending(v in g[u] - todo)
      decreases todo
    {
      var next :| next in todo;
      todo := todo - {next};
      indegree := indegree[next := indegree[next] + 1];
    }
    forall v | v in g
      ensures indegree[v] == |InFrom(g, done + {u}, v)|
    {
      InFromGrows(g, done, u, v);
    }
  }

  /**
   * While the counts of `todo`, the remaining successors of the node just
   * removed, still include that node. `pos` gives each removed node its place.
   */
  ghost predicate KahnInvariant<T(!new)>(g: Adjacency<T>, indegree: map<T, nat>, queue: seq<T>, order: seq<T>,
                                         pos: map<T, nat>, todo: set<T>) {
    && indegree.Keys == g.Keys
    && Distinct(queue) && Elems(queue) <= g.Keys && Elems(queue) !! pos.Keys
    && (forall v :: v in g ==> indegree[v] == |InFrom(g, g.Keys - pos.Keys, v)| + Pending(v in todo))
    && (forall v :: v in g ==> (indegree[v] == 0 <==> v in pos || v in Elems(queue)))
    && IsPlacement(g, order, pos)
  }

  ghost predicate IsPlacement<T(!new)>(g: Adjacency<T>, order: seq<T>, pos: map<T, nat>) {
    && pos.Keys <= g.Keys
    && (forall i :: 0 <= i < |order| ==> order[i] in pos && pos[order[i]] == i)
    && (forall v :: v in pos ==> pos[v] < |order| && order[pos[v]] == v)
    && (forall u, v :: Edge(g, u, v) && v in pos ==> u in pos && pos[u] < pos[v])
  }

  lemma PlacementCardinality<T(!new)>(g: Adjacency<T>, order: seq<T>, pos: map<T, nat>)
    requires IsPlacement(g, order, pos)
    ensures |order| <= |g.Keys|
    ensures Distinct(order)
    ensures |order| == |g.Keys| <==> pos.Keys == g.Keys
    ensures pos.Keys == g.Keys ==> IsTopologicalOrder(g, order)
  {
    assert Elems(order) == pos.Keys;
    DistinctCardinality(order);
    SubsetCardinality(pos.Keys, g.Keys);
  }

  /** Counting from `curr` no longer: it moves from `left` to the removed nodes. */
  lemma CountsAfterRemoval<T(!new)>(g: Adjacency<T>, left: set<T>, curr: T, indegree: map<T, nat>)
    requires curr in left && indegree.Keys == g.Keys && curr in g
    requires forall v :: v in g ==> indegree[v] == |InFrom(g, left, v)|
    requires indegree[curr] == 0
    ensures forall v :: v in g ==> indegree[v] == |InFrom(g, left - {curr}, v)| + Pending(v in g[curr])
    ensures forall u :: Edge(g, u, curr) ==> u !in left
  {
    assert left == left - {curr} + {curr};
    forall v | v in g
      ensures indegree[v] == |InFrom(g, left - {curr}, v)| + Pending(v in g[curr])
    {
      InFromGrows(g, left - {curr}, curr, v);
    }
    assert InFrom(g, left, curr) == {};
    forall u | Edge(g, u, curr)
      ensures u !in left
    {
      assert u !in InFrom(g, left, curr);
    }
  }

  lemma PlaceNext<T(!new)>(g: Adjacency<T>, order: seq<T>, pos: map<T, nat>, curr: T)
    requires IsPlacement(g, order, pos)
    requires curr in g && curr !in pos
    requires forall u :: Edge(g, u, curr) ==> u in pos
    ensures IsPlacement(g, order + [curr], pos[curr := |order|])
  {
  }

  /** Moving the head of the queue to the end of the order. */
  lemma StartRemoving<T(!new)>(g: Adjacency<T>, indegree: map<T, nat>, q: seq<T>, order: seq<T>, pos: map<T, nat>)
    requires KahnInvariant(g, indegree, q, order, pos, {}) && q != []
    ensures q[0] in g
    ensures KahnInvariant(g, indegree, q[1..], order + [q[0]], pos[q[0] := |order|], g[q[0]])
  {
    hide InFrom;
    var curr := q[0];
    HeadAndTail(q);
    assert indegree[curr] == 0;
    var pos' := pos[curr := |order|];
    CountsAfterRemoval(g, g.Keys - pos.Keys, curr, indegree);
    assert g.Keys - pos'.Keys == g.Keys - pos.Keys - {curr};
    PlaceNext(g, order, pos, curr);
  }

  lemma NothingLeft<T(!new)>(g: Adjacency<T>, indegree: map<T, nat>, order: seq<T>, pos: map<T, nat>)
    requires KahnInvariant(g, indegree, [], order, pos, {})
    ensures |order| == |g.Keys| <==> Acyclic(g)
    ensures |order| == |g.Keys| ==> IsTopologicalOrder(g, order)
  {
    PlacementCardinality(g, order, pos);
    if pos.Keys == g.Keys {
      TopologicalImpliesAcyclic(g, order);
    } else {
      var left := g.Keys - pos.Keys;
      forall v | v in left
        ensures HasPredecessorIn(g, left, v)
      {
        assert InFrom(g, left, v) != {};
        var u :| u in InFrom(g, left, v);
      }
      CycleWithoutSource(g, left);
    }
  }

  method Sources<T(==, !new)>(g: Adjacency<T>, indegree: map<T, nat>) returns (q: seq<T>)
    requires indegree.Keys == g.Keys
    ensures Distinct(q)
    ensures forall v :: v in Elems(q) <==> v in g && indegree[v] == 0
  {
    q := [];
    var nodes := g.Keys;
    while nodes != {}
      invariant nodes <= g.Keys
      invariant Distinct(q)
      invariant forall v :: v in Elems(q) <==> v in g.Keys - nodes && indegree[v] == 0
      decreases nodes
    {
      var node :| node in nodes;
      nodes := nodes - {node};
      if indegree[node] == 0 {
        DistinctAppend(q, node);
        q := q + [node];
      }
    }
  }

  method Sorted<T(==, !new)>(g: Adjacency<T>) returns (result: Option<seq<T>>)
    requires Closed(g)
    ensures result.Some? <==> Acyclic(g)
    ensures result.Some? ==> IsTopologicalOrder(g, result.value)
  {
    var indegree := Indegrees(g);
    var q := Sources(g, indegree);
    var order: seq<T> := [];
    ghost var pos: map<T, nat> := map[];
    assert g.Keys - pos.Keys == g.Keys;
    while q != []
      invariant KahnInvariant(g, indegree, q, order, pos, {})
      decreases |g.Keys| - |order|
    {
      var curr := q[0];
      StartRemoving(g, indegree, q, order, pos);
      pos := pos[curr := |order|];
      q := q[1..];
      order := order + [curr];
      PlacementCardinality(g, order, pos);
      indegree, q := ReleaseSuccessors(g, curr, indegree, q, order, pos);
    }
    NothingLeft(g, indegree, order, pos);
    return if |order| == |g.Keys| then Some(order) else None;
  }

  method ReleaseSuccessors<T(==, !new)>(g: Adjacency<T>, curr: T, counts: map<T, nat>, q: seq<T>,
                                        ghost order: seq<T>, ghost pos: map<T, nat>)
    returns (indegree: map<T, nat>, queue: seq<T>)
    requires Closed(g) && curr in g
    requires KahnInvariant(g, counts, q, order, pos, g[curr])
    ensures KahnInvariant(g, indegree, queue, order, pos, {})
  {
    hide KahnInvariant;
    indegree, queue := counts, q;
    var todo := g[curr];
    while todo != {}
      invariant todo <= g[curr]
      invariant KahnInvariant(g, indegree, queue, order, pos, todo)
      decreases todo
    {
      var next :| next in todo;
      ReleaseOne(g, indegree, queue, order, pos, todo, next);
      todo := todo - {next};
      indegree := indegree[next := indegree[next] - 1];
      if indegree[next] == 0 {
        queue := queue + [next];
      }
    }
  }

  lemma ReleaseOne<T(!new)>(g: Adjacency<T>, counts: map<T, nat>, queue: seq<T>, order: seq<T>, pos: map<T, nat>,
                            todo: set<T>, next: T)
    requires Closed(g) && KahnInvariant(g, counts, queue, order, pos, todo) && next in todo && next in g
    ensures next in counts && counts[next] > 0
    ensures KahnInvariant(g, counts[next := counts[next] - 1], if counts[next] == 1 then queue + [next] else queue,
                          order, pos, todo - {next})
  {
    hide InFrom, IsPlacement, Distinct, Closed;
    assert counts[next] > 0;
    if counts[next] == 1 {
      DistinctAppend(queue, next);
    }
  }

  // ---------------------------------------------------------------- cycle detection

  datatype Mark = Active | Finished

  /**
   * `stack` is the walk being explored; `rank` gives each fully explored node
   * a number below `clock` and above those of all its successors.
   */
  ghost predicate SearchInvariant<T(!new)>(g: Adjacency<T>, state: map<T, Mark>, stack: seq<T>,
                                           stackPos: map<T, nat>, rank: map<T, int>, clock: int) {
    && state.Keys <= g.Keys
    && (stack != [] ==> IsWalk(g, stack))
    && (forall x :: x in stack ==> x in state && state[x] == Active)
    && (forall x :: x in state && state[x] == Active ==>
          x in stackPos && stackPos[x] < |stack| && stack[stackPos[x]] == x)
    && (forall x :: x in rank <==> x in state && state[x] == Finished)
    && (forall u :: u in rank ==> rank[u] < clock)
    && (forall u, v :: Edge(g, u, v) && u in rank ==> v in rank && rank[v] < rank[u])
  }

  lemma EnterSearch<T(!new)>(g: Adjacency<T>, node: T, state: map<T, Mark>, stack: seq<T>,
                             stackPos: map<T, nat>, rank: map<T, int>, clock: int)
    requires SearchInvariant(g, state, stack, stackPos, rank, clock)
    requires node in g && node !in state
    requires stack != [] ==> Edge(g, stack[|stack| - 1], node)
    ensures SearchInvariant(g, state[node := Active], stack + [node], stackPos[node := |stack|], rank, clock)
  {
    if stack != [] {
      WalkAppend(g, stack, node);
    }
  }

  lemma LeaveSearch<T(!new)>(g: Adjacency<T>, node: T, state: map<T, Mark>, stack: seq<T>,
                             stackPos: map<T, nat>, rank: map<T, int>, clock: int)
    requires SearchInvariant(g, state, stack + [node], stackPos, rank, clock)
    requires node in g && g[node] <= rank.Keys
    requires node !in stack
    ensures SearchInvariant(g, state[node := Finished], stack, stackPos - {node}, rank[node := clock], clock + 1)
  {
    assert (stack + [node])[|stack|] == node && node in stack + [node];
    forall x | x in stack
      ensures x in state && state[x] == Active
    {
      assert x in stack + [node];
    }
    assert stack != [] ==> IsWalk(g, stack) by {
      assert forall i :: 0 <= i < |stack| ==> stack[i] == (stack + [node])[i];
    }
  }

  lemma CloseAtActive<T(!new)>(g: Adjacency<T>, stack: seq<T>, start: nat, next: T)
    requires IsWalk(g, stack) && start < |stack| && stack[start] == next
    requires Edge(g, stack[|stack| - 1], next)
    ensures IsClosedWalk(g, stack[start..] + [next])
  {
    WalkSlice(g, stack, start, |stack|);
    WalkAppend(g, stack[start..], next);
  }

  method FindCycleFrom<T(==, !new)>(g: Adjacency<T>, node: T, state: map<T, Mark>, stack: seq<T>,
                                    stackPos: map<T, nat>, ghost rank: map<T, int>, ghost clock: int)
    returns (cycle: Option<seq<T>>, state': map<T, Mark>, stack': seq<T>, stackPos': map<T, nat>,
             ghost rank': map<T, int>, ghost clock': int)
    requires Closed(g) && node in g && node !in state
    requires SearchInvariant(g, state, stack, stackPos, rank, clock)
    requires stack != [] ==> Edge(g, stack[|stack| - 1], node)
    ensures cycle.Some? ==> IsClosedWalk(g, cycle.value)
    ensures cycle.None? ==> SearchInvariant(g, state', stack', stackPos', rank', clock')
    ensures cycle.None? ==> stack' == stack && state.Keys <= state'.Keys
    ensures cycle.None? ==> rank.Keys + {node} <= rank'.Keys
    decreases g.Keys - state.Keys
  {
    EnterSearch(g, node, state, stack, stackPos, rank, clock);
    state' := state[node := Active];
    stackPos' := stackPos[node := |stack|];
    stack' := stack + [node];
    rank', clock' := rank, clock;
    var todo := g[node];
    while todo != {}
      invariant SearchInvariant(g, state', stack', stackPos', rank', clock')
      invariant stack' == stack + [node]
      invariant rank.Keys <= rank'.Keys
      invariant state.Keys + {node} <= state'.Keys
      invariant todo <= g[node] <= todo + rank'.Keys
      decreases todo
    {
      var next :| next in todo;
      todo := todo - {next};
      if next !in state' {
        cycle, state', stack', stackPos', rank', clock' :=
          FindCycleFrom(g, next, state', stack', stackPos', rank', clock');
        if cycle.Some? {
          return;
        }
      } else if state'[next] == Active {
        var start := stackPos'[next];
        var found := stack'[start..] + [next];
        CloseAtActive(g, stack', start, next);
        return Some(found), state', stack', stackPos', rank', clock';
      }
    }
    assert node !in stack;
    LeaveSearch(g, node, state', stack, stackPos', rank', clock');
    stack' := stack'[..|stack'| - 1];
    assert stack' == stack;
    stackPos' := stackPos' - {node};
    state' := state'[node := Finished];
    rank', clock' := rank'[node := clock'], clock' + 1;
    cycle := None;
  }

  method DetectCycle<T(==, !new)>(g: Adjacency<T>) returns (cycle: Option<seq<T>>)
    requires Closed(g)
    ensures cycle.None? <==> Acyclic(g)
    ensures cycle.Some? ==> IsClosedWalk(g, cycle.value)
  {
    var state: map<T, Mark> := map[];
    var stack: seq<T> := [];
    var stackPos: map<T, nat> := map[];
    ghost var rank: map<T, int>, clock := map[], 0;
    var nodes := g.Keys;
    while nodes != {}
      invariant SearchInvariant(g, state, stack, stackPos, rank, clock)
      invariant stack == []
      invariant nodes <= g.Keys <= nodes + rank.Keys
      decreases nodes
    {
      var node :| node in nodes;
      nodes := nodes - {node};
      if node !in state {
        cycle, state, stack, stackPos, rank, clock :=
          FindCycleFrom(g, node, state, stack, stackPos, rank, clock);
        if cycle.Some? {
          return;
        }
      }
    }
    AcyclicByRank(g, rank);
    cycle := None;
  }
}
