/**
 * Forests in an undirected graph given by its nodes and a collection of edges:
 * how many edges they have, and why a greedy one is lightest.
 */
module SpanningForests {
  import opened Collections
  import opened Walks
  import opened WeightedWalks

  ghost predicate Joined<T(!new)>(es: set<WeightedEdge<T>>, a: T, b: T) {
    exists e :: e in es && ((e.v1 == a && e.v2 == b) || (e.v1 == b && e.v2 == a))
  }

  ghost function AdjacencyOf<T(!new)>(nodes: set<T>, es: set<WeightedEdge<T>>): Adjacency<T> {
    map v | v in nodes :: set u | u in nodes && Joined(es, v, u)
  }

  ghost predicate Connected<T(!new)>(nodes: set<T>, es: set<WeightedEdge<T>>, u: T, v: T) {
    Reach(AdjacencyOf(nodes, es), u, v)
  }

  ghost predicate EdgesWithin<T>(nodes: set<T>, es: set<WeightedEdge<T>>) {
    forall e :: e in es ==> e.v1 in nodes && e.v2 in nodes
  }

  /** No edge joins nodes that the other edges already connect, and no edge is listed twice. */
  ghost predicate IsForest<T(!new)>(nodes: set<T>, b: seq<WeightedEdge<T>>) {
    && Distinct(b) && EdgesWithin(nodes, Elems(b))
    && forall e {:trigger Connected(nodes, Elems(b) - {e}, e.v1, e.v2)} ::
         e in b ==> !Connected(nodes, Elems(b) - {e}, e.v1, e.v2)
  }

  /** The edges `f` connect the two ends of every edge of `a`. */
  ghost predicate ConnectsAll<T(!new)>(nodes: set<T>, f: set<WeightedEdge<T>>, a: set<WeightedEdge<T>>) {
    forall e {:trigger Connected(nodes, f, e.v1, e.v2)} :: e in a ==> Connected(nodes, f, e.v1, e.v2)
  }

  ghost predicate SameConnections<T(!new)>(nodes: set<T>, a: set<WeightedEdge<T>>, b: set<WeightedEdge<T>>) {
    forall u, v :: u in nodes && v in nodes ==> (Connected(nodes, a, u, v) <==> Connected(nodes, b, u, v))
  }

  ghost predicate IsSpanningForest<T(!new)>(nodes: set<T>, es: set<WeightedEdge<T>>, b: seq<WeightedEdge<T>>) {
    Elems(b) <= es && IsForest(nodes, b) && SameConnections(nodes, Elems(b), es)
  }

  ghost function TotalWeight<T>(b: seq<WeightedEdge<T>>): real {
    if b == [] then 0.0 else TotalWeight(b[..|b| - 1]) + b[|b| - 1].weight
  }

  // ---------------------------------------------------------------- connection

  lemma ConnectedSymmetric<T(!new)>(nodes: set<T>, es: set<WeightedEdge<T>>, u: T, v: T)
    requires Connected(nodes, es, u, v)
    ensures Connected(nodes, es, v, u)
  {
    var g := AdjacencyOf(nodes, es);
    assert forall a, b :: Joined(es, a, b) <==> Joined(es, b, a);
    ReverseReach(g, g, u, v);
  }

  lemma ConnectedByEdge<T(!new)>(nodes: set<T>, es: set<WeightedEdge<T>>, e: WeightedEdge<T>)
    requires e in es && e.v1 in nodes && e.v2 in nodes
    ensures Connected(nodes, es, e.v1, e.v2)
  {
    assert Joined(es, e.v1, e.v2);
    ReachEdge(AdjacencyOf(nodes, es), e.v1, e.v2);
  }

  /** When `b` connects the ends of every edge of `a`, it connects all that `a` connects. */
  lemma ConnectedThrough<T(!new)>(nodes: set<T>, a: set<WeightedEdge<T>>, b: set<WeightedEdge<T>>, u: T, v: T)
    requires ConnectsAll(nodes, b, a)
    requires u in nodes && Connected(nodes, a, u, v)
    ensures Connected(nodes, b, u, v)
  {
    var g, h := AdjacencyOf(nodes, a), AdjacencyOf(nodes, b);
    var s := set x | x in nodes && Reach(h, u, x);
    ReachSelf(h, u);
    forall x, y | x in s && Edge(g, x, y)
      ensures y in s
    {
      var e :| e in a && ((e.v1 == x && e.v2 == y) || (e.v1 == y && e.v2 == x));
      assert Connected(nodes, b, e.v1, e.v2);
      if e.v1 == y {
        ConnectedSymmetric(nodes, b, y, x);
      }
      ReachTransitive(h, u, x, y);
    }
    ClosedUnderEdges(g, s, u, v);
  }

  lemma ConnectedMonotone<T(!new)>(nodes: set<T>, a: set<WeightedEdge<T>>, b: set<WeightedEdge<T>>, u: T, v: T)
    requires a <= b && EdgesWithin(nodes, a) && u in nodes && Connected(nodes, a, u, v)
    ensures Connected(nodes, b, u, v)
  {
    forall e | e in a
      ensures Connected(nodes, b, e.v1, e.v2)
    {
      ConnectedByEdge(nodes, b, e);
    }
    ConnectedThrough(nodes, a, b, u, v);
  }

  // ---------------------------------------------------------------- representatives

  /** `rep` names one node of each connected component of `es`. */
  ghost predicate Represents<T(!new)>(nodes: set<T>, es: set<WeightedEdge<T>>, rep: map<T, T>) {
    && rep.Keys == nodes
    && (forall v {:trigger rep[v]} :: v in nodes ==> rep[v] in nodes && rep[rep[v]] == rep[v])
    && (forall u, v {:trigger Connected(nodes, es, u, v)} :: u in nodes && v in nodes ==>
          (rep[u] == rep[v] <==> Connected(nodes, es, u, v)))
  }

  /** The class of `from` joins the class of `to`. */
  ghost function MergeClasses<T>(rep: map<T, T>, from: T, to: T): map<T, T> {
    map x | x in rep :: if rep[x] == from then to else rep[x]
  }

  lemma NoEdges<T(!new)>(nodes: set<T>, rep: map<T, T>)
    requires rep.Keys == nodes && forall v :: v in nodes ==> rep[v] == v
    ensures Represents(nodes, {}, rep)
  {
    forall u, v | u in nodes && v in nodes
      ensures u == v <==> Connected(nodes, {}, u, v)
    {
      var g := AdjacencyOf(nodes, {});
      ReachSelf(g, u);
      if u != v && Reach(g, u, v) {
        ClosedUnderEdges(g, {u}, u, v);
      }
    }
  }

  lemma MergeIsIdempotent<T>(nodes: set<T>, rep: map<T, T>, from: T, to: T)
    requires rep.Keys == nodes && from in nodes && to in nodes && rep[to] == to
    requires forall v {:trigger rep[v]} :: v in nodes ==> rep[v] in nodes && rep[rep[v]] == rep[v]
    ensures var merged := MergeClasses(rep, from, to);
            forall v {:trigger merged[v]} :: v in nodes ==> merged[v] in nodes && merged[merged[v]] == merged[v]
  {
  }

  lemma MergeRepresents<T(!new)>(nodes: set<T>, es: set<WeightedEdge<T>>, rep: map<T, T>, e: WeightedEdge<T>,
                                 from: T, to: T)
    requires EdgesWithin(nodes, es) && Represents(nodes, es, rep) && e.v1 in nodes && e.v2 in nodes
    requires (from == rep[e.v1] && to == rep[e.v2]) || (from == rep[e.v2] && to == rep[e.v1])
    ensures Represents(nodes, es + {e}, MergeClasses(rep, from, to))
  {
    assert rep[rep[e.v1]] == rep[e.v1] && rep[rep[e.v2]] == rep[e.v2];
    MergeIsIdempotent(nodes, rep, from, to);
    MergedAgree(nodes, es, rep, e, from, to);
  }

  lemma MergedAgree<T(!new)>(nodes: set<T>, es: set<WeightedEdge<T>>, rep: map<T, T>, e: WeightedEdge<T>,
                             from: T, to: T)
    requires EdgesWithin(nodes, es) && Represents(nodes, es, rep) && e.v1 in nodes && e.v2 in nodes
    requires (from == rep[e.v1] && to == rep[e.v2]) || (from == rep[e.v2] && to == rep[e.v1])
    ensures var merged := MergeClasses(rep, from, to);
            forall u, v {:trigger Connected(nodes, es + {e}, u, v)} :: u in nodes && v in nodes ==>
              (merged[u] == merged[v] <==> Connected(nodes, es + {e}, u, v))
  {
    var merged := MergeClasses(rep, from, to);
    forall u, v {:trigger Connected(nodes, es + {e}, u, v)} | u in nodes && v in nodes
      ensures merged[u] == merged[v] <==> Connected(nodes, es + {e}, u, v)
    {
      MergedIffConnected(nodes, es, rep, e, from, to, u, v);
    }
  }

  lemma MergedIffConnected<T(!new)>(nodes: set<T>, es: set<WeightedEdge<T>>, rep: map<T, T>, e: WeightedEdge<T>,
                                    from: T, to: T, u: T, v: T)
    requires EdgesWithin(nodes, es) && Represents(nodes, es, rep) && e.v1 in nodes && e.v2 in nodes && u in nodes && v in nodes
    requires (from == rep[e.v1] && to == rep[e.v2]) || (from == rep[e.v2] && to == rep[e.v1])
    ensures var merged := MergeClasses(rep, from, to);
            merged[u] == merged[v] <==> Connected(nodes, es + {e}, u, v)
  {
    if MergeClasses(rep, from, to)[u] == MergeClasses(rep, from, to)[v] {
      MergedAreConnected(nodes, es, rep, e, u, v);
    } else if Connected(nodes, es + {e}, u, v) {
      ConnectedAreMerged(nodes, es, rep, e, from, to, u, v);
    }
  }

  lemma MergedAreConnected<T(!new)>(nodes: set<T>, es: set<WeightedEdge<T>>, rep: map<T, T>, e: WeightedEdge<T>,
                                    u: T, v: T)
    requires EdgesWithin(nodes, es) && Represents(nodes, es, rep) && e.v1 in nodes && e.v2 in nodes && u in nodes && v in nodes
    requires || rep[u] == rep[v]
             || (rep[u] == rep[e.v1] && rep[v] == rep[e.v2]) || (rep[u] == rep[e.v2] && rep[v] == rep[e.v1])
    ensures Connected(nodes, es + {e}, u, v)
  {
    var g := AdjacencyOf(nodes, es + {e});
    if rep[u] == rep[v] {
      ConnectedMonotone(nodes, es, es + {e}, u, v);
    } else {
      var near, far := if rep[u] == rep[e.v1] then e.v1 else e.v2, if rep[u] == rep[e.v1] then e.v2 else e.v1;
      ConnectedMonotone(nodes, es, es + {e}, u, near);
      ConnectedMonotone(nodes, es, es + {e}, far, v);
      ConnectedByEdge(nodes, es + {e}, e);
      ConnectedSymmetric(nodes, es + {e}, e.v1, e.v2);
      ReachTransitive(g, u, near, far);
      ReachTransitive(g, u, far, v);
    }
  }

  lemma ConnectedAreMerged<T(!new)>(nodes: set<T>, es: set<WeightedEdge<T>>, rep: map<T, T>, e: WeightedEdge<T>,
                                    from: T, to: T, u: T, v: T)
    requires EdgesWithin(nodes, es) && Represents(nodes, es, rep) && e.v1 in nodes && e.v2 in nodes && u in nodes && v in nodes
    requires (from == rep[e.v1] && to == rep[e.v2]) || (from == rep[e.v2] && to == rep[e.v1])
    requires Connected(nodes, es + {e}, u, v)
    ensures MergeClasses(rep, from, to)[u] == MergeClasses(rep, from, to)[v]
  {
    var merged, g := MergeClasses(rep, from, to), AdjacencyOf(nodes, es + {e});
    var s := set x | x in nodes && merged[x] == merged[u];
    forall x, y | x in s && Edge(g, x, y)
      ensures y in s
    {
      var d :| d in es + {e} && ((d.v1 == x && d.v2 == y) || (d.v1 == y && d.v2 == x));
      if d in es {
        ConnectedByEdge(nodes, es, d);
      }
    }
    ClosedUnderEdges(g, s, u, v);
  }

  // ---------------------------------------------------------------- counting components

  lemma MergeCount<T(!new)>(rep: map<T, T>, from: T, to: T)
    requires from in rep && to in rep && rep[from] == from && rep[to] == to && from != to
    ensures |MergeClasses(rep, from, to).Values| == |rep.Values| - 1
  {
    var merged := MergeClasses(rep, from, to);
    forall y
      ensures y in merged.Values <==> y in rep.Values - {from}
    {
      if y in merged.Values {
        var x :| x in merged && merged[x] == y;
        assert rep[to] in rep.Values;
      }
      if y in rep.Values - {from} {
        var x :| x in rep && rep[x] == y;
        assert merged[x] == y;
      }
    }
    assert merged.Values == rep.Values - {from};
    assert rep[from] in rep.Values;
  }

  /** Representatives for any edges: each edge costs at most one component, and exactly one in a forest. */
  lemma {:induction false} ComponentCount<T(!new)>(nodes: set<T>, b: seq<WeightedEdge<T>>) returns (rep: map<T, T>)
    requires EdgesWithin(nodes, Elems(b))
    ensures Represents(nodes, Elems(b), rep)
    ensures |rep.Values| >= |nodes| - |b|
    ensures IsForest(nodes, b) ==> |rep.Values| == |nodes| - |b|
  {
    hide Connected, MergeClasses, IsForest;
    if b == [] {
      rep := map v | v in nodes :: v;
      NoEdges(nodes, rep);
      assert rep.Values == nodes by {
        assert forall v :: v in nodes ==> rep[v] in rep.Values;
      }
      assert Elems(b) == {};
    } else {
      var init, e := b[..|b| - 1], b[|b| - 1];
      LastOfEdges(nodes, b);
      var before := ComponentCount(nodes, init);
      rep := MergeClasses(before, before[e.v2], before[e.v1]);
      MergeRepresents(nodes, Elems(init), before, e, before[e.v2], before[e.v1]);
      CountAfterEdge(nodes, Elems(init), before, e);
      if IsForest(nodes, b) {
        PrefixOfForest(nodes, b);
        LastIsNew(nodes, b);
      }
    }
  }

  lemma LastOfEdges<T>(nodes: set<T>, b: seq<WeightedEdge<T>>)
    requires b != [] && EdgesWithin(nodes, Elems(b))
    ensures var init, e := b[..|b| - 1], b[|b| - 1];
            Elems(b) == Elems(init) + {e} && EdgesWithin(nodes, Elems(init)) && e.v1 in nodes && e.v2 in nodes
  {
    assert b[|b| - 1] in Elems(b);
  }

  /** An edge between two classes makes them one, any other changes nothing. */
  lemma CountAfterEdge<T(!new)>(nodes: set<T>, es: set<WeightedEdge<T>>, rep: map<T, T>, e: WeightedEdge<T>)
    requires Represents(nodes, es, rep) && e.v1 in nodes && e.v2 in nodes
    ensures |MergeClasses(rep, rep[e.v2], rep[e.v1]).Values| ==
            |rep.Values| - if Connected(nodes, es, e.v1, e.v2) then 0 else 1
  {
    hide Connected;
    assert rep[e.v1] == rep[e.v2] <==> Connected(nodes, es, e.v1, e.v2);
    if rep[e.v2] == rep[e.v1] {
      assert MergeClasses(rep, rep[e.v2], rep[e.v1]) == rep;
    } else {
      MergeCount(rep, rep[e.v2], rep[e.v1]);
    }
  }

  lemma LastIsNew<T(!new)>(nodes: set<T>, b: seq<WeightedEdge<T>>)
    requires IsForest(nodes, b) && b != []
    ensures !Connected(nodes, Elems(b[..|b| - 1]), b[|b| - 1].v1, b[|b| - 1].v2)
  {
    DistinctWithout(b, |b| - 1);
    assert b[..|b| - 1] + b[|b|..] == b[..|b| - 1];
    assert b[|b| - 1] in b;
  }

  lemma PrefixOfForest<T(!new)>(nodes: set<T>, b: seq<WeightedEdge<T>>)
    requires IsForest(nodes, b) && b != []
    ensures IsForest(nodes, b[..|b| - 1])
  {
    var init := b[..|b| - 1];
    forall e | e in init
      ensures !Connected(nodes, Elems(init) - {e}, e.v1, e.v2)
    {
      assert e in b && e in Elems(b);
      if Connected(nodes, Elems(init) - {e}, e.v1, e.v2) {
        ConnectedMonotone(nodes, Elems(init) - {e}, Elems(b) - {e}, e.v1, e.v2);
      }
    }
  }

  ghost predicate HasPreimage<T(!new)>(s: set<T>, f: map<T, T>, y: T)
    requires s <= f.Keys
  {
    exists x :: x in s && f[x] == y
  }

  lemma {:induction false} ImageCardinality<T(!new)>(s: set<T>, f: map<T, T>, image: set<T>)
    requires s <= f.Keys
    requires forall y {:trigger HasPreimage(s, f, y)} :: y in image ==> HasPreimage(s, f, y)
    ensures |image| <= |s|
    decreases s
  {
    if s == {} {
      assert forall y :: !HasPreimage(s, f, y);
      assert forall y :: y in image ==> HasPreimage(s, f, y);
    } else {
      var x :| x in s;
      forall y | y in image - {f[x]}
        ensures HasPreimage(s - {x}, f, y)
      {
        assert HasPreimage(s, f, y);
      }
      ImageCardinality(s - {x}, f, image - {f[x]});
    }
  }

  /** Edges whose ends `f` all connects leave at least as many components as `f`. */
  lemma FinerHasMoreComponents<T(!new)>(nodes: set<T>, a: set<WeightedEdge<T>>, repA: map<T, T>,
                                        f: set<WeightedEdge<T>>, repF: map<T, T>)
    requires Represents(nodes, a, repA) && Represents(nodes, f, repF)
    requires ConnectsAll(nodes, f, a)
    ensures |repA.Values| >= |repF.Values|
  {
    forall y | y in repF.Values
      ensures HasPreimage(repA.Values, repF, y)
    {
      var v :| v in nodes && repF[v] == y;
      assert repA[v] in repA.Values;
      RepresentativesAgree(nodes, a, repA, f, repF, v);
    }
    ImageCardinality(repA.Values, repF, repF.Values);
  }

  lemma RepresentativesAgree<T(!new)>(nodes: set<T>, a: set<WeightedEdge<T>>, repA: map<T, T>,
                                      f: set<WeightedEdge<T>>, repF: map<T, T>, v: T)
    requires Represents(nodes, a, repA) && Represents(nodes, f, repF) && v in nodes
    requires ConnectsAll(nodes, f, a)
    ensures repA[v] in nodes && repF[repA[v]] == repF[v]
  {
    var x := repA[v];
    assert repA[x] == x;
    assert Connected(nodes, a, v, x);
    ConnectedThrough(nodes, a, f, v, x);
  }

  /** A forest among nodes that `k` already connects has no more edges than `k`. */
  lemma ForestIsNoLarger<T(!new)>(nodes: set<T>, b: seq<WeightedEdge<T>>, k: seq<WeightedEdge<T>>)
    requires IsForest(nodes, b) && EdgesWithin(nodes, Elems(k))
    requires ConnectsAll(nodes, Elems(k), Elems(b))
    ensures |b| <= |k|
  {
    var repB := ComponentCount(nodes, b);
    var repK := ComponentCount(nodes, k);
    FinerHasMoreComponents(nodes, Elems(b), repB, Elems(k), repK);
  }

  /** An edge whose ends the others connect anyway leaves more components than the number of edges allows. */
  lemma RedundantEdge<T(!new)>(nodes: set<T>, k: seq<WeightedEdge<T>>, rep: map<T, T>, i: nat)
    requires Distinct(k) && EdgesWithin(nodes, Elems(k)) && i < |k|
    requires Represents(nodes, Elems(k), rep)
    requires Connected(nodes, Elems(k) - {k[i]}, k[i].v1, k[i].v2)
    ensures |rep.Values| > |nodes| - |k|
  {
    var others := k[..i] + k[i + 1..];
    DistinctWithout(k, i);
    var repO := ComponentCount(nodes, others);
    OthersConnect(nodes, Elems(k), k[i]);
    FinerHasMoreComponents(nodes, Elems(k), rep, Elems(others), repO);
  }

  lemma OthersConnect<T(!new)>(nodes: set<T>, es: set<WeightedEdge<T>>, e: WeightedEdge<T>)
    requires EdgesWithin(nodes, es) && Connected(nodes, es - {e}, e.v1, e.v2)
    ensures ConnectsAll(nodes, es - {e}, es)
  {
    forall d | d in es
      ensures Connected(nodes, es - {e}, d.v1, d.v2)
    {
      if d != e {
        ConnectedByEdge(nodes, es - {e}, d);
      }
    }
  }

  /** Edges that leave as few components as their number allows form a forest. */
  lemma FewComponentsMakeForest<T(!new)>(nodes: set<T>, k: seq<WeightedEdge<T>>, rep: map<T, T>)
    requires Distinct(k) && EdgesWithin(nodes, Elems(k))
    requires Represents(nodes, Elems(k), rep) && |rep.Values| == |nodes| - |k|
    ensures IsForest(nodes, k)
  {
    forall i | 0 <= i < |k|
      ensures !Connected(nodes, Elems(k) - {k[i]}, k[i].v1, k[i].v2)
    {
      if Connected(nodes, Elems(k) - {k[i]}, k[i].v1, k[i].v2) {
        RedundantEdge(nodes, k, rep, i);
      }
    }
  }

  // ---------------------------------------------------------------- the greedy choice

  /** Whatever is lighter than the i-th picked edge was already connected by the edges picked before it. */
  ghost predicate IsGreedy<T(!new)>(nodes: set<T>, es: set<WeightedEdge<T>>, k: seq<WeightedEdge<T>>) {
    forall i, e {:trigger Connected(nodes, Elems(k[..i]), e.v1, e.v2)} ::
      0 <= i < |k| && e in es && e.weight < k[i].weight ==> Connected(nodes, Elems(k[..i]), e.v1, e.v2)
  }

  lemma {:induction false} HeaviestEdge<T>(b: seq<WeightedEdge<T>>) returns (i: nat)
    requires b != []
    ensures i < |b| && forall j :: 0 <= j < |b| ==> b[j].weight <= b[i].weight
  {
    if |b| == 1 {
      i := 0;
    } else {
      i := HeaviestEdge(b[..|b| - 1]);
      assert forall j :: 0 <= j < |b| - 1 ==> b[..|b| - 1][j] == b[j];
      i := if b[i].weight <= b[|b| - 1].weight then |b| - 1 else i;
    }
  }

  lemma {:induction false} TotalWithout<T>(b: seq<WeightedEdge<T>>, i: nat)
    requires i < |b|
    ensures TotalWeight(b) == TotalWeight(b[..i] + b[i + 1..]) + b[i].weight
  {
    if i == |b| - 1 {
      assert b[..i] + b[i + 1..] == b[..i];
    } else {
      var init, last := b[..|b| - 1], b[|b| - 1];
      TotalWithout(init, i);
      assert b[..i] + b[i + 1..] == (init[..i] + init[i + 1..]) + [last];
    }
  }

  lemma ForestWithout<T(!new)>(nodes: set<T>, b: seq<WeightedEdge<T>>, i: nat)
    requires IsForest(nodes, b) && i < |b|
    ensures IsForest(nodes, b[..i] + b[i + 1..])
    ensures Elems(b[..i] + b[i + 1..]) <= Elems(b)
  {
    var rest := b[..i] + b[i + 1..];
    assert Elems(rest) <= Elems(b);
    forall e | e in rest
      ensures !Connected(nodes, Elems(rest) - {e}, e.v1, e.v2)
    {
      assert e in b && e in Elems(b);
      if Connected(nodes, Elems(rest) - {e}, e.v1, e.v2) {
        ConnectedMonotone(nodes, Elems(rest) - {e}, Elems(b) - {e}, e.v1, e.v2);
      }
    }
  }

  /** The greedy edges are, one by one, no heavier than those of any forest. */
  lemma {:induction false} GreedyIsLightest<T(!new)>(nodes: set<T>, es: set<WeightedEdge<T>>,
                                                     k: seq<WeightedEdge<T>>, b: seq<WeightedEdge<T>>)
    requires IsGreedy(nodes, es, k) && EdgesWithin(nodes, Elems(k))
    requires IsForest(nodes, b) && Elems(b) <= es && |b| <= |k|
    ensures TotalWeight(k[..|b|]) <= TotalWeight(b)
    decreases |b|
  {
    if b != [] {
      var m := |b| - 1;
      var h := HeaviestEdge(b);
      var rest := b[..h] + b[h + 1..];
      ForestWithout(nodes, b, h);
      GreedyIsLightest(nodes, es, k, rest);
      TotalWithout(b, h);
      assert k[..m + 1][..m] == k[..m];
      if b[h].weight < k[m].weight {
        forall e | e in Elems(b)
          ensures Connected(nodes, Elems(k[..m]), e.v1, e.v2)
        {
        }
        assert Elems(k[..m]) <= Elems(k);
        ForestIsNoLarger(nodes, b, k[..m]);
      }
    }
  }

  /** A greedy spanning forest weighs no more than any other spanning forest. */
  lemma GreedyIsMinimal<T(!new)>(nodes: set<T>, es: set<WeightedEdge<T>>, k: seq<WeightedEdge<T>>,
                                 b: seq<WeightedEdge<T>>)
    requires IsGreedy(nodes, es, k) && IsSpanningForest(nodes, es, k)
    requires IsSpanningForest(nodes, es, b) && EdgesWithin(nodes, es)
    ensures |b| == |k| && TotalWeight(k) <= TotalWeight(b)
  {
    SpansEdgesOf(nodes, es, b, k);
    SpansEdgesOf(nodes, es, k, b);
    ForestIsNoLarger(nodes, b, k);
    ForestIsNoLarger(nodes, k, b);
    GreedyIsLightest(nodes, es, k, b);
    assert k[..|b|] == k;
  }

  lemma SpansEdgesOf<T(!new)>(nodes: set<T>, es: set<WeightedEdge<T>>, b: seq<WeightedEdge<T>>,
                              k: seq<WeightedEdge<T>>)
    requires EdgesWithin(nodes, es) && Elems(b) <= es && SameConnections(nodes, Elems(k), es)
    ensures ConnectsAll(nodes, Elems(k), Elems(b))
  {
    forall e | e in Elems(b)
      ensures Connected(nodes, Elems(k), e.v1, e.v2)
    {
      ConnectedByEdge(nodes, es, e);
    }
  }
}
