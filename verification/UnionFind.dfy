/** Union-find over a parent map, with full path compression and union by size. */
module UnionFind {
  import opened SpanningForests

  ghost function Pow2(n: nat): nat {
    if n == 0 then 1 else 2 * Pow2(n - 1)
  }

  lemma {:induction false} Pow2Monotone(m: nat, n: nat)
    requires m <= n
    ensures Pow2(m) <= Pow2(n)
    decreases n
  {
    if m < n {
      Pow2Monotone(m, n - 1);
    }
  }

  /** Parent links stay within one class, end in its representative, and climb in rank. */
  ghost predicate LinkOk<T>(parent: map<T, T>, rep: map<T, T>, rank: map<T, nat>, x: T)
    requires parent.Keys == rep.Keys == rank.Keys && x in parent
  {
    && parent[x] in parent && rep[parent[x]] == rep[x]
    && rep[x] in parent && rep[rep[x]] == rep[x]
    && (parent[x] == x <==> rep[x] == x)
    && (parent[x] != x ==> rank[x] < rank[parent[x]])
    && rank[x] <= rank[rep[x]]
  }

  ghost predicate IsParentForest<T>(parent: map<T, T>, rep: map<T, T>, rank: map<T, nat>) {
    && parent.Keys == rep.Keys == rank.Keys
    && forall x {:trigger LinkOk(parent, rep, rank, x)} :: x in parent ==> LinkOk(parent, rep, rank, x)
  }

  ghost function ClassOf<T>(rep: map<T, T>, r: T): set<T> {
    set x | x in rep && rep[x] == r
  }

  /** The size kept at a root is the size of its class, and at least two to the power of its rank. */
  ghost predicate SizeOk<T>(rep: map<T, T>, rank: map<T, nat>, size: map<T, nat>, r: T)
    requires rep.Keys == rank.Keys == size.Keys && r in rep
  {
    rep[r] == r ==> size[r] == |ClassOf(rep, r)| && Pow2(rank[r]) <= size[r]
  }

  ghost predicate SizesOk<T>(rep: map<T, T>, rank: map<T, nat>, size: map<T, nat>) {
    && rep.Keys == rank.Keys == size.Keys
    && forall r {:trigger SizeOk(rep, rank, size, r)} :: r in rep ==> SizeOk(rep, rank, size, r)
  }

  /** `x` is `n` parent links away from a root. */
  ghost predicate DepthIs<T>(parent: map<T, T>, x: T, n: nat) {
    x in parent && if n == 0 then parent[x] == x else parent[x] != x && DepthIs(parent, parent[x], n - 1)
  }

  lemma {:induction false} DepthBelowRank<T>(parent: map<T, T>, rep: map<T, T>, rank: map<T, nat>, x: T, n: nat)
    requires IsParentForest(parent, rep, rank) && DepthIs(parent, x, n)
    ensures x in rep && rep[x] in rank && rank[x] + n <= rank[rep[x]]
    decreases n
  {
    assert LinkOk(parent, rep, rank, x);
    if n > 0 {
      DepthBelowRank(parent, rep, rank, parent[x], n - 1);
    }
  }

  /** Adding a node as its own class. */
  ghost function WithNode<T>(rep: map<T, T>, node: T): map<T, T> {
    if node in rep then rep else rep[node := node]
  }

  lemma NewNodeKeeps<T>(parent: map<T, T>, rep: map<T, T>, rank: map<T, nat>, size: map<T, nat>, node: T)
    requires IsParentForest(parent, rep, rank) && SizesOk(rep, rank, size) && node !in parent
    ensures IsParentForest(parent[node := node], rep[node := node], rank[node := 0])
    ensures SizesOk(rep[node := node], rank[node := 0], size[node := 1])
  {
    var parent', rep', rank', size' := parent[node := node], rep[node := node], rank[node := 0], size[node := 1];
    forall x | x in parent'
      ensures LinkOk(parent', rep', rank', x) && SizeOk(rep', rank', size', x)
    {
      if x == node {
        assert forall y {:trigger LinkOk(parent, rep, rank, y)} :: y in rep ==> LinkOk(parent, rep, rank, y);
        NewClasses(parent, rep, rank, node, x);
      } else {
        assert LinkOk(parent, rep, rank, x) && SizeOk(rep, rank, size, x);
        NewClasses(parent, rep, rank, node, x);
      }
    }
  }

  lemma NewClasses<T>(parent: map<T, T>, rep: map<T, T>, rank: map<T, nat>, node: T, r: T)
    requires IsParentForest(parent, rep, rank) && node !in parent
    ensures ClassOf(rep[node := node], r) == if r == node then {node} else ClassOf(rep, r)
  {
    forall x | x in rep
      ensures rep[x] != node
    {
      assert LinkOk(parent, rep, rank, x);
    }
  }

  /** Linking the root `child` below the root `root`, whose rank rises above it if need be. */
  ghost function RaisedRank<T>(rank: map<T, nat>, child: T, root: T): map<T, nat>
    requires child in rank && root in rank
  {
    rank[root := if rank[child] < rank[root] then rank[root] else rank[child] + 1]
  }

  lemma LinkKeepsForest<T(!new)>(parent: map<T, T>, rep: map<T, T>, rank: map<T, nat>, child: T, root: T)
    requires IsParentForest(parent, rep, rank)
    requires child in rep && root in rep && rep[child] == child && rep[root] == root && child != root
    ensures IsParentForest(parent[child := root], MergeClasses(rep, child, root), RaisedRank(rank, child, root))
  {
    var parent', rep', rank' := parent[child := root], MergeClasses(rep, child, root), RaisedRank(rank, child, root);
    assert LinkOk(parent, rep, rank, child) && LinkOk(parent, rep, rank, root);
    forall x | x in parent'
      ensures LinkOk(parent', rep', rank', x)
    {
      assert LinkOk(parent, rep, rank, x);
      assert LinkOk(parent, rep, rank, parent[x]);
    }
  }

  lemma LinkKeepsSizes<T(!new)>(parent: map<T, T>, rep: map<T, T>, rank: map<T, nat>, size: map<T, nat>,
                                child: T, root: T)
    requires IsParentForest(parent, rep, rank) && SizesOk(rep, rank, size)
    requires child in rep && root in rep && rep[child] == child && rep[root] == root && child != root
    requires size[child] <= size[root]
    ensures SizesOk(MergeClasses(rep, child, root), RaisedRank(rank, child, root),
                    size[root := size[child] + size[root]])
  {
    var rep', rank' := MergeClasses(rep, child, root), RaisedRank(rank, child, root);
    var size' := size[root := size[child] + size[root]];
    assert SizeOk(rep, rank, size, child) && SizeOk(rep, rank, size, root);
    forall r | r in rep'
      ensures SizeOk(rep', rank', size', r)
    {
      if r == root {
        assert ClassOf(rep', root) == ClassOf(rep, root) + ClassOf(rep, child);
        assert |ClassOf(rep', root)| == |ClassOf(rep, root)| + |ClassOf(rep, child)|;
      } else if rep'[r] == r {
        assert SizeOk(rep, rank, size, r);
        assert ClassOf(rep', r) == ClassOf(rep, r);
      }
    }
  }

  /** Redirecting a node to the representative of its class changes no class and no rank. */
  lemma CompressKeepsForest<T>(parent: map<T, T>, rep: map<T, T>, rank: map<T, nat>, x: T)
    requires IsParentForest(parent, rep, rank) && x in parent
    ensures rep[x] in parent && IsParentForest(parent[x := rep[x]], rep, rank)
  {
    assert LinkOk(parent, rep, rank, x);
    forall y | y in parent
      ensures LinkOk(parent[x := rep[x]], rep, rank, y)
    {
      assert LinkOk(parent, rep, rank, y);
      assert LinkOk(parent, rep, rank, parent[x]);
    }
  }

  class SimpleUf<T(==, !new)> {
    var parent: map<T, T>
    var size: map<T, nat>
    /** The partition: each node's representative. */
    ghost var rep: map<T, T>
    ghost var rank: map<T, nat>

    ghost predicate Valid()
      reads this
    {
      IsParentForest(parent, rep, rank) && SizesOk(rep, rank, size)
    }

    constructor (nodes: set<T>)
      ensures Valid() && rep.Keys == nodes && forall v :: v in nodes ==> rep[v] == v
    {
      parent := map v | v in nodes :: v;
      size := map v | v in nodes :: 1;
      rep := map v | v in nodes :: v;
      rank := map v | v in nodes :: 0;
      new;
      forall v | v in nodes
        ensures LinkOk(parent, rep, rank, v) && SizeOk(rep, rank, size, v)
      {
        assert ClassOf(rep, v) == {v};
      }
    }

    method Ensure(node: T)
      requires Valid()
      modifies this
      ensures Valid() && rep == WithNode(old(rep), node)
    {
      if node !in parent {
        NewNodeKeeps(parent, rep, rank, size, node);
        parent := parent[node := node];
        size := size[node := 1];
        rep := rep[node := node];
        rank := rank[node := 0];
      }
    }

    /** Finds the representative and points every node on the way at it; the partition stays. */
    method Find(node: T) returns (root: T)
      requires Valid()
      modifies this
      ensures Valid() && rep == WithNode(old(rep), node)
      ensures root == rep[node]
    {
      Ensure(node);
      root := node;
      assert LinkOk(parent, rep, rank, node);
      while parent[root] != root
        invariant root in parent && rep[root] == rep[node] && rep[node] in rank
        invariant rank[root] <= rank[rep[node]]
        decreases rank[rep[node]] - rank[root]
      {
        assert LinkOk(parent, rep, rank, root);
        assert LinkOk(parent, rep, rank, parent[root]);
        root := parent[root];
      }
      assert LinkOk(parent, rep, rank, root);
      var curr := node;
      while true
        invariant Valid() && rep == WithNode(old(rep), node)
        invariant curr in parent && root in rank && rep[curr] == root && rank[curr] <= rank[root]
        decreases rank[root] - rank[curr]
      {
        assert LinkOk(parent, rep, rank, curr);
        var next := parent[curr];
        assert LinkOk(parent, rep, rank, next);
        CompressKeepsForest(parent, rep, rank, curr);
        parent := parent[curr := root];
        if next == root {
          break;
        }
        curr := next;
      }
    }

    method Union(a: T, b: T) returns (united: bool)
      requires Valid()
      modifies this
      ensures Valid()
      ensures var rep0 := WithNode(WithNode(old(rep), a), b);
              && united == (rep0[a] != rep0[b])
              && (!united ==> rep == rep0)
              && (united ==> rep == MergeClasses(rep0, rep0[a], rep0[b]) || rep == MergeClasses(rep0, rep0[b], rep0[a]))
    {
      var ra := Find(a);
      var rb := Find(b);
      assert LinkOk(parent, rep, rank, a) && LinkOk(parent, rep, rank, b);
      if ra == rb {
        return false;
      }
      if size[ra] < size[rb] {
        Attach(ra, rb);
      } else {
        Attach(rb, ra);
      }
      return true;
    }

    /** Hangs the root `child` below the root `root`, which takes over its size. */
    method Attach(child: T, root: T)
      requires Valid() && child in rep && root in rep && child != root
      requires rep[child] == child && rep[root] == root && size[child] <= size[root]
      modifies this
      ensures Valid() && rep == MergeClasses(old(rep), child, root)
    {
      LinkKeepsForest(parent, rep, rank, child, root);
      LinkKeepsSizes(parent, rep, rank, size, child, root);
      parent := parent[child := root];
      size := size[root := size[child] + size[root]];
      rep := MergeClasses(rep, child, root);
      rank := RaisedRank(rank, child, root);
    }

    /** After any mix of finds and unions a node of depth `n` lies in a class of at least 2^n nodes. */
    lemma LogarithmicDepth(x: T, n: nat)
      requires Valid() && DepthIs(parent, x, n)
      ensures x in rep && rep[x] in size
      ensures Pow2(n) <= size[rep[x]] == |ClassOf(rep, rep[x])|
    {
      DepthBelowRank(parent, rep, rank, x, n);
      assert LinkOk(parent, rep, rank, x);
      assert SizeOk(rep, rank, size, rep[x]);
      Pow2Monotone(n, rank[rep[x]]);
    }
  }
}
