/**
 * The skip list: nodes linked on several levels, each new node on a random
 * number of them. Whatever the levels, it behaves as the plain sorted map.
 */
module SkipMaps {
  import opened Collections
  import opened StableSorting
  import opened SortedEntries

  /** The head node has no key and no value. */
  class SkipNode<K, V> {
    const k: Option<K>
    var v: Option<V>
    var forward: seq<SkipNode?<K, V>>
    /** The number of levels the node is linked on. */
    ghost const height: nat

    constructor (k: Option<K>, v: Option<V>, maxHeight: nat, ghost height: nat)
      ensures this.k == k && this.v == v && this.height == height
      ensures forward == seq(maxHeight, _ => null)
    {
      this.k, this.v, this.height := k, v, height;
      forward := seq(maxHeight, _ => null);
    }
  }

  // ---------------------------------------------------------------- links

  /** The first node of `chain`, from position `p` on, that is linked on level `i`. */
  ghost function FirstOn<K, V>(chain: seq<SkipNode<K, V>>, p: nat, i: nat): SkipNode?<K, V>
    decreases if p < |chain| then |chain| - p else 0
  {
    if p >= |chain| then null
    else if chain[p].height > i then chain[p]
    else FirstOn(chain, p + 1, i)
  }

  /** No node in the stretch is linked on level `i`. */
  ghost predicate NoneOn<K, V>(chain: seq<SkipNode<K, V>>, from: nat, to: nat, i: nat)
    requires to <= |chain|
  {
    forall q :: from <= q < to ==> chain[q].height <= i
  }

  lemma {:induction false} FirstOnSkips<K, V>(chain: seq<SkipNode<K, V>>, from: nat, to: nat, i: nat)
    requires from <= to <= |chain| && NoneOn(chain, from, to, i)
    ensures FirstOn(chain, from, i) == FirstOn(chain, to, i)
    decreases |chain| - from
  {
    if from < to {
      FirstOnSkips(chain, from + 1, to, i);
    }
  }

  lemma {:induction false} FirstOnPosition<K, V>(chain: seq<SkipNode<K, V>>, p: nat, i: nat) returns (q: nat)
    requires p <= |chain|
    ensures p <= q <= |chain| && NoneOn(chain, p, q, i)
    ensures if q < |chain| then FirstOn(chain, p, i) == chain[q] && chain[q].height > i else FirstOn(chain, p, i) == null
    decreases |chain| - p
  {
    if p == |chain| || chain[p].height > i {
      q := p;
    } else {
      q := FirstOnPosition(chain, p + 1, i);
    }
  }

  ghost function Grown<K, V>(chain: seq<SkipNode<K, V>>, at: nat, node: SkipNode<K, V>): seq<SkipNode<K, V>>
    requires at <= |chain|
  {
    chain[..at] + [node] + chain[at..]
  }

  lemma GrownElement<K, V>(chain: seq<SkipNode<K, V>>, at: nat, node: SkipNode<K, V>, r: nat)
    requires at <= |chain| && r <= |chain|
    ensures |Grown(chain, at, node)| == |chain| + 1
    ensures Grown(chain, at, node)[r] == if r < at then chain[r] else if r == at then node else chain[r - 1]
  {
  }

  lemma GrownElems<K, V>(chain: seq<SkipNode<K, V>>, at: nat, node: SkipNode<K, V>)
    requires at <= |chain|
    ensures Elems(Grown(chain, at, node)) == Elems(chain) + {node}
  {
    assert chain == chain[..at] + chain[at..];
  }

  /** Behind the place of a new node nothing changes. */
  lemma {:induction false} FirstOnBehind<K, V>(chain: seq<SkipNode<K, V>>, at: nat, node: SkipNode<K, V>, p: nat, i: nat)
    requires at <= p <= |chain|
    ensures FirstOn(Grown(chain, at, node), p + 1, i) == FirstOn(chain, p, i)
    decreases |chain| - p
  {
    if p < |chain| {
      FirstOnBehind(chain, at, node, p + 1, i);
    }
  }

  /** Before it, the new node is met where no other node of its level comes first. */
  lemma {:induction false} FirstOnBefore<K, V>(chain: seq<SkipNode<K, V>>, at: nat, node: SkipNode<K, V>, p: nat, i: nat)
    requires p <= at <= |chain|
    ensures FirstOn(Grown(chain, at, node), p, i) ==
            if NoneOn(chain, p, at, i) && node.height > i then node else FirstOn(chain, p, i)
    decreases |chain| - p
  {
    var grown := Grown(chain, at, node);
    if p == at {
      FirstOnBehind(chain, at, node, at, i);
      assert grown[p] == node;
    } else {
      assert grown[p] == chain[p];
      FirstOnBefore(chain, at, node, p + 1, i);
      assert NoneOn(chain, p, at, i) <==> chain[p].height <= i && NoneOn(chain, p + 1, at, i);
    }
  }

  /** The last node up to position `p` that is linked on level `i`: whose link a change behind `p` concerns. */
  ghost predicate LastOn<K, V>(chain: seq<SkipNode<K, V>>, p: nat, i: nat, a: nat)
    requires p < |chain|
  {
    a <= p && chain[a].height > i && NoneOn(chain, a + 1, p + 1, i)
  }

  /** `ups` holds that position for every level. */
  ghost predicate AreLastOn<K, V>(chain: seq<SkipNode<K, V>>, p: nat, ups: seq<nat>, maxHeight: nat)
    requires p < |chain|
  {
    |ups| == maxHeight && forall i {:trigger ups[i]} :: 0 <= i < maxHeight ==> LastOn(chain, p, i, ups[i])
  }

  lemma UpsInside<K, V>(chain: seq<SkipNode<K, V>>, p: nat, ups: seq<nat>, maxHeight: nat)
    requires p < |chain| && AreLastOn(chain, p, ups, maxHeight)
    ensures |ups| == maxHeight && forall i :: 0 <= i < maxHeight ==> ups[i] <= p
  {
  }

  lemma LastOnIsUnique<K, V>(chain: seq<SkipNode<K, V>>, p: nat, i: nat, a: nat, q: nat)
    requires p < |chain| && LastOn(chain, p, i, a)
    requires q <= p && chain[q].height > i
    ensures NoneOn(chain, q + 1, p + 1, i) <==> q == a
  {
    if q < a {
      assert !NoneOn(chain, q + 1, p + 1, i);
    }
  }

  /** Where the links of level `i` lead with a node added behind position `p`, for the nodes up to there. */
  lemma LinkBefore<K, V>(chain: seq<SkipNode<K, V>>, p: nat, node: SkipNode<K, V>, i: nat, a: nat, q: nat)
    requires p < |chain| && LastOn(chain, p, i, a)
    requires q <= p && chain[q].height > i
    ensures FirstOn(Grown(chain, p + 1, node), q + 1, i) ==
            if node.height > i && q == a then node else FirstOn(chain, q + 1, i)
    ensures q == a ==> FirstOn(chain, q + 1, i) == FirstOn(chain, p + 1, i)
  {
    LastOnIsUnique(chain, p, i, a, q);
    FirstOnBefore(chain, p + 1, node, q + 1, i);
    if q == a {
      FirstOnSkips(chain, q + 1, p + 1, i);
    }
  }

  /** A head on all levels, then distinct nodes in strictly ascending key order. */
  ghost predicate IsChain<K, V>(cmp: (K, K) -> Ordering, maxHeight: nat, chain: seq<SkipNode<K, V>>) {
    && maxHeight >= 1 && |chain| >= 1 && chain[0].height == maxHeight && Distinct(chain)
    && (forall q :: 1 <= q < |chain| ==> chain[q].k.Some? && 1 <= chain[q].height <= maxHeight)
    && (forall p, q :: 1 <= p < q < |chain| ==> cmp(chain[p].k.value, chain[q].k.value) == Less)
  }

  lemma GrownIsChain<K, V>(cmp: (K, K) -> Ordering, maxHeight: nat, chain: seq<SkipNode<K, V>>, p: nat,
                           node: SkipNode<K, V>)
    requires IsChain(cmp, maxHeight, chain) && p < |chain|
    requires node !in chain && node.k.Some? && 1 <= node.height <= maxHeight
    requires forall q :: 1 <= q <= p ==> cmp(chain[q].k.value, node.k.value) == Less
    requires forall q :: p < q < |chain| ==> cmp(node.k.value, chain[q].k.value) == Less
    ensures IsChain(cmp, maxHeight, Grown(chain, p + 1, node))
  {
    var grown := Grown(chain, p + 1, node);
    assert forall r :: 0 <= r < |grown| ==> grown[r] == if r <= p then chain[r] else if r == p + 1 then node else chain[r - 1];
  }

  type Links<K, V> = seq<seq<SkipNode?<K, V>>>

  ghost function LinksOf<K, V>(chain: seq<SkipNode<K, V>>): (links: Links<K, V>)
    reads chain
    ensures |links| == |chain| && forall q :: 0 <= q < |chain| ==> links[q] == chain[q].forward
  {
    seq(|chain|, q requires 0 <= q < |chain| reads chain => chain[q].forward)
  }

  /** On each level a node is on, it points at the next node of that level. */
  ghost predicate IsLinked<K, V>(chain: seq<SkipNode<K, V>>, links: Links<K, V>, maxHeight: nat) {
    && |links| == |chain| && (forall q :: 0 <= q < |chain| ==> |links[q]| == maxHeight)
    && forall q, i {:trigger links[q][i]} :: 0 <= q < |chain| && 0 <= i < chain[q].height && i < maxHeight ==>
         links[q][i] == FirstOn(chain, q + 1, i)
  }

  /** The links after a node has been spliced in on the levels up to `level`. */
  ghost predicate IsSpliced<K, V>(chain: seq<SkipNode<K, V>>, links: Links<K, V>, p: nat, node: SkipNode<K, V>,
                                  level: nat, ups: seq<nat>, links': Links<K, V>, maxHeight: nat)
    requires IsLinked(chain, links, maxHeight) && p < |chain| && level < maxHeight
    requires AreLastOn(chain, p, ups, maxHeight)
  {
    && |links'| == |chain| + 1 && (forall r :: 0 <= r < |links'| ==> |links'[r]| == maxHeight)
    && (forall r, i {:trigger links'[r][i]} :: 0 <= r < |links'| && 0 <= i < maxHeight ==>
          links'[r][i] ==
          if r <= p then (if i <= level && ups[i] == r then node else links[r][i])
          else if r == p + 1 then (if i <= level then links[ups[i]][i] else null)
          else links[r - 1][i])
  }

  /** The links while a node is being spliced in: the levels from `i` to `level` are done. */
  ghost predicate SplicedDownTo<K, V>(links: Links<K, V>, now: Links<K, V>, node: SkipNode<K, V>, i: nat, level: nat,
                                      ups: seq<nat>, maxHeight: nat)
  {
    && |ups| == maxHeight && |now| == |links| && (forall q :: 0 <= q < |now| ==> |links[q]| == |now[q]| == maxHeight)
    && forall q, j {:trigger now[q][j]} :: 0 <= q < |now| && 0 <= j < maxHeight ==>
         now[q][j] == if i <= j <= level && ups[j] == q then node else links[q][j]
  }

  lemma NothingSpliced<K, V>(links: Links<K, V>, node: SkipNode<K, V>, level: nat, ups: seq<nat>, maxHeight: nat)
    requires |ups| == maxHeight && forall q :: 0 <= q < |links| ==> |links[q]| == maxHeight
    ensures SplicedDownTo(links, links, node, level + 1, level, ups, maxHeight)
  {
  }

  lemma SpliceOneMore<K, V>(links: Links<K, V>, now: Links<K, V>, node: SkipNode<K, V>, i: nat, level: nat,
                            ups: seq<nat>, maxHeight: nat)
    requires SplicedDownTo(links, now, node, i + 1, level, ups, maxHeight)
    requires i <= level < maxHeight && |ups| == maxHeight && ups[i] < |links|
    ensures |now| == |links| && |now[ups[i]]| == |links[ups[i]]| == maxHeight && now[ups[i]][i] == links[ups[i]][i]
    ensures SplicedDownTo(links, now[ups[i] := now[ups[i]][i := node]], node, i, level, ups, maxHeight)
  {
  }

  lemma SplicedAll<K, V>(chain: seq<SkipNode<K, V>>, links: Links<K, V>, node: SkipNode<K, V>, level: nat,
                         ups: seq<nat>, maxHeight: nat)
    requires SplicedDownTo(links, LinksOf(chain), node, 0, level, ups, maxHeight)
    ensures |links| == |chain| && forall q :: 0 <= q < |chain| ==> |chain[q].forward| == |links[q]| == maxHeight
    ensures forall q, j {:trigger chain[q].forward[j]} :: 0 <= q < |chain| && 0 <= j < maxHeight ==>
              chain[q].forward[j] == if j <= level && ups[j] == q then node else links[q][j]
  {
    forall q, j {:trigger chain[q].forward[j]} | 0 <= q < |chain| && 0 <= j < maxHeight
      ensures chain[q].forward[j] == if j <= level && ups[j] == q then node else links[q][j]
    {
      assert LinksOf(chain)[q][j] == chain[q].forward[j];
    }
  }

  lemma SplicedLinks<K, V>(chain: seq<SkipNode<K, V>>, links: Links<K, V>, p: nat, node: SkipNode<K, V>,
                           level: nat, ups: seq<nat>, maxHeight: nat)
    requires IsLinked(chain, links, maxHeight) && p < |chain| && level < maxHeight
    requires AreLastOn(chain, p, ups, maxHeight)
    requires (forall q :: 0 <= q < |chain| ==> |chain[q].forward| == maxHeight) && |node.forward| == maxHeight
    requires forall q, j {:trigger chain[q].forward[j]} :: 0 <= q < |chain| && 0 <= j < maxHeight ==>
               chain[q].forward[j] == if j <= level && ups[j] == q then node else links[q][j]
    requires forall j :: 0 <= j < maxHeight ==> node.forward[j] == if j <= level then links[ups[j]][j] else null
    ensures IsSpliced(chain, links, p, node, level, ups, LinksOf(Grown(chain, p + 1, node)), maxHeight)
  {
    var grown := Grown(chain, p + 1, node);
    var links' := LinksOf(grown);
    forall r | 0 <= r < |grown|
      ensures |links'[r]| == maxHeight
    {
      GrownElement(chain, p + 1, node, r);
    }
    forall r, i {:trigger links'[r][i]} | 0 <= r < |grown| && 0 <= i < maxHeight
      ensures links'[r][i] ==
              if r <= p then (if i <= level && ups[i] == r then node else links[r][i])
              else if r == p + 1 then (if i <= level then links[ups[i]][i] else null)
              else links[r - 1][i]
    {
      GrownElement(chain, p + 1, node, r);
      if r <= p {
        assert links'[r][i] == chain[r].forward[i];
      } else if r > p + 1 {
        assert links'[r][i] == chain[r - 1].forward[i] && ups[i] <= p;
      }
    }
  }

  lemma SplicedIsLinked<K, V>(chain: seq<SkipNode<K, V>>, links: Links<K, V>, p: nat, node: SkipNode<K, V>,
                              level: nat, ups: seq<nat>, links': Links<K, V>, maxHeight: nat)
    requires IsLinked(chain, links, maxHeight) && p < |chain| && level < maxHeight
    requires AreLastOn(chain, p, ups, maxHeight)
    requires node.height == level + 1 && IsSpliced(chain, links, p, node, level, ups, links', maxHeight)
    ensures IsLinked(Grown(chain, p + 1, node), links', maxHeight)
  {
    var grown := Grown(chain, p + 1, node);
    forall r, i | 0 <= r < |grown| && 0 <= i < grown[r].height && i < maxHeight
      ensures links'[r][i] == FirstOn(grown, r + 1, i)
    {
      var a := ups[i];
      if r <= p {
        assert grown[r] == chain[r] && links[r][i] == FirstOn(chain, r + 1, i);
        LinkBefore(chain, p, node, i, a, r);
      } else {
        FirstOnBehind(chain, p + 1, node, r, i);
        if r == p + 1 {
          assert links[a][i] == FirstOn(chain, a + 1, i);
          LinkBefore(chain, p, node, i, a, a);
        } else {
          assert grown[r] == chain[r - 1] && links[r - 1][i] == FirstOn(chain, r, i);
        }
      }
    }
  }

  lemma {:induction false} FirstOnIsInChain<K, V>(chain: seq<SkipNode<K, V>>, p: nat, i: nat)
    ensures FirstOn(chain, p, i) == null || FirstOn(chain, p, i) in chain
    decreases if p < |chain| then |chain| - p else 0
  {
    if p < |chain| && chain[p].height <= i {
      FirstOnIsInChain(chain, p + 1, i);
    }
  }

  /** The links after the node behind position `p` has been bypassed wherever it was pointed at. */
  ghost predicate IsUnspliced<K, V>(chain: seq<SkipNode<K, V>>, links: Links<K, V>, p: nat, ups: seq<nat>,
                                    links': Links<K, V>, maxHeight: nat)
    requires IsLinked(chain, links, maxHeight) && p + 1 < |chain| && AreLastOn(chain, p, ups, maxHeight)
  {
    && |links'| == |chain| - 1 && (forall r :: 0 <= r < |links'| ==> |links'[r]| == maxHeight)
    && (forall r, i {:trigger links'[r][i]} :: 0 <= r < |links'| && 0 <= i < maxHeight ==>
          links'[r][i] ==
          if r > p then links[r + 1][i]
          else if ups[i] == r && links[r][i] == chain[p + 1] then links[p + 1][i]
          else links[r][i])
  }

  lemma UnsplicedLinks<K, V>(chain: seq<SkipNode<K, V>>, links: Links<K, V>, p: nat, ups: seq<nat>, maxHeight: nat)
    requires IsLinked(chain, links, maxHeight) && p + 1 < |chain| && AreLastOn(chain, p, ups, maxHeight)
    requires forall q :: 0 <= q < |chain| ==> |chain[q].forward| == maxHeight
    requires forall q, j {:trigger chain[q].forward[j]} :: 0 <= q < |chain| && 0 <= j < maxHeight ==>
               chain[q].forward[j] ==
               if ups[j] == q && links[q][j] == chain[p + 1] then links[p + 1][j] else links[q][j]
    ensures IsUnspliced(chain, links, p, ups, LinksOf(chain[..p + 1] + chain[p + 2..]), maxHeight)
  {
    var shrunk := chain[..p + 1] + chain[p + 2..];
    var links' := LinksOf(shrunk);
    forall r, i {:trigger links'[r][i]} | 0 <= r < |shrunk| && 0 <= i < maxHeight
      ensures links'[r][i] ==
              if r > p then links[r + 1][i]
              else if ups[i] == r && links[r][i] == chain[p + 1] then links[p + 1][i]
              else links[r][i]
    {
      if r > p {
        assert links'[r][i] == chain[r + 1].forward[i] && ups[i] <= p;
      } else {
        assert links'[r][i] == chain[r].forward[i];
      }
    }
  }

  lemma UnsplicedIsLinked<K, V>(base: seq<SkipNode<K, V>>, node: SkipNode<K, V>, links: Links<K, V>, p: nat,
                                ups: seq<nat>, links': Links<K, V>, maxHeight: nat)
    requires p < |base| && node !in base && IsLinked(Grown(base, p + 1, node), links, maxHeight)
    requires AreLastOn(Grown(base, p + 1, node), p, ups, maxHeight)
    requires IsUnspliced(Grown(base, p + 1, node), links, p, ups, links', maxHeight)
    ensures IsLinked(base, links', maxHeight)
  {
    var chain := Grown(base, p + 1, node);
    GrownElement(base, p + 1, node, p + 1);
    forall r, i | 0 <= r < |base| && 0 <= i < base[r].height && i < maxHeight
      ensures links'[r][i] == FirstOn(base, r + 1, i)
    {
      if r > p {
        GrownElement(base, p + 1, node, r + 1);
        assert links[r + 1][i] == FirstOn(chain, r + 2, i);
        FirstOnBehind(base, p + 1, node, r + 1, i);
      } else {
        LinkWithout(base, node, links, p, ups, maxHeight, r, i);
      }
    }
  }

  lemma LastWithout<K, V>(base: seq<SkipNode<K, V>>, node: SkipNode<K, V>, p: nat, i: nat, a: nat)
    requires p < |base| && a < |base| && p < |Grown(base, p + 1, node)| && LastOn(Grown(base, p + 1, node), p, i, a)
    ensures LastOn(base, p, i, a)
  {
    hide Grown;
    GrownElement(base, p + 1, node, a);
    forall q | a < q <= p
      ensures base[q].height <= i
    {
      GrownElement(base, p + 1, node, q);
    }
  }

  lemma LinkWithout<K, V>(base: seq<SkipNode<K, V>>, node: SkipNode<K, V>, links: Links<K, V>, p: nat,
                          ups: seq<nat>, maxHeight: nat, r: nat, i: nat)
    requires p < |base| && node !in base && IsLinked(Grown(base, p + 1, node), links, maxHeight)
    requires AreLastOn(Grown(base, p + 1, node), p, ups, maxHeight)
    requires r <= p && i < base[r].height && i < maxHeight
    ensures FirstOn(base, r + 1, i) == if ups[i] == r && links[r][i] == node then links[p + 1][i] else links[r][i]
  {
    hide Grown, FirstOn, NoneOn;
    var chain, a := Grown(base, p + 1, node), ups[i];
    GrownElement(base, p + 1, node, r);
    GrownElement(base, p + 1, node, p + 1);
    assert links[r][i] == FirstOn(chain, r + 1, i);
    LastWithout(base, node, p, i, a);
    LinkBefore(base, p, node, i, a, r);
    FirstOnIsInChain(base, r + 1, i);
    if links[r][i] == node {
      assert links[p + 1][i] == FirstOn(chain, p + 2, i);
      FirstOnBehind(base, p + 1, node, p + 1, i);
    }
  }

  lemma ShrunkIsChain<K, V>(cmp: (K, K) -> Ordering, maxHeight: nat, chain: seq<SkipNode<K, V>>, p: nat)
    requires IsChain(cmp, maxHeight, chain) && 1 <= p < |chain|
    ensures IsChain(cmp, maxHeight, chain[..p] + chain[p + 1..])
    ensures chain[p] !in chain[..p] + chain[p + 1..]
    ensures Grown(chain[..p] + chain[p + 1..], p, chain[p]) == chain
  {
  }

  lemma ShrunkElems<K, V>(chain: seq<SkipNode<K, V>>, p: nat)
    requires p < |chain|
    ensures Elems(chain[..p] + chain[p + 1..]) <= Elems(chain)
  {
  }

  ghost predicate HoldsAt<K, V>(n: SkipNode<K, V>, e: (K, V))
    reads n
  {
    n.k == Some(e.0) && n.v == Some(e.1)
  }

  /** The nodes behind the head hold the entries in order. */
  ghost predicate Holds<K, V>(chain: seq<SkipNode<K, V>>, es: seq<(K, V)>)
    reads chain
  {
    |chain| == |es| + 1 && forall r {:trigger chain[r]} :: 1 <= r < |chain| ==> HoldsAt(chain[r], es[r - 1])
  }

  class SkipMap<K(!new), V> {
    const head: SkipNode<K, V>
    const maxHeight: nat
    const cmp: (K, K) -> Ordering
    var len: nat
    /** The head followed by all nodes in the order of level 0. */
    ghost var chain: seq<SkipNode<K, V>>

    ghost predicate Shape()
      reads this, chain
    {
      && IsTotalPreorder(cmp) && IsChain(cmp, maxHeight, chain) && chain[0] == head
      && (forall q :: 1 <= q < |chain| ==> chain[q].v.Some?)
    }

    ghost predicate Valid()
      reads this, chain
    {
      && Shape()
      && len == |chain| - 1
      && IsLinked(chain, LinksOf(chain), maxHeight)
    }

    ghost function EntryAt(q: nat): (K, V)
      requires Shape() && 1 <= q < |chain|
      reads this, chain
    {
      (chain[q].k.value, chain[q].v.value)
    }

    /** The plain sorted map that the list stands for. */
    ghost function Entries(): (es: seq<(K, V)>)
      requires Shape()
      reads this, chain
      ensures |es| == |chain| - 1
      ensures forall q :: 0 <= q < |es| ==> es[q] == EntryAt(q + 1)
      ensures IsSortedMap(cmp, es)
    {
      seq(|chain| - 1, q requires 0 <= q < |chain| - 1 && Shape() reads this, chain => EntryAt(q + 1))
    }

    constructor (maxHeight: nat, cmp: (K, K) -> Ordering)
      requires maxHeight >= 1 && IsTotalPreorder(cmp)
      ensures Valid() && Entries() == [] && fresh(chain) && this.cmp == cmp
    {
      this.maxHeight, this.cmp, len := maxHeight, cmp, 0;
      var h := new SkipNode<K, V>(None, None, maxHeight, maxHeight);
      head := h;
      chain := [h];
    }

    lemma SplitPosition(k: K) returns (p: nat)
      requires Valid()
      ensures p < |chain| && SplitsAt(cmp, Entries(), k, p)
    {
      var es := Entries();
      p := 0;
      while p < |es| && cmp(es[p].0, k) == Less
        invariant p <= |es|
        invariant forall i :: 0 <= i < p ==> cmp(es[i].0, k) == Less
      {
        p := p + 1;
      }
      forall i | p < i < |es|
        ensures cmp(es[i].0, k) == Greater
      {
        assert cmp(es[p].0, es[i].0) == Less && Le(cmp, k, es[p].0);
        assert Le(cmp, es[i].0, k) ==> Le(cmp, es[i].0, es[p].0);
      }
    }

    lemma NextOn(a: nat, i: nat)
      requires Valid() && a < |chain| && i < chain[a].height && i < maxHeight
      ensures i < |chain[a].forward| && chain[a].forward[i] == FirstOn(chain, a + 1, i)
    {
      assert LinksOf(chain)[a][i] == FirstOn(chain, a + 1, i);
    }

    /** The position a link leads to. */
    lemma NextPosition(a: nat, i: nat) returns (q: nat)
      requires Valid() && a < |chain| && i < chain[a].height && i < maxHeight
      ensures a + 1 <= q <= |chain| && NoneOn(chain, a + 1, q, i) && i < |chain[a].forward|
      ensures chain[a].forward[i] == if q < |chain| then chain[q] else null
      ensures q < |chain| ==> chain[q].height > i && chain[q].k.Some?
    {
      NextOn(a, i);
      q := FirstOnPosition(chain, a + 1, i);
    }

    /** How the key of a node compares. */
    lemma CompareAt(k: K, p: nat, q: nat)
      requires Valid() && SplitsAt(cmp, Entries(), k, p) && 1 <= q < |chain|
      ensures chain[q].k.Some? && (cmp(chain[q].k.value, k) == Less <==> q <= p)
      ensures cmp(chain[q].k.value, k) == Equal <==> q == p + 1 && FoundAt(cmp, Entries(), k, p)
    {
      var es := Entries();
      assert es[q - 1] == EntryAt(q) && es[q - 1].0 == chain[q].k.value;
    }

    /** Where a walk on level `i` ends: behind `a` the first node of the level has no smaller key. */
    lemma LastBefore(k: K, i: nat, p: nat, a: nat, q: nat)
      requires Valid() && p < |chain| && a <= p && chain[a].height > i && a < q <= |chain| && NoneOn(chain, a + 1, q, i)
      requires q < |chain| ==> chain[q].height > i && q > p
      ensures LastOn(chain, p, i, a)
      ensures i == 0 && p + 1 < |chain| ==> q == p + 1
    {
      assert p + 1 < |chain| ==> chain[p + 1].height >= 1;
    }

    lemma FoundIsBehind(k: K, p: nat)
      requires Valid()
      ensures FoundAt(cmp, Entries(), k, p) ==> p + 1 < |chain|
    {
    }

    /** Walks level `i` from `prev` to the last node on it whose key is smaller. */
    method WalkLevel(k: K, i: nat, prev0: SkipNode<K, V>, found0: SkipNode?<K, V>, ghost p: nat, ghost a0: nat)
      returns (prev: SkipNode<K, V>, found: SkipNode?<K, V>, ghost a: nat)
      requires Valid() && i < maxHeight && p < |chain| && SplitsAt(cmp, Entries(), k, p)
      requires a0 <= p && prev0 == chain[a0] && chain[a0].height > i
      ensures LastOn(chain, p, i, a) && prev == chain[a]
      ensures found == found0 || (FoundAt(cmp, Entries(), k, p) && found == chain[p + 1])
      ensures i == 0 && FoundAt(cmp, Entries(), k, p) ==> found == chain[p + 1]
    {
      hide Valid, Shape, FoundAt, SplitsAt, LastOn, NoneOn;
      FoundIsBehind(k, p);
      prev, found, a := prev0, found0, a0;
      ghost var q := NextPosition(a, i);
      var curr := prev.forward[i];
      while curr != null && cmp(curr.k.value, k) == Less
        invariant a <= p && prev == chain[a] && chain[a].height > i
        invariant a + 1 <= q <= |chain| && NoneOn(chain, a + 1, q, i)
        invariant if q < |chain| then curr == chain[q] && chain[q].height > i && curr.k.Some? else curr == null
        decreases |chain| - q
      {
        CompareAt(k, p, q);
        prev, a := curr, q;
        q := NextPosition(a, i);
        curr := curr.forward[i];
      }
      if q < |chain| {
        CompareAt(k, p, q);
      }
      LastBefore(k, i, p, a, q);
      if curr != null && cmp(curr.k.value, k) == Equal {
        found := curr;
      }
    }

    /**
     * Searches all levels from the top. `p` is the position of the last node
     * with a smaller key; `updates[i]` is the last node up to there on level `i`.
     */
    method Find(k: K) returns (updates: seq<SkipNode<K, V>>, found: SkipNode?<K, V>, ghost p: nat, ghost ups: seq<nat>)
      requires Valid()
      ensures p < |chain| && SplitsAt(cmp, Entries(), k, p)
      ensures found == if FoundAt(cmp, Entries(), k, p) then chain[p + 1] else null
      ensures AreLastOn(chain, p, ups, maxHeight) && |updates| == maxHeight
      ensures forall i :: 0 <= i < maxHeight ==> updates[i] == chain[ups[i]]
    {
      p := SplitPosition(k);
      updates := seq(maxHeight, _ => head);
      ups := seq(maxHeight, _ => 0);
      found := null;
      var prev := head;
      ghost var a: nat := 0;
      var i: nat := maxHeight;
      while i > 0
        invariant i <= maxHeight && |updates| == maxHeight == |ups|
        invariant a <= p && prev == chain[a] && chain[a].height >= i
        invariant forall j :: i <= j < maxHeight ==> LastOn(chain, p, j, ups[j]) && updates[j] == chain[ups[j]]
        invariant found == null || (FoundAt(cmp, Entries(), k, p) && found == chain[p + 1])
        invariant i == 0 ==> (FoundAt(cmp, Entries(), k, p) ==> found != null)
      {
        i := i - 1;
        prev, found, a := WalkLevel(k, i, prev, found, p, a);
        updates := updates[i := prev];
        ups := ups[i := a];
      }
    }

    method GetRef(k: K) returns (v: Option<V>)
      requires Valid()
      ensures v == Get(cmp, Entries(), k)
    {
      var updates, found, p, ups := Find(k);
      GetAtSplit(cmp, Entries(), k, p);
      if found == null {
        return None;
      }
      assert Entries()[p] == EntryAt(p + 1);
      v := found.v;
    }

    lemma KeyAndLevels(k: K)
      requires Valid()
      ensures cmp(k, k) == Equal && maxHeight >= 1
    {
    }

    /** Inserts or overwrites, on whatever number of levels the random choice gives the new node. */
    method Insert(k: K, v: V)
      requires Valid()
      modifies this, chain
      ensures Valid() && fresh(Elems(chain) - old(Elems(chain)))
      ensures Entries() == Put(cmp, old(Entries()), k, v)
    {
      var node := InsertEntry(k, v);
    }

    /** The same, giving access to the node that holds the value. */
    method InsertEntry(k: K, v: V) returns (node: SkipNode<K, V>)
      requires Valid()
      modifies this, chain
      ensures Valid() && fresh(Elems(chain) - old(Elems(chain)))
      ensures Entries() == Put(cmp, old(Entries()), k, v)
      ensures node in chain && node.v == Some(v) && node.k.Some? && cmp(node.k.value, k) == Equal
    {
      hide IsLinked, LastOn, AreLastOn, IsChain, IsTotalPreorder, IsSortedMap, SplitsAt, Put;
      KeyAndLevels(k);
      var level: nat :| level < maxHeight;
      var updates, found, p, ups := Find(k);
      ghost var entries := Entries();
      PutAtSplit(cmp, entries, k, v, p);
      if found != null {
        FoundIsBehind(k, p);
        CompareAt(k, p, p + 1);
        Overwrite(found, v, p);
        return found;
      }
      node := new SkipNode<K, V>(Some(k), Some(v), maxHeight, level + 1);
      assert Entries() == entries;
      LinkNode(node, level, updates, p, ups);
    }

    method Overwrite(node: SkipNode<K, V>, v: V, ghost p: nat)
      requires Valid() && p + 1 < |chain| && node == chain[p + 1]
      modifies node`v
      ensures Valid() && node.v == Some(v)
      ensures var es := old(Entries()); Entries() == es[..p] + [(es[p].0, v)] + es[p + 1..]
    {
      hide IsLinked, IsTotalPreorder, IsSortedMap, IsChain, FirstOn;
      ghost var es := Entries();
      ghost var es' := es[..p] + [(es[p].0, v)] + es[p + 1..];
      ChainHolds();
      Layout();
      node.v := Some(v);
      assert LinksOf(chain) == old(LinksOf(chain));
      forall r {:trigger chain[r]} | 1 <= r < |chain|
        ensures HoldsAt(chain[r], es'[r - 1])
      {
        assert old(HoldsAt(chain[r], es[r - 1]));
      }
      EntriesHeld(es');
    }

    lemma EntriesHeld(es: seq<(K, V)>)
      requires Shape() && Holds(chain, es)
      ensures Entries() == es
    {
      hide IsChain, IsTotalPreorder, IsSortedMap;
      forall q | 0 <= q < |es|
        ensures Entries()[q] == es[q]
      {
        assert HoldsAt(chain[q + 1], es[q]);
      }
    }

    lemma KeyFits(k: K, p: nat)
      requires Valid() && p < |chain| && SplitsAt(cmp, Entries(), k, p) && !FoundAt(cmp, Entries(), k, p)
      ensures forall q :: 1 <= q <= p ==> cmp(chain[q].k.value, k) == Less
      ensures forall q :: p < q < |chain| ==> cmp(k, chain[q].k.value) == Less
    {
      forall q | 1 <= q < |chain|
        ensures if q <= p then cmp(chain[q].k.value, k) == Less else cmp(k, chain[q].k.value) == Less
      {
        assert Entries()[q - 1] == EntryAt(q);
      }
    }

    lemma Layout()
      requires Valid()
      ensures Distinct(chain) && forall q :: 0 <= q < |chain| ==> |chain[q].forward| == maxHeight
    {
      assert forall q :: 0 <= q < |chain| ==> LinksOf(chain)[q] == chain[q].forward;
    }

    /** Puts `node` behind the node at position `a` on level `i`. */
    method SpliceLevel(node: SkipNode<K, V>, i: nat, prev: SkipNode<K, V>, ghost a: nat)
      requires Distinct(chain) && a < |chain| && prev == chain[a] && node !in chain
      requires i < |prev.forward| && i < |node.forward|
      modifies prev`forward, node`forward
      ensures var links := old(LinksOf(chain));
              && LinksOf(chain) == links[a := links[a][i := node]]
              && node.forward == old(node.forward)[i := links[a][i]]
    {
      var next := prev.forward[i];
      prev.forward := prev.forward[i := node];
      node.forward := node.forward[i := next];
      ghost var links := old(LinksOf(chain));
      forall q | 0 <= q < |chain|
        ensures LinksOf(chain)[q] == links[a := links[a][i := node]][q]
      {
        assert q != a ==> chain[q] != prev;
      }
    }

    /** Puts `node` behind the nodes of `updates` on the levels up to `level`, from the top one down. */
    method Splice(node: SkipNode<K, V>, level: nat, updates: seq<SkipNode<K, V>>, ghost p: nat, ghost ups: seq<nat>)
      requires Valid() && p < |chain| && level < maxHeight && node !in chain
      requires node.forward == seq(maxHeight, _ => null)
      requires AreLastOn(chain, p, ups, maxHeight) && |updates| == maxHeight
      requires forall i :: 0 <= i < maxHeight ==> updates[i] == chain[ups[i]]
      modifies Elems(chain), node
      ensures node.v == old(node.v) && forall q :: 0 <= q < |chain| ==> chain[q].v == old(chain[q].v)
      ensures var links := old(LinksOf(chain));
              && (forall q :: 0 <= q < |chain| ==> |chain[q].forward| == maxHeight) && |node.forward| == maxHeight
              && (forall q, j {:trigger chain[q].forward[j]} :: 0 <= q < |chain| && 0 <= j < maxHeight ==>
                    chain[q].forward[j] == if j <= level && ups[j] == q then node else links[q][j])
              && (forall j :: 0 <= j < maxHeight ==> node.forward[j] == if j <= level then links[ups[j]][j] else null)
    {
      hide Valid, Shape, AreLastOn, LastOn, SplicedDownTo, LinksOf;
      Layout();
      UpsInside(chain, p, ups, maxHeight);
      ghost var links := LinksOf(chain);
      NothingSpliced(links, node, level, ups, maxHeight);
      var i: nat := level + 1;
      while i > 0
        invariant i <= level + 1
        invariant node.v == old(node.v) && |node.forward| == maxHeight
        invariant forall q :: 0 <= q < |chain| ==> chain[q].v == old(chain[q].v)
        invariant SplicedDownTo(links, LinksOf(chain), node, i, level, ups, maxHeight)
        invariant forall j :: 0 <= j < maxHeight ==>
            node.forward[j] == if i <= j <= level then links[ups[j]][j] else null
      {
        i := i - 1;
        SpliceOneMore(links, LinksOf(chain), node, i, level, ups, maxHeight);
        SpliceLevel(node, i, updates[i], ups[i]);
      }
      SplicedAll(chain, links, node, level, ups, maxHeight);
    }

    /** Links `node` into the list behind position `p`. */
    method LinkNode(node: SkipNode<K, V>, level: nat, updates: seq<SkipNode<K, V>>, ghost p: nat, ghost ups: seq<nat>)
      requires Valid() && p < |chain| && level < maxHeight && node !in chain && node.height == level + 1
      requires node.k.Some? && node.v.Some? && node.forward == seq(maxHeight, _ => null)
      requires AreLastOn(chain, p, ups, maxHeight) && |updates| == maxHeight
      requires forall i :: 0 <= i < maxHeight ==> updates[i] == chain[ups[i]]
      requires SplitsAt(cmp, Entries(), node.k.value, p) && !FoundAt(cmp, Entries(), node.k.value, p)
      modifies this, chain, node
      ensures Valid() && Elems(chain) == old(Elems(chain)) + {node} && node.v == old(node.v)
      ensures Entries() == old(Entries()[..p]) + [(node.k.value, node.v.value)] + old(Entries()[p..])
    {
      hide IsSpliced, IsLinked, IsChain, SplitsAt, FoundAt, IsTotalPreorder, LastOn, FirstOn;
      ghost var before, links, entries := chain, LinksOf(chain), Entries();
      ChainHolds();
      KeyFits(node.k.value, p);
      GrownIsChain(cmp, maxHeight, before, p, node);
      Splice(node, level, updates, p, ups);
      SplicedLinks(before, links, p, node, level, ups, maxHeight);
      SplicedIsLinked(before, links, p, node, level, ups, LinksOf(Grown(before, p + 1, node)), maxHeight);
      chain := Grown(before, p + 1, node);
      len := len + 1;
      GrownElems(before, p + 1, node);
      GrownHolds(before, entries, p, node);
      EntriesHeld(entries[..p] + [(node.k.value, node.v.value)] + entries[p..]);
    }

    lemma ChainHolds()
      requires Shape()
      ensures Holds(chain, Entries())
    {
    }

    lemma GrownHolds(before: seq<SkipNode<K, V>>, entries: seq<(K, V)>, p: nat, node: SkipNode<K, V>)
      requires Holds(before, entries) && p < |before| && node.k.Some? && node.v.Some?
      ensures Holds(Grown(before, p + 1, node), entries[..p] + [(node.k.value, node.v.value)] + entries[p..])
    {
      var grown, es := Grown(before, p + 1, node), entries[..p] + [(node.k.value, node.v.value)] + entries[p..];
      forall r {:trigger grown[r]} | 1 <= r < |grown|
        ensures HoldsAt(grown[r], es[r - 1])
      {
        GrownElement(before, p + 1, node, r);
        assert r <= p ==> HoldsAt(before[r], entries[r - 1]);
        assert r > p + 1 ==> HoldsAt(before[r - 1], entries[r - 2]);
      }
    }

    /** Bypasses `found`, the node behind position `p`, on every level where it is pointed at. */
    method Unsplice(found: SkipNode<K, V>, updates: seq<SkipNode<K, V>>, ghost p: nat, ghost ups: seq<nat>)
      requires Valid() && p + 1 < |chain| && found == chain[p + 1]
      requires AreLastOn(chain, p, ups, maxHeight) && |updates| == maxHeight
      requires forall i :: 0 <= i < maxHeight ==> updates[i] == chain[ups[i]]
      modifies Elems(chain)
      ensures forall q :: 0 <= q < |chain| ==> chain[q].v == old(chain[q].v)
      ensures var links := old(LinksOf(chain));
              && (forall q :: 0 <= q < |chain| ==> |chain[q].forward| == maxHeight)
              && (forall q, j {:trigger chain[q].forward[j]} :: 0 <= q < |chain| && 0 <= j < maxHeight ==>
                    chain[q].forward[j] == if ups[j] == q && links[q][j] == found then links[p + 1][j] else links[q][j])
    {
      hide FirstOn, IsTotalPreorder, NoneOn, IsSortedMap;
      ghost var links := LinksOf(chain);
      for i := 0 to maxHeight
        invariant forall q :: 0 <= q < |chain| ==> |chain[q].forward| == maxHeight && chain[q].v == old(chain[q].v)
        invariant forall q, j {:trigger chain[q].forward[j]} :: 0 <= q < |chain| && 0 <= j < maxHeight ==>
            chain[q].forward[j] ==
            if j < i && ups[j] == q && links[q][j] == found then links[p + 1][j] else links[q][j]
      {
        var prev := updates[i];
        var next := prev.forward[i];
        if next == found {
          prev.forward := prev.forward[i := found.forward[i]];
        }
      }
    }

    method Take(k: K) returns (v: Option<V>)
      requires Valid()
      modifies this, chain
      ensures Valid() && Elems(chain) <= old(Elems(chain))
      ensures v == Get(cmp, old(Entries()), k)
      ensures Entries() == Without(cmp, old(Entries()), k)
    {
      var updates, found, p, ups := Find(k);
      GetAtSplit(cmp, Entries(), k, p);
      WithoutAtSplit(cmp, Entries(), k, p);
      if found == null {
        return None;
      }
      assert Entries()[p] == EntryAt(p + 1);
      Unlink(found, updates, p, ups);
      v := found.v;
    }

    /** With the node bypassed the others are linked among themselves. */
    method BypassNode(found: SkipNode<K, V>, updates: seq<SkipNode<K, V>>, ghost p: nat, ghost ups: seq<nat>)
      requires Valid() && p + 1 < |chain| && found == chain[p + 1]
      requires AreLastOn(chain, p, ups, maxHeight) && |updates| == maxHeight
      requires forall i :: 0 <= i < maxHeight ==> updates[i] == chain[ups[i]]
      modifies Elems(chain)
      ensures forall q :: 0 <= q < |chain| ==> chain[q].v == old(chain[q].v)
      ensures var shrunk := chain[..p + 1] + chain[p + 2..]; IsLinked(shrunk, LinksOf(shrunk), maxHeight)
    {
      hide IsUnspliced, IsLinked, IsChain, IsTotalPreorder, LastOn, FirstOn;
      ghost var links, shrunk := LinksOf(chain), chain[..p + 1] + chain[p + 2..];
      ShrunkIsChain(cmp, maxHeight, chain, p + 1);
      Unsplice(found, updates, p, ups);
      UnsplicedLinks(chain, links, p, ups, maxHeight);
      UnsplicedIsLinked(shrunk, found, links, p, ups, LinksOf(shrunk), maxHeight);
    }

    method Unlink(found: SkipNode<K, V>, updates: seq<SkipNode<K, V>>, ghost p: nat, ghost ups: seq<nat>)
      requires Valid() && p + 1 < |chain| && found == chain[p + 1]
      requires AreLastOn(chain, p, ups, maxHeight) && |updates| == maxHeight
      requires forall i :: 0 <= i < maxHeight ==> updates[i] == chain[ups[i]]
      modifies this, chain
      ensures Valid() && Elems(chain) <= old(Elems(chain)) && found.v == old(found.v)
      ensures Entries() == old(Entries()[..p]) + old(Entries()[p + 1..])
    {
      hide IsLinked, IsChain, IsTotalPreorder, IsSortedMap, AreLastOn;
      ghost var before, entries := chain, Entries();
      ghost var shrunk := before[..p + 1] + before[p + 2..];
      ChainHolds();
      ShrunkIsChain(cmp, maxHeight, before, p + 1);
      ShrunkElems(before, p + 1);
      BypassNode(found, updates, p, ups);
      chain := shrunk;
      len := len - 1;
      ShrunkHolds(before, entries, p);
      EntriesHeld(entries[..p] + entries[p + 1..]);
    }

    lemma ShrunkHolds(before: seq<SkipNode<K, V>>, entries: seq<(K, V)>, p: nat)
      requires Holds(before, entries) && p + 1 < |before|
      ensures Holds(before[..p + 1] + before[p + 2..], entries[..p] + entries[p + 1..])
    {
      var shrunk, es := before[..p + 1] + before[p + 2..], entries[..p] + entries[p + 1..];
      forall r {:trigger shrunk[r]} | 1 <= r < |shrunk|
        ensures HoldsAt(shrunk[r], es[r - 1])
      {
        assert r <= p ==> HoldsAt(before[r], entries[r - 1]);
        assert r > p ==> HoldsAt(before[r + 1], entries[r]);
      }
    }

    /** The entries of a half-open key range: down the levels to its start, then along level 0. */
    method Range(start: K, end: K) returns (ret: seq<(K, V)>)
      requires Valid()
      ensures ret == Between(cmp, Entries(), start, end)
    {
      hide IsLinked, IsTotalPreorder;
      ghost var es := Entries();
      ghost var p := SplitPosition(start);
      var prev := head;
      ghost var a: nat := 0;
      var i: nat := maxHeight;
      while i > 0
        invariant i <= maxHeight && a <= p && prev == chain[a] && chain[a].height >= i
        invariant i == 0 ==> LastOn(chain, p, 0, a)
      {
        i := i - 1;
        var found;
        prev, found, a := WalkLevel(start, i, prev, null, p, a);
      }
      assert p > 0 ==> chain[p].height >= 1;
      ghost var q: nat := p;
      ret, q := WalkBottom(prev, end, p);
      forall j | q <= j < |es|
        ensures cmp(es[j].0, end) != Less
      {
        NotLessFrom(cmp, es, end, q, j);
      }
      BetweenIsSlice(cmp, es, start, end, p, q);
    }

    /** Collects along level 0 what comes behind `prev` and lies below `end`. */
    method WalkBottom(prev: SkipNode<K, V>, end: K, ghost p: nat) returns (ret: seq<(K, V)>, ghost q: nat)
      requires Valid() && p < |chain| && prev == chain[p]
      ensures p <= q < |chain| && ret == Entries()[p..q]
      ensures forall j :: p <= j < q ==> cmp(Entries()[j].0, end) == Less
      ensures q < |Entries()| ==> cmp(Entries()[q].0, end) != Less
    {
      hide IsLinked, IsTotalPreorder, IsChain, IsSortedMap;
      ret, q := [], p;
      Successor(p);
      var curr := prev.forward[0];
      while curr != null
        invariant p <= q < |chain| && ret == Entries()[p..q]
        invariant curr == if q + 1 < |chain| then chain[q + 1] else null
        invariant forall j :: p <= j < q ==> cmp(Entries()[j].0, end) == Less
        decreases |chain| - q
      {
        Successor(q);
        if cmp(curr.k.value, end) != Less {
          break;
        }
        ret := ret + [(curr.k.value, curr.v.value)];
        q := q + 1;
        Successor(q);
        curr := curr.forward[0];
      }
      Successor(q);
    }

    /** The link on level 0 leads to the next node, which holds the next entry. */
    lemma Successor(q: nat)
      requires Valid() && q < |chain|
      ensures |chain[q].forward| > 0 && chain[q].forward[0] == if q + 1 < |chain| then chain[q + 1] else null
      ensures q + 1 < |chain| ==> chain[q + 1].k.Some? && chain[q + 1].v.Some?
                                  && Entries()[q] == (chain[q + 1].k.value, chain[q + 1].v.value)
    {
      NextOn(q, 0);
      assert q + 1 < |chain| ==> chain[q + 1].height >= 1 && Entries()[q] == EntryAt(q + 1);
    }

    /** All entries, in order. */
    method Iter() returns (items: seq<(K, V)>)
      requires Valid()
      ensures items == Entries()
    {
      hide IsLinked, IsTotalPreorder, IsChain, IsSortedMap;
      items := [];
      ghost var q: nat := 0;
      Successor(0);
      var curr := head.forward[0];
      while curr != null
        invariant q < |chain| && items == Entries()[..q]
        invariant curr == if q + 1 < |chain| then chain[q + 1] else null
        decreases |chain| - q
      {
        Successor(q);
        items := items + [(curr.k.value, curr.v.value)];
        q := q + 1;
        Successor(q);
        curr := curr.forward[0];
      }
    }

    method Clear()
      requires Valid()
      modifies this, head
      ensures Valid() && Entries() == []
    {
      head.forward := seq(|head.forward|, _ => null);
      len := 0;
      chain := [head];
    }
  }
}
