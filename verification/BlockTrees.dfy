/** Trees of document blocks, and the flat lists of id-linked blocks that stand for them. */
module BlockTrees {
  import opened Collections

  /** One piece of inline markup. */
  datatype Inline = Inline(content: string)

  datatype Payload =
    | Elements(elements: seq<Inline>)
    | Todo(elements: seq<Inline>, done: bool)
    | Code(lang: Option<string>, text: string)
    | Cell(text: string)
    | Grid(rowSize: nat, columnSize: nat)
    | Bare

  /** The type number of a block, the key its payload is stored under, and the payload. */
  datatype Content = Content(blockType: int, key: string, payload: Payload)

  datatype Tree = Tree(content: Content, children: seq<Tree>)

  /** A block id is the number behind its `blk_` prefix. */
  datatype Block = Block(id: nat, content: Content, children: seq<nat>)

  ghost function Size(ts: seq<Tree>): nat {
    if ts == [] then 0 else 1 + Size(ts[0].children) + Size(ts[1..])
  }

  /** The ids of the roots when the trees are numbered in preorder from `n`. */
  ghost function RootIds(ts: seq<Tree>, n: nat): seq<nat> {
    if ts == [] then [] else [n] + RootIds(ts[1..], n + 1 + Size(ts[0].children))
  }

  /** The blocks of the trees in preorder, numbered from `n`. */
  ghost function Lay(ts: seq<Tree>, n: nat): seq<Block> {
    if ts == [] then []
    else
      var sub := ts[0].children;
      [Block(n, ts[0].content, RootIds(sub, n + 1))] + Lay(sub, n + 1) + Lay(ts[1..], n + 1 + Size(sub))
  }

  // ---------------------------------------------------------------- building from left to right

  lemma {:induction false} SizeAppend(a: seq<Tree>, b: seq<Tree>)
    ensures Size(a + b) == Size(a) + Size(b)
  {
    if a == [] {
      assert a + b == b;
    } else {
      SizeAppend(a[1..], b);
      assert (a + b)[1..] == a[1..] + b;
    }
  }

  lemma NoTrees(n: nat)
    ensures Size([]) == 0 && RootIds([], n) == [] && Lay([], n) == []
  {
  }

  lemma SizeSplit(ts: seq<Tree>)
    requires ts != []
    ensures Size(ts) == 1 + Size(ts[0].children) + Size(ts[1..])
  {
  }

  lemma {:induction false} RootIdsAppend(a: seq<Tree>, b: seq<Tree>, n: nat)
    ensures RootIds(a + b, n) == RootIds(a, n) + RootIds(b, n + Size(a))
    decreases |a|
  {
    hide Size;
    if a == [] {
      assert a + b == b;
      NoTrees(n);
    } else {
      SizeSplit(a);
      RootIdsAppend(a[1..], b, n + 1 + Size(a[0].children));
      assert (a + b)[1..] == a[1..] + b;
    }
  }

  lemma {:induction false} LayAppend(a: seq<Tree>, b: seq<Tree>, n: nat)
    ensures Lay(a + b, n) == Lay(a, n) + Lay(b, n + Size(a))
    decreases |a|
  {
    hide Size;
    if a == [] {
      assert a + b == b;
      NoTrees(n);
    } else {
      SizeSplit(a);
      LayAppend(a[1..], b, n + 1 + Size(a[0].children));
      assert (a + b)[1..] == a[1..] + b;
    }
  }

  /** What the flatteners have built so far: the root ids, the blocks and the next free id. */
  ghost predicate IsLaid(ts: seq<Tree>, n: nat, ids: seq<nat>, blocks: seq<Block>, next: nat) {
    ids == RootIds(ts, n) && blocks == Lay(ts, n) && next == n + Size(ts)
  }

  lemma LaidNothing(n: nat)
    ensures IsLaid([], n, [], [], n)
  {
  }

  lemma LaidAppend(a: seq<Tree>, b: seq<Tree>, n: nat, aIds: seq<nat>, aBlocks: seq<Block>, mid: nat,
                   bIds: seq<nat>, bBlocks: seq<Block>, next: nat)
    requires IsLaid(a, n, aIds, aBlocks, mid) && IsLaid(b, mid, bIds, bBlocks, next)
    ensures IsLaid(a + b, n, aIds + bIds, aBlocks + bBlocks, next)
  {
    SizeAppend(a, b);
    RootIdsAppend(a, b, n);
    LayAppend(a, b, n);
  }

  /** A root put in front of its laid out children. */
  lemma LaidTree(content: Content, children: seq<Tree>, n: nat, ids: seq<nat>, blocks: seq<Block>, next: nat)
    requires IsLaid(children, n + 1, ids, blocks, next)
    ensures IsLaid([Tree(content, children)], n, [n], [Block(n, content, ids)] + blocks, next)
  {
    var ts := [Tree(content, children)];
    assert ts[1..] == [];
    assert Lay(ts, n) == [Block(n, content, ids)] + blocks + Lay([], next);
  }

  // ---------------------------------------------------------------- ids

  /** The ids are the consecutive numbers from `n`, in order. */
  lemma {:induction false} ConsecutiveIds(ts: seq<Tree>, n: nat)
    ensures |Lay(ts, n)| == Size(ts) && forall i :: 0 <= i < Size(ts) ==> Lay(ts, n)[i].id == n + i
  {
    if ts != [] {
      var sub := ts[0].children;
      ConsecutiveIds(sub, n + 1);
      ConsecutiveIds(ts[1..], n + 1 + Size(sub));
      var front, back := Lay(sub, n + 1), Lay(ts[1..], n + 1 + Size(sub));
      forall i | 0 <= i < Size(ts)
        ensures Lay(ts, n)[i].id == n + i
      {
        if 1 <= i <= |front| {
          assert Lay(ts, n)[i] == front[i - 1];
        } else if i > |front| {
          assert Lay(ts, n)[i] == back[i - 1 - |front|];
        }
      }
    }
  }

  ghost function Numbers(lo: nat, hi: nat): multiset<nat>
    decreases hi
  {
    if lo >= hi then multiset{} else Numbers(lo, hi - 1) + multiset{hi - 1}
  }

  lemma {:induction false} NumbersJoin(lo: nat, mid: nat, hi: nat)
    requires lo <= mid <= hi
    ensures Numbers(lo, hi) == Numbers(lo, mid) + Numbers(mid, hi)
    decreases hi
  {
    if mid == hi {
      assert Numbers(mid, hi) == multiset{};
    } else {
      NumbersJoin(lo, mid, hi - 1);
      assert Numbers(lo, hi) == Numbers(lo, hi - 1) + multiset{hi - 1};
      assert Numbers(mid, hi) == Numbers(mid, hi - 1) + multiset{hi - 1};
    }
  }

  lemma {:induction false} CountOfNumber(lo: nat, hi: nat, k: nat)
    ensures Numbers(lo, hi)[k] == if lo <= k < hi then 1 else 0
    decreases hi
  {
    if lo < hi {
      CountOfNumber(lo, hi - 1, k);
    }
  }

  /** The children lists of all the blocks, one after the other. */
  ghost function AllChildren(blocks: seq<Block>): seq<nat> {
    if blocks == [] then [] else blocks[0].children + AllChildren(blocks[1..])
  }

  lemma {:induction false} AllChildrenAppend(a: seq<Block>, b: seq<Block>)
    ensures AllChildren(a + b) == AllChildren(a) + AllChildren(b)
    decreases |a|
  {
    if a == [] {
      assert a + b == b;
    } else {
      AllChildrenAppend(a[1..], b);
      var head, rest, back := a[0].children, AllChildren(a[1..]), AllChildren(b);
      assert (a + b)[1..] == a[1..] + b && (a + b)[0] == a[0];
      assert head + (rest + back) == head + rest + back;
    }
  }

  lemma ChildrenOfLay(ts: seq<Tree>, n: nat)
    requires ts != []
    ensures var sub := ts[0].children;
            AllChildren(Lay(ts, n)) ==
            RootIds(sub, n + 1) + AllChildren(Lay(sub, n + 1)) + AllChildren(Lay(ts[1..], n + 1 + Size(sub)))
  {
    var sub := ts[0].children;
    var root, front, back := Block(n, ts[0].content, RootIds(sub, n + 1)), Lay(sub, n + 1), Lay(ts[1..], n + 1 + Size(sub));
    AllChildrenAppend([root] + front, back);
    AllChildrenAppend([root], front);
    assert AllChildren([root]) == root.children + AllChildren([]);
  }

  /** Every id is the id of one root or one child, and of no more than one. */
  lemma {:induction false} EachIdLinkedOnce(ts: seq<Tree>, n: nat)
    ensures multiset(RootIds(ts, n)) + multiset(AllChildren(Lay(ts, n))) == Numbers(n, n + Size(ts))
    decreases Size(ts)
  {
    hide Size, Lay, AllChildren, Numbers, RootIds;
    if ts == [] {
      NoTrees(n);
      NoChildren();
      OneNumber(n);
    } else {
      var sub := ts[0].children;
      var mid, next := n + 1 + Size(sub), n + Size(ts);
      SizeSplit(ts);
      EachIdLinkedOnce(sub, n + 1);
      EachIdLinkedOnce(ts[1..], mid);
      ChildrenOfLay(ts, n);
      NumbersJoin(n, n + 1, next);
      NumbersJoin(n + 1, mid, next);
      OneNumber(n);
      RootsSplit(ts, n);
      Regroup(n, RootIds(sub, n + 1), AllChildren(Lay(sub, n + 1)), RootIds(ts[1..], mid), AllChildren(Lay(ts[1..], mid)));
    }
  }

  lemma RootsSplit(ts: seq<Tree>, n: nat)
    requires ts != []
    ensures RootIds(ts, n) == [n] + RootIds(ts[1..], n + 1 + Size(ts[0].children))
  {
  }

  lemma Regroup(n: nat, r: seq<nat>, c: seq<nat>, r': seq<nat>, c': seq<nat>)
    ensures multiset([n] + r') + multiset(r + c + c') ==
            multiset{n} + ((multiset(r) + multiset(c)) + (multiset(r') + multiset(c')))
  {
  }

  lemma OneNumber(n: nat)
    ensures Numbers(n, n) == multiset{} && Numbers(n, n + 1) == multiset{n}
  {
  }

  lemma NoChildren()
    ensures AllChildren([]) == []
  {
  }

  lemma {:induction false} RootIdsInRange(ts: seq<Tree>, n: nat, k: nat)
    requires k in RootIds(ts, n)
    ensures n <= k < n + Size(ts)
  {
    var mid := n + 1 + Size(ts[0].children);
    if k != n {
      assert k in RootIds(ts[1..], mid);
      RootIdsInRange(ts[1..], mid, k);
    }
  }

  /** The parent of a block comes before it. */
  lemma {:induction false} ParentsComeFirst(ts: seq<Tree>, n: nat, j: nat, k: nat)
    requires j < |Lay(ts, n)| && k in Lay(ts, n)[j].children
    ensures n + j < k < n + Size(ts)
  {
    var sub := ts[0].children;
    var front, back := Lay(sub, n + 1), Lay(ts[1..], n + 1 + Size(sub));
    ConsecutiveIds(sub, n + 1);
    if j == 0 {
      RootIdsInRange(sub, n + 1, k);
    } else if j <= |front| {
      assert Lay(ts, n)[j] == front[j - 1];
      ParentsComeFirst(sub, n + 1, j - 1, k);
    } else {
      assert Lay(ts, n)[j] == back[j - 1 - |front|];
      ParentsComeFirst(ts[1..], n + 1 + Size(sub), j - 1 - |front|, k);
    }
  }

  // ---------------------------------------------------------------- nothing is lost

  /** Following the ids from the roots through the blocks spells out the trees. */
  ghost predicate Represents(blocks: seq<Block>, ids: seq<nat>, ts: seq<Tree>)
    decreases ts
  {
    && |ids| == |ts|
    && (ts != [] ==> RepresentsTree(blocks, ids[0], ts[0]) && Represents(blocks, ids[1..], ts[1..]))
  }

  ghost predicate RepresentsTree(blocks: seq<Block>, id: nat, t: Tree)
    decreases t
  {
    exists b {:trigger b in blocks} :: b in blocks && b.id == id && b.content == t.content && Represents(blocks, b.children, t.children)
  }

  lemma {:induction false} RepresentsMore(blocks: seq<Block>, more: seq<Block>, ids: seq<nat>, ts: seq<Tree>)
    requires Represents(blocks, ids, ts) && forall b :: b in blocks ==> b in more
    ensures Represents(more, ids, ts)
    decreases ts
  {
    if ts != [] {
      var b :| b in blocks && b.id == ids[0] && b.content == ts[0].content && Represents(blocks, b.children, ts[0].children);
      RepresentsMore(blocks, more, b.children, ts[0].children);
      RepresentsMore(blocks, more, ids[1..], ts[1..]);
    }
  }

  /** The flat list stands for the trees it was made from. */
  lemma {:induction false} LayRepresents(ts: seq<Tree>, n: nat)
    ensures Represents(Lay(ts, n), RootIds(ts, n), ts)
  {
    if ts != [] {
      var sub := ts[0].children;
      var root, front, back := Block(n, ts[0].content, RootIds(sub, n + 1)), Lay(sub, n + 1), Lay(ts[1..], n + 1 + Size(sub));
      assert Lay(ts, n) == [root] + front + back;
      LayRepresents(sub, n + 1);
      RepresentsMore(front, Lay(ts, n), RootIds(sub, n + 1), sub);
      assert root in Lay(ts, n);
      LayRepresents(ts[1..], n + 1 + Size(sub));
      RepresentsMore(back, Lay(ts, n), RootIds(ts[1..], n + 1 + Size(sub)), ts[1..]);
    }
  }

  ghost predicate HasDistinctIds(blocks: seq<Block>) {
    forall a, b :: a in blocks && b in blocks && a.id == b.id ==> a == b
  }

  /** With distinct ids a flat list stands for one forest only. */
  lemma {:induction false} RepresentsOne(blocks: seq<Block>, ids: seq<nat>, ts: seq<Tree>, us: seq<Tree>)
    requires HasDistinctIds(blocks) && Represents(blocks, ids, ts) && Represents(blocks, ids, us)
    ensures ts == us
    decreases ts
  {
    if ts != [] {
      var b :| b in blocks && b.id == ids[0] && b.content == ts[0].content && Represents(blocks, b.children, ts[0].children);
      var c :| c in blocks && c.id == ids[0] && c.content == us[0].content && Represents(blocks, c.children, us[0].children);
      RepresentsOne(blocks, b.children, ts[0].children, us[0].children);
      RepresentsOne(blocks, ids[1..], ts[1..], us[1..]);
      assert ts[0] == us[0] && ts == [ts[0]] + ts[1..] && us == [us[0]] + us[1..];
    }
  }

  /** The trees can be read back from the blocks. */
  lemma FlatteningIsInjective(ts: seq<Tree>, us: seq<Tree>, n: nat)
    requires Lay(ts, n) == Lay(us, n) && RootIds(ts, n) == RootIds(us, n)
    ensures ts == us
  {
    LayRepresents(ts, n);
    LayRepresents(us, n);
    ConsecutiveIds(ts, n);
    forall a, b | a in Lay(ts, n) && b in Lay(ts, n) && a.id == b.id
      ensures a == b
    {
      var i :| 0 <= i < |Lay(ts, n)| && Lay(ts, n)[i] == a;
      var j :| 0 <= j < |Lay(ts, n)| && Lay(ts, n)[j] == b;
      assert i == j;
    }
    RepresentsOne(Lay(ts, n), RootIds(ts, n), ts, us);
  }

  // ---------------------------------------------------------------- parents

  /** The last block that lists `id` among its children. */
  ghost function ParentIn(blocks: seq<Block>, id: nat): Option<nat> {
    if blocks == [] then None
    else if id in blocks[|blocks| - 1].children then Some(blocks[|blocks| - 1].id)
    else ParentIn(blocks[..|blocks| - 1], id)
  }

  lemma {:induction false} ParentInFacts(blocks: seq<Block>, id: nat)
    ensures ParentIn(blocks, id).None? ==> id !in AllChildren(blocks)
    ensures ParentIn(blocks, id).Some? ==>
              exists j :: 0 <= j < |blocks| && id in blocks[j].children && ParentIn(blocks, id) == Some(blocks[j].id)
  {
    if blocks != [] {
      var init, last := blocks[..|blocks| - 1], blocks[|blocks| - 1];
      ParentInFacts(init, id);
      AllChildrenAppend(init, [last]);
      assert blocks == init + [last] && AllChildren([last]) == last.children + AllChildren([]);
      if id in last.children {
        assert id in blocks[|blocks| - 1].children;
      } else if ParentIn(init, id).Some? {
        var j :| 0 <= j < |init| && id in init[j].children && ParentIn(init, id) == Some(init[j].id);
        assert id in blocks[j].children;
      }
    }
  }

  /** No id is a child of two different blocks. */
  lemma {:induction false} ChildOccursOnce(blocks: seq<Block>, id: nat, i: nat, j: nat)
    requires i < j < |blocks| && id in blocks[i].children && id in blocks[j].children
    ensures multiset(AllChildren(blocks))[id] >= 2
  {
    if i == 0 {
      ChildIsListed(blocks[1..], id, j - 1);
      assert id in multiset(blocks[0].children);
      assert id in multiset(AllChildren(blocks[1..]));
    } else {
      ChildOccursOnce(blocks[1..], id, i - 1, j - 1);
    }
  }

  lemma {:induction false} ChildIsListed(blocks: seq<Block>, id: nat, j: nat)
    requires j < |blocks| && id in blocks[j].children
    ensures id in AllChildren(blocks)
  {
    if j > 0 {
      ChildIsListed(blocks[1..], id, j - 1);
    }
  }

  /** Block `j` is the parent of block `i`: it comes before it and is the only block to list it. */
  ghost predicate IsParent(ts: seq<Tree>, n: nat, j: nat, i: nat) {
    j < i && IsOnlyParent(Lay(ts, n), j, n + i) && ParentIn(Lay(ts, n), n + i) == Some(n + j)
  }

  /** The block with id `n + i` is a root, or it has exactly one parent, which comes before it. */
  lemma OneParent(ts: seq<Tree>, n: nat, i: nat) returns (parent: Option<nat>)
    requires i < Size(ts)
    ensures n + i in RootIds(ts, n) <==> parent == None
    ensures parent.Some? ==> IsParent(ts, n, parent.value, i)
  {
    hide Size, Lay, RootIds, AllChildren, ParentIn, Numbers, IsOnlyParent;
    var blocks, id := Lay(ts, n), n + i;
    EachIdLinkedOnce(ts, n);
    CountOfNumber(n, n + Size(ts), id);
    ParentInFacts(blocks, id);
    ConsecutiveIds(ts, n);
    assert id in RootIds(ts, n) <==> multiset(RootIds(ts, n))[id] >= 1;
    assert id in AllChildren(blocks) <==> multiset(AllChildren(blocks))[id] >= 1;
    parent := None;
    if ParentIn(blocks, id).Some? {
      var j :| 0 <= j < |blocks| && id in blocks[j].children && ParentIn(blocks, id) == Some(blocks[j].id);
      ChildIsListed(blocks, id, j);
      ParentsComeFirst(ts, n, j, id);
      OnlyParent(blocks, j, id);
      parent := Some(j);
    }
  }

  ghost predicate IsOnlyParent(blocks: seq<Block>, j: nat, id: nat) {
    j < |blocks| && multiset(blocks[j].children)[id] == 1
    && forall k :: 0 <= k < |blocks| && k != j ==> id !in blocks[k].children
  }

  lemma OnlyParent(blocks: seq<Block>, j: nat, id: nat)
    requires j < |blocks| && id in blocks[j].children && multiset(AllChildren(blocks))[id] <= 1
    ensures IsOnlyParent(blocks, j, id)
  {
    forall k | 0 <= k < |blocks| && k != j
      ensures id !in blocks[k].children
    {
      if id in blocks[k].children {
        if k < j {
          ChildOccursOnce(blocks, id, k, j);
        } else {
          ChildOccursOnce(blocks, id, j, k);
        }
      }
    }
    ChildrenAreListed(blocks, j, id);
    assert id in multiset(blocks[j].children);
  }

  lemma {:induction false} ChildrenAreListed(blocks: seq<Block>, j: nat, id: nat)
    requires j < |blocks|
    ensures multiset(blocks[j].children)[id] <= multiset(AllChildren(blocks))[id]
  {
    if j > 0 {
      ChildrenAreListed(blocks[1..], j - 1, id);
    }
  }
}
