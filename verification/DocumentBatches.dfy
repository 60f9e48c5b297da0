/** Sending the operations of a document in batches, the parents injected batch by batch. */
module DocumentBatches {
  import opened Collections
  import opened BlockTrees
  import opened MarkdownBlocks
  import opened BlockContents

  const MAX_CHILDREN_PER_BATCH: nat := 50

  datatype Batch =
    | Alone(contents: seq<Content>)
    | Rooted(childrenId: seq<nat>, blocks: seq<Enriched>)

  /** A batch and the place in the document at which its blocks are inserted. */
  datatype Sent = Sent(batch: Batch, index: nat)

  // ---------------------------------------------------------------- what a batch carries

  ghost function Trees(tops: seq<Top>): (ts: seq<Tree>)
    ensures |ts| == |tops| && forall i :: 0 <= i < |ts| ==> ts[i] == tops[i].tree
  {
    seq(|tops|, i requires 0 <= i < |tops| => tops[i].tree)
  }

  ghost function Contents(tops: seq<Top>): (cs: seq<Content>)
    ensures |cs| == |tops| && forall i :: 0 <= i < |cs| ==> cs[i] == tops[i].tree.content
  {
    seq(|tops|, i requires 0 <= i < |tops| => tops[i].tree.content)
  }

  ghost predicate AreAll(tops: seq<Top>, alone: bool) {
    forall i {:trigger tops[i]} :: 0 <= i < |tops| ==> tops[i].alone == alone
  }

  /** The blocks with their parents. */
  ghost function Parented(blocks: seq<Block>, ids: seq<nat>): (r: seq<Enriched>)
    ensures |r| == |blocks|
    ensures forall i :: 0 <= i < |r| ==> r[i] == Enriched(blocks[i], ParentOf(blocks, ids, blocks[i].id))
  {
    seq(|blocks|, i requires 0 <= i < |blocks| => Enriched(blocks[i], ParentOf(blocks, ids, blocks[i].id)))
  }

  ghost predicate Holds(batch: Batch, group: seq<Top>, n: nat) {
    match batch
    case Alone(contents) => AreAll(group, true) && contents == Contents(group)
    case Rooted(ids, blocks) =>
      AreAll(group, false) && ids == RootIds(Trees(group), n) && blocks == Parented(Lay(Trees(group), n), ids)
  }

  /** A batch carries the trees from `lo` to `hi`, neither none nor too many. */
  ghost predicate Carries(s: Sent, tops: seq<Top>, lo: nat, hi: nat) {
    && lo < hi <= |tops| && hi <= lo + MAX_CHILDREN_PER_BATCH
    && s.index == lo && Holds(s.batch, tops[lo..hi], 1 + IdsUsed(tops[..lo]))
  }

  /** The batches carry the trees one after the other, from `cuts[k]` to `cuts[k + 1]`. */
  ghost predicate AreBatches(sent: seq<Sent>, tops: seq<Top>, cuts: seq<nat>) {
    && |cuts| == |sent| + 1 && cuts[0] == 0
    && forall k {:trigger sent[k]} :: 0 <= k < |sent| ==> Carries(sent[k], tops, cuts[k], cuts[k + 1])
  }

  /** A batch is closed only when it is full or the next tree is of the other kind. */
  ghost predicate AreFull(sent: seq<Sent>, cuts: seq<nat>) {
    |cuts| == |sent| + 1 && forall k {:trigger sent[k]} :: 0 <= k < |sent| - 1 ==>
      cuts[k + 1] == cuts[k] + MAX_CHILDREN_PER_BATCH || sent[k].batch.Alone? != sent[k + 1].batch.Alone?
  }

  lemma OneMoreBatch(sent: seq<Sent>, tops: seq<Top>, cuts: seq<nat>, s: Sent, hi: nat)
    requires AreBatches(sent, tops, cuts) && AreFull(sent, cuts) && Carries(s, tops, cuts[|sent|], hi)
    requires sent != [] ==> cuts[|sent|] == cuts[|sent| - 1] + MAX_CHILDREN_PER_BATCH
                            || sent[|sent| - 1].batch.Alone? != s.batch.Alone?
    ensures AreBatches(sent + [s], tops, cuts + [hi]) && AreFull(sent + [s], cuts + [hi])
  {
    hide Carries;
  }

  // ---------------------------------------------------------------- collecting a batch

  /** What is collected since the last batch was sent. */
  ghost predicate IsCollected(group: seq<Top>, n: nat, simple: seq<Content>, ids: seq<nat>, blocks: seq<Block>, next: nat) {
    || (AreAll(group, true) && simple == Contents(group) && ids == [] && blocks == [] && next == n)
    || (AreAll(group, false) && simple == [] && IsLaid(Trees(group), n, ids, blocks, next) && |ids| == |group|)
  }

  lemma NothingCollected(n: nat)
    ensures IsCollected([], n, [], [], [], n)
  {
  }

  lemma CollectAlone(group: seq<Top>, n: nat, simple: seq<Content>, next: nat, top: Top)
    requires IsCollected(group, n, simple, [], [], next) && top.alone
    ensures IsCollected(group + [top], n, simple + [top.tree.content], [], [], next) && next == n
  {
    hide Lay, Size;
    NoTrees(n);
    assert group == [] ==> Trees(group) == [];
    assert Contents(group + [top]) == Contents(group) + [top.tree.content];
  }

  lemma {:induction false} RootIdsLength(ts: seq<Tree>, n: nat)
    ensures |RootIds(ts, n)| == |ts|
    decreases |ts|
  {
    if ts != [] {
      RootIdsLength(ts[1..], n + 1 + Size(ts[0].children));
    }
  }

  lemma CollectRooted(group: seq<Top>, n: nat, ids: seq<nat>, blocks: seq<Block>, next: nat, top: Top)
    requires IsCollected(group, n, [], ids, blocks, next) && !top.alone
    ensures IsCollected(group + [top], n, [], ids + [next], blocks + Lay([top.tree], next), next + Size([top.tree]))
  {
    hide Lay, Size, RootIds;
    var ts := Trees(group);
    if ids == [] {
      assert group == [] || !AreAll(group, true) || Contents(group) != [];
      LaidNothing(n);
    }
    assert IsLaid(ts, n, ids, blocks, next);
    OneRoot(top.tree, next);
    LaidAppend(ts, [top.tree], n, ids, blocks, next, [next], Lay([top.tree], next), next + Size([top.tree]));
    assert Trees(group + [top]) == ts + [top.tree];
  }

  lemma OneRoot(tree: Tree, n: nat)
    ensures RootIds([tree], n) == [n]
  {
    assert [tree][1..] == [];
  }

  // ---------------------------------------------------------------- sending

  method SendRooted(ids: seq<nat>, blocks: seq<Block>, index: nat) returns (s: Sent)
    ensures s == Sent(Rooted(ids, Parented(blocks, ids)), index)
  {
    var enriched := InjectParents(blocks, ids);
    s := Sent(Rooted(ids, enriched), index);
    assert enriched == Parented(blocks, ids);
  }

  lemma SendsAlone(tops: seq<Top>, lo: nat, i: nat, simple: seq<Content>, next: nat)
    requires lo <= i <= |tops| && simple != []
    requires IsCollected(tops[lo..i], 1 + IdsUsed(tops[..lo]), simple, [], [], next)
    requires |simple| <= MAX_CHILDREN_PER_BATCH
    ensures Carries(Sent(Alone(simple), lo), tops, lo, i)
  {
    hide Lay, Size, RootIds, IdsUsed;
  }

  lemma SendsRooted(tops: seq<Top>, lo: nat, i: nat, ids: seq<nat>, blocks: seq<Block>, next: nat)
    requires lo <= i <= |tops| && ids != []
    requires IsCollected(tops[lo..i], 1 + IdsUsed(tops[..lo]), [], ids, blocks, next)
    requires |ids| <= MAX_CHILDREN_PER_BATCH
    ensures Carries(Sent(Rooted(ids, Parented(blocks, ids)), lo), tops, lo, i)
  {
    hide Lay, Size, RootIds, IdsUsed;
  }

  /** All that is known between two operations; `lo` trees have been sent, `i` have been seen. */
  ghost predicate Between(tops: seq<Top>, i: nat, sent: seq<Sent>, cuts: seq<nat>, lo: nat, simple: seq<Content>,
                          ids: seq<nat>, blocks: seq<Block>, next: nat)
  {
    && AreBatches(sent, tops, cuts) && AreFull(sent, cuts) && lo == cuts[|sent|] && lo <= i <= |tops|
    && IsCollected(tops[lo..i], 1 + IdsUsed(tops[..lo]), simple, ids, blocks, next) && next == 1 + IdsUsed(tops[..i])
    && (simple == [] || ids == []) && (ids == [] ==> blocks == []) && |simple| + |ids| == i - lo
  }

  /** The last batch was full, or what is collected is of the other kind. */
  ghost predicate MayGoOn(sent: seq<Sent>, cuts: seq<nat>, alone: bool) {
    |cuts| == |sent| + 1 && (sent != [] ==>
      cuts[|sent|] == cuts[|sent| - 1] + MAX_CHILDREN_PER_BATCH || sent[|sent| - 1].batch.Alone? != alone)
  }

  lemma AfterAlone(tops: seq<Top>, i: nat, sent: seq<Sent>, cuts: seq<nat>, lo: nat, simple: seq<Content>, next: nat)
    requires Between(tops, i, sent, cuts, lo, simple, [], [], next) && simple != []
    requires |simple| <= MAX_CHILDREN_PER_BATCH && MayGoOn(sent, cuts, true)
    ensures Between(tops, i, sent + [Sent(Alone(simple), lo)], cuts + [i], i, [], [], [], next)
    ensures MayGoOn(sent + [Sent(Alone(simple), lo)], cuts + [i], false)
    ensures |simple| == MAX_CHILDREN_PER_BATCH ==> MayGoOn(sent + [Sent(Alone(simple), lo)], cuts + [i], true)
  {
    hide Carries, IsCollected, IdsUsed, AreBatches, AreFull;
    SendsAlone(tops, lo, i, simple, next);
    OneMoreBatch(sent, tops, cuts, Sent(Alone(simple), lo), i);
    NothingCollected(next);
    assert tops[i..i] == [];
  }

  lemma AfterRooted(tops: seq<Top>, i: nat, sent: seq<Sent>, cuts: seq<nat>, lo: nat, ids: seq<nat>, blocks: seq<Block>,
                    next: nat)
    requires Between(tops, i, sent, cuts, lo, [], ids, blocks, next) && ids != []
    requires |ids| <= MAX_CHILDREN_PER_BATCH && MayGoOn(sent, cuts, false)
    ensures var s := Sent(Rooted(ids, Parented(blocks, ids)), lo);
            && Between(tops, i, sent + [s], cuts + [i], i, [], [], [], next)
            && MayGoOn(sent + [s], cuts + [i], true)
            && (|ids| == MAX_CHILDREN_PER_BATCH ==> MayGoOn(sent + [s], cuts + [i], false))
  {
    hide Carries, IsCollected, IdsUsed, AreBatches, AreFull;
    SendsRooted(tops, lo, i, ids, blocks, next);
    OneMoreBatch(sent, tops, cuts, Sent(Rooted(ids, Parented(blocks, ids)), lo), i);
    NothingCollected(next);
    assert tops[i..i] == [];
  }

  lemma AddAlone(tops: seq<Top>, i: nat, sent: seq<Sent>, cuts: seq<nat>, lo: nat, simple: seq<Content>, next: nat)
    requires Between(tops, i, sent, cuts, lo, simple, [], [], next) && i < |tops| && tops[i].alone
    ensures Between(tops, i + 1, sent, cuts, lo, simple + [tops[i].tree.content], [], [], next)
  {
    hide IsCollected, AreBatches, AreFull;
    CollectAlone(tops[lo..i], 1 + IdsUsed(tops[..lo]), simple, next, tops[i]);
    assert tops[lo..i + 1] == tops[lo..i] + [tops[i]];
    assert tops[..i + 1][..i] == tops[..i];
  }

  lemma AddRooted(tops: seq<Top>, i: nat, sent: seq<Sent>, cuts: seq<nat>, lo: nat, ids: seq<nat>, blocks: seq<Block>,
                  next: nat)
    requires Between(tops, i, sent, cuts, lo, [], ids, blocks, next) && i < |tops| && !tops[i].alone
    ensures Between(tops, i + 1, sent, cuts, lo, [], ids + [next], blocks + Lay([tops[i].tree], next),
                    next + Size([tops[i].tree]))
  {
    hide IsCollected, AreBatches, AreFull, Lay, Size;
    CollectRooted(tops[lo..i], 1 + IdsUsed(tops[..lo]), ids, blocks, next, tops[i]);
    assert tops[lo..i + 1] == tops[lo..i] + [tops[i]];
    assert tops[..i + 1][..i] == tops[..i];
  }

  lemma NothingSent(tops: seq<Top>)
    ensures Between(tops, 0, [], [0], 0, [], [], [], 1)
  {
    NothingCollected(1);
    assert tops[0..0] == [] && tops[..0] == [];
  }

  /** Every block of a batch knows its parent. */
  ghost predicate FindsParent(blocks: seq<Enriched>, ids: seq<nat>, i: nat)
    requires i < |blocks|
  {
    match blocks[i].parent
    case Document => blocks[i].block.id in ids
    case ParentBlock(id) => exists j :: 0 <= j < i && blocks[j].block.id == id && blocks[i].block.id in blocks[j].block.children
    case NoParent => false
  }

  lemma BlockFindsParent(ts: seq<Tree>, n: nat, i: nat)
    requires i < |Lay(ts, n)|
    ensures FindsParent(Parented(Lay(ts, n), RootIds(ts, n)), RootIds(ts, n), i)
  {
    hide Lay, RootIds, Size, ParentOf;
    ConsecutiveIds(ts, n);
    var parent := EveryBlockFindsItsParent(ts, n, i);
    var blocks := Parented(Lay(ts, n), RootIds(ts, n));
    assert blocks[i].block.id == n + i;
    if parent.Some? {
      var j := parent.value;
      assert blocks[j].block == Lay(ts, n)[j];
      assert n + i in Lay(ts, n)[j].children;
    }
  }

  ghost predicate BatchFinds(batch: Batch) {
    batch.Rooted? ==> forall i {:trigger batch.blocks[i]} :: 0 <= i < |batch.blocks| ==>
                        FindsParent(batch.blocks, batch.childrenId, i)
  }

  ghost predicate AllFindParents(sent: seq<Sent>) {
    forall k {:trigger sent[k]} :: 0 <= k < |sent| ==> BatchFinds(sent[k].batch)
  }

  lemma CarriedFinds(s: Sent, tops: seq<Top>, lo: nat, hi: nat)
    requires Carries(s, tops, lo, hi)
    ensures BatchFinds(s.batch)
  {
    hide FindsParent, Lay, RootIds, IdsUsed;
    if s.batch.Rooted? {
      forall i | 0 <= i < |s.batch.blocks|
        ensures FindsParent(s.batch.blocks, s.batch.childrenId, i)
      {
        BlockFindsParent(Trees(tops[lo..hi]), 1 + IdsUsed(tops[..lo]), i);
      }
    }
  }

  lemma BatchesFindParents(sent: seq<Sent>, tops: seq<Top>, cuts: seq<nat>)
    requires AreBatches(sent, tops, cuts)
    ensures AllFindParents(sent)
  {
    hide BatchFinds, Carries;
    forall k | 0 <= k < |sent|
      ensures BatchFinds(sent[k].batch)
    {
      CarriedFinds(sent[k], tops, cuts[k], cuts[k + 1]);
    }
  }

  // ---------------------------------------------------------------- what the batches say

  function BlocksIn(batch: Batch): (blocks: seq<Block>) {
    match batch
    case Alone(contents) => seq(|contents|, i requires 0 <= i < |contents| => Block(0, contents[i], []))
    case Rooted(_, blocks) => seq(|blocks|, i requires 0 <= i < |blocks| => blocks[i].block)
  }

  ghost function TextsSent(sent: seq<Sent>): seq<Text> {
    if sent == [] then [] else TextsSent(sent[..|sent| - 1]) + Texts(BlocksIn(sent[|sent| - 1].batch))
  }

  ghost predicate LoneTreesAreSmall(tops: seq<Top>) {
    forall i :: 0 <= i < |tops| ==> tops[i].alone ==> tops[i].tree.children == []
  }

  lemma {:induction false} AloneSays(group: seq<Top>)
    requires AreAll(group, true) && LoneTreesAreSmall(group)
    ensures Texts(BlocksIn(Alone(Contents(group)))) == TreeTexts(Trees(group))
    decreases |group|
  {
    hide Texts, TreeTexts;
    var blocks, ts := BlocksIn(Alone(Contents(group))), Trees(group);
    if group == [] {
      NoTexts();
      NothingSaid();
    } else {
      var init, last := group[..|group| - 1], group[|group| - 1];
      AloneSays(init);
      assert blocks == BlocksIn(Alone(Contents(init))) + [Block(0, last.tree.content, [])];
      assert ts == Trees(init) + [last.tree];
      TextsAppend(BlocksIn(Alone(Contents(init))), [Block(0, last.tree.content, [])]);
      TreeTextsAppend(Trees(init), [last.tree]);
      OneBlockTexts(Block(0, last.tree.content, []));
      OneTreeTexts(last.tree);
      NothingSaid();
    }
  }

  lemma BatchSays(batch: Batch, group: seq<Top>, n: nat)
    requires Holds(batch, group, n) && LoneTreesAreSmall(group)
    ensures Texts(BlocksIn(batch)) == TreeTexts(Trees(group))
  {
    hide Texts, TreeTexts, Lay, RootIds, ParentOf;
    if batch.Alone? {
      AloneSays(group);
    } else {
      LayTexts(Trees(group), n);
      assert BlocksIn(batch) == Lay(Trees(group), n);
    }
  }

  lemma {:induction false} SentSays(sent: seq<Sent>, tops: seq<Top>, cuts: seq<nat>, k: nat)
    requires AreBatches(sent, tops, cuts) && LoneTreesAreSmall(tops) && k <= |sent|
    ensures cuts[k] <= |tops| && TextsSent(sent[..k]) == TreeTexts(Trees(tops[..cuts[k]]))
    decreases k
  {
    hide Texts, TreeTexts, Holds, IdsUsed;
    if k == 0 {
      NothingSaid();
      assert Trees(tops[..0]) == [];
    } else {
      SentSays(sent, tops, cuts, k - 1);
      assert Carries(sent[k - 1], tops, cuts[k - 1], cuts[k]);
      var group := tops[cuts[k - 1]..cuts[k]];
      BatchSays(sent[k - 1].batch, group, 1 + IdsUsed(tops[..cuts[k - 1]]));
      assert Trees(tops[..cuts[k]]) == Trees(tops[..cuts[k - 1]]) + Trees(group);
      TreeTextsAppend(Trees(tops[..cuts[k - 1]]), Trees(group));
      assert sent[..k][..k - 1] == sent[..k - 1];
    }
  }

  lemma {:induction false} TreesAgree(tops: seq<Top>)
    ensures Trees(tops) == TreesOf(tops)
    decreases |tops|
  {
    if tops != [] {
      TreesAgree(tops[..|tops| - 1]);
    }
  }

  /** All texts of the document are sent, in reading order. */
  lemma DocumentIsSent(sent: seq<Sent>, ast: seq<MdNode>, cuts: seq<nat>)
    requires AreBatches(sent, NodeTops(ast), cuts) && cuts[|sent|] == |NodeTops(ast)|
    ensures NonEmpty(TextsSent(sent)) == NonEmpty(SaidInAll(ast))
  {
    hide NonEmpty, TreeTexts, TextsSent, NodeTops, AreBatches, SaidInAll;
    var tops := NodeTops(ast);
    TreesOfDocument(ast);
    assert sent[..|sent|] == sent && tops[..|tops|] == tops;
    LengthOfCuts(sent, tops, cuts);
    SentSays(sent, tops, cuts, |sent|);
    TreesAgree(tops);
    AllSay(ast);
  }

  lemma LengthOfCuts(sent: seq<Sent>, tops: seq<Top>, cuts: seq<nat>)
    requires AreBatches(sent, tops, cuts)
    ensures |cuts| == |sent| + 1
  {
  }

  /**
   * Converts the document and sends it: all its trees in order, each batch at the place the ones before
   * it end, at most fifty trees a time, and every block with a parent from its own batch.
   */
  method WriteDocument(ast: seq<MdNode>) returns (sent: seq<Sent>, ghost cuts: seq<nat>)
    ensures AreBatches(sent, NodeTops(ast), cuts) && cuts[|sent|] == |NodeTops(ast)|
    ensures AreFull(sent, cuts) && AllFindParents(sent)
    ensures NonEmpty(TextsSent(sent)) == NonEmpty(SaidInAll(ast))
  {
    hide AreBatches, AreFull, IsCollected, IdsUsed, Ops, Lay, Size, AllFindParents, NodeTops, NonEmpty, TextsSent, SaidInAll;
    var ops := ConvertToBlocks(ast);
    ghost var tops := NodeTops(ast);
    OpsLength(tops, 1);
    sent, cuts := [], [0];
    var index: nat := 0;
    var simple: seq<Content>, ids: seq<nat>, blocks: seq<Block> := [], [], [];
    ghost var next: nat := 1;
    NothingSent(tops);
    for i := 0 to |ops|
      invariant Between(tops, i, sent, cuts, index, simple, ids, blocks, next)
      invariant |simple| < MAX_CHILDREN_PER_BATCH && |ids| <= MAX_CHILDREN_PER_BATCH
      invariant simple != [] || ids != [] ==> MayGoOn(sent, cuts, simple != [])
      invariant simple == [] && ids == [] ==> MayGoOn(sent, cuts, true) && MayGoOn(sent, cuts, false)
    {
      OpAt(tops, 1, i);
      match ops[i]
      case Simple(block) =>
        if ids != [] {
          AfterRooted(tops, i, sent, cuts, index, ids, blocks, next);
          var s := SendRooted(ids, blocks, index);
          sent, cuts, index, ids, blocks := sent + [s], cuts + [i], index + |ids|, [], [];
        }
        AddAlone(tops, i, sent, cuts, index, simple, next);
        simple := simple + [block];
        if |simple| >= MAX_CHILDREN_PER_BATCH {
          AfterAlone(tops, i + 1, sent, cuts, index, simple, next);
          sent, cuts, index, simple := sent + [Sent(Alone(simple), index)], cuts + [i + 1], index + |simple|, [];
        }
      case Descendant(childrenId, descendants) =>
        if simple != [] {
          AfterAlone(tops, i, sent, cuts, index, simple, next);
          sent, cuts, index, simple := sent + [Sent(Alone(simple), index)], cuts + [i], index + |simple|, [];
        }
        if ids != [] && |ids| + |childrenId| > MAX_CHILDREN_PER_BATCH {
          AfterRooted(tops, i, sent, cuts, index, ids, blocks, next);
          var s := SendRooted(ids, blocks, index);
          sent, cuts, index, ids, blocks := sent + [s], cuts + [i], index + |ids|, [], [];
        }
        AddRooted(tops, i, sent, cuts, index, ids, blocks, next);
        next := next + Size([tops[i].tree]);
        ids, blocks := ids + childrenId, blocks + descendants;
        if |ids| >= MAX_CHILDREN_PER_BATCH {
          AfterRooted(tops, i + 1, sent, cuts, index, ids, blocks, next);
          var s := SendRooted(ids, blocks, index);
          sent, cuts, index, ids, blocks := sent + [s], cuts + [i + 1], index + |ids|, [], [];
        }
    }
    if simple != [] {
      AfterAlone(tops, |ops|, sent, cuts, index, simple, next);
      sent, cuts, index, simple := sent + [Sent(Alone(simple), index)], cuts + [|ops|], index + |simple|, [];
    }
    if ids != [] {
      AfterRooted(tops, |ops|, sent, cuts, index, ids, blocks, next);
      var s := SendRooted(ids, blocks, index);
      sent, cuts, index, ids, blocks := sent + [s], cuts + [|ops|], index + |ids|, [], [];
    }
    BatchesFindParents(sent, tops, cuts);
    DocumentIsSent(sent, ast, cuts);
  }
}
