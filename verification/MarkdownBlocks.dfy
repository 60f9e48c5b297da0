/** Flattening a Markdown syntax tree to blocks that refer to each other by id. */
module MarkdownBlocks {
  import opened Collections
  import opened BlockTrees

  datatype MdNode =
    | Heading(level: nat, elements: seq<Inline>)
    | Paragraph(elements: seq<Inline>)
    | BulletList(items: seq<ListItem>)
    | OrderedList(items: seq<ListItem>)
    | TodoList(items: seq<ListItem>)
    | CodeBlock(lang: Option<string>, content: string)
    | BlockQuote(children: seq<MdNode>)
    | Table(rows: seq<seq<string>>)
    | Divider

  datatype ListItem = ListItem(elements: seq<Inline>, children: seq<MdNode>, done: Option<bool>)

  datatype ListKind = Bullet | Ordered | TodoKind

  // ---------------------------------------------------------------- the contents of the blocks

  function HeadingBlockType(level: nat): int {
    if 1 <= level <= 6 then level + 2 else 2
  }

  function HeadingBlockKey(level: nat): string {
    match level
    case 1 => "heading1"
    case 2 => "heading2"
    case 3 => "heading3"
    case 4 => "heading4"
    case 5 => "heading5"
    case 6 => "heading6"
    case _ => "text"
  }

  function TextContent(elements: seq<Inline>): Content {
    Content(2, "text", Elements(elements))
  }

  function ListContent(item: ListItem, kind: ListKind): Content {
    match kind
    case Bullet => Content(12, "bullet", Elements(item.elements))
    case Ordered => Content(13, "ordered", Elements(item.elements))
    case TodoKind => Content(17, "todo", Todo(item.elements, item.done == Some(true)))
  }

  const QUOTE: Content := Content(15, "quote", Bare)

  /** The text of a cell is parsed for inline markup; a row too short for its column has an empty cell. */
  function CellText(row: seq<string>, col: nat): Content {
    Content(2, "text", Cell(if col < |row| then row[col] else ""))
  }

  const CELL: Content := Content(32, "table_cell", Bare)

  function TableContent(rows: nat, columns: nat): Content {
    Content(31, "table", Grid(rows, columns))
  }

  const EMPTY_TEXT: Content := Content(2, "text", Elements([Inline("")]))

  function LeafContent(node: MdNode): Content
    requires node.Heading? || node.Paragraph? || node.CodeBlock? || node.Divider?
  {
    match node
    case Heading(level, elements) => Content(HeadingBlockType(level), HeadingBlockKey(level), Elements(elements))
    case Paragraph(elements) => TextContent(elements)
    case CodeBlock(lang, text) => Content(14, "code", Code(lang, text))
    case Divider => Content(22, "divider", Bare)
  }

  // ---------------------------------------------------------------- the trees a syntax tree stands for

  /** The block trees of a node: one, except that a list has one for each item. */
  ghost function Forest(node: MdNode): seq<Tree>
    decreases node
  {
    match node
    case BulletList(items) => ItemForest(items, Bullet)
    case OrderedList(items) => ItemForest(items, Ordered)
    case TodoList(items) => ItemForest(items, TodoKind)
    case BlockQuote(children) => [Tree(QUOTE, Forests(children))]
    case Table(rows) => [TableTree(rows)]
    case _ => [Tree(LeafContent(node), [])]
  }

  ghost function Forests(nodes: seq<MdNode>): seq<Tree>
    decreases nodes
  {
    if nodes == [] then [] else Forest(nodes[0]) + Forests(nodes[1..])
  }

  ghost function ItemForest(items: seq<ListItem>, kind: ListKind): seq<Tree>
    decreases items
  {
    if items == [] then [] else [ItemTree(items[0], kind)] + ItemForest(items[1..], kind)
  }

  ghost function ItemTree(item: ListItem, kind: ListKind): Tree
    decreases item
  {
    Tree(ListContent(item, kind), Forests(item.children))
  }

  function ColumnSize(rows: seq<seq<string>>): nat {
    if rows == [] then 0
    else if |rows[0]| > ColumnSize(rows[1..]) then |rows[0]| else ColumnSize(rows[1..])
  }

  ghost function CellTree(row: seq<string>, col: nat): Tree {
    Tree(CELL, [Tree(CellText(row, col), [])])
  }

  ghost function RowTrees(row: seq<string>, columns: nat): seq<Tree> {
    if columns == 0 then [] else RowTrees(row, columns - 1) + [CellTree(row, columns - 1)]
  }

  ghost function CellTrees(rows: seq<seq<string>>, columns: nat): seq<Tree> {
    if rows == [] then [] else CellTrees(rows[..|rows| - 1], columns) + RowTrees(rows[|rows| - 1], columns)
  }

  /** A table without cells becomes an empty text block. */
  ghost function TableTree(rows: seq<seq<string>>): Tree {
    var columns := ColumnSize(rows);
    if rows == [] || columns == 0 then Tree(EMPTY_TEXT, [])
    else Tree(TableContent(|rows|, columns), CellTrees(rows, columns))
  }

  lemma {:induction false} ForestsAppend(nodes: seq<MdNode>, node: MdNode)
    ensures Forests(nodes + [node]) == Forests(nodes) + Forest(node)
    decreases |nodes|
  {
    if nodes == [] {
      assert (nodes + [node])[1..] == [] && (nodes + [node])[0] == node;
    } else {
      ForestsAppend(nodes[1..], node);
      assert (nodes + [node])[1..] == nodes[1..] + [node];
    }
  }

  lemma {:induction false} ItemForestAppend(items: seq<ListItem>, item: ListItem, kind: ListKind)
    ensures ItemForest(items + [item], kind) == ItemForest(items, kind) + [ItemTree(item, kind)]
    decreases |items|
  {
    if items == [] {
      assert (items + [item])[1..] == [] && (items + [item])[0] == item;
    } else {
      ItemForestAppend(items[1..], item, kind);
      assert (items + [item])[1..] == items[1..] + [item];
    }
  }

  // ---------------------------------------------------------------- flattening below the top level

  /** The id is the counter's value; the next one is the number after it. */
  method AllocId(counter: nat) returns (id: nat, next: nat)
    ensures id == counter && next == counter + 1
  {
    id, next := counter, counter + 1;
  }

  method NodeToDescendants(node: MdNode, counter: nat) returns (ids: seq<nat>, blocks: seq<Block>, next: nat)
    ensures IsLaid(Forest(node), counter, ids, blocks, next)
    decreases node, 0
  {
    match node
    case BulletList(items) =>
      ids, blocks, next := ItemsToDescendants(items, Bullet, counter);
    case OrderedList(items) =>
      ids, blocks, next := ItemsToDescendants(items, Ordered, counter);
    case TodoList(items) =>
      ids, blocks, next := ItemsToDescendants(items, TodoKind, counter);
    case BlockQuote(children) =>
      ids, blocks, next := WithChildren(QUOTE, children, counter);
    case Table(rows) =>
      ids, blocks, next := TableDescendants(rows, counter);
    case _ =>
      var id;
      id, next := AllocId(counter);
      ids, blocks := [id], [Block(id, LeafContent(node), [])];
      LaidNothing(next);
      LaidTree(LeafContent(node), [], id, [], [], next);
  }

  method ItemsToDescendants(items: seq<ListItem>, kind: ListKind, counter: nat)
      returns (ids: seq<nat>, blocks: seq<Block>, next: nat)
    ensures IsLaid(ItemForest(items, kind), counter, ids, blocks, next)
    decreases items, 1
  {
    hide IsLaid;
    ids, blocks, next := [], [], counter;
    LaidNothing(counter);
    for i := 0 to |items|
      invariant IsLaid(ItemForest(items[..i], kind), counter, ids, blocks, next)
    {
      var itemIds, itemBlocks, after := ItemToDescendants(items[i], kind, next);
      LaidAppend(ItemForest(items[..i], kind), [ItemTree(items[i], kind)], counter, ids, blocks, next,
                 itemIds, itemBlocks, after);
      ItemForestAppend(items[..i], items[i], kind);
      assert items[..i + 1] == items[..i] + [items[i]];
      ids, blocks, next := ids + itemIds, blocks + itemBlocks, after;
    }
    assert items[..|items|] == items;
  }

  method ItemToDescendants(item: ListItem, kind: ListKind, counter: nat)
      returns (ids: seq<nat>, blocks: seq<Block>, next: nat)
    ensures IsLaid([ItemTree(item, kind)], counter, ids, blocks, next)
    decreases item, 2
  {
    ids, blocks, next := WithChildren(ListContent(item, kind), item.children, counter);
  }

  /** A block with the blocks of its children behind it. */
  method WithChildren(content: Content, children: seq<MdNode>, counter: nat)
      returns (ids: seq<nat>, blocks: seq<Block>, next: nat)
    ensures IsLaid([Tree(content, Forests(children))], counter, ids, blocks, next)
    ensures ids == [counter] && |blocks| > 0
    decreases children, 1
  {
    hide IsLaid;
    var id;
    id, next := AllocId(counter);
    var childIds, childBlocks := [], [];
    LaidNothing(next);
    for i := 0 to |children|
      invariant IsLaid(Forests(children[..i]), id + 1, childIds, childBlocks, next)
    {
      var rootIds, descendants, after := NodeToDescendants(children[i], next);
      LaidAppend(Forests(children[..i]), Forest(children[i]), id + 1, childIds, childBlocks, next,
                 rootIds, descendants, after);
      ForestsAppend(children[..i], children[i]);
      assert children[..i + 1] == children[..i] + [children[i]];
      childIds, childBlocks, next := childIds + rootIds, childBlocks + descendants, after;
    }
    assert children[..|children|] == children;
    LaidTree(content, Forests(children), id, childIds, childBlocks, next);
    ids, blocks := [id], [Block(id, content, childIds)] + childBlocks;
  }

  method TableDescendants(rows: seq<seq<string>>, counter: nat) returns (ids: seq<nat>, blocks: seq<Block>, next: nat)
    ensures IsLaid([TableTree(rows)], counter, ids, blocks, next)
    ensures ids == [counter] && |blocks| > 0
  {
    hide IsLaid, RowTrees, CellTree;
    var columns := ColumnSize(rows);
    var tableId;
    tableId, next := AllocId(counter);
    LaidNothing(next);
    if |rows| == 0 || columns == 0 {
      LaidTree(EMPTY_TEXT, [], tableId, [], [], next);
      assert [Block(tableId, EMPTY_TEXT, [])] + [] == [Block(tableId, EMPTY_TEXT, [])];
      return [tableId], [Block(tableId, EMPTY_TEXT, [])], next;
    }
    var cellIds, descendants := [], [];
    for i := 0 to |rows|
      invariant IsLaid(CellTrees(rows[..i], columns), tableId + 1, cellIds, descendants, next)
    {
      ghost var done := CellTrees(rows[..i], columns);
      TableGrows(rows, i, columns);
      for col := 0 to columns
        invariant IsLaid(done + RowTrees(rows[i], col), tableId + 1, cellIds, descendants, next)
      {
        var cellId, childId, after;
        cellId, after := AllocId(next);
        childId, after := AllocId(after);
        CellLaid(rows[i], col, next);
        LaidAppend(done + RowTrees(rows[i], col), [CellTree(rows[i], col)], tableId + 1, cellIds, descendants, next,
                   [cellId], [Block(cellId, CELL, [childId]), Block(childId, CellText(rows[i], col), [])], after);
        RowGrows(done, rows[i], col);
        cellIds := cellIds + [cellId];
        descendants := descendants + [Block(cellId, CELL, [childId]), Block(childId, CellText(rows[i], col), [])];
        next := after;
      }
    }
    assert rows[..|rows|] == rows;
    LaidTree(TableContent(|rows|, columns), CellTrees(rows, columns), tableId, cellIds, descendants, next);
    ids, blocks := [tableId], [Block(tableId, TableContent(|rows|, columns), cellIds)] + descendants;
  }

  lemma RowGrows(done: seq<Tree>, row: seq<string>, col: nat)
    ensures done + RowTrees(row, col) + [CellTree(row, col)] == done + RowTrees(row, col + 1)
  {
  }

  lemma TableGrows(rows: seq<seq<string>>, i: nat, columns: nat)
    requires i < |rows|
    ensures CellTrees(rows[..i], columns) + RowTrees(rows[i], 0) == CellTrees(rows[..i], columns)
    ensures CellTrees(rows[..i], columns) + RowTrees(rows[i], columns) == CellTrees(rows[..i + 1], columns)
  {
    assert rows[..i + 1][..i] == rows[..i];
  }

  lemma CellLaid(row: seq<string>, col: nat, n: nat)
    ensures IsLaid([CellTree(row, col)], n, [n], [Block(n, CELL, [n + 1]), Block(n + 1, CellText(row, col), [])], n + 2)
  {
    LaidNothing(n + 2);
    LaidTree(CellText(row, col), [], n + 1, [], [], n + 2);
    LaidTree(CELL, [Tree(CellText(row, col), [])], n, [n + 1], [Block(n + 1, CellText(row, col), [])] + [], n + 2);
  }

  // ---------------------------------------------------------------- the top level

  /** A block without children is created alone and gets no id; the others are created with all they contain. */
  datatype BlockOp = Simple(content: Content) | Descendant(childrenId: seq<nat>, descendants: seq<Block>)

  /** A top-level tree, and whether it is created alone. */
  datatype Top = Top(tree: Tree, alone: bool)

  ghost function Tops(node: MdNode): seq<Top> {
    match node
    case BulletList(items) => ItemTops(items, Bullet)
    case OrderedList(items) => ItemTops(items, Ordered)
    case TodoList(items) => ItemTops(items, TodoKind)
    case BlockQuote(children) => [Top(Tree(QUOTE, Forests(children)), children == [])]
    case Table(rows) => [Top(TableTree(rows), false)]
    case _ => [Top(Tree(LeafContent(node), []), true)]
  }

  ghost function ItemTops(items: seq<ListItem>, kind: ListKind): seq<Top> {
    if items == [] then []
    else ItemTops(items[..|items| - 1], kind)
         + [Top(ItemTree(items[|items| - 1], kind), items[|items| - 1].children == [])]
  }

  ghost function NodeTops(nodes: seq<MdNode>): seq<Top> {
    if nodes == [] then [] else NodeTops(nodes[..|nodes| - 1]) + Tops(nodes[|nodes| - 1])
  }

  /** How many ids the top-level trees use. */
  ghost function IdsUsed(tops: seq<Top>): nat {
    if tops == [] then 0
    else IdsUsed(tops[..|tops| - 1]) + if tops[|tops| - 1].alone then 0 else Size([tops[|tops| - 1].tree])
  }

  ghost function Op(top: Top, n: nat): BlockOp {
    if top.alone then Simple(top.tree.content) else Descendant([n], Lay([top.tree], n))
  }

  /** The operations for the top-level trees, their ids numbered through from `n`. */
  ghost function Ops(tops: seq<Top>, n: nat): seq<BlockOp> {
    if tops == [] then []
    else
      var init := tops[..|tops| - 1];
      Ops(init, n) + [Op(tops[|tops| - 1], n + IdsUsed(init))]
  }

  ghost predicate IsBuilt(tops: seq<Top>, n: nat, ops: seq<BlockOp>, next: nat) {
    ops == Ops(tops, n) && next == n + IdsUsed(tops)
  }

  lemma {:induction false} BuiltAppend(a: seq<Top>, b: seq<Top>, n: nat, aOps: seq<BlockOp>, mid: nat,
                                       bOps: seq<BlockOp>, next: nat)
    requires IsBuilt(a, n, aOps, mid) && IsBuilt(b, mid, bOps, next)
    ensures IsBuilt(a + b, n, aOps + bOps, next)
    decreases |b|
  {
    if b == [] {
      assert a + b == a;
    } else {
      var init := b[..|b| - 1];
      BuiltAppend(a, init, n, aOps, mid, Ops(init, mid), mid + IdsUsed(init));
      assert (a + b)[..|a + b| - 1] == a + init;
    }
  }

  lemma BuiltNothing(n: nat)
    ensures IsBuilt([], n, [], n)
  {
  }

  lemma BuiltAlone(content: Content, n: nat)
    ensures IsBuilt([Top(Tree(content, []), true)], n, [Simple(content)], n)
  {
    var tops := [Top(Tree(content, []), true)];
    assert tops[..0] == [];
  }

  lemma BuiltTree(tree: Tree, n: nat, ids: seq<nat>, blocks: seq<Block>, next: nat)
    requires IsLaid([tree], n, ids, blocks, next)
    ensures IsBuilt([Top(tree, false)], n, [Descendant(ids, blocks)], next)
  {
    var tops := [Top(tree, false)];
    assert tops[..0] == [];
    NoTrees(n + 1 + Size(tree.children));
    assert [tree][1..] == [];
    assert ids == [n] + [];
    assert tops[0].tree == tree && Op(tops[0], n) == Descendant(ids, blocks);
    assert Ops(tops, n) == [] + [Op(tops[0], n + 0)];
  }

  method NodeToBlockOps(node: MdNode, counter: nat) returns (ops: seq<BlockOp>, next: nat)
    ensures IsBuilt(Tops(node), counter, ops, next)
  {
    hide IsBuilt, IsLaid;
    match node
    case BulletList(items) =>
      ops, next := ItemsToBlockOps(items, Bullet, counter);
    case OrderedList(items) =>
      ops, next := ItemsToBlockOps(items, Ordered, counter);
    case TodoList(items) =>
      ops, next := ItemsToBlockOps(items, TodoKind, counter);
    case BlockQuote(children) =>
      if children == [] {
        BuiltAlone(QUOTE, counter);
        return [Simple(QUOTE)], counter;
      }
      var ids, blocks;
      ids, blocks, next := WithChildren(QUOTE, children, counter);
      BuiltTree(Tree(QUOTE, Forests(children)), counter, ids, blocks, next);
      ops := [Descendant(ids, blocks)];
    case Table(rows) =>
      var ids, blocks;
      ids, blocks, next := TableDescendants(rows, counter);
      BuiltTree(TableTree(rows), counter, ids, blocks, next);
      ops := [Descendant(ids, blocks)];
    case _ =>
      BuiltAlone(LeafContent(node), counter);
      ops, next := [Simple(LeafContent(node))], counter;
  }

  method ItemsToBlockOps(items: seq<ListItem>, kind: ListKind, counter: nat) returns (ops: seq<BlockOp>, next: nat)
    ensures IsBuilt(ItemTops(items, kind), counter, ops, next)
  {
    hide IsBuilt, IsLaid;
    ops, next := [], counter;
    BuiltNothing(counter);
    for i := 0 to |items|
      invariant IsBuilt(ItemTops(items[..i], kind), counter, ops, next)
    {
      var itemOps, after := ItemToBlockOps(items[i], kind, next);
      BuiltAppend(ItemTops(items[..i], kind), [Top(ItemTree(items[i], kind), items[i].children == [])], counter, ops, next,
                  itemOps, after);
      assert items[..i + 1][..i] == items[..i];
      ops, next := ops + itemOps, after;
    }
    assert items[..|items|] == items;
  }

  method ItemToBlockOps(item: ListItem, kind: ListKind, counter: nat) returns (ops: seq<BlockOp>, next: nat)
    ensures IsBuilt([Top(ItemTree(item, kind), item.children == [])], counter, ops, next)
  {
    hide IsBuilt, IsLaid;
    if item.children == [] {
      BuiltAlone(ListContent(item, kind), counter);
      return [Simple(ListContent(item, kind))], counter;
    }
    var ids, blocks;
    ids, blocks, next := WithChildren(ListContent(item, kind), item.children, counter);
    BuiltTree(ItemTree(item, kind), counter, ids, blocks, next);
    ops := [Descendant(ids, blocks)];
  }

  /** The whole document: ids are numbered from one. */
  method ConvertToBlocks(ast: seq<MdNode>) returns (ops: seq<BlockOp>)
    ensures ops == Ops(NodeTops(ast), 1)
  {
    var counter := 1;
    ops := [];
    BuiltNothing(1);
    for i := 0 to |ast|
      invariant IsBuilt(NodeTops(ast[..i]), 1, ops, counter)
    {
      var nodeOps, after := NodeToBlockOps(ast[i], counter);
      BuiltAppend(NodeTops(ast[..i]), Tops(ast[i]), 1, ops, counter, nodeOps, after);
      assert ast[..i + 1][..i] == ast[..i];
      ops, counter := ops + nodeOps, after;
    }
    assert ast[..|ast|] == ast;
  }

  /** All descendant blocks of the operations, in order. */
  ghost function AllDescendants(ops: seq<BlockOp>): seq<Block> {
    if ops == [] then []
    else AllDescendants(ops[..|ops| - 1]) + if ops[|ops| - 1].Simple? then [] else ops[|ops| - 1].descendants
  }

  lemma OneMoreOp(tops: seq<Top>, n: nat)
    requires tops != []
    ensures var init, last := tops[..|tops| - 1], tops[|tops| - 1];
            AllDescendants(Ops(tops, n)) ==
            AllDescendants(Ops(init, n)) + if last.alone then [] else Lay([last.tree], n + IdsUsed(init))
  {
    hide Lay, Size;
    var init := tops[..|tops| - 1];
    var ops := Ops(tops, n);
    assert ops[..|ops| - 1] == Ops(init, n) && ops[|ops| - 1] == Op(tops[|tops| - 1], n + IdsUsed(init));
  }

  /** The ids in a document are exactly the values the counter has taken, in order. */
  lemma {:induction false} DocumentIdsConsecutive(tops: seq<Top>, n: nat)
    ensures |AllDescendants(Ops(tops, n))| == IdsUsed(tops)
    ensures forall i :: 0 <= i < IdsUsed(tops) ==> AllDescendants(Ops(tops, n))[i].id == n + i
    decreases |tops|
  {
    hide Lay, Size, Ops, AllDescendants;
    if tops == [] {
      NoOps(n);
    } else {
      var init, last := tops[..|tops| - 1], tops[|tops| - 1];
      DocumentIdsConsecutive(init, n);
      ConsecutiveIds([last.tree], n + IdsUsed(init));
      OneMoreOp(tops, n);
    }
  }

  lemma NoOps(n: nat)
    ensures AllDescendants(Ops([], n)) == []
  {
  }

  lemma {:induction false} OpsLength(tops: seq<Top>, n: nat)
    ensures |Ops(tops, n)| == |tops|
    decreases |tops|
  {
    if tops != [] {
      OpsLength(tops[..|tops| - 1], n);
    }
  }

  /** Each operation is the one for its tree, at the place the trees before it leave the counter. */
  lemma {:induction false} OpAt(tops: seq<Top>, n: nat, i: nat)
    requires i < |tops|
    ensures |Ops(tops, n)| == |tops| && Ops(tops, n)[i] == Op(tops[i], n + IdsUsed(tops[..i]))
    decreases |tops|
  {
    OpsLength(tops[..|tops| - 1], n);
    if i < |tops| - 1 {
      OpAt(tops[..|tops| - 1], n, i);
      assert tops[..|tops| - 1][..i] == tops[..i];
    }
  }

  // ---------------------------------------------------------------- injecting the parents

  datatype Parent = Document | ParentBlock(id: nat) | NoParent

  datatype Enriched = Enriched(block: Block, parent: Parent)

  ghost function ParentOf(descendants: seq<Block>, childrenId: seq<nat>, id: nat): Parent {
    if id in childrenId then Document
    else if ParentIn(descendants, id).Some? then ParentBlock(ParentIn(descendants, id).value)
    else NoParent
  }

  ghost predicate IsParentMap(parents: map<nat, nat>, blocks: seq<Block>) {
    forall id {:trigger ParentIn(blocks, id)} :: ParentIn(blocks, id) == if id in parents then Some(parents[id]) else None
  }

  /** Whatever the blocks: a root gets the document, any other block the last block that lists it, or nothing. */
  method InjectParents(descendants: seq<Block>, childrenId: seq<nat>) returns (out: seq<Enriched>)
    ensures |out| == |descendants|
    ensures forall i :: 0 <= i < |out| ==>
              out[i] == Enriched(descendants[i], ParentOf(descendants, childrenId, descendants[i].id))
  {
    var parents: map<nat, nat> := map[];
    for i := 0 to |descendants|
      invariant IsParentMap(parents, descendants[..i])
    {
      ghost var before := parents;
      var children := descendants[i].children;
      for j := 0 to |children|
        invariant forall id :: id in parents <==> id in before || id in children[..j]
        invariant forall id :: id in parents ==>
                    parents[id] == if id in children[..j] then descendants[i].id else before[id]
      {
        parents := parents[children[j] := descendants[i].id];
        assert children[..j + 1] == children[..j] + [children[j]];
      }
      assert children[..|children|] == children;
      assert descendants[..i + 1][..i] == descendants[..i];
    }
    assert descendants[..|descendants|] == descendants;
    var roots := Elems(childrenId);
    out := [];
    for i := 0 to |descendants|
      invariant |out| == i
      invariant forall q :: 0 <= q < i ==>
                  out[q] == Enriched(descendants[q], ParentOf(descendants, childrenId, descendants[q].id))
    {
      var id := descendants[i].id;
      assert ParentIn(descendants, id) == if id in parents then Some(parents[id]) else None;
      var parent := if id in roots then Document else if id in parents then ParentBlock(parents[id]) else NoParent;
      out := out + [Enriched(descendants[i], parent)];
    }
  }

  /** In what the flatteners emit every block finds its true parent, and the empty default is never used. */
  lemma EveryBlockFindsItsParent(ts: seq<Tree>, n: nat, i: nat) returns (parent: Option<nat>)
    requires i < Size(ts)
    ensures parent.None? ==> n + i in RootIds(ts, n) && ParentOf(Lay(ts, n), RootIds(ts, n), n + i) == Document
    ensures parent.Some? ==> IsParent(ts, n, parent.value, i)
                             && ParentOf(Lay(ts, n), RootIds(ts, n), n + i) == ParentBlock(n + parent.value)
  {
    parent := OneParent(ts, n, i);
  }
}
