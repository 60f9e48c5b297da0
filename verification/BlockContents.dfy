/** What the blocks of a document show: each node of the syntax tree, block by block, and all its texts in order. */
module BlockContents {
  import opened Collections
  import opened BlockTrees
  import opened MarkdownBlocks

  // ---------------------------------------------------------------- blocks that show a node

  ghost predicate IsBlock(blocks: seq<Block>, id: nat, blockType: int, key: string, payload: Payload, children: seq<nat>) {
    Block(id, Content(blockType, key, payload), children) in blocks
  }

  /** Following `ids` through the blocks, one finds the node with all that is in it. */
  ghost predicate Shows(blocks: seq<Block>, ids: seq<nat>, node: MdNode)
    decreases node
  {
    match node
    case Heading(level, elements) =>
      |ids| == 1 && if 1 <= level <= 6
        then IsBlock(blocks, ids[0], level + 2, "heading" + ["0123456789"[level]], Elements(elements), [])
        else IsBlock(blocks, ids[0], 2, "text", Elements(elements), [])
    case Paragraph(elements) => |ids| == 1 && IsBlock(blocks, ids[0], 2, "text", Elements(elements), [])
    case CodeBlock(lang, content) => |ids| == 1 && IsBlock(blocks, ids[0], 14, "code", Code(lang, content), [])
    case Divider => |ids| == 1 && IsBlock(blocks, ids[0], 22, "divider", Bare, [])
    case BulletList(items) => |ids| == |items| && forall i :: 0 <= i < |items| ==> ShowsItem(blocks, ids[i], items[i], Bullet)
    case OrderedList(items) => |ids| == |items| && forall i :: 0 <= i < |items| ==> ShowsItem(blocks, ids[i], items[i], Ordered)
    case TodoList(items) => |ids| == |items| && forall i :: 0 <= i < |items| ==> ShowsItem(blocks, ids[i], items[i], TodoKind)
    case BlockQuote(children) =>
      |ids| == 1 && exists c :: IsBlock(blocks, ids[0], 15, "quote", Bare, c) && ShowsAll(blocks, c, children)
    case Table(rows) => |ids| == 1 && ShowsTable(blocks, ids[0], rows)
  }

  /** The ids are those of the nodes, one node after the other. */
  ghost predicate ShowsAll(blocks: seq<Block>, ids: seq<nat>, nodes: seq<MdNode>)
    decreases nodes
  {
    if nodes == [] then ids == []
    else exists k: nat {:trigger ids[..k]} :: k <= |ids| && Shows(blocks, ids[..k], nodes[0]) && ShowsAll(blocks, ids[k..], nodes[1..])
  }

  ghost predicate ShowsItem(blocks: seq<Block>, id: nat, item: ListItem, kind: ListKind)
    decreases item
  {
    exists c :: ShowsAll(blocks, c, item.children) && match kind
      case Bullet => IsBlock(blocks, id, 12, "bullet", Elements(item.elements), c)
      case Ordered => IsBlock(blocks, id, 13, "ordered", Elements(item.elements), c)
      case TodoKind => IsBlock(blocks, id, 17, "todo", Todo(item.elements, item.done == Some(true)), c)
  }

  /** A table has as many columns as its longest row; shorter rows are filled up with empty cells. */
  ghost predicate ShowsTable(blocks: seq<Block>, id: nat, rows: seq<seq<string>>) {
    if forall i :: 0 <= i < |rows| ==> rows[i] == [] then
      IsBlock(blocks, id, 2, "text", Elements([Inline("")]), [])
    else exists columns: nat, cells ::
      && IsBlock(blocks, id, 31, "table", Grid(|rows|, columns), cells) && |cells| == |rows| * columns
      && IsLongest(rows, columns) && ShowsCells(blocks, cells, rows, columns)
  }

  ghost predicate IsLongest(rows: seq<seq<string>>, columns: nat) {
    && (forall i :: 0 <= i < |rows| ==> |rows[i]| <= columns)
    && exists i :: 0 <= i < |rows| && |rows[i]| == columns
  }

  function Place(row: nat, columns: nat, column: nat): nat {
    row * columns + column
  }

  ghost predicate ShowsCells(blocks: seq<Block>, cells: seq<nat>, rows: seq<seq<string>>, columns: nat) {
    forall i: nat, j: nat :: i < |rows| && j < columns ==>
      && Place(i, columns, j) < |cells|
      && ShowsCell(blocks, cells[Place(i, columns, j)], if j < |rows[i]| then rows[i][j] else "")
  }

  ghost predicate ShowsCell(blocks: seq<Block>, id: nat, text: string) {
    exists child :: IsBlock(blocks, id, 32, "table_cell", Bare, [child]) && IsBlock(blocks, child, 2, "text", Cell(text), [])
  }

  // ---------------------------------------------------------------- from trees to nodes

  lemma RootOf(blocks: seq<Block>, id: nat, t: Tree) returns (c: seq<nat>)
    requires RepresentsTree(blocks, id, t)
    ensures Block(id, t.content, c) in blocks && Represents(blocks, c, t.children)
  {
    var b :| b in blocks && b.id == id && b.content == t.content && Represents(blocks, b.children, t.children);
    c := b.children;
  }

  lemma {:induction false} RepresentsAt(blocks: seq<Block>, ids: seq<nat>, ts: seq<Tree>, i: nat)
    requires Represents(blocks, ids, ts) && i < |ts|
    ensures |ids| == |ts| && RepresentsTree(blocks, ids[i], ts[i])
    decreases i
  {
    if i > 0 {
      RepresentsAt(blocks, ids[1..], ts[1..], i - 1);
    }
  }

  lemma {:induction false} RepresentsSplit(blocks: seq<Block>, ids: seq<nat>, a: seq<Tree>, b: seq<Tree>)
    requires Represents(blocks, ids, a + b)
    ensures |ids| == |a| + |b| && Represents(blocks, ids[..|a|], a) && Represents(blocks, ids[|a|..], b)
    decreases |a|
  {
    hide RepresentsTree;
    if a == [] {
      assert a + b == b && ids[0..] == ids && ids[..0] == [];
    } else {
      assert (a + b)[1..] == a[1..] + b && (a + b)[0] == a[0];
      RepresentsSplit(blocks, ids[1..], a[1..], b);
      assert ids[..|a|][1..] == ids[1..][..|a| - 1] && ids[1..][|a| - 1..] == ids[|a|..];
      assert ids[..|a|][0] == ids[0];
    }
  }

  lemma OneTree(blocks: seq<Block>, ids: seq<nat>, t: Tree)
    requires Represents(blocks, ids, [t])
    ensures |ids| == 1 && RepresentsTree(blocks, ids[0], t)
  {
  }

  lemma NoIds(blocks: seq<Block>, ids: seq<nat>)
    requires Represents(blocks, ids, [])
    ensures ids == []
  {
  }

  /** Blocks that stand for the trees of a node show the node. */
  lemma {:induction false} TreesShow(blocks: seq<Block>, ids: seq<nat>, node: MdNode)
    requires Represents(blocks, ids, Forest(node))
    ensures Shows(blocks, ids, node)
    decreases node, 1
  {
    hide Represents, RepresentsTree, IsBlock, ShowsItem, ShowsTable;
    match node
    case BulletList(items) => ItemTreesShow(blocks, ids, items, Bullet);
    case OrderedList(items) => ItemTreesShow(blocks, ids, items, Ordered);
    case TodoList(items) => ItemTreesShow(blocks, ids, items, TodoKind);
    case BlockQuote(children) =>
      var t := Tree(QUOTE, Forests(children));
      OneTree(blocks, ids, t);
      var c := RootOf(blocks, ids[0], t);
      AllTreesShow(blocks, c, children);
      IsBlockIn(blocks, ids[0], QUOTE, c);
    case Table(rows) =>
      OneTree(blocks, ids, TableTree(rows));
      TableShown(blocks, ids[0], rows);
    case _ =>
      var t := Tree(LeafContent(node), []);
      OneTree(blocks, ids, t);
      var c := RootOf(blocks, ids[0], t);
      NoIds(blocks, c);
      IsBlockIn(blocks, ids[0], LeafContent(node), c);
      KeyOfLevel(LevelOf(node));
  }

  ghost function LevelOf(node: MdNode): nat {
    match node
    case Heading(level, _) => level
    case _ => 0
  }

  lemma KeyOfLevel(level: nat)
    ensures 1 <= level <= 6 ==> HeadingBlockKey(level) == "heading" + ["0123456789"[level]]
  {
    assert "heading" + ['1'] == "heading1" && "heading" + ['2'] == "heading2" && "heading" + ['3'] == "heading3";
    assert "heading" + ['4'] == "heading4" && "heading" + ['5'] == "heading5" && "heading" + ['6'] == "heading6";
  }

  lemma IsBlockIn(blocks: seq<Block>, id: nat, content: Content, c: seq<nat>)
    requires Block(id, content, c) in blocks
    ensures IsBlock(blocks, id, content.blockType, content.key, content.payload, c)
  {
  }

  lemma {:induction false} AllTreesShow(blocks: seq<Block>, ids: seq<nat>, nodes: seq<MdNode>)
    requires Represents(blocks, ids, Forests(nodes))
    ensures ShowsAll(blocks, ids, nodes)
    decreases nodes, 0
  {
    hide Represents, Shows, Forest;
    if nodes == [] {
      NoIds(blocks, ids);
    } else {
      var k := |Forest(nodes[0])|;
      RepresentsSplit(blocks, ids, Forest(nodes[0]), Forests(nodes[1..]));
      TreesShow(blocks, ids[..k], nodes[0]);
      AllTreesShow(blocks, ids[k..], nodes[1..]);
    }
  }

  lemma {:induction false} ItemTreesShow(blocks: seq<Block>, ids: seq<nat>, items: seq<ListItem>, kind: ListKind)
    requires Represents(blocks, ids, ItemForest(items, kind))
    ensures |ids| == |items| && forall i :: 0 <= i < |items| ==> ShowsItem(blocks, ids[i], items[i], kind)
    decreases items, 1
  {
    hide Represents, ShowsItem, ItemTree;
    if items == [] {
      NoIds(blocks, ids);
    } else {
      RepresentsSplit(blocks, ids, [ItemTree(items[0], kind)], ItemForest(items[1..], kind));
      OneTree(blocks, ids[..1], ItemTree(items[0], kind));
      ItemTreeShows(blocks, ids[0], items[0], kind);
      ItemTreesShow(blocks, ids[1..], items[1..], kind);
    }
  }

  lemma {:induction false} ItemTreeShows(blocks: seq<Block>, id: nat, item: ListItem, kind: ListKind)
    requires RepresentsTree(blocks, id, ItemTree(item, kind))
    ensures ShowsItem(blocks, id, item, kind)
    decreases item, 0
  {
    hide Represents, RepresentsTree, IsBlock, ShowsAll;
    var c := RootOf(blocks, id, ItemTree(item, kind));
    AllTreesShow(blocks, c, item.children);
    IsBlockIn(blocks, id, ListContent(item, kind), c);
  }

  // ---------------------------------------------------------------- tables

  lemma {:induction false} ColumnsFit(rows: seq<seq<string>>)
    ensures forall i :: 0 <= i < |rows| ==> |rows[i]| <= ColumnSize(rows)
    ensures rows != [] ==> IsLongest(rows, ColumnSize(rows))
  {
    if rows != [] {
      ColumnsFit(rows[1..]);
      if |rows[0]| < ColumnSize(rows) {
        if rows[1..] != [] {
          var i :| 0 <= i < |rows[1..]| && |rows[1..][i]| == ColumnSize(rows[1..]);
          assert |rows[i + 1]| == ColumnSize(rows);
        }
      }
    }
  }

  lemma {:induction false} RowTreeAt(row: seq<string>, columns: nat, j: nat)
    requires j < columns
    ensures |RowTrees(row, columns)| == columns && RowTrees(row, columns)[j] == CellTree(row, j)
    decreases columns
  {
    hide CellTree;
    if j < columns - 1 {
      RowTreeAt(row, columns - 1, j);
    } else if columns > 1 {
      RowTreeAt(row, columns - 1, 0);
    }
  }

  lemma {:induction false} RowLength(row: seq<string>, columns: nat)
    ensures |RowTrees(row, columns)| == columns
  {
    if columns > 0 {
      RowLength(row, columns - 1);
    }
  }

  lemma PlaceOfRow(i: nat, n: nat, columns: nat, j: nat)
    requires i < n && j < columns
    ensures Place(i, columns, j) < n * columns
    ensures i < n - 1 ==> Place(i, columns, j) < (n - 1) * columns
    ensures (n - 1) * columns + columns == n * columns
  {
    assert (i + 1) * columns == i * columns + columns;
    AtMostTimes(i + 1, n, columns);
    if i < n - 1 {
      AtMostTimes(i + 1, n - 1, columns);
    }
  }

  lemma AtMostTimes(a: nat, b: nat, c: nat)
    requires a <= b
    ensures a * c <= b * c
  {
    assert (b - a) * c >= 0;
  }

  lemma {:induction false} CellCount(rows: seq<seq<string>>, columns: nat)
    ensures |CellTrees(rows, columns)| == |rows| * columns
    decreases |rows|
  {
    hide RowTrees;
    if rows != [] {
      CellCount(rows[..|rows| - 1], columns);
      RowLength(rows[|rows| - 1], columns);
      assert (|rows| - 1) * columns + columns == |rows| * columns;
    }
  }

  lemma {:induction false} CellTreeAt(rows: seq<seq<string>>, columns: nat, i: nat, j: nat)
    requires i < |rows| && j < columns
    ensures Place(i, columns, j) < |CellTrees(rows, columns)|
    ensures CellTrees(rows, columns)[Place(i, columns, j)] == CellTree(rows[i], j)
    decreases |rows|
  {
    hide RowTrees, CellTree, Place;
    var init, last := rows[..|rows| - 1], rows[|rows| - 1];
    PlaceOfRow(i, |rows|, columns, j);
    CellCount(rows, columns);
    CellCount(init, columns);
    if i < |rows| - 1 {
      CellTreeAt(init, columns, i, j);
    } else {
      RowTreeAt(last, columns, j);
      PlaceIs(i, columns, j);
    }
  }

  lemma PlaceIs(i: nat, columns: nat, j: nat)
    ensures Place(i, columns, j) == i * columns + j
  {
  }

  lemma NothingInRows(rows: seq<seq<string>>)
    ensures (forall i :: 0 <= i < |rows| ==> rows[i] == []) <==> rows == [] || ColumnSize(rows) == 0
  {
    ColumnsFit(rows);
    if rows != [] {
      var i :| 0 <= i < |rows| && |rows[i]| == ColumnSize(rows);
    }
  }

  lemma TableShown(blocks: seq<Block>, id: nat, rows: seq<seq<string>>)
    requires RepresentsTree(blocks, id, TableTree(rows))
    ensures ShowsTable(blocks, id, rows)
  {
    hide Represents, RepresentsTree, IsBlock, ShowsCells, CellTrees, IsLongest, ColumnSize;
    var c := RootOf(blocks, id, TableTree(rows));
    NothingInRows(rows);
    ColumnsFit(rows);
    IsBlockIn(blocks, id, TableTree(rows).content, c);
    if rows == [] || ColumnSize(rows) == 0 {
      NoIds(blocks, c);
    } else {
      CellsShown(blocks, c, rows, ColumnSize(rows));
    }
  }

  lemma CellsShown(blocks: seq<Block>, cells: seq<nat>, rows: seq<seq<string>>, columns: nat)
    requires Represents(blocks, cells, CellTrees(rows, columns))
    ensures |cells| == |rows| * columns && ShowsCells(blocks, cells, rows, columns)
  {
    hide RepresentsTree, CellTrees, CellTree, ShowsCell, Place;
    CellCount(rows, columns);
    LengthsAgree(blocks, cells, CellTrees(rows, columns));
    forall i: nat, j: nat | i < |rows| && j < columns
      ensures Place(i, columns, j) < |cells|
      ensures ShowsCell(blocks, cells[Place(i, columns, j)], if j < |rows[i]| then rows[i][j] else "")
    {
      CellTreeAt(rows, columns, i, j);
      RepresentsAt(blocks, cells, CellTrees(rows, columns), Place(i, columns, j));
      CellShown(blocks, cells[Place(i, columns, j)], rows[i], j);
    }
  }

  lemma LengthsAgree(blocks: seq<Block>, ids: seq<nat>, ts: seq<Tree>)
    requires Represents(blocks, ids, ts)
    ensures |ids| == |ts|
  {
  }

  lemma CellShown(blocks: seq<Block>, id: nat, row: seq<string>, j: nat)
    requires RepresentsTree(blocks, id, CellTree(row, j))
    ensures ShowsCell(blocks, id, if j < |row| then row[j] else "")
  {
    hide Represents, RepresentsTree, IsBlock;
    var inner := Tree(CellText(row, j), []);
    var c := RootOf(blocks, id, CellTree(row, j));
    OneTree(blocks, c, inner);
    var d := RootOf(blocks, c[0], inner);
    NoIds(blocks, d);
    IsBlockIn(blocks, id, CELL, c);
    IsBlockIn(blocks, c[0], CellText(row, j), d);
    assert c == [c[0]];
  }

  // ---------------------------------------------------------------- the operations of a document

  /** A block created alone is looked at as the only block of its operation. */
  function BlocksOf(op: BlockOp): seq<Block> {
    match op
    case Simple(content) => [Block(0, content, [])]
    case Descendant(_, blocks) => blocks
  }

  function RootsOf(op: BlockOp): seq<nat> {
    match op
    case Simple(_) => [0]
    case Descendant(ids, _) => ids
  }

  /** What contains nothing is created alone; a table never is. */
  predicate IsAlone(node: MdNode) {
    !node.Table? && (node.BlockQuote? ==> node.children == [])
  }

  ghost predicate OpShowsItem(op: BlockOp, item: ListItem, kind: ListKind) {
    |RootsOf(op)| == 1 && (op.Simple? <==> item.children == []) && ShowsItem(BlocksOf(op), RootsOf(op)[0], item, kind)
  }

  ghost predicate OpsShowItems(ops: seq<BlockOp>, items: seq<ListItem>, kind: ListKind) {
    |ops| == |items| && forall i :: 0 <= i < |items| ==> OpShowsItem(ops[i], items[i], kind)
  }

  /** One operation for each item of a list, and one for any other node. */
  ghost predicate OpsShow(ops: seq<BlockOp>, node: MdNode) {
    match node
    case BulletList(items) => OpsShowItems(ops, items, Bullet)
    case OrderedList(items) => OpsShowItems(ops, items, Ordered)
    case TodoList(items) => OpsShowItems(ops, items, TodoKind)
    case _ => |ops| == 1 && (ops[0].Simple? <==> IsAlone(node)) && Shows(BlocksOf(ops[0]), RootsOf(ops[0]), node)
  }

  ghost predicate OpsShowAll(ops: seq<BlockOp>, nodes: seq<MdNode>)
    decreases |nodes|
  {
    if nodes == [] then ops == []
    else exists k: nat {:trigger ops[..k]} ::
      k <= |ops| && OpsShowAll(ops[..k], nodes[..|nodes| - 1]) && OpsShow(ops[k..], nodes[|nodes| - 1])
  }

  lemma OneTop(top: Top, n: nat)
    ensures Ops([top], n) == [Op(top, n)]
  {
    assert [top][..0] == [];
  }

  /** An operation for one tree stands for it. */
  lemma OpRepresents(top: Top, n: nat)
    requires top.alone ==> top.tree.children == []
    ensures var op := Op(top, n);
            && (op.Simple? <==> top.alone) && |RootsOf(op)| == 1
            && RepresentsTree(BlocksOf(op), RootsOf(op)[0], top.tree)
  {
    var op := Op(top, n);
    if top.alone {
      assert Block(0, top.tree.content, []) in BlocksOf(op);
      assert Represents(BlocksOf(op), [], []);
    } else {
      LayRepresents([top.tree], n);
      assert [top.tree][1..] == [];
    }
  }

  lemma Alone(blocks: seq<Block>, ids: seq<nat>, t: Tree)
    requires |ids| == 1 && RepresentsTree(blocks, ids[0], t)
    ensures Represents(blocks, ids, [t])
  {
    assert Represents(blocks, [], []);
    assert ids[1..] == [] && [t][1..] == [];
  }

  lemma TopShows(node: MdNode, n: nat)
    requires !node.BulletList? && !node.OrderedList? && !node.TodoList?
    ensures OpsShow(Ops(Tops(node), n), node)
  {
    hide Shows, Represents, RepresentsTree, Op, Ops, BlocksOf, RootsOf, Forests, TableTree;
    var top := Tops(node)[0];
    assert Tops(node) == [top] && Forest(node) == [top.tree];
    AloneHasNone(node);
    OneTop(top, n);
    OpRepresents(top, n);
    Alone(BlocksOf(Op(top, n)), RootsOf(Op(top, n)), top.tree);
    TreesShow(BlocksOf(Op(top, n)), RootsOf(Op(top, n)), node);
  }

  lemma AloneHasNone(node: MdNode)
    requires !node.BulletList? && !node.OrderedList? && !node.TodoList?
    ensures |Tops(node)| == 1 && Forest(node) == [Tops(node)[0].tree]
    ensures Tops(node)[0].alone <==> IsAlone(node)
    ensures Tops(node)[0].alone ==> Tops(node)[0].tree.children == []
  {
  }

  lemma {:induction false} ItemTopsShow(items: seq<ListItem>, kind: ListKind, n: nat)
    ensures OpsShowItems(Ops(ItemTops(items, kind), n), items, kind)
    decreases |items|
  {
    hide OpShowsItem, Op, ItemTree;
    if items != [] {
      var init, last := items[..|items| - 1], items[|items| - 1];
      var tops := ItemTops(items, kind);
      ItemTopsShow(init, kind, n);
      assert tops[..|tops| - 1] == ItemTops(init, kind);
      ItemTopShows(last, kind, n + IdsUsed(ItemTops(init, kind)));
    }
  }

  lemma ItemTopShows(item: ListItem, kind: ListKind, n: nat)
    ensures OpShowsItem(Op(Top(ItemTree(item, kind), item.children == []), n), item, kind)
  {
    hide ShowsItem, Represents, RepresentsTree, Op, BlocksOf, RootsOf;
    var top := Top(ItemTree(item, kind), item.children == []);
    NoForests();
    OpRepresents(top, n);
    ItemTreeShows(BlocksOf(Op(top, n)), RootsOf(Op(top, n))[0], item, kind);
  }

  lemma NodeTopsShow(node: MdNode, n: nat)
    ensures OpsShow(Ops(Tops(node), n), node)
  {
    hide OpsShowItems, Ops;
    match node
    case BulletList(items) => ItemTopsShow(items, Bullet, n);
    case OrderedList(items) => ItemTopsShow(items, Ordered, n);
    case TodoList(items) => ItemTopsShow(items, TodoKind, n);
    case _ => TopShows(node, n);
  }

  /** The operations of a document show its nodes in order, each with everything in it. */
  lemma {:induction false} DocumentIsShown(ast: seq<MdNode>, n: nat)
    ensures OpsShowAll(Ops(NodeTops(ast), n), ast)
    decreases |ast|
  {
    hide OpsShow, Ops, Tops, IdsUsed;
    if ast == [] {
      NoOps(n);
      NoOpsAtAll(n);
    } else {
      var init, last := ast[..|ast| - 1], ast[|ast| - 1];
      var a, b := NodeTops(init), Tops(last);
      var mid := n + IdsUsed(a);
      DocumentIsShown(init, n);
      NodeTopsShow(last, mid);
      BuiltAppend(a, b, n, Ops(a, n), mid, Ops(b, mid), mid + IdsUsed(b));
      var ops := Ops(NodeTops(ast), n);
      assert ops == Ops(a, n) + Ops(b, mid);
      var k := |Ops(a, n)|;
      assert ops[..k] == Ops(a, n) && ops[k..] == Ops(b, mid);
    }
  }

  lemma NoOpsAtAll(n: nat)
    ensures Ops([], n) == []
  {
  }

  // ---------------------------------------------------------------- the texts in reading order

  datatype Text = Marked(elements: seq<Inline>) | Plain(text: string)

  predicate IsEmptyText(t: Text) {
    match t
    case Marked(elements) => forall i :: 0 <= i < |elements| ==> elements[i].content == ""
    case Plain(text) => text == ""
  }

  ghost function NonEmpty(ts: seq<Text>): seq<Text> {
    if ts == [] then [] else (if IsEmptyText(ts[0]) then [] else [ts[0]]) + NonEmpty(ts[1..])
  }

  /** The texts of a node as they are read, top to bottom. */
  ghost function Said(node: MdNode): seq<Text>
    decreases node
  {
    match node
    case Heading(_, elements) => [Marked(elements)]
    case Paragraph(elements) => [Marked(elements)]
    case CodeBlock(_, content) => [Plain(content)]
    case Divider => []
    case BulletList(items) => SaidInItems(items)
    case OrderedList(items) => SaidInItems(items)
    case TodoList(items) => SaidInItems(items)
    case BlockQuote(children) => SaidInAll(children)
    case Table(rows) => SaidInRows(rows)
  }

  ghost function SaidInAll(nodes: seq<MdNode>): seq<Text>
    decreases nodes
  {
    if nodes == [] then [] else Said(nodes[0]) + SaidInAll(nodes[1..])
  }

  ghost function SaidInItems(items: seq<ListItem>): seq<Text>
    decreases items
  {
    if items == [] then [] else [Marked(items[0].elements)] + SaidInAll(items[0].children) + SaidInItems(items[1..])
  }

  ghost function SaidInRow(row: seq<string>): seq<Text> {
    if row == [] then [] else SaidInRow(row[..|row| - 1]) + [Plain(row[|row| - 1])]
  }

  ghost function SaidInRows(rows: seq<seq<string>>): seq<Text> {
    if rows == [] then [] else SaidInRows(rows[..|rows| - 1]) + SaidInRow(rows[|rows| - 1])
  }

  /** The texts of blocks, in the order of the blocks. */
  function TextOf(payload: Payload): seq<Text> {
    match payload
    case Elements(elements) => [Marked(elements)]
    case Todo(elements, _) => [Marked(elements)]
    case Code(_, text) => [Plain(text)]
    case Cell(text) => [Plain(text)]
    case Grid(_, _) => []
    case Bare => []
  }

  ghost function Texts(blocks: seq<Block>): seq<Text> {
    if blocks == [] then [] else TextOf(blocks[0].content.payload) + Texts(blocks[1..])
  }

  lemma {:induction false} TextsAppend(a: seq<Block>, b: seq<Block>)
    ensures Texts(a + b) == Texts(a) + Texts(b)
    decreases |a|
  {
    if a == [] {
      assert a + b == b;
    } else {
      TextsAppend(a[1..], b);
      assert (a + b)[1..] == a[1..] + b;
    }
  }

  lemma Regrouped<T>(a: seq<T>, b: seq<T>, c: seq<T>)
    ensures a + (b + c) == a + b + c
  {
  }

  lemma {:induction false} NonEmptyAppend(a: seq<Text>, b: seq<Text>)
    ensures NonEmpty(a + b) == NonEmpty(a) + NonEmpty(b)
    decreases |a|
  {
    hide IsEmptyText;
    if a == [] {
      assert a + b == b;
    } else {
      NonEmptyAppend(a[1..], b);
      assert (a + b)[1..] == a[1..] + b && (a + b)[0] == a[0];
      Regrouped(if IsEmptyText(a[0]) then [] else [a[0]], NonEmpty(a[1..]), NonEmpty(b));
    }
  }

  /** What is said by the blocks of trees, empty texts aside. */
  ghost function TreeTexts(ts: seq<Tree>): seq<Text> {
    if ts == [] then []
    else TextOf(ts[0].content.payload) + TreeTexts(ts[0].children) + TreeTexts(ts[1..])
  }

  lemma {:induction false} TreeTextsAppend(a: seq<Tree>, b: seq<Tree>)
    ensures TreeTexts(a + b) == TreeTexts(a) + TreeTexts(b)
    decreases |a|
  {
    if a == [] {
      assert a + b == b;
    } else {
      TreeTextsAppend(a[1..], b);
      assert (a + b)[1..] == a[1..] + b;
    }
  }

  lemma OneTreeTexts(t: Tree)
    ensures TreeTexts([t]) == TextOf(t.content.payload) + TreeTexts(t.children)
  {
    assert [t][1..] == [];
  }

  lemma {:induction false} LayTexts(ts: seq<Tree>, n: nat)
    ensures Texts(Lay(ts, n)) == TreeTexts(ts)
    decreases ts
  {
    hide RootIds, Size, TextOf, Texts, Lay;
    if ts == [] {
      NoTrees(n);
      NoTexts();
    } else {
      var sub := ts[0].children;
      var root := Block(n, ts[0].content, RootIds(sub, n + 1));
      var front, back := Lay(sub, n + 1), Lay(ts[1..], n + 1 + Size(sub));
      FirstTree(ts, n);
      LayTexts(sub, n + 1);
      LayTexts(ts[1..], n + 1 + Size(sub));
      TextsAppend([root] + front, back);
      TextsAppend([root], front);
      OneBlockTexts(root);
    }
  }

  lemma NoTexts()
    ensures Texts([]) == []
  {
  }

  lemma FirstTree(ts: seq<Tree>, n: nat)
    requires ts != []
    ensures var sub := ts[0].children;
            Lay(ts, n) == [Block(n, ts[0].content, RootIds(sub, n + 1))] + Lay(sub, n + 1) + Lay(ts[1..], n + 1 + Size(sub))
  {
  }

  lemma OneBlockTexts(b: Block)
    ensures Texts([b]) == TextOf(b.content.payload)
  {
    assert [b][1..] == [];
  }

  /** The trees of a node say what the node says. */
  lemma {:induction false} TreesSay(node: MdNode)
    ensures NonEmpty(TreeTexts(Forest(node))) == NonEmpty(Said(node))
    decreases node, 1
  {
    hide NonEmpty, TreeTexts, SaidInRows, SaidInItems, SaidInAll, Forests, ItemForest, TableTree;
    match node
    case BulletList(items) => ItemsSay(items, Bullet);
    case OrderedList(items) => ItemsSay(items, Ordered);
    case TodoList(items) => ItemsSay(items, TodoKind);
    case BlockQuote(children) =>
      OneTreeTexts(Tree(QUOTE, Forests(children)));
      AllSay(children);
      assert [] + TreeTexts(Forests(children)) == TreeTexts(Forests(children));
    case Table(rows) => TableSays(rows);
    case _ =>
      OneTreeTexts(Tree(LeafContent(node), []));
      NothingSaid();
      assert Said(node) + [] == Said(node);
  }

  lemma NothingSaid()
    ensures TreeTexts([]) == [] && NonEmpty([]) == []
  {
  }

  lemma {:induction false} AllSay(nodes: seq<MdNode>)
    ensures NonEmpty(TreeTexts(Forests(nodes))) == NonEmpty(SaidInAll(nodes))
    decreases nodes, 0
  {
    hide NonEmpty, TreeTexts, Forest, Said;
    if nodes == [] {
      NothingSaid();
    } else {
      TreesSay(nodes[0]);
      AllSay(nodes[1..]);
      TreeTextsAppend(Forest(nodes[0]), Forests(nodes[1..]));
      NonEmptyAppend(TreeTexts(Forest(nodes[0])), TreeTexts(Forests(nodes[1..])));
      NonEmptyAppend(Said(nodes[0]), SaidInAll(nodes[1..]));
    }
  }

  lemma {:induction false} ItemsSay(items: seq<ListItem>, kind: ListKind)
    ensures NonEmpty(TreeTexts(ItemForest(items, kind))) == NonEmpty(SaidInItems(items))
    decreases items, 0
  {
    hide NonEmpty, TreeTexts, Forests, SaidInAll;
    if items == [] {
      NothingSaid();
    } else {
      var item, rest := items[0], items[1..];
      var first := [Marked(item.elements)];
      AllSay(item.children);
      ItemsSay(rest, kind);
      OneTreeTexts(ItemTree(item, kind));
      TreeTextsAppend([ItemTree(item, kind)], ItemForest(rest, kind));
      NonEmptyAppend(first + TreeTexts(Forests(item.children)), TreeTexts(ItemForest(rest, kind)));
      NonEmptyAppend(first, TreeTexts(Forests(item.children)));
      NonEmptyAppend(first + SaidInAll(item.children), SaidInItems(rest));
      NonEmptyAppend(first, SaidInAll(item.children));
    }
  }

  lemma CellSays(row: seq<string>, j: nat)
    ensures TreeTexts([CellTree(row, j)]) == [Plain(if j < |row| then row[j] else "")]
  {
    OneTreeTexts(CellTree(row, j));
    OneTreeTexts(Tree(CellText(row, j), []));
    NothingSaid();
  }

  lemma EmptyText(t: Text)
    ensures NonEmpty([t]) == if IsEmptyText(t) then [] else [t]
  {
    assert [t][1..] == [];
  }

  /** Past its end a row says nothing. */
  lemma {:induction false} RowSays(row: seq<string>, columns: nat)
    ensures NonEmpty(TreeTexts(RowTrees(row, columns))) ==
            NonEmpty(SaidInRow(if columns <= |row| then row[..columns] else row))
  {
    hide NonEmpty, TreeTexts, CellTree;
    if columns == 0 {
      NothingSaid();
    } else {
      var j := columns - 1;
      var t := Plain(if j < |row| then row[j] else "");
      RowSays(row, j);
      TreeTextsAppend(RowTrees(row, j), [CellTree(row, j)]);
      CellSays(row, j);
      NonEmptyAppend(TreeTexts(RowTrees(row, j)), [t]);
      EmptyText(t);
      if j < |row| {
        assert row[..columns][..j] == row[..j];
        NonEmptyAppend(SaidInRow(row[..j]), [t]);
      } else if j == |row| {
        assert row[..j] == row;
      }
    }
  }

  lemma {:induction false} RowsSay(rows: seq<seq<string>>, columns: nat)
    requires forall i :: 0 <= i < |rows| ==> |rows[i]| <= columns
    ensures NonEmpty(TreeTexts(CellTrees(rows, columns))) == NonEmpty(SaidInRows(rows))
    decreases |rows|
  {
    hide NonEmpty, TreeTexts, RowTrees, SaidInRow;
    if rows == [] {
      NothingSaid();
    } else {
      var init, last := rows[..|rows| - 1], rows[|rows| - 1];
      RowsSay(init, columns);
      RowSays(last, columns);
      assert |last| == columns ==> last[..columns] == last;
      TreeTextsAppend(CellTrees(init, columns), RowTrees(last, columns));
      NonEmptyAppend(TreeTexts(CellTrees(init, columns)), TreeTexts(RowTrees(last, columns)));
      NonEmptyAppend(SaidInRows(init), SaidInRow(last));
    }
  }

  lemma {:induction false} EmptyRowsSay(rows: seq<seq<string>>)
    requires forall i :: 0 <= i < |rows| ==> rows[i] == []
    ensures SaidInRows(rows) == []
    decreases |rows|
  {
    if rows != [] {
      EmptyRowsSay(rows[..|rows| - 1]);
    }
  }

  lemma TableSays(rows: seq<seq<string>>)
    ensures NonEmpty(TreeTexts([TableTree(rows)])) == NonEmpty(SaidInRows(rows))
  {
    hide NonEmpty, TreeTexts, CellTrees, SaidInRows, ColumnSize, IsLongest;
    OneTreeTexts(TableTree(rows));
    NothingInRows(rows);
    ColumnsFit(rows);
    NothingSaid();
    if rows == [] || ColumnSize(rows) == 0 {
      EmptyRowsSay(rows);
      EmptyText(Marked([Inline("")]));
      assert [Marked([Inline("")])] + [] == [Marked([Inline("")])];
    } else {
      RowsSay(rows, ColumnSize(rows));
      assert [] + TreeTexts(CellTrees(rows, ColumnSize(rows))) == TreeTexts(CellTrees(rows, ColumnSize(rows)));
    }
  }

  /** The texts of the blocks of all operations, in order. */
  ghost function TextsOfOps(ops: seq<BlockOp>): seq<Text> {
    if ops == [] then [] else TextsOfOps(ops[..|ops| - 1]) + Texts(BlocksOf(ops[|ops| - 1]))
  }

  ghost function TreesOf(tops: seq<Top>): seq<Tree> {
    if tops == [] then [] else TreesOf(tops[..|tops| - 1]) + [tops[|tops| - 1].tree]
  }

  lemma {:induction false} OpsSay(tops: seq<Top>, n: nat)
    requires forall i :: 0 <= i < |tops| ==> tops[i].alone ==> tops[i].tree.children == []
    ensures TextsOfOps(Ops(tops, n)) == TreeTexts(TreesOf(tops))
    decreases |tops|
  {
    hide TreeTexts, TextsOfOps, Ops, BlocksOf, Op, IdsUsed;
    if tops == [] {
      NothingSaid();
      NoOpTexts(n);
    } else {
      var init, last := tops[..|tops| - 1], tops[|tops| - 1];
      OpsSay(init, n);
      OpSays(last, n + IdsUsed(init));
      TreeTextsAppend(TreesOf(init), [last.tree]);
      LastOpTexts(tops, n);
    }
  }

  lemma NoOpTexts(n: nat)
    ensures TextsOfOps(Ops([], n)) == []
  {
  }

  lemma LastOpTexts(tops: seq<Top>, n: nat)
    requires tops != []
    ensures var init, last := tops[..|tops| - 1], tops[|tops| - 1];
            TextsOfOps(Ops(tops, n)) == TextsOfOps(Ops(init, n)) + Texts(BlocksOf(Op(last, n + IdsUsed(init))))
  {
    hide Texts, BlocksOf, Op, IdsUsed;
    assert Ops(tops, n)[..|Ops(tops, n)| - 1] == Ops(tops[..|tops| - 1], n);
  }

  lemma OpSays(top: Top, n: nat)
    requires top.alone ==> top.tree.children == []
    ensures Texts(BlocksOf(Op(top, n))) == TreeTexts([top.tree])
  {
    if top.alone {
      OneBlockTexts(Block(0, top.tree.content, []));
      OneTreeTexts(top.tree);
    } else {
      LayTexts([top.tree], n);
    }
  }

  lemma {:induction false} TreesOfAppend(a: seq<Top>, b: seq<Top>)
    ensures TreesOf(a + b) == TreesOf(a) + TreesOf(b)
    decreases |b|
  {
    if b == [] {
      assert a + b == a;
    } else {
      TreesOfAppend(a, b[..|b| - 1]);
      assert (a + b)[..|a + b| - 1] == a + b[..|b| - 1];
    }
  }

  lemma {:induction false} TreesOfItems(items: seq<ListItem>, kind: ListKind)
    ensures TreesOf(ItemTops(items, kind)) == ItemForest(items, kind)
    ensures forall i :: 0 <= i < |ItemTops(items, kind)| ==>
              ItemTops(items, kind)[i].alone ==> ItemTops(items, kind)[i].tree.children == []
    decreases |items|
  {
    if items != [] {
      var init, last := items[..|items| - 1], items[|items| - 1];
      TreesOfItems(init, kind);
      ItemForestAppend(init, last, kind);
      assert items == init + [last];
      assert ItemTops(items, kind)[..|ItemTops(items, kind)| - 1] == ItemTops(init, kind);
    }
  }

  lemma TreesOfNode(node: MdNode)
    ensures TreesOf(Tops(node)) == Forest(node)
    ensures forall i :: 0 <= i < |Tops(node)| ==> Tops(node)[i].alone ==> Tops(node)[i].tree.children == []
  {
    match node
    case BulletList(items) => TreesOfItems(items, Bullet);
    case OrderedList(items) => TreesOfItems(items, Ordered);
    case TodoList(items) => TreesOfItems(items, TodoKind);
    case _ =>
      AloneHasNone(node);
      assert Tops(node)[..0] == [];
  }

  lemma {:induction false} TreesOfDocument(ast: seq<MdNode>)
    ensures TreesOf(NodeTops(ast)) == Forests(ast)
    ensures forall i :: 0 <= i < |NodeTops(ast)| ==> NodeTops(ast)[i].alone ==> NodeTops(ast)[i].tree.children == []
    decreases |ast|
  {
    hide Tops, Forest, Forests;
    if ast == [] {
      NoForests();
    } else {
      var init, last := ast[..|ast| - 1], ast[|ast| - 1];
      TreesOfDocument(init);
      TreesOfNode(last);
      TreesOfAppend(NodeTops(init), Tops(last));
      ForestsAppend(init, last);
      assert ast == init + [last];
    }
  }

  lemma NoForests()
    ensures Forests([]) == []
  {
  }

  /** The texts of all blocks are those of the document in reading order, empty ones aside. */
  lemma DocumentIsSaid(ast: seq<MdNode>, n: nat)
    ensures NonEmpty(TextsOfOps(Ops(NodeTops(ast), n))) == NonEmpty(SaidInAll(ast))
  {
    hide NonEmpty, TreeTexts, Ops, NodeTops, TreesOf, TextsOfOps;
    TreesOfDocument(ast);
    OpsSay(NodeTops(ast), n);
    AllSay(ast);
  }
}
