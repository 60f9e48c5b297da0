/** The lines of a text leave no choice: at most one sequence of nodes is read from them. */
module MarkdownReading {
  import opened Collections
  import opened BlockTrees
  import opened MarkdownBlocks
  import opened MarkdownLines
  import opened MarkdownGrammar

  // ---------------------------------------------------------------- the next line

  /** The first line from `from` on that is not blank. */
  ghost function Next(lines: seq<string>, from: nat): (n: nat)
    requires from <= |lines|
    ensures from <= n <= |lines| && AllBlank(lines, from, n) && (n < |lines| ==> !IsBlank(lines[n]))
    decreases |lines| - from
  {
    if from < |lines| && IsBlank(lines[from]) then Next(lines, from + 1) else from
  }

  lemma {:induction false} NextBehindBlanks(lines: seq<string>, from: nat, a: nat)
    requires AllBlank(lines, from, a)
    ensures Next(lines, from) == Next(lines, a)
    decreases a - from
  {
    hide IsBlank;
    if from < a {
      NextBehindBlanks(lines, from + 1, a);
    }
  }

  /** Two ends of a span with only blank lines between them. */
  ghost predicate SameEnd(lines: seq<string>, b: nat, b': nat) {
    b <= |lines| && b' <= |lines| && Next(lines, b) == Next(lines, b')
  }

  ghost predicate IsListEnd(lines: seq<string>, n: nat, indent: nat, kind: ListKind) {
    n >= |lines| || CountIndent(lines[n]) < indent || (CountIndent(lines[n]) == indent && IsNoItem(lines[n], kind))
  }

  lemma ListEndBehind(lines: seq<string>, b: nat, indent: nat, kind: ListKind, nested: bool)
    requires EndsList(lines, b, indent, kind, nested)
    ensures b <= |lines| && IsListEnd(lines, Next(lines, b), indent, kind)
  {
    hide IsBlank, CountIndent, DetectListMarker, TrimStart;
    if b < |lines| && IsBlank(lines[b]) {
      var j: nat :| ListEndsBehindBlanks(lines, b, j, indent, nested);
      NextBehindBlanks(lines, b, j);
    }
  }

  ghost predicate IsStretchEnd(lines: seq<string>, n: nat, indent: nat) {
    n >= |lines| || CountIndent(lines[n]) < indent
  }

  lemma StretchEndBehind(lines: seq<string>, b: nat, indent: nat)
    requires EndsStretch(lines, b, indent)
    ensures b <= |lines| && IsStretchEnd(lines, Next(lines, b), indent)
  {
    hide IsBlank, CountIndent;
    if b < |lines| && IsBlank(lines[b]) {
      var j: nat :| EndsBehindBlanks(lines, b, j, indent);
      NextBehindBlanks(lines, b, j);
    }
  }

  // ---------------------------------------------------------------- the first node

  lemma {:induction false} AllInside(nodes: seq<MdNode>, lines: seq<string>, from: nat, end: nat)
    requires ReadsAll(nodes, lines, from, end)
    ensures from <= end <= |lines|
    ensures nodes == [] ==> Next(lines, from) == Next(lines, end)
  {
    hide Reads, IsBlank;
    if nodes != [] {
      var a: nat, b: nat :| LastSpan(nodes, lines, from, end, a, b);
      SpanInside(nodes[|nodes| - 1], lines, a, b);
    } else {
      NextBehindBlanks(lines, from, end);
    }
  }

  lemma StartsNotBlank(node: MdNode, lines: seq<string>, a: nat, b: nat)
    requires Reads(node, lines, a, b)
    ensures a < b <= |lines| && Next(lines, a) == a
  {
  }

  lemma {:induction false} FirstSpan(nodes: seq<MdNode>, lines: seq<string>, from: nat, end: nat) returns (b: nat)
    requires ReadsAll(nodes, lines, from, end) && nodes != []
    ensures from <= |lines| && Next(lines, from) < |lines| && Reads(nodes[0], lines, Next(lines, from), b)
    ensures ReadsAll(nodes[1..], lines, b, end)
    decreases |nodes|
  {
    hide Reads, IsBlank;
    var init, last := nodes[..|nodes| - 1], nodes[|nodes| - 1];
    var a: nat, c: nat :| LastSpan(nodes, lines, from, end, a, c);
    AllInside(init, lines, from, a);
    StartsNotBlank(last, lines, a, c);
    if init == [] {
      b := c;
    } else {
      b := FirstSpan(init, lines, from, a);
      AllInside(init[1..], lines, b, a);
      assert nodes[1..][..|nodes| - 2] == init[1..];
      assert LastSpan(nodes[1..], lines, b, end, a, c);
    }
  }

  lemma {:induction false} StretchInside(nodes: seq<MdNode>, lines: seq<string>, from: nat, end: nat, indent: nat)
    requires ReadsStretch(nodes, lines, from, end, indent)
    ensures from <= end <= |lines|
    ensures nodes == [] ==> Next(lines, from) == Next(lines, end)
  {
    hide ReadsNestedNode, IsBlank, CountIndent;
    if nodes != [] {
      var a: nat, b: nat :| LastInStretch(nodes, lines, from, end, indent, a, b);
      NestedSpanInside(nodes[|nodes| - 1], lines, a, b, indent);
    } else {
      NextBehindBlanks(lines, from, end);
    }
  }

  lemma NestedStartsNotBlank(node: MdNode, lines: seq<string>, a: nat, b: nat, indent: nat)
    requires ReadsNestedNode(node, lines, a, b, indent)
    ensures a < b <= |lines| && Next(lines, a) == a
  {
  }

  lemma {:induction false} FirstInStretch(nodes: seq<MdNode>, lines: seq<string>, from: nat, end: nat, indent: nat)
    returns (b: nat)
    requires ReadsStretch(nodes, lines, from, end, indent) && nodes != []
    ensures from <= |lines| && Next(lines, from) < |lines| && ReadsNestedNode(nodes[0], lines, Next(lines, from), b, indent)
    ensures !IsStretchEnd(lines, Next(lines, from), indent)
    ensures ReadsStretch(nodes[1..], lines, b, end, indent)
    decreases |nodes|
  {
    hide ReadsNestedNode, IsBlank, CountIndent;
    var init, last := nodes[..|nodes| - 1], nodes[|nodes| - 1];
    var a: nat, c: nat :| LastInStretch(nodes, lines, from, end, indent, a, c);
    StretchInside(init, lines, from, a, indent);
    NestedStartsNotBlank(last, lines, a, c, indent);
    if init == [] {
      b := c;
    } else {
      b := FirstInStretch(init, lines, from, a, indent);
      StretchInside(init[1..], lines, b, a, indent);
      assert nodes[1..][..|nodes| - 2] == init[1..];
      assert LastInStretch(nodes[1..], lines, b, end, indent, a, c);
    }
  }

  /** Where what is nested in an item ends. */
  ghost predicate IsNestedEnd(lines: seq<string>, n: nat, base: nat) {
    n >= |lines| || CountIndent(lines[n]) <= base
  }

  lemma {:induction false} NestedInside(nodes: seq<MdNode>, lines: seq<string>, from: nat, end: nat, base: nat)
    requires ReadsNested(nodes, lines, from, end, base)
    ensures from <= end <= |lines|
    ensures nodes == [] ==> Next(lines, from) == Next(lines, end)
  {
    hide ReadsStretch, EndsStretch, IsBlank, CountIndent;
    if nodes != [] {
      var k: nat, a: nat, b: nat :| LastStretch(nodes, lines, from, end, base, k, a, b);
    } else {
      NextBehindBlanks(lines, from, end);
    }
  }

  lemma {:induction false} FirstStretch(nodes: seq<MdNode>, lines: seq<string>, from: nat, end: nat, base: nat)
    returns (k: nat, b: nat)
    requires ReadsNested(nodes, lines, from, end, base) && nodes != []
    ensures from <= |lines| && Next(lines, from) < |lines| && !IsNestedEnd(lines, Next(lines, from), base)
    ensures 0 < k <= |nodes| && ReadsStretch(nodes[..k], lines, Next(lines, from), b, CountIndent(lines[Next(lines, from)]))
    ensures EndsStretch(lines, b, CountIndent(lines[Next(lines, from)])) && ReadsNested(nodes[k..], lines, b, end, base)
    decreases |nodes|
  {
    hide ReadsStretch, EndsStretch, IsBlank, CountIndent;
    var l: nat, a: nat, c: nat :| LastStretch(nodes, lines, from, end, base, l, a, c);
    NestedInside(nodes[..l], lines, from, a, base);
    if l == 0 {
      k, b := |nodes|, c;
      assert nodes[..k] == nodes && nodes[0..] == nodes;
    } else {
      k, b := FirstStretch(nodes[..l], lines, from, a, base);
      NestedInside(nodes[..l][k..], lines, b, a, base);
      assert nodes[..l][..k] == nodes[..k];
      assert nodes[k..][..l - k] == nodes[..l][k..] && nodes[k..][l - k..] == nodes[l..];
      assert LastStretch(nodes[k..], lines, b, end, base, l - k, a, c);
    }
  }

  lemma ItemHere(items: seq<ListItem>, lines: seq<string>, a: nat, b: nat, indent: nat, kind: ListKind)
    requires |items| == 1 && ReadsItem(items[0], lines, a, b, indent, kind)
    ensures ReadsItems(items, lines, a, b, indent, kind)
  {
  }

  lemma {:induction false} FirstItem(items: seq<ListItem>, lines: seq<string>, a: nat, b: nat, indent: nat, kind: ListKind)
    returns (m: nat)
    requires ReadsItems(items, lines, a, b, indent, kind)
    ensures items != [] && m <= |lines| && ReadsItem(items[0], lines, a, m, indent, kind)
    ensures |items| == 1 ==> m == b
    ensures |items| > 1 ==> ReadsItems(items[1..], lines, m, b, indent, kind)
    ensures |items| > 1 ==> m < |lines| && !IsBlank(lines[m]) && CountIndent(lines[m]) == indent
    decreases |items|
  {
    hide ReadsItem, IsBlank, CountIndent;
    if |items| == 1 {
      m := b;
      ItemInside(items[0], lines, a, m, indent, kind);
    } else {
      var l: nat :| LastItemAt(items, lines, a, b, indent, kind, l);
      var init, last := items[..|items| - 1], items[|items| - 1];
      m := FirstItem(init, lines, a, l, indent, kind);
      if |init| == 1 {
        assert items[1..] == [last];
        ItemHere(items[1..], lines, l, b, indent, kind);
        ItemInside(last, lines, l, b, indent, kind);
      } else {
        assert items[1..][..|items| - 2] == init[1..];
        assert LastItemAt(items[1..], lines, m, b, indent, kind, l);
      }
    }
  }

  lemma ItemInside(item: ListItem, lines: seq<string>, a: nat, b: nat, indent: nat, kind: ListKind)
    requires ReadsItem(item, lines, a, b, indent, kind)
    ensures a < b <= |lines| && IsItemOf(item, lines[a], kind) && ReadsNested(item.children, lines, a + 1, b, indent)
  {
  }

  /** There is another item exactly if the list does not end here. */
  lemma ItemsGoOn(items: seq<ListItem>, lines: seq<string>, a: nat, b: nat, indent: nat, kind: ListKind) returns (m: nat)
    requires ReadsItems(items, lines, a, b, indent, kind) && b <= |lines| && IsListEnd(lines, Next(lines, b), indent, kind)
    ensures items != [] && m <= |lines| && ReadsItem(items[0], lines, a, m, indent, kind)
    ensures |items| == 1 ==> m == b
    ensures |items| > 1 ==> Next(lines, m) == m && ReadsItems(items[1..], lines, m, b, indent, kind)
    ensures |items| == 1 <==> IsListEnd(lines, Next(lines, m), indent, kind)
    ensures IsNestedEnd(lines, Next(lines, m), indent)
  {
    hide ReadsItem, IsBlank, CountIndent, DetectListMarker, ReadsItems;
    m := FirstItem(items, lines, a, b, indent, kind);
    if |items| > 1 {
      ItemStartsHere(items[1..], lines, m, b, indent, kind);
    }
  }

  /** Where an item starts no list ends. */
  lemma ItemStartsHere(items: seq<ListItem>, lines: seq<string>, a: nat, b: nat, indent: nat, kind: ListKind)
    requires ReadsItems(items, lines, a, b, indent, kind)
    requires a < |lines| && !IsBlank(lines[a]) && CountIndent(lines[a]) == indent
    ensures Next(lines, a) == a && !IsListEnd(lines, a, indent, kind) && IsNestedEnd(lines, a, indent)
  {
    hide ReadsItem, IsBlank, CountIndent, DetectListMarker, ReadsItems;
    var m := FirstItem(items, lines, a, b, indent, kind);
    ItemInside(items[0], lines, a, m, indent, kind);
  }

  // ---------------------------------------------------------------- nodes without nodes in them

  lemma OneCode(node: MdNode, node': MdNode, lines: seq<string>, a: nat, b: nat, b': nat, indent: nat)
    requires ReadsCode(node, lines, a, b, indent) && ReadsCode(node', lines, a, b', indent)
    ensures node == node' && b == b'
  {
    hide IsFence, CodeText, CodeLanguage, TrimEnd;
    var end: nat :| CodeUpTo(node, lines, a, b, indent, end);
    var end': nat :| CodeUpTo(node', lines, a, b', indent, end');
    assert end == end';
  }

  lemma OneTable(node: MdNode, node': MdNode, lines: seq<string>, a: nat, b: nat, b': nat)
    requires ReadsTable(node, lines, a, b) && ReadsTable(node', lines, a, b')
    ensures node == node' && b == b'
  {
    hide IsTableLine, IsLoneBar, TableRows;
    assert b == b';
  }

  lemma OneParagraph(node: MdNode, node': MdNode, lines: seq<string>, a: nat, b: nat, b': nat)
    requires ReadsParagraph(node, lines, a, b) && ReadsParagraph(node', lines, a, b')
    ensures node == node' && b == b'
  {
    hide EndsParagraph, TableCheckFails, ParagraphText, Trim;
    assert b == b';
  }

  lemma OneNestedParagraph(node: MdNode, node': MdNode, lines: seq<string>, a: nat, b: nat, b': nat, indent: nat)
    requires ReadsNestedParagraph(node, lines, a, b, indent) && ReadsNestedParagraph(node', lines, a, b', indent)
    ensures node == node' && b == b'
  {
    hide EndsNestedParagraph, NestedText;
    assert b == b';
  }

  // ---------------------------------------------------------------- quotes

  lemma {:induction false} GoesOnInside(lines: seq<string>, i: nat, end: nat)
    requires i < end <= |lines| && IsQuoteLine(lines[end - 1])
    requires forall k :: i <= k < end ==> IsBlank(lines[k]) || IsQuoteLine(lines[k])
    ensures QuoteGoesOn(lines, i)
    decreases end - i
  {
    hide IsBlank, IsQuoteLine;
    if !IsQuoteLine(lines[i]) {
      GoesOnInside(lines, i + 1, end);
    }
  }

  lemma QuotedBelow(inner: seq<string>, lines: seq<string>, a: nat)
    requires AreQuoted(inner, lines, a)
    ensures a + |inner| <= |lines| && forall k :: a <= k < a + |inner| ==> IsBlank(lines[k]) || IsQuoteLine(lines[k])
  {
    hide IsBlank, IsQuoteLine;
    forall k | a <= k < a + |inner|
      ensures IsBlank(lines[k]) || IsQuoteLine(lines[k])
    {
      assert SaysInQuote(inner[k - a], lines[a + (k - a)]);
    }
  }

  /** The lines of a quote, and what they say. */
  ghost predicate IsQuote(lines: seq<string>, a: nat, b: nat, inner: seq<string>) {
    a < b <= |lines| && IsQuoteLine(lines[b - 1]) && !QuoteGoesOn(lines, b) && a + |inner| == b && AreQuoted(inner, lines, a)
  }

  lemma QuoteEndsLate(lines: seq<string>, a: nat, b: nat, b': nat, inner: seq<string>, inner': seq<string>)
    requires IsQuote(lines, a, b, inner) && IsQuote(lines, a, b', inner')
    ensures b >= b'
  {
    hide IsBlank, IsQuoteLine, AreQuoted, QuoteGoesOn;
    QuotedBelow(inner', lines, a);
    if b < b' {
      GoesOnInside(lines, b, b');
    }
  }

  lemma OneQuoteSpan(lines: seq<string>, a: nat, b: nat, b': nat, inner: seq<string>, inner': seq<string>)
    requires IsQuote(lines, a, b, inner) && IsQuote(lines, a, b', inner')
    ensures b == b' && inner == inner'
  {
    hide IsBlank, IsQuoteLine, AreQuoted, QuoteGoesOn;
    QuoteEndsLate(lines, a, b, b', inner, inner');
    QuoteEndsLate(lines, a, b', b, inner', inner);
    OneInner(inner, inner', lines, a);
  }

  lemma QuoteSpan(node: MdNode, lines: seq<string>, a: nat, b: nat) returns (inner: seq<string>)
    requires ReadsQuote(node, lines, a, b)
    ensures node.BlockQuote? && IsQuote(lines, a, b, inner) && QuoteSays(node, lines, a, b, inner)
  {
    inner :| QuoteSays(node, lines, a, b, inner);
  }

  lemma OneInner(inner: seq<string>, inner': seq<string>, lines: seq<string>, a: nat)
    requires AreQuoted(inner, lines, a) && AreQuoted(inner', lines, a) && |inner| == |inner'|
    ensures inner == inner'
  {
    hide IsBlank, IsQuoteLine;
    forall k | 0 <= k < |inner|
      ensures inner[k] == inner'[k]
    {
      assert SaysInQuote(inner[k], lines[a + k]) && SaysInQuote(inner'[k], lines[a + k]);
    }
  }

  // ---------------------------------------------------------------- nodes with nodes in them

  lemma {:induction false} OneQuote(node: MdNode, node': MdNode, lines: seq<string>, a: nat, b: nat, b': nat)
    requires ReadsQuote(node, lines, a, b) && ReadsQuote(node', lines, a, b')
    ensures node == node' && b == b'
    decreases node, 1
  {
    hide IsBlank, IsQuoteLine, AreQuoted, QuoteGoesOn, ReadsAll;
    var inner := QuoteSpan(node, lines, a, b);
    var inner' := QuoteSpan(node', lines, a, b');
    OneQuoteSpan(lines, a, b, b', inner, inner');
    OneSequence(node.children, node'.children, WithoutLastEmpty(inner), 0, 0);
  }

  lemma SameKind(node: MdNode, node': MdNode, lines: seq<string>, a: nat, b: nat, b': nat, indent: nat, nested: bool)
    requires ReadsList(node, lines, a, b, indent, nested) && ReadsList(node', lines, a, b', indent, nested)
    ensures ListKindOf(node).Some? && ListKindOf(node) == ListKindOf(node')
  {
    hide ReadsItems, EndsList;
    KindOfFirst(node.items, lines, a, b, indent, ListKindOf(node).value);
    KindOfFirst(node'.items, lines, a, b', indent, ListKindOf(node').value);
  }

  lemma KindOfFirst(items: seq<ListItem>, lines: seq<string>, a: nat, b: nat, indent: nat, kind: ListKind)
    requires ReadsItems(items, lines, a, b, indent, kind)
    ensures a < |lines| && DetectListMarker(TrimStart(lines[a])).Some?
    ensures kind == KindOf(DetectListMarker(TrimStart(lines[a])).value.marker)
  {
    hide IsBlank, CountIndent, DetectListMarker, TrimStart, ReadsItems;
    var m := FirstItem(items, lines, a, b, indent, kind);
    ItemInside(items[0], lines, a, m, indent, kind);
  }

  lemma {:induction false} OneList(node: MdNode, node': MdNode, lines: seq<string>, a: nat, b: nat, b': nat, indent: nat,
                                   nested: bool)
    requires ReadsList(node, lines, a, b, indent, nested) && ReadsList(node', lines, a, b', indent, nested)
    ensures node == node' && SameEnd(lines, b, b')
    decreases node, 1
  {
    hide EndsList, ReadsItems, IsListEnd;
    SameKind(node, node', lines, a, b, b', indent, nested);
    var kind := ListKindOf(node).value;
    ListEndBehind(lines, b, indent, kind, nested);
    ListEndBehind(lines, b', indent, kind, nested);
    OneRowOfItems(node.items, node'.items, lines, a, b, b', indent, kind);
  }

  lemma {:induction false} OneRowOfItems(items: seq<ListItem>, items': seq<ListItem>, lines: seq<string>, a: nat, b: nat,
                                         b': nat, indent: nat, kind: ListKind)
    requires ReadsItems(items, lines, a, b, indent, kind) && ReadsItems(items', lines, a, b', indent, kind)
    requires b <= |lines| && IsListEnd(lines, Next(lines, b), indent, kind)
    requires b' <= |lines| && IsListEnd(lines, Next(lines, b'), indent, kind)
    ensures items == items' && SameEnd(lines, b, b')
    decreases items
  {
    hide ReadsItems, ReadsItem, IsListEnd, IsNestedEnd, Next;
    var m := ItemsGoOn(items, lines, a, b, indent, kind);
    var m' := ItemsGoOn(items', lines, a, b', indent, kind);
    OneItem(items[0], items'[0], lines, a, m, m', indent, kind);
    if |items| > 1 {
      OneRowOfItems(items[1..], items'[1..], lines, m, b, b', indent, kind);
      assert items == [items[0]] + items[1..] && items' == [items'[0]] + items'[1..];
    } else {
      assert items == [items[0]] && items' == [items'[0]];
    }
  }

  lemma {:induction false} OneItem(item: ListItem, item': ListItem, lines: seq<string>, a: nat, b: nat, b': nat,
                                   indent: nat, kind: ListKind)
    requires ReadsItem(item, lines, a, b, indent, kind) && ReadsItem(item', lines, a, b', indent, kind)
    requires b <= |lines| && IsNestedEnd(lines, Next(lines, b), indent)
    requires b' <= |lines| && IsNestedEnd(lines, Next(lines, b'), indent)
    ensures item == item' && SameEnd(lines, b, b')
    decreases item
  {
    hide ReadsNested, IsNestedEnd, Next, DetectListMarker, TrimStart;
    OneNested(item.children, item'.children, lines, a + 1, b, a + 1, b', indent);
  }

  lemma {:induction false} OneNested(nodes: seq<MdNode>, nodes': seq<MdNode>, lines: seq<string>, from: nat, end: nat,
                                     from': nat, end': nat, base: nat)
    requires ReadsNested(nodes, lines, from, end, base) && ReadsNested(nodes', lines, from', end', base)
    requires SameEnd(lines, from, from')
    requires end <= |lines| && IsNestedEnd(lines, Next(lines, end), base)
    requires end' <= |lines| && IsNestedEnd(lines, Next(lines, end'), base)
    ensures nodes == nodes' && SameEnd(lines, end, end')
    decreases nodes, 3
  {
    hide ReadsNested, ReadsStretch, EndsStretch, CountIndent, Next, IsNestedEnd;
    NestedInside(nodes, lines, from, end, base);
    NestedInside(nodes', lines, from', end', base);
    if nodes != [] && nodes' != [] {
      var k, b := FirstStretch(nodes, lines, from, end, base);
      var k', b' := FirstStretch(nodes', lines, from', end', base);
      var a := Next(lines, from);
      assert k == |nodes| ==> nodes[..k] == nodes;
      OneStretch(nodes[..k], nodes'[..k'], lines, a, b, a, b', CountIndent(lines[a]));
      assert k == |nodes[..k]| == |nodes'[..k']| == k';
      OneNested(nodes[k..], nodes'[k..], lines, b, end, b', end', base);
      assert nodes == nodes[..k] + nodes[k..] && nodes' == nodes'[..k] + nodes'[k..];
    } else if nodes != [] {
      var k, b := FirstStretch(nodes, lines, from, end, base);
    } else if nodes' != [] {
      var k, b := FirstStretch(nodes', lines, from', end', base);
    }
  }

  lemma {:induction false} OneStretch(nodes: seq<MdNode>, nodes': seq<MdNode>, lines: seq<string>, from: nat, end: nat,
                                      from': nat, end': nat, indent: nat)
    requires ReadsStretch(nodes, lines, from, end, indent) && ReadsStretch(nodes', lines, from', end', indent)
    requires SameEnd(lines, from, from') && EndsStretch(lines, end, indent) && EndsStretch(lines, end', indent)
    ensures nodes == nodes' && SameEnd(lines, end, end')
    decreases nodes, 2
  {
    hide ReadsStretch, EndsStretch, ReadsNestedNode, CountIndent, Next, IsStretchEnd;
    StretchInside(nodes, lines, from, end, indent);
    StretchInside(nodes', lines, from', end', indent);
    StretchEndBehind(lines, end, indent);
    StretchEndBehind(lines, end', indent);
    if nodes != [] && nodes' != [] {
      var b := FirstInStretch(nodes, lines, from, end, indent);
      var b' := FirstInStretch(nodes', lines, from', end', indent);
      OneNestedNode(nodes[0], nodes'[0], lines, Next(lines, from), b, b', indent);
      OneStretch(nodes[1..], nodes'[1..], lines, b, end, b', end', indent);
      assert nodes == [nodes[0]] + nodes[1..] && nodes' == [nodes'[0]] + nodes'[1..];
    } else if nodes != [] {
      var b := FirstInStretch(nodes, lines, from, end, indent);
    } else if nodes' != [] {
      var b := FirstInStretch(nodes', lines, from', end', indent);
    }
  }

  lemma {:induction false} OneNestedNode(node: MdNode, node': MdNode, lines: seq<string>, a: nat, b: nat, b': nat,
                                         indent: nat)
    requires ReadsNestedNode(node, lines, a, b, indent) && ReadsNestedNode(node', lines, a, b', indent)
    ensures node == node' && SameEnd(lines, b, b')
    decreases node, 3
  {
    hide ReadsCode, ReadsQuote, ReadsList, ReadsNestedParagraph, DetectListMarker, TrimStart, CountIndent, Next, IsQuoteLine;
    var start := TrimStart(lines[a]);
    if DetectListMarker(start).Some? {
      OneList(node, node', lines, a, b, b', CountIndent(lines[a]), true);
    } else if IsQuoteLine(lines[a]) {
      OneQuote(node, node', lines, a, b, b');
    } else if "```" <= start {
      OneCode(node, node', lines, a, b, b', indent);
    } else if HeadingLevel(start) == 0 && !IsRule(start) {
      OneNestedParagraph(node, node', lines, a, b, b', indent);
    }
  }

  lemma {:induction false} OneNode(node: MdNode, node': MdNode, lines: seq<string>, a: nat, b: nat, b': nat)
    requires Reads(node, lines, a, b) && Reads(node', lines, a, b')
    ensures node == node' && SameEnd(lines, b, b')
    decreases node, 3
  {
    hide ReadsCode, ReadsQuote, ReadsList, ReadsTable, ReadsParagraph, DetectListMarker, Trim, Next, IsQuoteLine, IsFence,
      TableCheckFails, IsTableStartAt;
    var trimmed := Trim(lines[a]);
    if IsFence(lines[a]) {
      OneCode(node, node', lines, a, b, b', 0);
    } else if IsTableStartAt(lines, a) {
      OneTable(node, node', lines, a, b, b');
    } else if HeadingLevel(trimmed) == 0 && IsQuoteLine(lines[a]) {
      OneQuote(node, node', lines, a, b, b');
    } else if HeadingLevel(trimmed) == 0 && !IsRule(trimmed) && DetectListMarker(trimmed).Some? {
      OneList(node, node', lines, a, b, b', 0, false);
    } else if HeadingLevel(trimmed) == 0 && !IsRule(trimmed) {
      OneParagraph(node, node', lines, a, b, b');
    }
  }

  lemma {:induction false} OneSequence(nodes: seq<MdNode>, nodes': seq<MdNode>, lines: seq<string>, from: nat, from': nat)
    requires ReadsAll(nodes, lines, from, |lines|) && ReadsAll(nodes', lines, from', |lines|)
    requires SameEnd(lines, from, from')
    ensures nodes == nodes'
    decreases nodes
  {
    hide ReadsAll, Reads;
    AllInside(nodes, lines, from, |lines|);
    AllInside(nodes', lines, from', |lines|);
    if nodes != [] && nodes' != [] {
      var b := FirstSpan(nodes, lines, from, |lines|);
      var b' := FirstSpan(nodes', lines, from', |lines|);
      OneNode(nodes[0], nodes'[0], lines, Next(lines, from), b, b');
      OneSequence(nodes[1..], nodes'[1..], lines, b, b');
      assert nodes == [nodes[0]] + nodes[1..] && nodes' == [nodes'[0]] + nodes'[1..];
    } else if nodes != [] {
      var b := FirstSpan(nodes, lines, from, |lines|);
    } else if nodes' != [] {
      var b := FirstSpan(nodes', lines, from', |lines|);
    }
  }

  /** The lines of a text leave no choice. */
  lemma TreeIsUnique(nodes: seq<MdNode>, nodes': seq<MdNode>, lines: seq<string>)
    requires ReadsAll(nodes, lines, 0, |lines|) && ReadsAll(nodes', lines, 0, |lines|)
    ensures nodes == nodes'
  {
    OneSequence(nodes, nodes', lines, 0, 0);
  }
}
