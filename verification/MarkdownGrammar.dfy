/**
 * What it means that nodes are read from lines: each node covers a span of lines, from its first line
 * to where it must end, only blank lines lie between the spans, and what a node holds is what the lines
 * of its span say.
 */
module MarkdownGrammar {
  import opened Collections
  import opened BlockTrees
  import opened MarkdownBlocks
  import opened MarkdownLines

  ghost predicate AllBlank(lines: seq<string>, from: nat, end: nat) {
    from <= end <= |lines| && forall i :: from <= i < end ==> IsBlank(lines[i])
  }

  // ---------------------------------------------------------------- nodes without nodes in them

  /** From a fence to the next one, which belongs to the block, or to the end. */
  ghost predicate ReadsCode(node: MdNode, lines: seq<string>, a: nat, b: nat, indent: nat) {
    exists end: nat :: CodeUpTo(node, lines, a, b, indent, end)
  }

  ghost predicate CodeUpTo(node: MdNode, lines: seq<string>, a: nat, b: nat, indent: nat, end: nat) {
    && a < end <= |lines| && (forall i :: a < i < end ==> !IsFence(lines[i]))
    && (if end < |lines| then IsFence(lines[end]) && b == end + 1 else b == end)
    && node == CodeBlock(CodeLanguage(lines[a]), TrimEnd(CodeText(lines[a + 1..end], indent)))
  }

  /** All lines with a bar in them, up to the first without. */
  ghost predicate ReadsTable(node: MdNode, lines: seq<string>, a: nat, b: nat) {
    && a < b <= |lines| && (forall i :: a <= i < b ==> IsTableLine(lines[i]) && !IsLoneBar(lines[i]))
    && (b < |lines| ==> !IsTableLine(lines[b]))
    && node == Table(TableRows(lines[a..b]))
  }

  /** What ends a paragraph. */
  ghost predicate EndsParagraph(lines: seq<string>, i: nat)
    requires i < |lines|
  {
    IsBlank(lines[i]) || StartsBlock(Trim(lines[i])) || (!TableCheckFails(lines, i) && IsTableStartAt(lines, i))
  }

  ghost predicate ReadsParagraph(node: MdNode, lines: seq<string>, a: nat, b: nat) {
    && a < b <= |lines| && (forall i :: a < i < b ==> !EndsParagraph(lines, i) && !TableCheckFails(lines, i))
    && (b < |lines| ==> EndsParagraph(lines, b))
    && node == Paragraph(InlineElements(Trim(ParagraphText(lines[a..b]))))
  }

  /** What ends a paragraph inside a list item. */
  ghost predicate EndsNestedParagraph(line: string, indent: nat) {
    IsBlank(line) || CountIndent(line) < indent || StartsNestedBlock(line)
  }

  /** The end of the first line is not trimmed. */
  function NestedText(lines: seq<string>): string {
    if lines == [] then ""
    else if |lines| == 1 then TrimStart(lines[0])
    else NestedText(lines[..|lines| - 1]) + " " + Trim(lines[|lines| - 1])
  }

  ghost predicate ReadsNestedParagraph(node: MdNode, lines: seq<string>, a: nat, b: nat, indent: nat) {
    && a < b <= |lines| && (forall i :: a < i < b ==> !EndsNestedParagraph(lines[i], indent))
    && (b < |lines| ==> EndsNestedParagraph(lines[b], indent))
    && node == Paragraph(InlineElements(NestedText(lines[a..b])))
  }

  // ---------------------------------------------------------------- nodes with nodes in them

  /** A node of a text; the first of the alternatives that applies to its first line. */
  ghost predicate Reads(node: MdNode, lines: seq<string>, a: nat, b: nat)
    decreases node, 3
  {
    && a < b <= |lines| && !IsBlank(lines[a]) && var trimmed := Trim(lines[a]);
      if IsFence(lines[a]) then ReadsCode(node, lines, a, b, 0)
      else if TableCheckFails(lines, a) then false
      else if IsTableStartAt(lines, a) then ReadsTable(node, lines, a, b)
      else if HeadingLevel(trimmed) > 0 then Some(node) == ParseHeading(trimmed) && b == a + 1
      else if IsQuoteLine(lines[a]) then ReadsQuote(node, lines, a, b)
      else if IsRule(trimmed) then node == Divider && b == a + 1
      else if DetectListMarker(trimmed).Some? then ReadsList(node, lines, a, b, 0, false)
      else ReadsParagraph(node, lines, a, b)
  }

  /** The nodes of a text, one after the other, with only blank lines between, before and behind them. */
  ghost predicate ReadsAll(nodes: seq<MdNode>, lines: seq<string>, from: nat, end: nat)
    decreases nodes, 1
  {
    if nodes == [] then AllBlank(lines, from, end)
    else exists a: nat, b: nat :: LastSpan(nodes, lines, from, end, a, b)
  }

  /** The last node is read from the lines from `a` to `b`. */
  ghost predicate LastSpan(nodes: seq<MdNode>, lines: seq<string>, from: nat, end: nat, a: nat, b: nat)
    requires nodes != []
    decreases nodes, 0
  {
    from <= a && ReadsAll(nodes[..|nodes| - 1], lines, from, a) && Reads(nodes[|nodes| - 1], lines, a, b) && AllBlank(lines, b, end)
  }

  /** A quote takes all quote lines and the blank ones between them; what they say is a text of its own. */
  ghost predicate ReadsQuote(node: MdNode, lines: seq<string>, a: nat, b: nat)
    decreases node, 1
  {
    && node.BlockQuote? && a < b <= |lines| && IsQuoteLine(lines[b - 1]) && !QuoteGoesOn(lines, b)
    && exists inner :: QuoteSays(node, lines, a, b, inner)
  }

  ghost predicate QuoteSays(node: MdNode, lines: seq<string>, a: nat, b: nat, inner: seq<string>)
    requires node.BlockQuote?
    decreases node, 0
  {
    && a + |inner| == b && AreQuoted(inner, lines, a)
    && ReadsAll(node.children, WithoutLastEmpty(inner), 0, |WithoutLastEmpty(inner)|)
  }

  /** The item that the marker of a line starts, apart from what is nested in it. */
  ghost predicate IsItemOf(item: ListItem, line: string, kind: ListKind) {
    var marked := DetectListMarker(TrimStart(line));
    && marked.Some? && KindOf(marked.value.marker) == kind && item.elements == InlineElements(marked.value.rest)
    && item.done == match marked.value.marker case TodoMark(done) => Some(done) case _ => None
  }

  /** Where a list of some indent ends; one inside an item goes on over blank lines more readily. */
  ghost predicate EndsList(lines: seq<string>, b: nat, indent: nat, kind: ListKind, nested: bool) {
    b == |lines| || (b < |lines| &&
      if IsBlank(lines[b]) then exists j: nat :: ListEndsBehindBlanks(lines, b, j, indent, nested)
      else CountIndent(lines[b]) < indent || (CountIndent(lines[b]) == indent && IsNoItem(lines[b], kind)))
  }

  ghost predicate ListEndsBehindBlanks(lines: seq<string>, b: nat, j: nat, indent: nat, nested: bool) {
    b < j && AllBlank(lines, b, j) && (j == |lines| || (!IsBlank(lines[j]) && ListEndsAt(lines[j], indent, nested)))
  }

  ghost predicate ListEndsAt(line: string, indent: nat, nested: bool) {
    CountIndent(line) < indent || (!nested && CountIndent(line) == indent && DetectListMarker(TrimStart(line)).None?)
  }

  ghost predicate IsNoItem(line: string, kind: ListKind) {
    var marked := DetectListMarker(TrimStart(line));
    marked.None? || KindOf(marked.value.marker) != kind
  }

  ghost predicate ReadsList(node: MdNode, lines: seq<string>, a: nat, b: nat, indent: nat, nested: bool)
    decreases node, 1
  {
    ListKindOf(node).Some? && var kind := ListKindOf(node).value;
      ReadsItems(node.items, lines, a, b, indent, kind) && EndsList(lines, b, indent, kind, nested)
  }

  /** The first line and later lines at the list's indent are its items; what follows them is nested in them. */
  ghost predicate ReadsItems(items: seq<ListItem>, lines: seq<string>, a: nat, b: nat, indent: nat, kind: ListKind)
    decreases items, 1
  {
    if items == [] then false
    else if |items| == 1 then ReadsItem(items[0], lines, a, b, indent, kind)
    else exists m: nat :: LastItemAt(items, lines, a, b, indent, kind, m)
  }

  ghost predicate LastItemAt(items: seq<ListItem>, lines: seq<string>, a: nat, b: nat, indent: nat, kind: ListKind, m: nat)
    requires items != []
    decreases items, 0
  {
    && ReadsItems(items[..|items| - 1], lines, a, m, indent, kind) && ReadsItem(items[|items| - 1], lines, m, b, indent, kind)
    && !IsBlank(lines[m]) && CountIndent(lines[m]) == indent
  }

  ghost predicate ReadsItem(item: ListItem, lines: seq<string>, a: nat, b: nat, indent: nat, kind: ListKind)
    decreases item
  {
    a < b <= |lines| && IsItemOf(item, lines[a], kind) && ReadsNested(item.children, lines, a + 1, b, indent)
  }

  /** What is nested in an item: stretches of lines that are indented as far as their first line, with blank lines between. */
  ghost predicate ReadsNested(nodes: seq<MdNode>, lines: seq<string>, from: nat, end: nat, base: nat)
    decreases nodes, 3
  {
    if nodes == [] then AllBlank(lines, from, end)
    else exists k: nat, a: nat, b: nat :: LastStretch(nodes, lines, from, end, base, k, a, b)
  }

  /** The nodes from number `k` on are those of the stretch from `a` to `b`. */
  ghost predicate LastStretch(nodes: seq<MdNode>, lines: seq<string>, from: nat, end: nat, base: nat, k: nat, a: nat, b: nat)
    decreases nodes, 2
  {
    && k < |nodes| && from <= a < b <= |lines| && ReadsNested(nodes[..k], lines, from, a, base)
    && !IsBlank(lines[a]) && CountIndent(lines[a]) > base
    && ReadsStretch(nodes[k..], lines, a, b, CountIndent(lines[a])) && EndsStretch(lines, b, CountIndent(lines[a]))
    && AllBlank(lines, b, end)
  }

  /** Where a stretch ends: before a line that is indented less, and before blank ones in front of that. */
  ghost predicate EndsStretch(lines: seq<string>, b: nat, indent: nat) {
    b == |lines| || (b < |lines| &&
      if IsBlank(lines[b]) then exists j: nat :: EndsBehindBlanks(lines, b, j, indent) else CountIndent(lines[b]) < indent)
  }

  ghost predicate EndsBehindBlanks(lines: seq<string>, b: nat, j: nat, indent: nat) {
    b < j && AllBlank(lines, b, j) && (j == |lines| || (!IsBlank(lines[j]) && CountIndent(lines[j]) < indent))
  }

  ghost predicate ReadsStretch(nodes: seq<MdNode>, lines: seq<string>, from: nat, end: nat, indent: nat)
    decreases nodes, 1
  {
    if nodes == [] then AllBlank(lines, from, end)
    else exists a: nat, b: nat :: LastInStretch(nodes, lines, from, end, indent, a, b)
  }

  ghost predicate LastInStretch(nodes: seq<MdNode>, lines: seq<string>, from: nat, end: nat, indent: nat, a: nat, b: nat)
    requires nodes != []
    decreases nodes, 0
  {
    && from <= a && ReadsStretch(nodes[..|nodes| - 1], lines, from, a, indent)
    && ReadsNestedNode(nodes[|nodes| - 1], lines, a, b, indent) && CountIndent(lines[a]) >= indent && AllBlank(lines, b, end)
  }

  /** A node inside an item: markers go first, and there are no tables. */
  ghost predicate ReadsNestedNode(node: MdNode, lines: seq<string>, a: nat, b: nat, indent: nat)
    decreases node, 3
  {
    && a < b <= |lines| && !IsBlank(lines[a]) && var start := TrimStart(lines[a]);
      if DetectListMarker(start).Some? then ReadsList(node, lines, a, b, CountIndent(lines[a]), true)
      else if IsQuoteLine(lines[a]) then ReadsQuote(node, lines, a, b)
      else if "```" <= start then ReadsCode(node, lines, a, b, indent)
      else if HeadingLevel(start) > 0 then Some(node) == ParseHeading(start) && b == a + 1
      else if IsRule(start) then node == Divider && b == a + 1
      else ReadsNestedParagraph(node, lines, a, b, indent)
  }

  // ---------------------------------------------------------------- reading on

  lemma MoreBlank(lines: seq<string>, from: nat, end: nat)
    requires AllBlank(lines, from, end) && end < |lines| && IsBlank(lines[end])
    ensures AllBlank(lines, from, end + 1)
  {
  }

  lemma NoneBlank(lines: seq<string>, pos: nat)
    requires pos <= |lines|
    ensures AllBlank(lines, pos, pos)
  {
  }

  lemma BlankThrough(lines: seq<string>, a: nat, b: nat, c: nat)
    requires AllBlank(lines, a, b) && AllBlank(lines, b, c)
    ensures AllBlank(lines, a, c)
  {
  }

  /** Blank lines behind the nodes of a text. */
  lemma ReadsAllBlank(nodes: seq<MdNode>, lines: seq<string>, from: nat, end: nat, more: nat)
    requires ReadsAll(nodes, lines, from, end) && AllBlank(lines, end, more)
    ensures ReadsAll(nodes, lines, from, more)
  {
    hide Reads;
    if nodes == [] {
      BlankThrough(lines, from, end, more);
    } else {
      var a: nat, b: nat :| LastSpan(nodes, lines, from, end, a, b);
      BlankThrough(lines, b, end, more);
      assert LastSpan(nodes, lines, from, more, a, b);
    }
  }

  lemma ReadsOneMore(nodes: seq<MdNode>, node: MdNode, lines: seq<string>, from: nat, a: nat, b: nat)
    requires ReadsAll(nodes, lines, from, a) && from <= a && Reads(node, lines, a, b)
    ensures ReadsAll(nodes + [node], lines, from, b)
  {
    hide Reads;
    assert (nodes + [node])[..|nodes|] == nodes;
    SpanInside(node, lines, a, b);
    assert LastSpan(nodes + [node], lines, from, b, a, b);
  }

  lemma SpanInside(node: MdNode, lines: seq<string>, a: nat, b: nat)
    requires Reads(node, lines, a, b)
    ensures a < b <= |lines| && AllBlank(lines, b, b)
  {
  }

  lemma ReadsNothing(lines: seq<string>, pos: nat)
    requires pos <= |lines|
    ensures ReadsAll([], lines, pos, pos) && forall indent :: ReadsStretch([], lines, pos, pos, indent)
  {
  }

  /** Blank lines inside a stretch. */
  lemma StretchBlank(nodes: seq<MdNode>, lines: seq<string>, from: nat, end: nat, indent: nat)
    requires ReadsStretch(nodes, lines, from, end, indent) && end < |lines| && IsBlank(lines[end])
    ensures ReadsStretch(nodes, lines, from, end + 1, indent)
  {
    hide ReadsNestedNode, IsBlank, CountIndent;
    if nodes == [] {
      MoreBlank(lines, from, end);
    } else {
      var a: nat, b: nat :| LastInStretch(nodes, lines, from, end, indent, a, b);
      MoreBlank(lines, b, end);
      assert LastInStretch(nodes, lines, from, end + 1, indent, a, b);
    }
  }

  lemma StretchOneMore(nodes: seq<MdNode>, node: MdNode, lines: seq<string>, from: nat, a: nat, b: nat, indent: nat)
    requires ReadsStretch(nodes, lines, from, a, indent) && from <= a && ReadsNestedNode(node, lines, a, b, indent)
    requires a < |lines| && CountIndent(lines[a]) >= indent
    ensures ReadsStretch(nodes + [node], lines, from, b, indent)
  {
    hide ReadsNestedNode, CountIndent;
    assert (nodes + [node])[..|nodes|] == nodes;
    NestedSpanInside(node, lines, a, b, indent);
    assert LastInStretch(nodes + [node], lines, from, b, indent, a, b);
  }

  lemma NestedSpanInside(node: MdNode, lines: seq<string>, a: nat, b: nat, indent: nat)
    requires ReadsNestedNode(node, lines, a, b, indent)
    ensures a < b <= |lines| && AllBlank(lines, b, b)
  {
  }

  lemma NestedBlank(nodes: seq<MdNode>, lines: seq<string>, from: nat, end: nat, base: nat)
    requires ReadsNested(nodes, lines, from, end, base) && end < |lines| && IsBlank(lines[end])
    ensures ReadsNested(nodes, lines, from, end + 1, base)
  {
    hide ReadsStretch, IsBlank, CountIndent;
    if nodes == [] {
      MoreBlank(lines, from, end);
    } else {
      var k: nat, a: nat, b: nat :| LastStretch(nodes, lines, from, end, base, k, a, b);
      MoreBlank(lines, b, end);
      assert LastStretch(nodes, lines, from, end + 1, base, k, a, b);
    }
  }

  /** A stretch behind what is nested so far. */
  lemma NestedStretch(nodes: seq<MdNode>, more: seq<MdNode>, lines: seq<string>, from: nat, a: nat, b: nat, base: nat)
    requires ReadsNested(nodes, lines, from, a, base) && from <= a < b <= |lines| && more != []
    requires !IsBlank(lines[a]) && CountIndent(lines[a]) > base
    requires ReadsStretch(more, lines, a, b, CountIndent(lines[a])) && EndsStretch(lines, b, CountIndent(lines[a]))
    ensures ReadsNested(nodes + more, lines, from, b, base)
  {
    hide ReadsStretch, EndsStretch, IsBlank, CountIndent;
    assert (nodes + more)[..|nodes|] == nodes && (nodes + more)[|nodes|..] == more;
    NoneBlank(lines, b);
    assert LastStretch(nodes + more, lines, from, b, base, |nodes|, a, b);
  }

  lemma StretchNotEmpty(nodes: seq<MdNode>, lines: seq<string>, from: nat, end: nat, indent: nat)
    requires ReadsStretch(nodes, lines, from, end, indent) && from < end <= |lines| && !IsBlank(lines[from])
    ensures nodes != []
  {
  }

  lemma StretchEndsBehind(lines: seq<string>, b: nat, j: nat, indent: nat)
    requires b < j <= |lines| && IsBlank(lines[b]) && (forall i :: b < i < j ==> IsBlank(lines[i])) && (j < |lines| ==> !IsBlank(lines[j]))
    ensures j == |lines| || CountIndent(lines[j]) < indent ==> EndsStretch(lines, b, indent)
  {
    hide IsBlank, CountIndent;
    assert j == |lines| || CountIndent(lines[j]) < indent ==> EndsBehindBlanks(lines, b, j, indent);
  }

  lemma StretchEndsHere(lines: seq<string>, b: nat, indent: nat)
    requires b < |lines| && !IsBlank(lines[b])
    ensures CountIndent(lines[b]) < indent ==> EndsStretch(lines, b, indent)
  {
  }

  lemma StretchEndsAtEnd(lines: seq<string>, b: nat, indent: nat)
    ensures b == |lines| ==> EndsStretch(lines, b, indent)
  {
  }

  lemma EndsBehind(lines: seq<string>, b: nat, j: nat, indent: nat, kind: ListKind, nested: bool)
    requires b < j <= |lines| && IsBlank(lines[b]) && (forall i :: b < i < j ==> IsBlank(lines[i])) && (j < |lines| ==> !IsBlank(lines[j]))
    ensures j == |lines| || ListEndsAt(lines[j], indent, nested) ==> EndsList(lines, b, indent, kind, nested)
  {
    hide IsBlank, ListEndsAt;
    assert j == |lines| || ListEndsAt(lines[j], indent, nested) ==> ListEndsBehindBlanks(lines, b, j, indent, nested);
  }

  lemma EndsHere(lines: seq<string>, b: nat, indent: nat, kind: ListKind, nested: bool)
    requires b < |lines| && !IsBlank(lines[b])
    ensures CountIndent(lines[b]) < indent || (CountIndent(lines[b]) == indent && IsNoItem(lines[b], kind)) ==>
              EndsList(lines, b, indent, kind, nested)
  {
  }

  lemma EndsAtEnd(lines: seq<string>, b: nat, indent: nat, kind: ListKind, nested: bool)
    ensures b == |lines| ==> EndsList(lines, b, indent, kind, nested)
  {
  }

  lemma OneNestedLine(line: string)
    ensures NestedText([line]) == TrimStart(line)
  {
  }

  lemma OneMoreNestedLine(lines: seq<string>, start: nat, pos: nat)
    requires start < pos < |lines|
    ensures NestedText(lines[start..pos + 1]) == NestedText(lines[start..pos]) + " " + Trim(lines[pos])
  {
    hide Trim, TrimStart;
    assert lines[start..pos + 1][..pos - start] == lines[start..pos];
  }

  // ---------------------------------------------------------------- items

  lemma FirstItemRead(item: ListItem, lines: seq<string>, pos: nat, indent: nat, kind: ListKind)
    requires pos < |lines| && IsItemOf(item, lines[pos], kind) && item.children == []
    ensures ReadsItems([item], lines, pos, pos + 1, indent, kind)
  {
    hide IsItemOf;
    NoneBlank(lines, pos + 1);
    assert ReadsNested([], lines, pos + 1, pos + 1, indent);
    assert ReadsItem(item, lines, pos, pos + 1, indent, kind);
  }

  lemma NextItemRead(items: seq<ListItem>, item: ListItem, lines: seq<string>, a: nat, pos: nat, indent: nat, kind: ListKind)
    requires ReadsItems(items, lines, a, pos, indent, kind) && pos < |lines|
    requires IsItemOf(item, lines[pos], kind) && item.children == [] && !IsBlank(lines[pos])
    requires CountIndent(lines[pos]) == indent
    ensures ReadsItems(items + [item], lines, a, pos + 1, indent, kind)
  {
    hide IsItemOf, IsBlank, CountIndent;
    FirstItemRead(item, lines, pos, indent, kind);
    assert (items + [item])[..|items|] == items;
    assert LastItemAt(items + [item], lines, a, pos + 1, indent, kind, pos);
  }

  /** Where the last item begins. */
  lemma LastItem(items: seq<ListItem>, lines: seq<string>, a: nat, b: nat, indent: nat, kind: ListKind) returns (m: nat)
    requires ReadsItems(items, lines, a, b, indent, kind)
    ensures items != [] && ReadsItem(items[|items| - 1], lines, m, b, indent, kind)
    ensures |items| == 1 ==> m == a
    ensures |items| > 1 ==> LastItemAt(items, lines, a, b, indent, kind, m)
  {
    if |items| == 1 {
      m := a;
    } else {
      m :| LastItemAt(items, lines, a, b, indent, kind, m);
    }
  }

  /** The last item goes on to `c`, with more nested in it. */
  lemma LastItemGoesOn(items: seq<ListItem>, items': seq<ListItem>, lines: seq<string>, a: nat, b: nat, c: nat, indent: nat,
                       kind: ListKind, m: nat)
    requires items != [] && |items'| == |items| && items'[..|items| - 1] == items[..|items| - 1]
    requires |items| == 1 ==> m == a
    requires |items| > 1 ==> LastItemAt(items, lines, a, b, indent, kind, m)
    requires ReadsItem(items'[|items| - 1], lines, m, c, indent, kind)
    ensures ReadsItems(items', lines, a, c, indent, kind)
  {
    hide ReadsItem, IsBlank, CountIndent;
    if |items| > 1 {
      assert LastItemAt(items', lines, a, c, indent, kind, m);
    }
  }

  lemma ItemsBlank(items: seq<ListItem>, lines: seq<string>, a: nat, b: nat, indent: nat, kind: ListKind)
    requires ReadsItems(items, lines, a, b, indent, kind) && b < |lines| && IsBlank(lines[b])
    ensures ReadsItems(items, lines, a, b + 1, indent, kind)
  {
    hide ReadsItems, ReadsNested, IsBlank, IsItemOf;
    var m := LastItem(items, lines, a, b, indent, kind);
    NestedBlank(items[|items| - 1].children, lines, m + 1, b, indent);
    LastItemGoesOn(items, items, lines, a, b, b + 1, indent, kind, m);
  }

  lemma ItemsNest(items: seq<ListItem>, items': seq<ListItem>, nested: seq<MdNode>, lines: seq<string>, a: nat, b: nat,
                  c: nat, indent: nat, kind: ListKind)
    requires ReadsItems(items, lines, a, b, indent, kind) && b < c <= |lines|
    requires items != []
    requires items' == items[|items| - 1 := items[|items| - 1].(children := items[|items| - 1].children + nested)]
    requires !IsBlank(lines[b]) && CountIndent(lines[b]) > indent
    requires ReadsStretch(nested, lines, b, c, CountIndent(lines[b])) && EndsStretch(lines, c, CountIndent(lines[b]))
    ensures ReadsItems(items', lines, a, c, indent, kind)
  {
    hide ReadsItems, ReadsNested, ReadsStretch, EndsStretch, IsBlank, CountIndent;
    var m := LastItem(items, lines, a, b, indent, kind);
    StretchNotEmpty(nested, lines, b, c, CountIndent(lines[b]));
    NestedStretch(items[|items| - 1].children, nested, lines, m + 1, b, c, indent);
    LastItemGoesOn(items, items', lines, a, b, c, indent, kind, m);
  }
}
