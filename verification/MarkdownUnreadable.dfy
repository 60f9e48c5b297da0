/** Where the lines of a text cannot be read: no nodes are read from them, whatever their spans. */
module MarkdownUnreadable {
  import opened Collections
  import opened BlockTrees
  import opened MarkdownBlocks
  import opened MarkdownLines
  import opened MarkdownGrammar
  import opened MarkdownReading

  ghost predicate Unreadable(lines: seq<string>) {
    forall nodes :: !ReadsAll(nodes, lines, 0, |lines|)
  }

  ghost predicate NoNode(lines: seq<string>, a: nat) {
    forall node, b: nat :: !Reads(node, lines, a, b)
  }

  ghost predicate NoTable(lines: seq<string>, a: nat) {
    forall node, b: nat :: !ReadsTable(node, lines, a, b)
  }

  ghost predicate NoParagraph(lines: seq<string>, a: nat) {
    forall node, b: nat :: !ReadsParagraph(node, lines, a, b)
  }

  ghost predicate NoQuote(lines: seq<string>, a: nat) {
    forall node, b: nat :: !ReadsQuote(node, lines, a, b)
  }

  ghost predicate NoList(lines: seq<string>, a: nat, indent: nat, nested: bool) {
    forall node, b: nat :: !ReadsList(node, lines, a, b, indent, nested)
  }

  ghost predicate NoNestedNode(lines: seq<string>, a: nat, indent: nat) {
    forall node, b: nat :: !ReadsNestedNode(node, lines, a, b, indent)
  }

  ghost predicate NoStretch(lines: seq<string>, a: nat, indent: nat) {
    forall nodes, b: nat :: ReadsStretch(nodes, lines, a, b, indent) ==> !EndsStretch(lines, b, indent)
  }

  // ---------------------------------------------------------------- what every reading passes through

  /** Behind nodes that have been read, every reading of the text has a node where the next line is. */
  lemma {:induction false} NodeAt(nodes: seq<MdNode>, nodes': seq<MdNode>, lines: seq<string>, from: nat, at: nat, from': nat)
    returns (node: MdNode, b: nat)
    requires ReadsAll(nodes, lines, from, at) && ReadsAll(nodes', lines, from', |lines|) && SameEnd(lines, from, from')
    requires at < |lines| && !IsBlank(lines[at])
    ensures Reads(node, lines, at, b)
    decreases |nodes|
  {
    hide ReadsAll, Reads, IsBlank;
    AllInside(nodes, lines, from, at);
    AllInside(nodes', lines, from', |lines|);
    if nodes == [] {
      b := FirstSpan(nodes', lines, from', |lines|);
      node := nodes'[0];
    } else {
      var c := FirstSpan(nodes, lines, from, at);
      var c' := FirstSpan(nodes', lines, from', |lines|);
      OneNode(nodes[0], nodes'[0], lines, Next(lines, from), c, c');
      node, b := NodeAt(nodes[1..], nodes'[1..], lines, c, at, c');
    }
  }

  lemma {:induction false} NestedNodeAt(nodes: seq<MdNode>, nodes': seq<MdNode>, lines: seq<string>, from: nat, at: nat,
                                        from': nat, end': nat, indent: nat) returns (node: MdNode, b: nat)
    requires ReadsStretch(nodes, lines, from, at, indent) && ReadsStretch(nodes', lines, from', end', indent)
    requires SameEnd(lines, from, from') && EndsStretch(lines, end', indent)
    requires at < |lines| && !IsBlank(lines[at]) && CountIndent(lines[at]) >= indent
    ensures ReadsNestedNode(node, lines, at, b, indent)
    decreases |nodes|
  {
    hide ReadsStretch, EndsStretch, ReadsNestedNode, IsBlank, CountIndent;
    StretchInside(nodes, lines, from, at, indent);
    StretchInside(nodes', lines, from', end', indent);
    StretchEndBehind(lines, end', indent);
    if nodes == [] {
      b := FirstInStretch(nodes', lines, from', end', indent);
      node := nodes'[0];
    } else {
      var c := FirstInStretch(nodes, lines, from, at, indent);
      var c' := FirstInStretch(nodes', lines, from', end', indent);
      OneNestedNode(nodes[0], nodes'[0], lines, Next(lines, from), c, c', indent);
      node, b := NestedNodeAt(nodes[1..], nodes'[1..], lines, c, at, c', end', indent);
    }
  }

  lemma {:induction false} StretchAt(nodes: seq<MdNode>, nodes': seq<MdNode>, lines: seq<string>, from: nat, at: nat,
                                     from': nat, end': nat, base: nat) returns (more: seq<MdNode>, b: nat)
    requires ReadsNested(nodes, lines, from, at, base) && ReadsNested(nodes', lines, from', end', base)
    requires SameEnd(lines, from, from') && end' <= |lines| && IsNestedEnd(lines, Next(lines, end'), base)
    requires at < |lines| && !IsBlank(lines[at]) && CountIndent(lines[at]) > base
    ensures ReadsStretch(more, lines, at, b, CountIndent(lines[at])) && EndsStretch(lines, b, CountIndent(lines[at]))
    decreases |nodes|
  {
    hide ReadsNested, ReadsStretch, EndsStretch, IsBlank, CountIndent;
    NestedInside(nodes, lines, from, at, base);
    NestedInside(nodes', lines, from', end', base);
    if nodes == [] {
      var k;
      k, b := FirstStretch(nodes', lines, from', end', base);
      more := nodes'[..k];
    } else {
      var k, c := FirstStretch(nodes, lines, from, at, base);
      var k', c' := FirstStretch(nodes', lines, from', end', base);
      var a := Next(lines, from);
      OneStretch(nodes[..k], nodes'[..k'], lines, a, c, a, c', CountIndent(lines[a]));
      more, b := StretchAt(nodes[k..], nodes'[k'..], lines, c, at, c', end', base);
    }
  }

  lemma {:induction false} StretchInItems(items: seq<ListItem>, items': seq<ListItem>, lines: seq<string>, a: nat, at: nat,
                                          b': nat, indent: nat, kind: ListKind) returns (more: seq<MdNode>, b: nat)
    requires ReadsItems(items, lines, a, at, indent, kind) && ReadsItems(items', lines, a, b', indent, kind)
    requires b' <= |lines| && IsListEnd(lines, Next(lines, b'), indent, kind)
    requires at < |lines| && !IsBlank(lines[at]) && CountIndent(lines[at]) > indent
    ensures ReadsStretch(more, lines, at, b, CountIndent(lines[at])) && EndsStretch(lines, b, CountIndent(lines[at]))
    decreases |items|
  {
    hide ReadsItems, ReadsItem, ReadsStretch, EndsStretch, ReadsNested, IsBlank, CountIndent, IsListEnd, IsNestedEnd,
      IsItemOf;
    var m := FirstItem(items, lines, a, at, indent, kind);
    var m' := ItemsGoOn(items', lines, a, b', indent, kind);
    if |items| == 1 {
      ItemInside(items[0], lines, a, m, indent, kind);
      ItemInside(items'[0], lines, a, m', indent, kind);
      more, b := StretchAt(items[0].children, items'[0].children, lines, a + 1, at, a + 1, m', indent);
    } else {
      ItemStartsHere(items[1..], lines, m, at, indent, kind);
      OneItem(items[0], items'[0], lines, a, m, m', indent, kind);
      more, b := StretchInItems(items[1..], items'[1..], lines, m, at, b', indent, kind);
    }
  }

  // ---------------------------------------------------------------- what stops a part stops the whole

  lemma NodeStopsAll(nodes: seq<MdNode>, lines: seq<string>, at: nat)
    requires ReadsAll(nodes, lines, 0, at) && at < |lines| && !IsBlank(lines[at]) && NoNode(lines, at)
    ensures Unreadable(lines)
  {
    hide ReadsAll, Reads, IsBlank;
    forall nodes' | ReadsAll(nodes', lines, 0, |lines|)
      ensures false
    {
      var node, b := NodeAt(nodes, nodes', lines, 0, at, 0);
    }
  }

  lemma NodeStopsStretch(nodes: seq<MdNode>, lines: seq<string>, from: nat, at: nat, indent: nat)
    requires ReadsStretch(nodes, lines, from, at, indent) && NoNestedNode(lines, at, indent)
    requires from <= at < |lines| && !IsBlank(lines[at]) && CountIndent(lines[at]) >= indent
    ensures NoStretch(lines, from, indent)
  {
    hide ReadsStretch, EndsStretch, ReadsNestedNode, IsBlank, CountIndent;
    forall nodes', end: nat | ReadsStretch(nodes', lines, from, end, indent) && EndsStretch(lines, end, indent)
      ensures false
    {
      var node, b := NestedNodeAt(nodes, nodes', lines, from, at, from, end, indent);
    }
  }

  lemma StretchStopsList(items: seq<ListItem>, lines: seq<string>, a: nat, at: nat, indent: nat, kind: ListKind, nested: bool)
    requires ReadsItems(items, lines, a, at, indent, kind)
    requires at < |lines| && !IsBlank(lines[at]) && CountIndent(lines[at]) > indent
    requires NoStretch(lines, at, CountIndent(lines[at]))
    ensures NoList(lines, a, indent, nested)
  {
    hide ReadsItems, ReadsStretch, EndsStretch, EndsList, IsBlank, CountIndent, IsListEnd, DetectListMarker, TrimStart;
    forall node, b: nat | ReadsList(node, lines, a, b, indent, nested)
      ensures false
    {
      KindOfFirst(items, lines, a, at, indent, kind);
      KindOfFirst(node.items, lines, a, b, indent, ListKindOf(node).value);
      ListEndBehind(lines, b, indent, kind, nested);
      var more, c := StretchInItems(items, node.items, lines, a, at, b, indent, kind);
    }
  }

  lemma TextStopsQuote(lines: seq<string>, a: nat, b: nat, inner: seq<string>)
    requires IsQuote(lines, a, b, inner) && Unreadable(WithoutLastEmpty(inner))
    ensures NoQuote(lines, a)
  {
    hide IsQuote, ReadsAll, ReadsQuote;
    forall node, b': nat | ReadsQuote(node, lines, a, b')
      ensures false
    {
      var inner' := QuoteSpan(node, lines, a, b');
      OneQuoteSpan(lines, a, b, b', inner, inner');
    }
  }

  lemma LoneBarStopsTable(lines: seq<string>, a: nat, at: nat)
    requires a <= at < |lines| && IsLoneBar(lines[at]) && forall i :: a <= i < at ==> IsTableLine(lines[i])
    ensures NoTable(lines, a)
  {
    hide TableRows;
    assert IsTableLine(lines[at]);
  }

  lemma CheckStopsParagraph(lines: seq<string>, a: nat, at: nat)
    requires a < at < |lines| && !IsBlank(lines[at]) && !StartsBlock(Trim(lines[at])) && TableCheckFails(lines, at)
    requires forall i :: a < i < at ==> !EndsParagraph(lines, i)
    ensures NoParagraph(lines, a)
  {
    hide IsBlank, Trim, StartsBlock, TableCheckFails, IsTableStartAt, ParagraphText;
    assert !EndsParagraph(lines, at);
  }

  /** Where none of the alternatives for a line can be read. */
  ghost predicate IsStuck(lines: seq<string>, a: nat)
    requires a < |lines| && !IsBlank(lines[a])
  {
    var trimmed := Trim(lines[a]);
    !IsFence(lines[a]) && (TableCheckFails(lines, a) ||
      if IsTableStartAt(lines, a) then NoTable(lines, a)
      else HeadingLevel(trimmed) == 0 &&
           if IsQuoteLine(lines[a]) then NoQuote(lines, a)
           else !IsRule(trimmed) &&
                if DetectListMarker(trimmed).Some? then NoList(lines, a, 0, false) else NoParagraph(lines, a))
  }

  lemma StuckHasNoNode(lines: seq<string>, a: nat)
    requires a < |lines| && !IsBlank(lines[a]) && IsStuck(lines, a)
    ensures NoNode(lines, a)
  {
    hide Trim, IsBlank, IsFence, TableCheckFails, IsTableStartAt, IsQuoteLine, DetectListMarker, HeadingLevel, IsRule,
      ReadsTable, ReadsQuote, ReadsList, ReadsParagraph, ReadsCode;
    forall node, b: nat
      ensures !Reads(node, lines, a, b)
    {
    }
  }

  lemma StuckInside(lines: seq<string>, a: nat, indent: nat)
    requires a < |lines| && !IsBlank(lines[a])
    ensures DetectListMarker(TrimStart(lines[a])).Some? && NoList(lines, a, CountIndent(lines[a]), true) ==>
              NoNestedNode(lines, a, indent)
    ensures DetectListMarker(TrimStart(lines[a])).None? && IsQuoteLine(lines[a]) && NoQuote(lines, a) ==>
              NoNestedNode(lines, a, indent)
  {
    hide Trim, TrimStart, IsBlank, IsQuoteLine, DetectListMarker, HeadingLevel, IsRule, CountIndent,
      ReadsQuote, ReadsList, ReadsNestedParagraph, ReadsCode;
    forall node, b: nat | ReadsNestedNode(node, lines, a, b, indent)
      ensures DetectListMarker(TrimStart(lines[a])).Some? ==> ReadsList(node, lines, a, b, CountIndent(lines[a]), true)
      ensures DetectListMarker(TrimStart(lines[a])).None? && IsQuoteLine(lines[a]) ==> ReadsQuote(node, lines, a, b)
    {
    }
  }
}
