/** The line parser that turns Markdown into the syntax tree that is flattened to blocks. */
module MarkdownParser {
  import opened Collections
  import opened BlockTrees
  import opened MarkdownBlocks
  import opened MarkdownLines
  import opened MarkdownUpsets
  import opened MarkdownGrammar
  import opened MarkdownReading
  import opened MarkdownUnreadable

  /**
   * The text is parsed line by line; nested quotes are parsed as texts of their own. It fails exactly where
   * no nodes can be read from the lines. Then two neighbouring lines are an upset; in plain text one suffices.
   */
  method ParseMarkdownAst(markdown: string) returns (nodes: seq<MdNode>, failed: bool)
    ensures AllWellFormed(nodes) && (!failed ==> ReadsAll(nodes, Lines(markdown), 0, |Lines(markdown)|))
    ensures failed <==> Unreadable(Lines(markdown))
    ensures failed ==> SomeUpset(Lines(markdown))
    ensures IsPlainText(Lines(markdown)) ==> (failed <==> SomeUpset(Lines(markdown)))
    ensures var lines := Lines(markdown);
            lines != [] && !IsBlank(lines[0]) && !IsFence(lines[0]) && TableCheckFails(lines, 0) ==> failed
    decreases |markdown|
  {
    hide IsPlainText, UpsetAt, TableCheckFails, IsFence, SomeUpset, Settled, IsBlank, Reads, ReadsAll, AllBlank, NoNode,
      TextSize, AreLines;
    SettledBlanks(Lines(markdown), 0, 0);
    var ctx := new ParseCtx(markdown);
    nodes := [];
    ReadsNothing(ctx.lines, 0);
    while ctx.pos < |ctx.lines| && !ctx.failed
      invariant ctx.Valid() && fresh(ctx) && ctx.size == |markdown| && ctx.lines == Lines(markdown)
      invariant AllWellFormed(nodes)
      invariant if ctx.failed then Unreadable(ctx.lines) else ReadsAll(nodes, ctx.lines, 0, ctx.pos)
      invariant !ctx.failed ==> Settled(ctx.lines, 0, ctx.pos)
      invariant ctx.pos > 0 && !ctx.failed && !IsBlank(ctx.lines[0]) ==>
                  IsFence(ctx.lines[0]) || !TableCheckFails(ctx.lines, 0)
      decreases !ctx.failed, |ctx.lines| - ctx.pos
    {
      ghost var before := ctx.pos;
      var node, at := ctx.ParseNextNode();
      ReadsAllBlank(nodes, ctx.lines, 0, before, at);
      if ctx.failed {
        NodeStopsAll(nodes, ctx.lines, at);
      } else {
        SettledBoth(ctx.lines, 0, before, ctx.pos);
        if node.Some? {
          ReadsOneMore(nodes, node.value, ctx.lines, 0, at, ctx.pos);
        }
      }
      if node.Some? {
        nodes := nodes + [node.value];
      }
    }
    failed := ctx.failed;
    if !failed {
      AllSettled(ctx.lines);
    }
  }

  class ParseCtx {
    const lines: seq<string>
    var pos: nat
    /** A lone bar was taken apart: the parser has stopped. */
    var failed: bool
    /** The length of the text the lines come from. */
    ghost const size: nat

    ghost predicate Valid()
      reads this
    {
      pos <= |lines| && TextSize(lines) <= size + 1 && AreLines(lines) && (failed ==> SomeUpset(lines))
    }

    constructor (text: string)
      ensures Valid() && pos == 0 && !failed && size == |text| && lines == Lines(text)
    {
      lines, pos, failed, size := Lines(text), 0, false, |text|;
      new;
      LinesFit(text);
      LinesAreLines(text);
    }

    /** The first line from `j` on that is not blank. */
    method NextNonBlank(from: nat) returns (j: nat)
      requires from <= |lines|
      ensures from <= j <= |lines| && (j < |lines| ==> !IsBlank(lines[j]))
      ensures forall i :: from <= i < j ==> IsBlank(lines[i])
    {
      j := from;
      while j < |lines| && IsBlank(lines[j])
        invariant from <= j <= |lines| && forall i :: from <= i < j ==> IsBlank(lines[i])
      {
        j := j + 1;
      }
    }

    method Fail(ghost at: nat)
      requires Valid() && UpsetAt(lines, at)
      modifies this`failed
      ensures Valid() && failed
    {
      failed := true;
    }

    /** Moves past at least one line unless only blank ones are left or the parser stops. */
    method ParseNextNode() returns (node: Option<MdNode>, ghost at: nat)
      requires Valid() && !failed && pos < |lines|
      modifies this
      ensures Valid() && pos >= old(pos) && (!failed ==> pos > old(pos))
      ensures !failed && (exists i :: old(pos) <= i < |lines| && !IsBlank(lines[i])) ==> node.Some?
      ensures node.Some? ==> IsWellFormed(node.value)
      ensures failed ==> at < |lines| && !IsBlank(lines[at]) && NoNode(lines, at)
      ensures AllBlank(lines, old(pos), at)
      ensures !failed ==> if node.Some? then Reads(node.value, lines, at, pos) else at == pos
      ensures !IsBlank(lines[old(pos)]) && !IsFence(lines[old(pos)]) && TableCheckFails(lines, old(pos)) ==> failed
      ensures !failed ==> Settled(lines, old(pos), pos)
      decreases size, |lines| - pos, 6
    {
      hide UpsetAt, TableCheckFails, SomeUpset, Settled, Reads, NoNode, TextSize, AreLines, IsFence, IsBlank, IsWellFormed;
      ghost var start := pos;
      pos := NextNonBlank(pos);
      node, at := None, pos;
      SettledBlanks(lines, start, at);
      if pos >= |lines| {
        return;
      }
      node := ParseNodeHere();
      if !failed {
        SettledBoth(lines, start, at, pos);
      }
    }

    /** The node that the line here starts. */
    method ParseNodeHere() returns (node: Option<MdNode>)
      requires Valid() && !failed && pos < |lines| && !IsBlank(lines[pos])
      modifies this
      ensures Valid() && pos >= old(pos) && (!failed ==> pos > old(pos) && node.Some?)
      ensures node.Some? ==> IsWellFormed(node.value) && (!failed ==> Reads(node.value, lines, old(pos), pos))
      ensures failed ==> NoNode(lines, old(pos))
      ensures !IsFence(lines[old(pos)]) && TableCheckFails(lines, old(pos)) ==> failed
      ensures !failed ==> Settled(lines, old(pos), pos)
      decreases size, |lines| - pos, 5
    {
      hide Trim, IsPlainText, UpsetAt, TableCheckFails, IsTableSeparatorLine, SomeUpset, Settled, DetectListMarker,
        HeadingLevel, QuoteGoesOn, TableRows, ReadsCode, ReadsQuote, ReadsList, ReadsParagraph, TextSize, AreLines,
        IsTableLine, NoNode, NoTable, NoQuote, NoList, NoParagraph;
      ghost var at := pos;
      var trimmed := Trim(lines[pos]);
      if "```" <= trimmed {
        var code := ParseCodeBlock(0);
        NotPlain(lines, at, at, pos);
        return Some(code);
      }
      if TableCheckFails(lines, pos) {
        CheckFails(lines, pos);
        StuckHasNoNode(lines, at);
        Fail(pos);
        return None;
      }
      if IsTableStartAt(lines, pos) {
        var table := ParseTable();
        if !failed {
          SettledTable(lines, at, pos);
        } else {
          StuckHasNoNode(lines, at);
        }
        return Some(table);
      }
      SettledLines(lines, at, at + 1);
      var heading := ParseHeading(trimmed);
      if heading.Some? {
        pos := pos + 1;
        return heading;
      }
      if trimmed[0] == '>' {
        var quote := ParseBlockQuote();
        NotPlain(lines, at, at, pos);
        if failed {
          StuckHasNoNode(lines, at);
        }
        return Some(quote);
      }
      if IsRule(trimmed) {
        pos := pos + 1;
        return Some(Divider);
      }
      if DetectListMarker(trimmed).Some? {
        MarkerOfPrefix(trimmed, TrimStart(lines[pos]));
        var list := ParseList(0);
        NotPlain(lines, at, at, pos);
        if failed {
          StuckHasNoNode(lines, at);
        }
        return Some(list);
      }
      var paragraph := ParseParagraph();
      if !failed {
        SettledLines(lines, at, pos);
      } else {
        StuckHasNoNode(lines, at);
      }
      node := Some(paragraph);
    }

    /** From the line after the fence to the next fence, which is used up, or to the end. */
    method ParseCodeBlock(baseIndent: nat) returns (node: MdNode)
      requires Valid() && !failed && pos < |lines|
      modifies this`pos
      ensures Valid() && pos > old(pos) && IsWellFormed(node)
      ensures ReadsCode(node, lines, old(pos), pos, baseIndent)
      decreases size, |lines| - pos, 0
    {
      hide Trim, IsFence, CodeLine, CodeText, CodeLanguage, TrimEnd, SomeUpset, TextSize, AreLines;
      var lang := CodeLanguage(lines[pos]);
      pos := pos + 1;
      var content := "";
      ghost var start := pos;
      ghost var end := pos;
      NoCode(baseIndent);
      assert lines[start..pos] == [];
      while pos < |lines|
        invariant start <= pos <= |lines| && end == pos && content == CodeText(lines[start..pos], baseIndent)
        invariant forall i :: start <= i < pos ==> !IsFence(lines[i])
      {
        var line := lines[pos];
        if IsFence(line) {
          pos := pos + 1;
          break;
        }
        if content != "" {
          content := content + "\n";
        }
        content := content + CodeLine(line, baseIndent);
        OneMoreCodeLine(lines, start, pos, baseIndent);
        pos := pos + 1;
        end := pos;
      }
      node := CodeBlock(lang, TrimEnd(content));
      assert CodeUpTo(node, lines, old(pos), pos, baseIndent, end);
    }

    /** The rows of all table lines up to the first other line. */
    method ParseTable() returns (node: MdNode)
      requires Valid() && !failed && pos < |lines| && !TableCheckFails(lines, pos) && IsTableStartAt(lines, pos)
      modifies this
      ensures Valid() && old(pos) <= pos && (!failed ==> pos > old(pos)) && IsWellFormed(node)
      ensures node.Table? && forall i :: 0 <= i < |node.rows| ==> node.rows[i] != []
      ensures if failed then NoTable(lines, old(pos)) else ReadsTable(node, lines, old(pos), pos)
      decreases size, |lines| - pos, 0
    {
      hide Trim, IsTableSeparatorLine, ParseTableRow, SomeUpset, UpsetAt, TextSize, AreLines, TableRows;
      var rows := [];
      ghost var start := pos;
      NoRows();
      assert lines[start..pos] == [];
      while pos < |lines|
        invariant Valid() && !failed && start == old(pos) <= pos && forall i :: 0 <= i < |rows| ==> rows[i] != []
        invariant pos == start ==> IsTableLine(lines[pos])
        invariant forall i :: start <= i < pos ==> IsTableLine(lines[i]) && !IsLoneBar(lines[i])
        invariant rows == TableRows(lines[start..pos])
      {
        var line := lines[pos];
        if IsBlank(line) || '|' !in Trim(line) {
          break;
        }
        if IsLoneBar(line) {
          LoneBarInTable(lines, start, pos);
          LoneBarStopsTable(lines, start, pos);
          Fail(if pos == start then pos else pos - 1);
          break;
        }
        OneMoreTableLine(lines, start, pos);
        if !IsTableSeparatorLine(line) {
          rows := rows + [ParseTableRow(line)];
        }
        pos := pos + 1;
      }
      node := Table(rows);
    }

    /** The quoted text, all that the quote's lines say, is shorter than the text it stands in, so nesting ends. */
    method ParseBlockQuote() returns (node: MdNode)
      requires Valid() && !failed && pos < |lines| && IsQuoteLine(lines[pos])
      modifies this
      ensures Valid() && pos > old(pos) && IsWellFormed(node) && node.BlockQuote?
      ensures if failed then NoQuote(lines, old(pos)) else ReadsQuote(node, lines, old(pos), pos)
      decreases size, |lines| - pos, 1
    {
      hide TextSize, Quoted, Trim, Lines, IsUpset, AreQuoted, QuoteGoesOn, SomeUpset, AreLines, ReadsAll, IsPlainText,
        Unreadable, NoQuote;
      var innerLines := [];
      ghost var start := pos;
      NothingQuoted(lines, pos);
      while pos < |lines|
        invariant Valid() && !failed && start <= pos && |innerLines| == pos - start
        invariant if pos == start then IsQuoteLine(lines[pos]) else IsQuoteLine(lines[pos - 1]) || QuoteGoesOn(lines, pos)
        invariant pos > start ==> TextSize(innerLines) < TextSize(lines[start..pos])
        invariant AreQuoted(innerLines, lines, start)
      {
        var line := lines[pos];
        var trimmed := Trim(line);
        var content := "";
        if trimmed == "" {
          var j := NextNonBlank(pos + 1);
          BlanksBeforeQuote(lines, pos, j);
          if j >= |lines| || Trim(lines[j])[0] != '>' {
            break;
          }
          QuoteBehind(lines, pos);
        } else {
          if trimmed[0] != '>' {
            NoQuoteHere(lines, pos);
            break;
          }
          content := Quoted(trimmed);
        }
        OneMoreQuoted(innerLines, lines, start, pos);
        QuoteIsShorter(innerLines, lines, start, pos);
        innerLines := innerLines + [content];
        pos := pos + 1;
      }
      NoQuoteAtEnd(lines, pos);
      PartOfText(lines, start, pos);
      var innerText := Join(innerLines);
      QuotedText(innerLines, lines, start);
      var children, failedBelow := ParseMarkdownAst(innerText);
      if failedBelow {
        FailureBelow(innerLines, lines, start);
        TextStopsQuote(lines, start, pos, innerLines);
        failed := true;
      }
      node := BlockQuote(children);
      assert !failed ==> QuoteSays(node, lines, start, pos, innerLines);
    }

    /** The marker of the first line is there: every caller has seen it. */
    method ParseList(baseIndent: nat) returns (node: MdNode)
      requires Valid() && !failed && pos < |lines| && DetectListMarker(TrimStart(lines[pos])).Some?
      modifies this
      ensures Valid() && pos > old(pos) && IsWellFormed(node)
      ensures ListKindOf(node) == Some(KindOf(DetectListMarker(TrimStart(lines[old(pos)])).value.marker))
      ensures if failed then NoList(lines, old(pos), baseIndent, false)
              else ReadsList(node, lines, old(pos), pos, baseIndent, false)
      decreases size, |lines| - pos, 4
    {
      hide DetectListMarker, TrimStart, IsBlank, ReadsItems, ReadsStretch, EndsStretch, EndsList, NoList, NoStretch,
        SomeUpset, TextSize, AreLines;
      var first := DetectListMarker(TrimStart(lines[pos])).value;
      var kind := KindOf(first.marker);
      var items := [NewItem(first)];
      ghost var start := pos;
      FirstItemRead(items[0], lines, pos, baseIndent, kind);
      pos := pos + 1;
      while pos < |lines| && !failed
        invariant Valid() && pos > old(pos) && items != [] && AllItemsWellFormed(items, kind)
        invariant if failed then NoList(lines, start, baseIndent, false)
                  else ReadsItems(items, lines, start, pos, baseIndent, kind)
        decreases !failed, |lines| - pos
      {
        var line := lines[pos];
        if IsBlank(line) {
          var j := NextNonBlank(pos + 1);
          EndsBehind(lines, pos, j, baseIndent, kind, false);
          if j >= |lines| {
            break;
          }
          var nextIndent := CountIndent(lines[j]);
          if nextIndent < baseIndent || (nextIndent == baseIndent && DetectListMarker(TrimStart(lines[j])).None?) {
            break;
          }
          ItemsBlank(items, lines, start, pos, baseIndent, kind);
          pos := pos + 1;
        } else {
          var indent := CountIndent(line);
          EndsHere(lines, pos, baseIndent, kind, false);
          if indent < baseIndent {
            break;
          }
          if indent == baseIndent {
            var marked := DetectListMarker(TrimStart(line));
            if marked.None? || KindOf(marked.value.marker) != kind {
              break;
            }
            NextItemRead(items, NewItem(marked.value), lines, start, pos, baseIndent, kind);
            items := items + [NewItem(marked.value)];
            pos := pos + 1;
          } else {
            ghost var at := pos;
            var nested := ParseNestedContent(indent);
            if failed {
              StretchStopsList(items, lines, start, at, baseIndent, kind, false);
            } else {
              ItemsNest(items, WithNested(items, nested, kind), nested, lines, start, at, pos, baseIndent, kind);
            }
            items := WithNested(items, nested, kind);
          }
        }
      }
      EndsAtEnd(lines, pos, baseIndent, kind, false);
      node := ListNode(kind, items);
    }

    /** A list inside an item, whose first marker has just been read. */
    method ParseSubList(first: Marked, subIndent: nat) returns (node: MdNode)
      requires Valid() && !failed && pos < |lines| && DetectListMarker(TrimStart(lines[pos])) == Some(first)
      modifies this
      ensures Valid() && pos > old(pos) && IsWellFormed(node)
      ensures ListKindOf(node) == Some(KindOf(first.marker))
      ensures if failed then NoList(lines, old(pos), subIndent, true)
              else ReadsList(node, lines, old(pos), pos, subIndent, true)
      decreases size, |lines| - pos, 2
    {
      hide DetectListMarker, TrimStart, IsBlank, ReadsItems, ReadsStretch, EndsStretch, EndsList, NoList, NoStretch,
        SomeUpset, TextSize, AreLines;
      var kind := KindOf(first.marker);
      var items := [NewItem(first)];
      ghost var start := pos;
      FirstItemRead(items[0], lines, pos, subIndent, kind);
      pos := pos + 1;
      while pos < |lines| && !failed
        invariant Valid() && pos > old(pos) && items != [] && AllItemsWellFormed(items, kind)
        invariant if failed then NoList(lines, start, subIndent, true)
                  else ReadsItems(items, lines, start, pos, subIndent, kind)
        decreases !failed, |lines| - pos
      {
        var line := lines[pos];
        if IsBlank(line) {
          var j := NextNonBlank(pos + 1);
          EndsBehind(lines, pos, j, subIndent, kind, true);
          if j >= |lines| || CountIndent(lines[j]) < subIndent {
            break;
          }
          ItemsBlank(items, lines, start, pos, subIndent, kind);
          pos := pos + 1;
        } else {
          var indent := CountIndent(line);
          EndsHere(lines, pos, subIndent, kind, true);
          if indent < subIndent {
            break;
          }
          if indent == subIndent {
            var marked := DetectListMarker(TrimStart(line));
            if marked.None? || KindOf(marked.value.marker) != kind {
              break;
            }
            NextItemRead(items, NewItem(marked.value), lines, start, pos, subIndent, kind);
            items := items + [NewItem(marked.value)];
            pos := pos + 1;
          } else {
            ghost var at := pos;
            var nested := ParseNestedContent(indent);
            if failed {
              StretchStopsList(items, lines, start, at, subIndent, kind, true);
            } else {
              ItemsNest(items, WithNested(items, nested, kind), nested, lines, start, at, pos, subIndent, kind);
            }
            items := WithNested(items, nested, kind);
          }
        }
      }
      EndsAtEnd(lines, pos, subIndent, kind, true);
      node := ListNode(kind, items);
    }

    /** Everything indented by at least `indent`; a first line that is so indented is used up. */
    method ParseNestedContent(indent: nat) returns (nodes: seq<MdNode>)
      requires Valid() && !failed && pos < |lines|
      modifies this
      ensures Valid() && pos >= old(pos) && AllWellFormed(nodes)
      ensures !failed && !IsBlank(lines[old(pos)]) && CountIndent(lines[old(pos)]) >= indent ==> pos > old(pos)
      ensures if failed then NoStretch(lines, old(pos), indent)
              else ReadsStretch(nodes, lines, old(pos), pos, indent) && EndsStretch(lines, pos, indent)
      decreases size, |lines| - pos, 4
    {
      hide ReadsStretch, EndsStretch, ReadsNestedNode, NoStretch, NoNestedNode, IsBlank, SomeUpset, TextSize, AreLines;
      nodes := [];
      ghost var start := pos;
      ReadsNothing(lines, pos);
      while pos < |lines| && !failed
        invariant Valid() && pos >= old(pos) && AllWellFormed(nodes)
        invariant if failed then NoStretch(lines, start, indent) else ReadsStretch(nodes, lines, start, pos, indent)
        decreases !failed, |lines| - pos
      {
        var line := lines[pos];
        if IsBlank(line) {
          var j := NextNonBlank(pos + 1);
          StretchEndsBehind(lines, pos, j, indent);
          if j >= |lines| || CountIndent(lines[j]) < indent {
            break;
          }
          StretchBlank(nodes, lines, start, pos, indent);
          pos := pos + 1;
        } else {
          StretchEndsHere(lines, pos, indent);
          if CountIndent(line) < indent {
            break;
          }
          ghost var at := pos;
          var node := ParseNestedNode(indent);
          if failed {
            NodeStopsStretch(nodes, lines, start, at, indent);
          } else {
            StretchOneMore(nodes, node, lines, start, at, pos, indent);
          }
          nodes := nodes + [node];
        }
      }
      StretchEndsAtEnd(lines, pos, indent);
    }

    method ParseNestedNode(indent: nat) returns (node: MdNode)
      requires Valid() && !failed && pos < |lines| && !IsBlank(lines[pos])
      modifies this
      ensures Valid() && pos >= old(pos) && (!failed ==> pos > old(pos)) && IsWellFormed(node)
      ensures if failed then NoNestedNode(lines, old(pos), indent) else ReadsNestedNode(node, lines, old(pos), pos, indent)
      decreases size, |lines| - pos, 3
    {
      hide ReadsCode, ReadsQuote, ReadsList, ReadsNestedParagraph, DetectListMarker, TrimStart, Trim, SomeUpset, TextSize,
        AreLines, NoNestedNode, NoQuote, NoList;
      var line := lines[pos];
      var trimmed := TrimStart(line);
      SameStart(line);
      StuckInside(lines, pos, indent);
      var marked := DetectListMarker(trimmed);
      if marked.Some? {
        node := ParseSubList(marked.value, CountIndent(line));
      } else if trimmed[0] == '>' {
        node := ParseBlockQuote();
      } else if "```" <= trimmed {
        node := ParseCodeBlock(indent);
      } else if ParseHeading(trimmed).Some? {
        pos := pos + 1;
        node := ParseHeading(trimmed).value;
      } else if IsRule(trimmed) {
        pos := pos + 1;
        node := Divider;
      } else {
        node := ParseNestedParagraph(indent);
      }
    }

    method ParseNestedParagraph(indent: nat) returns (node: MdNode)
      requires Valid() && !failed && pos < |lines|
      modifies this`pos
      ensures Valid() && pos > old(pos) && IsWellFormed(node)
      ensures ReadsNestedParagraph(node, lines, old(pos), pos, indent)
      decreases size, |lines| - pos, 0
    {
      hide Trim, TrimStart, StartsNestedBlock, CountIndent, IsBlank, NestedText, SomeUpset, TextSize, AreLines;
      var para := TrimStart(lines[pos]);
      ghost var start := pos;
      OneNestedLine(lines[pos]);
      pos := pos + 1;
      assert lines[start..pos] == [lines[start]];
      while pos < |lines| && !IsBlank(lines[pos]) && CountIndent(lines[pos]) >= indent && !StartsNestedBlock(lines[pos])
        invariant start < pos <= |lines| && para == NestedText(lines[start..pos])
        invariant forall i :: start < i < pos ==> !EndsNestedParagraph(lines[i], indent)
      {
        OneMoreNestedLine(lines, start, pos);
        para := para + " " + Trim(lines[pos]);
        pos := pos + 1;
      }
      node := Paragraph(InlineElements(para));
    }

    /** The trimmed lines up to one that is blank or starts something else. */
    method ParseParagraph() returns (node: MdNode)
      requires Valid() && !failed && pos < |lines|
      modifies this
      ensures Valid() && pos > old(pos) && IsWellFormed(node)
      ensures if failed then NoParagraph(lines, old(pos)) else ReadsParagraph(node, lines, old(pos), pos)
      ensures forall i :: old(pos) < i < pos ==> !TableCheckFails(lines, i) && !IsTableStartAt(lines, i)
      decreases size, |lines| - pos, 0
    {
      hide Trim, StartsBlock, IsTableSeparatorLine, SomeUpset, UpsetAt, TextSize, AreLines, ParagraphText, NoParagraph;
      OneParagraphLine(lines[pos]);
      var text := Trim(lines[pos]);
      ghost var start := pos;
      pos := pos + 1;
      assert lines[start..pos] == [lines[start]];
      while pos < |lines|
        invariant Valid() && !failed && start < pos && text == ParagraphText(lines[start..pos])
        invariant forall i :: start < i < pos ==> !IsBlank(lines[i]) && !StartsBlock(Trim(lines[i]))
        invariant forall i :: start < i < pos ==> !TableCheckFails(lines, i) && !IsTableStartAt(lines, i)
      {
        var trimmed := Trim(lines[pos]);
        if trimmed == "" || StartsBlock(trimmed) {
          break;
        }
        if TableCheckFails(lines, pos) {
          CheckFails(lines, pos);
          CheckStopsParagraph(lines, start, pos);
          Fail(pos);
          break;
        }
        if IsTableStartAt(lines, pos) {
          break;
        }
        OneMoreParagraphLine(lines, start, pos);
        text := text + " " + trimmed;
        pos := pos + 1;
      }
      node := Paragraph(InlineElements(Trim(text)));
    }
  }
}
