/** The lines of a Markdown text: how they are recognised, and what they say. */
module MarkdownLines {
  import opened Collections
  import opened BlockTrees
  import opened MarkdownBlocks

  // ---------------------------------------------------------------- strings

  predicate IsWhitespace(c: char) {
    || '\t' <= c <= '\r' || c == ' ' || c == '\U{0085}' || c == '\U{00A0}' || c == '\U{1680}'
    || '\U{2000}' <= c <= '\U{200A}' || c == '\U{2028}' || c == '\U{2029}' || c == '\U{202F}' || c == '\U{205F}'
    || c == '\U{3000}'
  }

  function TrimStart(s: string): (r: string)
    ensures |r| <= |s| && (r != "" ==> !IsWhitespace(r[0]))
  {
    if s != "" && IsWhitespace(s[0]) then TrimStart(s[1..]) else s
  }

  function TrimEnd(s: string): (r: string)
    ensures r <= s && (r != "" ==> !IsWhitespace(r[|r| - 1]))
  {
    if s != "" && IsWhitespace(s[|s| - 1]) then TrimEnd(s[..|s| - 1]) else s
  }

  function Trim(s: string): (r: string)
    ensures |r| <= |s| && r <= TrimStart(s)
  {
    TrimEnd(TrimStart(s))
  }

  predicate IsBlank(line: string) {
    Trim(line) == ""
  }

  /** A line that is not blank starts with the same character whether its end is trimmed or not. */
  lemma SameStart(line: string)
    ensures IsBlank(line) <==> TrimStart(line) == ""
    ensures !IsBlank(line) ==> TrimStart(line)[0] == Trim(line)[0]
  {
    TrimKeepsFirst(TrimStart(line));
  }

  lemma {:induction false} TrimKeepsFirst(s: string)
    requires s != "" ==> !IsWhitespace(s[0])
    ensures s != "" ==> TrimEnd(s) != "" && TrimEnd(s)[0] == s[0]
  {
    if s != "" && IsWhitespace(s[|s| - 1]) {
      TrimKeepsFirst(s[..|s| - 1]);
    }
  }

  /** The lines of a text; a carriage return before the line feed belongs to neither. */
  function Lines(text: string): seq<string>
    decreases |text|
  {
    if text == "" then []
    else if '\n' !in text then [WithoutReturn(text)]
    else
      var i := LineFeed(text);
      [WithoutReturn(text[..i])] + Lines(text[i + 1..])
  }

  function LineFeed(text: string): (i: nat)
    requires '\n' in text
    ensures i < |text| && text[i] == '\n' && '\n' !in text[..i]
  {
    if text[0] == '\n' then 0
    else
      assert text == [text[0]] + text[1..];
      assert text[..LineFeed(text[1..]) + 1] == [text[0]] + text[1..][..LineFeed(text[1..])];
      LineFeed(text[1..]) + 1
  }

  function WithoutReturn(line: string): (r: string)
    ensures |r| <= |line|
  {
    if line != "" && line[|line| - 1] == '\r' then line[..|line| - 1] else line
  }

  /** What lines take up with a line feed behind each. */
  ghost function TextSize(lines: seq<string>): nat {
    if lines == [] then 0 else |lines[0]| + 1 + TextSize(lines[1..])
  }

  lemma {:induction false} LinesFit(text: string)
    ensures TextSize(Lines(text)) <= |text| + 1
    decreases |text|
  {
    if text != "" && '\n' in text {
      LinesFit(text[LineFeed(text) + 1..]);
    }
  }

  lemma {:induction false} TextSizeAppend(a: seq<string>, b: seq<string>)
    ensures TextSize(a + b) == TextSize(a) + TextSize(b)
    decreases |a|
  {
    if a == [] {
      assert a + b == b;
    } else {
      TextSizeAppend(a[1..], b);
      assert (a + b)[1..] == a[1..] + b;
    }
  }

  function Join(lines: seq<string>): (r: string)
    ensures |r| + 1 == TextSize(lines) || lines == []
  {
    if lines == [] then "" else if |lines| == 1 then lines[0] else lines[0] + "\n" + Join(lines[1..])
  }

  /** Lines as splitting yields them. */
  ghost predicate AreLines(lines: seq<string>) {
    forall i {:trigger lines[i]} :: 0 <= i < |lines| ==> '\n' !in lines[i]
  }

  lemma {:induction false} LinesAreLines(text: string)
    ensures AreLines(Lines(text))
    decreases |text|
  {
    if text != "" && '\n' in text {
      LinesAreLines(text[LineFeed(text) + 1..]);
    }
  }

  lemma LineFeedAt(line: string, rest: string)
    requires '\n' !in line
    ensures '\n' in line + "\n" + rest && LineFeed(line + "\n" + rest) == |line|
  {
    var text := line + "\n" + rest;
    assert text[|line|] == '\n';
    assert forall k :: 0 <= k < |line| ==> text[k] == line[k] && line[k] in line;
    var i := LineFeed(text);
    assert forall k :: 0 <= k < i ==> text[k] == text[..i][k] && text[..i][k] in text[..i];
  }

  function WithoutLastEmpty(lines: seq<string>): seq<string> {
    if lines != [] && lines[|lines| - 1] == "" then lines[..|lines| - 1] else lines
  }

  lemma LinesOfLine(line: string, rest: string)
    requires '\n' !in line
    ensures Lines(line + "\n" + rest) == [WithoutReturn(line)] + Lines(rest)
    ensures Lines(line) == if line == "" then [] else [WithoutReturn(line)]
  {
    hide WithoutReturn;
    LineFeedAt(line, rest);
    var text := line + "\n" + rest;
    assert text[..|line|] == line && text[|line| + 1..] == rest;
  }

  lemma LastOfRest(lines: seq<string>)
    requires |lines| > 1
    ensures WithoutLastEmpty(lines) == [lines[0]] + WithoutLastEmpty(lines[1..])
  {
  }

  /** Splitting what was joined gives back the lines, except for an empty one at the end. */
  lemma {:induction false} LinesOfJoin(lines: seq<string>)
    requires AreLines(lines) && forall i :: 0 <= i < |lines| ==> WithoutReturn(lines[i]) == lines[i]
    ensures Lines(Join(lines)) == WithoutLastEmpty(lines)
    decreases |lines|
  {
    hide WithoutReturn, WithoutLastEmpty, Lines;
    if |lines| > 1 {
      LinesOfLine(lines[0], Join(lines[1..]));
      LinesOfJoin(lines[1..]);
      LastOfRest(lines);
    } else {
      JoinedFew(lines);
    }
  }

  lemma JoinedFew(lines: seq<string>)
    requires |lines| <= 1 && AreLines(lines) && forall i :: 0 <= i < |lines| ==> WithoutReturn(lines[i]) == lines[i]
    ensures Lines(Join(lines)) == WithoutLastEmpty(lines)
  {
    if |lines| == 1 {
      LinesOfLine(lines[0], "");
      assert lines == [lines[0]];
    }
  }

  // ---------------------------------------------------------------- recognising lines

  datatype Marker = BulletMark | OrderedMark | TodoMark(done: bool)

  function KindOf(m: Marker): ListKind {
    match m
    case BulletMark => Bullet
    case OrderedMark => Ordered
    case TodoMark(_) => TodoKind
  }

  datatype Marked = Marked(marker: Marker, rest: string)

  function LeadingDigits(s: string): (n: nat)
    ensures n <= |s|
  {
    if s != "" && '0' <= s[0] <= '9' then 1 + LeadingDigits(s[1..]) else 0
  }

  function StripOrderedListPrefix(s: string): Option<string> {
    var n := LeadingDigits(s);
    if 0 < n < |s| && s[n] == '.' then Some(TrimStart(s[n + 1..])) else None
  }

  function DetectListMarker(s: string): Option<Marked> {
    if "- [x] " <= s then Some(Marked(TodoMark(true), s[6..]))
    else if "- [ ] " <= s then Some(Marked(TodoMark(false), s[6..]))
    else if "- " <= s || "* " <= s then Some(Marked(BulletMark, s[2..]))
    else match StripOrderedListPrefix(s)
      case Some(rest) => Some(Marked(OrderedMark, rest))
      case None => None
  }

  lemma {:induction false} LeadingDigitsOfPrefix(p: string, s: string)
    requires p <= s
    ensures LeadingDigits(p) < |p| ==> LeadingDigits(s) == LeadingDigits(p)
  {
    if p != "" && '0' <= p[0] <= '9' {
      LeadingDigitsOfPrefix(p[1..], s[1..]);
    }
  }

  /** What is recognised as a list item stays one when more is appended. */
  lemma MarkerOfPrefix(p: string, s: string)
    requires p <= s && DetectListMarker(p).Some?
    ensures DetectListMarker(s).Some?
  {
    LeadingDigitsOfPrefix(p, s);
  }

  /** The number of hashes in front of a heading, zero when it is none. */
  function HeadingLevel(s: string): (level: nat)
    ensures level <= 6
  {
    if "###### " <= s then 6
    else if "##### " <= s then 5
    else if "#### " <= s then 4
    else if "### " <= s then 3
    else if "## " <= s then 2
    else if "# " <= s then 1
    else 0
  }

  /** The inline markup of a text, kept as the text it is read from. */
  function InlineElements(text: string): seq<Inline> {
    [Inline(text)]
  }

  function ParseHeading(s: string): (node: Option<MdNode>)
    ensures node.Some? ==> node.value.Heading? && 1 <= node.value.level <= 6
  {
    var level := HeadingLevel(s);
    if level == 0 then None else Some(Heading(level, InlineElements(s[level + 1..])))
  }

  predicate IsRule(s: string) {
    s == "---" || s == "***" || s == "___"
  }

  function CountIndent(line: string): (n: nat)
    ensures n <= |line|
  {
    if line != "" && line[0] == ' ' then 1 + CountIndent(line[1..]) else 0
  }

  predicate IsFence(line: string) {
    "```" <= Trim(line)
  }

  function SplitBars(s: string): (cells: seq<string>)
    ensures cells != []
  {
    if s == "" then [""]
    else
      var rest := SplitBars(s[1..]);
      if s[0] == '|' then [""] + rest else [[s[0]] + rest[0]] + rest[1..]
  }

  predicate IsSeparatorCell(cell: string) {
    var c := Trim(cell);
    c != "" && c[0] == '-' && c[|c| - 1] == '-' && forall i :: 0 <= i < |c| ==> c[i] in "-: "
  }

  /** A lone bar both starts and ends with a bar: taking the text between them fails. */
  predicate IsLoneBar(line: string) {
    Trim(line) == "|"
  }

  predicate IsTableSeparatorLine(line: string)
    requires !IsLoneBar(line)
  {
    var trimmed := Trim(line);
    trimmed != "" && trimmed[0] == '|' && trimmed[|trimmed| - 1] == '|'
    && (var inner := Trim(trimmed[1..|trimmed| - 1]);
        inner != "" && forall cell :: cell in SplitBars(inner) ==> IsSeparatorCell(cell))
  }

  function TrimAll(cells: seq<string>): (r: seq<string>)
    ensures |r| == |cells|
  {
    seq(|cells|, i requires 0 <= i < |cells| => Trim(cells[i]))
  }

  function ParseTableRow(line: string): (cells: seq<string>)
    requires !IsLoneBar(line)
    ensures cells != []
  {
    var trimmed := Trim(line);
    var starts, ends := "|" <= trimmed, trimmed != "" && trimmed[|trimmed| - 1] == '|';
    var inner := if starts && ends then trimmed[1..|trimmed| - 1]
                 else if starts then trimmed[1..]
                 else if ends then trimmed[..|trimmed| - 1]
                 else trimmed;
    TrimAll(SplitBars(inner))
  }

  /** Whether looking for a table below the line at `pos` runs into a lone bar. */
  predicate TableCheckFails(lines: seq<string>, pos: nat)
    requires pos < |lines|
  {
    '|' in Trim(lines[pos]) && pos + 1 < |lines| && IsLoneBar(lines[pos + 1])
  }

  predicate IsTableStartAt(lines: seq<string>, pos: nat)
    requires pos < |lines| && !TableCheckFails(lines, pos)
  {
    '|' in Trim(lines[pos]) && pos + 1 < |lines| && IsTableSeparatorLine(lines[pos + 1])
  }

  predicate IsTableLine(line: string) {
    !IsBlank(line) && '|' in Trim(line)
  }

  predicate StartsBlock(trimmed: string) {
    || "```" <= trimmed || ParseHeading(trimmed).Some? || ">" <= trimmed || DetectListMarker(trimmed).Some? || IsRule(trimmed)
  }

  /** What ends a paragraph inside an item; a rule does not. */
  predicate StartsNestedBlock(line: string) {
    var start := TrimStart(line);
    DetectListMarker(start).Some? || ">" <= start || "```" <= start || ParseHeading(Trim(line)).Some?
  }

  // ---------------------------------------------------------------- what lines say

  function CodeLine(line: string, baseIndent: nat): string {
    if |line| > baseIndent && CountIndent(line) >= baseIndent then line[baseIndent..] else TrimStart(line)
  }

  /** The lines of a code block; empty lines at its start leave no trace. */
  function CodeText(lines: seq<string>, baseIndent: nat): string {
    if lines == [] then ""
    else
      var before := CodeText(lines[..|lines| - 1], baseIndent);
      before + (if before != "" then "\n" else "") + CodeLine(lines[|lines| - 1], baseIndent)
  }

  function CodeLanguage(line: string): Option<string> {
    var first := Trim(line);
    if "```" <= first && Trim(first[3..]) != "" then Some(Trim(first[3..])) else None
  }

  lemma NoCode(baseIndent: nat)
    ensures CodeText([], baseIndent) == ""
  {
  }

  lemma OneMoreCodeLine(lines: seq<string>, start: nat, pos: nat, baseIndent: nat)
    requires start <= pos < |lines|
    ensures var before := CodeText(lines[start..pos], baseIndent);
            CodeText(lines[start..pos + 1], baseIndent) ==
            before + (if before != "" then "\n" else "") + CodeLine(lines[pos], baseIndent)
  {
    hide CodeLine;
    assert lines[start..pos + 1][..pos - start] == lines[start..pos];
  }

  /** The rows of the table lines that are not separators. */
  function TableRows(lines: seq<string>): seq<seq<string>> {
    if lines == [] then []
    else
      var last := lines[|lines| - 1];
      TableRows(lines[..|lines| - 1]) + if IsLoneBar(last) || IsTableSeparatorLine(last) then [] else [ParseTableRow(last)]
  }

  lemma OneMoreTableLine(lines: seq<string>, start: nat, pos: nat)
    requires start <= pos < |lines| && !IsLoneBar(lines[pos])
    ensures TableRows(lines[start..pos + 1]) ==
            TableRows(lines[start..pos]) + if IsTableSeparatorLine(lines[pos]) then [] else [ParseTableRow(lines[pos])]
  {
    hide Trim, IsTableSeparatorLine, ParseTableRow;
    assert lines[start..pos + 1][..pos - start] == lines[start..pos];
  }

  lemma NoRows()
    ensures TableRows([]) == []
  {
  }

  function ParagraphText(lines: seq<string>): string {
    if lines == [] then ""
    else if |lines| == 1 then Trim(lines[0])
    else ParagraphText(lines[..|lines| - 1]) + " " + Trim(lines[|lines| - 1])
  }

  lemma OneParagraphLine(line: string)
    ensures ParagraphText([line]) == Trim(line)
  {
  }

  lemma OneMoreParagraphLine(lines: seq<string>, start: nat, pos: nat)
    requires start < pos < |lines|
    ensures ParagraphText(lines[start..pos + 1]) == ParagraphText(lines[start..pos]) + " " + Trim(lines[pos])
  {
    hide Trim;
    assert lines[start..pos + 1][..pos - start] == lines[start..pos];
  }

  // ---------------------------------------------------------------- nodes

  /** Lists have items, each of the list's kind; only to-do items are ticked or not; headings have one of six levels. */
  ghost predicate IsWellFormed(node: MdNode) {
    match node
    case Heading(level, _) => 1 <= level <= 6
    case BulletList(items) => items != [] && forall i :: 0 <= i < |items| ==> IsWellFormedItem(items[i], Bullet)
    case OrderedList(items) => items != [] && forall i :: 0 <= i < |items| ==> IsWellFormedItem(items[i], Ordered)
    case TodoList(items) => items != [] && forall i :: 0 <= i < |items| ==> IsWellFormedItem(items[i], TodoKind)
    case BlockQuote(children) => forall i :: 0 <= i < |children| ==> IsWellFormed(children[i])
    case _ => true
  }

  ghost predicate IsWellFormedItem(item: ListItem, kind: ListKind) {
    (item.done.Some? <==> kind == TodoKind) && forall i :: 0 <= i < |item.children| ==> IsWellFormed(item.children[i])
  }

  ghost predicate AllWellFormed(nodes: seq<MdNode>) {
    forall i {:trigger nodes[i]} :: 0 <= i < |nodes| ==> IsWellFormed(nodes[i])
  }

  ghost predicate AllItemsWellFormed(items: seq<ListItem>, kind: ListKind) {
    forall i {:trigger items[i]} :: 0 <= i < |items| ==> IsWellFormedItem(items[i], kind)
  }

  function ListKindOf(node: MdNode): Option<ListKind> {
    match node
    case BulletList(_) => Some(Bullet)
    case OrderedList(_) => Some(Ordered)
    case TodoList(_) => Some(TodoKind)
    case _ => None
  }

  function NewItem(m: Marked): (item: ListItem)
    ensures IsWellFormedItem(item, KindOf(m.marker))
  {
    ListItem(InlineElements(m.rest), [], match m.marker case TodoMark(done) => Some(done) case _ => None)
  }

  function ListNode(kind: ListKind, items: seq<ListItem>): (node: MdNode)
    requires items != [] && AllItemsWellFormed(items, kind)
    ensures IsWellFormed(node) && ListKindOf(node) == Some(kind) && node.items == items
  {
    match kind
    case Bullet => BulletList(items)
    case Ordered => OrderedList(items)
    case TodoKind => TodoList(items)
  }

  /** What is nested below a list belongs to its last item. */
  function WithNested(items: seq<ListItem>, nested: seq<MdNode>, ghost kind: ListKind): (r: seq<ListItem>)
    requires items != [] && AllItemsWellFormed(items, kind) && AllWellFormed(nested)
    ensures r != [] && AllItemsWellFormed(r, kind) && |r| == |items|
    ensures r == items[|items| - 1 := items[|items| - 1].(children := items[|items| - 1].children + nested)]
  {
    var last := items[|items| - 1];
    assert IsWellFormedItem(last, kind);
    items[|items| - 1 := last.(children := last.children + nested)]
  }

  // ---------------------------------------------------------------- quotes

  /** What a quoted line says. */
  function Quoted(trimmed: string): (content: string)
    requires trimmed != "" && trimmed[0] == '>'
    ensures |content| < |trimmed|
  {
    if trimmed == ">" then "" else if "> " <= trimmed then trimmed[2..] else trimmed[1..]
  }

  predicate IsQuoteLine(line: string) {
    !IsBlank(line) && Trim(line)[0] == '>'
  }

  /** What a line inside a quote says; blank lines say nothing. */
  function QuotedLine(line: string): (content: string)
    requires IsBlank(line) || IsQuoteLine(line)
    ensures |content| <= |line| && (IsQuoteLine(line) ==> |content| < |line|)
  {
    if IsBlank(line) then "" else Quoted(Trim(line))
  }

  /** What a quoted line says is a line, too. */
  ghost predicate SaysInQuote(content: string, line: string) {
    && (IsBlank(line) || IsQuoteLine(line))
    && content == QuotedLine(line) && '\n' !in content && WithoutReturn(content) == content
  }

  /** The lines of a quote are what the quoted lines say, or empty for blank ones. */
  ghost predicate AreQuoted(inner: seq<string>, lines: seq<string>, start: nat) {
    && start + |inner| <= |lines|
    && forall k {:trigger inner[k]} :: 0 <= k < |inner| ==> SaysInQuote(inner[k], lines[start + k])
  }

  /** A quote goes on with a quote line, also behind blank ones. */
  ghost predicate QuoteGoesOn(lines: seq<string>, pos: nat)
    decreases |lines| - pos
  {
    pos < |lines| && (IsQuoteLine(lines[pos]) || (IsBlank(lines[pos]) && QuoteGoesOn(lines, pos + 1)))
  }

  lemma {:induction false} BlanksBeforeQuote(lines: seq<string>, pos: nat, j: nat)
    requires pos <= j <= |lines| && (forall i :: pos <= i < j ==> IsBlank(lines[i]))
    requires j < |lines| ==> !IsBlank(lines[j])
    ensures QuoteGoesOn(lines, pos) <==> j < |lines| && IsQuoteLine(lines[j])
    decreases j - pos
  {
    if pos < j {
      BlanksBeforeQuote(lines, pos + 1, j);
    }
  }

  lemma NoQuoteHere(lines: seq<string>, pos: nat)
    requires pos < |lines| && !IsBlank(lines[pos]) && !IsQuoteLine(lines[pos])
    ensures !QuoteGoesOn(lines, pos)
  {
  }

  lemma QuoteBehind(lines: seq<string>, pos: nat)
    requires QuoteGoesOn(lines, pos) && pos < |lines| && !IsQuoteLine(lines[pos])
    ensures QuoteGoesOn(lines, pos + 1)
  {
  }

  lemma NoQuoteAtEnd(lines: seq<string>, pos: nat)
    ensures pos >= |lines| ==> !QuoteGoesOn(lines, pos)
  {
  }

  lemma NothingQuoted(lines: seq<string>, start: nat)
    requires start <= |lines|
    ensures AreQuoted([], lines, start)
  {
  }

  lemma {:induction false} TrimmedIsLine(s: string)
    requires '\n' !in s
    ensures '\n' !in TrimStart(s)
  {
    if s != "" && IsWhitespace(s[0]) {
      assert forall c :: c in s[1..] ==> c in s;
      TrimmedIsLine(s[1..]);
    }
  }

  lemma QuotedIsLine(line: string)
    requires '\n' !in line && (IsBlank(line) || IsQuoteLine(line))
    ensures SaysInQuote(QuotedLine(line), line)
  {
    if !IsBlank(line) {
      var trimmed := Trim(line);
      TrimmedIsLine(line);
      assert forall c :: c in trimmed ==> c in TrimStart(line);
      var content := Quoted(trimmed);
      assert forall c :: c in content ==> c in trimmed;
      assert content != "" ==> content[|content| - 1] == trimmed[|trimmed| - 1];
    }
  }

  lemma OneMoreQuoted(inner: seq<string>, lines: seq<string>, start: nat, pos: nat)
    requires AreLines(lines) && start <= pos < |lines| && |inner| == pos - start && AreQuoted(inner, lines, start)
    requires IsBlank(lines[pos]) || IsQuoteLine(lines[pos])
    ensures AreQuoted(inner + [QuotedLine(lines[pos])], lines, start)
  {
    hide IsBlank, IsQuoteLine, SaysInQuote;
    QuotedIsLine(lines[pos]);
  }

  lemma QuoteIsShorter(inner: seq<string>, lines: seq<string>, start: nat, pos: nat)
    requires start <= pos < |lines| && |inner| == pos - start
    requires IsBlank(lines[pos]) || IsQuoteLine(lines[pos])
    requires if pos > start then TextSize(inner) < TextSize(lines[start..pos]) else IsQuoteLine(lines[pos])
    ensures TextSize(inner + [QuotedLine(lines[pos])]) < TextSize(lines[start..pos + 1])
  {
    hide IsBlank, IsQuoteLine, Trim, TextSize;
    var line, content := lines[pos], QuotedLine(lines[pos]);
    var before := lines[start..pos];
    assert lines[start..pos + 1] == before + [line];
    OneLineMore(inner, content);
    OneLineMore(before, line);
    assert |content| <= |line|;
    if pos == start {
      assert |content| < |line| && inner == before;
    }
  }

  lemma OneLineMore(lines: seq<string>, line: string)
    ensures TextSize(lines + [line]) == TextSize(lines) + |line| + 1
  {
    TextSizeAppend(lines, [line]);
    assert [line][1..] == [];
  }

  lemma PartOfText(lines: seq<string>, start: nat, pos: nat)
    requires start <= pos <= |lines|
    ensures TextSize(lines[start..pos]) <= TextSize(lines)
  {
    hide TextSize;
    assert lines == lines[..start] + (lines[start..pos] + lines[pos..]);
    TextSizeAppend(lines[..start], lines[start..pos] + lines[pos..]);
    TextSizeAppend(lines[start..pos], lines[pos..]);
  }

  lemma QuotedText(inner: seq<string>, lines: seq<string>, start: nat)
    requires AreQuoted(inner, lines, start)
    ensures Lines(Join(inner)) == WithoutLastEmpty(inner)
  {
    hide IsBlank, IsQuoteLine;
    forall k | 0 <= k < |inner|
      ensures '\n' !in inner[k] && WithoutReturn(inner[k]) == inner[k]
    {
      assert SaysInQuote(inner[k], lines[start + k]);
    }
    LinesOfJoin(inner);
  }
}
