/** What the functions that recognise and read lines come to, told by putting the pieces together again. */
module MarkdownLaws {
  import opened Collections
  import opened BlockTrees
  import opened MarkdownBlocks
  import opened MarkdownLines
  import opened MarkdownGrammar

  // ---------------------------------------------------------------- trimming

  ghost predicate AllWhitespace(s: string) {
    forall i :: 0 <= i < |s| ==> IsWhitespace(s[i])
  }

  lemma {:induction false} StartTrimmed(s: string) returns (lead: string)
    ensures s == lead + TrimStart(s) && AllWhitespace(lead)
  {
    lead := "";
    if s != "" && IsWhitespace(s[0]) {
      var rest := StartTrimmed(s[1..]);
      lead := [s[0]] + rest;
      assert s == [s[0]] + s[1..];
    }
  }

  lemma {:induction false} EndTrimmed(s: string) returns (trail: string)
    ensures s == TrimEnd(s) + trail && AllWhitespace(trail)
  {
    trail := "";
    if s != "" && IsWhitespace(s[|s| - 1]) {
      var rest := EndTrimmed(s[..|s| - 1]);
      trail := rest + [s[|s| - 1]];
      assert s == s[..|s| - 1] + [s[|s| - 1]];
    }
  }

  /** Trimming takes whitespace away from both ends, and all of it. */
  lemma Trimmed(s: string) returns (lead: string, trail: string)
    ensures s == lead + Trim(s) + trail && AllWhitespace(lead) && AllWhitespace(trail)
    ensures Trim(s) != "" ==> !IsWhitespace(Trim(s)[0]) && !IsWhitespace(Trim(s)[|Trim(s)| - 1])
  {
    lead := StartTrimmed(s);
    trail := EndTrimmed(TrimStart(s));
    TrimKeepsFirst(TrimStart(s));
    assert s == lead + (Trim(s) + trail);
  }

  lemma {:induction false} TrimmedAway(s: string)
    ensures AllWhitespace(s) ==> TrimStart(s) == ""
    decreases |s|
  {
    if s != "" {
      TrimmedAway(s[1..]);
    }
  }

  lemma BlankSpells(line: string)
    ensures IsBlank(line) <==> AllWhitespace(line)
  {
    var lead, trail := Trimmed(line);
    TrimmedAway(line);
  }

  /** Only what starts without whitespace is left of a string behind whitespace. */
  lemma {:induction false} TrimStartOf(gap: string, rest: string)
    requires AllWhitespace(gap) && (rest != "" ==> !IsWhitespace(rest[0]))
    ensures TrimStart(gap + rest) == rest
    decreases |gap|
  {
    if gap == "" {
      assert gap + rest == rest;
    } else {
      assert (gap + rest)[1..] == gap[1..] + rest;
      TrimStartOf(gap[1..], rest);
    }
  }

  // ---------------------------------------------------------------- joining

  function JoinWith(parts: seq<string>, sep: string): string {
    if parts == [] then "" else if |parts| == 1 then parts[0] else parts[0] + sep + JoinWith(parts[1..], sep)
  }

  lemma JoinFirst(c: char, parts: seq<string>, sep: string)
    requires parts != []
    ensures JoinWith([[c] + parts[0]] + parts[1..], sep) == [c] + JoinWith(parts, sep)
  {
    var more := [[c] + parts[0]] + parts[1..];
    assert more[1..] == parts[1..];
    if |parts| > 1 {
      assert [c] + parts[0] + sep + JoinWith(parts[1..], sep) == [c] + (parts[0] + sep + JoinWith(parts[1..], sep));
    }
  }

  lemma {:induction false} JoinLast(parts: seq<string>, last: string, sep: string)
    requires parts != []
    ensures JoinWith(parts + [last], sep) == JoinWith(parts, sep) + sep + last
  {
    if |parts| == 1 {
      assert (parts + [last])[1..] == [last];
    } else {
      JoinLast(parts[1..], last, sep);
      assert (parts + [last])[1..] == parts[1..] + [last];
      assert parts[0] + sep + (JoinWith(parts[1..], sep) + sep + last) == parts[0] + sep + JoinWith(parts[1..], sep) + sep + last;
    }
  }

  /** The cells are what stands between the bars. */
  lemma {:induction false} CellsJoin(s: string)
    ensures JoinWith(SplitBars(s), "|") == s && forall cell :: cell in SplitBars(s) ==> '|' !in cell
  {
    if s != "" {
      var rest := SplitBars(s[1..]);
      CellsJoin(s[1..]);
      assert s == [s[0]] + s[1..];
      if s[0] == '|' {
        assert ([""] + rest)[1..] == rest;
        assert "" + "|" + s[1..] == s;
      } else {
        JoinFirst(s[0], rest, "|");
        forall cell | cell in SplitBars(s)
          ensures '|' !in cell
        {
          assert rest[0] in rest && forall c :: c in rest[1..] ==> c in rest;
        }
      }
    }
  }

  /** The line without the bars at its ends, split at the others and trimmed, is the row. */
  lemma RowSpells(line: string) returns (front: string, inner: string, back: string, cells: seq<string>)
    requires !IsLoneBar(line)
    ensures Trim(line) == front + inner + back && (front == "" || front == "|") && (back == "" || back == "|")
    ensures front == "" ==> !("|" <= Trim(line))
    ensures back == "" ==> Trim(line) == "" || Trim(line)[|Trim(line)| - 1] != '|'
    ensures JoinWith(cells, "|") == inner && forall cell :: cell in cells ==> '|' !in cell
    ensures |ParseTableRow(line)| == |cells| && forall i :: 0 <= i < |cells| ==> ParseTableRow(line)[i] == Trim(cells[i])
  {
    hide Trim, SplitBars;
    front, inner, back := BarsAround(Trim(line));
    cells := SplitBars(inner);
    CellsJoin(inner);
  }

  /** The bars at the ends of a string, at most one at each, and what is between them. */
  lemma BarsAround(t: string) returns (front: string, inner: string, back: string)
    requires t != "|"
    ensures t == front + inner + back
    ensures front == if "|" <= t then "|" else ""
    ensures back == if t != "" && t[|t| - 1] == '|' then "|" else ""
    ensures inner == if front != "" && back != "" then t[1..|t| - 1] else if front != "" then t[1..]
                     else if back != "" then t[..|t| - 1] else t
  {
    var i := if "|" <= t then 1 else 0;
    var j := if t != "" && t[|t| - 1] == '|' then |t| - 1 else |t|;
    front, inner, back := t[..i], t[i..j], t[j..];
    CutTwice(t, i, j);
  }

  lemma CutTwice(t: string, i: nat, j: nat)
    requires i <= j <= |t|
    ensures t == t[..i] + t[i..j] + t[j..]
  {
    assert t[..j] == t[..i] + t[i..j];
  }

  /** A separator line: cells of dashes, colons and blanks between bars, each with a dash at its start and end. */
  ghost predicate Separates(line: string, inner: string) {
    Trim(line) == "|" + inner + "|" && !IsBlank(inner) && forall cell :: cell in SplitBars(Trim(inner)) ==> IsDashes(Trim(cell))
  }

  ghost predicate IsDashes(cell: string) {
    && cell != "" && cell[0] == '-' && cell[|cell| - 1] == '-'
    && forall i :: 0 <= i < |cell| ==> cell[i] == '-' || cell[i] == ':' || cell[i] == ' '
  }

  lemma DashesSpell(cell: string)
    ensures IsSeparatorCell(cell) <==> IsDashes(Trim(cell))
  {
    hide Trim;
    var c := Trim(cell);
    assert forall i :: 0 <= i < |c| ==> (c[i] in "-: " <==> c[i] == '-' || c[i] == ':' || c[i] == ' ');
  }

  lemma SeparatorSpells(line: string)
    requires !IsLoneBar(line)
    ensures IsTableSeparatorLine(line) <==> exists inner :: Separates(line, inner)
  {
    hide Trim, SplitBars, IsSeparatorCell, IsDashes;
    var t := Trim(line);
    forall cell
      ensures IsSeparatorCell(cell) <==> IsDashes(Trim(cell))
    {
      DashesSpell(cell);
    }
    forall inner | t == "|" + inner + "|"
      ensures t[1..|t| - 1] == inner
    {
    }
    if |t| > 1 && t[0] == '|' && t[|t| - 1] == '|' {
      assert t == "|" + t[1..|t| - 1] + "|";
      assert IsTableSeparatorLine(line) ==> Separates(line, t[1..|t| - 1]);
    }
  }

  /** The lines that are rows, and the rows they say. */
  ghost predicate IsRow(line: string) {
    !IsLoneBar(line) && !IsTableSeparatorLine(line)
  }

  ghost predicate AreRows(rows: seq<seq<string>>, lines: seq<string>, picks: seq<nat>) {
    && |picks| == |rows|
    && (forall k :: 0 <= k < |picks| ==> picks[k] < |lines| && IsRow(lines[picks[k]]) && rows[k] == ParseTableRow(lines[picks[k]]))
    && (forall j, k :: 0 <= j < k < |picks| ==> picks[j] < picks[k])
    && forall i: nat :: i < |lines| && IsRow(lines[i]) ==> i in picks
  }

  /** One row for each line that is no separator, in order. */
  lemma {:induction false} RowsSpell(lines: seq<string>) returns (picks: seq<nat>)
    ensures AreRows(TableRows(lines), lines, picks)
    decreases |lines|
  {
    hide IsLoneBar, IsTableSeparatorLine, ParseTableRow, AreRows;
    if lines == [] {
      picks := [];
      NoRowsHere();
    } else {
      var n := |lines| - 1;
      picks := RowsSpell(lines[..n]);
      RowsGoOn(TableRows(lines[..n]), lines, picks);
      if IsRow(lines[n]) {
        picks := picks + [n];
      } else {
        assert TableRows(lines) == TableRows(lines[..n]);
      }
    }
  }

  lemma NoRowsHere()
    ensures AreRows([], [], [])
  {
  }

  lemma RowsGoOn(rows: seq<seq<string>>, lines: seq<string>, picks: seq<nat>)
    requires lines != [] && AreRows(rows, lines[..|lines| - 1], picks)
    ensures IsRow(lines[|lines| - 1]) ==> AreRows(rows + [ParseTableRow(lines[|lines| - 1])], lines, picks + [|lines| - 1])
    ensures !IsRow(lines[|lines| - 1]) ==> AreRows(rows, lines, picks)
  {
    hide IsLoneBar, IsTableSeparatorLine, ParseTableRow;
    var n := |lines| - 1;
    assert forall i :: 0 <= i < n ==> lines[i] == lines[..n][i];
    assert forall i :: i in picks ==> i in picks + [n];
    assert n in picks + [n];
  }

  /** Nothing is left to trim at the end of the rest of a trimmed string. */
  lemma RestOfTrimmed(t: string, k: nat)
    requires k <= |t| && (t != "" ==> !IsWhitespace(t[|t| - 1]))
    ensures Trim(t[k..]) == TrimStart(t[k..])
  {
    var rest := t[k..];
    var lead := StartTrimmed(rest);
    assert TrimStart(rest) != "" ==> TrimStart(rest)[|TrimStart(rest)| - 1] == rest[|rest| - 1] == t[|t| - 1];
  }

  ghost predicate NamesLanguage(first: string, gap: string, lang: string) {
    lang != "" && !IsWhitespace(lang[0]) && AllWhitespace(gap) && first == "```" + gap + lang
  }

  /** The language of a code block is what stands behind the fence. */
  lemma LanguageSpells(line: string, lang: string)
    requires IsFence(line)
    ensures CodeLanguage(line) == Some(lang) <==> exists gap :: NamesLanguage(Trim(line), gap, lang)
  {
    hide Trim, TrimStart, IsWhitespace, NamesLanguage;
    var first := Trim(line);
    TrimmedEnd(line);
    RestOfTrimmed(first, 3);
    FirstGap(first);
    forall gap | NamesLanguage(first, gap, lang)
      ensures TrimStart(first[3..]) == lang && lang != ""
    {
      GapIsTrimmed(first, gap, lang);
    }
  }

  lemma FirstGap(first: string)
    requires "```" <= first
    ensures TrimStart(first[3..]) != "" ==> exists gap :: NamesLanguage(first, gap, TrimStart(first[3..]))
  {
    hide TrimStart, IsWhitespace;
    var rest := TrimStart(first[3..]);
    var gap := StartTrimmed(first[3..]);
    PrefixSpells(first, "```", first[3..]);
    assert "```" + (gap + rest) == "```" + gap + rest;
    assert rest != "" ==> NamesLanguage(first, gap, rest);
  }

  lemma GapIsTrimmed(first: string, gap: string, lang: string)
    requires NamesLanguage(first, gap, lang)
    ensures |first| > 3 && TrimStart(first[3..]) == lang && lang != ""
  {
    hide TrimStart, IsWhitespace;
    assert first[3..] == gap + lang;
    TrimStartOf(gap, lang);
  }

  lemma TrimmedEnd(line: string)
    ensures Trim(line) != "" ==> !IsWhitespace(Trim(line)[|Trim(line)| - 1])
  {
  }

  // ---------------------------------------------------------------- markers and headings

  ghost predicate AllDigits(s: string) {
    forall i :: 0 <= i < |s| ==> '0' <= s[i] <= '9'
  }

  ghost predicate IsNumbered(s: string, digits: string, gap: string, rest: string) {
    && digits != "" && AllDigits(digits) && AllWhitespace(gap) && (rest != "" ==> !IsWhitespace(rest[0]))
    && s == digits + "." + gap + rest
  }

  /** What a line with a list marker looks like. */
  ghost predicate Marks(s: string, m: Marker, rest: string) {
    match m
    case TodoMark(done) => s == (if done then "- [x] " else "- [ ] ") + rest
    case BulletMark => (s == "- " + rest || s == "* " + rest) && !("- [x] " <= s) && !("- [ ] " <= s)
    case OrderedMark => exists digits, gap :: IsNumbered(s, digits, gap, rest)
  }

  lemma {:induction false} DigitsInFront(digits: string, rest: string)
    requires AllDigits(digits) && (rest != "" ==> !('0' <= rest[0] <= '9'))
    ensures LeadingDigits(digits + rest) == |digits|
    decreases |digits|
  {
    if digits == "" {
      assert digits + rest == rest;
    } else {
      assert (digits + rest)[1..] == digits[1..] + rest;
      DigitsInFront(digits[1..], rest);
    }
  }

  lemma {:induction false} LeadingAreDigits(s: string)
    ensures AllDigits(s[..LeadingDigits(s)])
  {
    if s != "" && '0' <= s[0] <= '9' {
      LeadingAreDigits(s[1..]);
      assert s[..LeadingDigits(s)] == [s[0]] + s[1..][..LeadingDigits(s[1..])];
    }
  }

  lemma NumberInFront(s: string, rest: string) returns (digits: string, gap: string)
    requires StripOrderedListPrefix(s) == Some(rest)
    ensures IsNumbered(s, digits, gap, rest)
  {
    hide LeadingDigits, TrimStart, IsWhitespace;
    var n := LeadingDigits(s);
    LeadingAreDigits(s);
    digits := s[..n];
    gap := StartTrimmed(s[n + 1..]);
    assert s == digits + ("." + s[n + 1..]);
    assert digits + ("." + (gap + rest)) == digits + "." + gap + rest;
  }

  lemma NumberIsStripped(s: string, digits: string, gap: string, rest: string)
    requires IsNumbered(s, digits, gap, rest)
    ensures StripOrderedListPrefix(s) == Some(rest)
  {
    hide LeadingDigits, TrimStart, IsWhitespace;
    var behind := "." + gap + rest;
    assert s == digits + behind;
    DigitsInFront(digits, behind);
    TrimStartOf(gap, rest);
    assert s[|digits| + 1..] == gap + rest;
  }

  lemma NumberSpells(s: string, rest: string)
    ensures StripOrderedListPrefix(s) == Some(rest) <==> exists digits, gap :: IsNumbered(s, digits, gap, rest)
  {
    hide StripOrderedListPrefix, IsNumbered;
    if StripOrderedListPrefix(s) == Some(rest) {
      var digits, gap := NumberInFront(s, rest);
    }
    forall digits, gap | IsNumbered(s, digits, gap, rest)
      ensures StripOrderedListPrefix(s) == Some(rest)
    {
      NumberIsStripped(s, digits, gap, rest);
    }
  }

  lemma TodoSpells(s: string, done: bool, rest: string)
    ensures DetectListMarker(s) == Some(Marked(TodoMark(done), rest)) <==> Marks(s, TodoMark(done), rest)
  {
    hide StripOrderedListPrefix;
    PrefixSpells(s, if done then "- [x] " else "- [ ] ", rest);
    assert !("- [x] " <= s && "- [ ] " <= s) by {
      assert "- [x] "[3] == 'x' && "- [ ] "[3] == ' ';
    }
  }

  lemma BulletSpells(s: string, rest: string)
    ensures DetectListMarker(s) == Some(Marked(BulletMark, rest)) <==> Marks(s, BulletMark, rest)
  {
    hide StripOrderedListPrefix;
    PrefixSpells(s, "- ", rest);
    PrefixSpells(s, "* ", rest);
    assert !("- " <= s && "* " <= s) by {
      assert "- "[0] == '-' && "* "[0] == '*';
    }
    assert "- [x] " <= s || "- [ ] " <= s ==> !("* " <= s) by {
      assert "- [x] "[0] == '-' && "- [ ] "[0] == '-' && "* "[0] == '*';
    }
  }

  lemma OrderedSpells(s: string, rest: string)
    ensures DetectListMarker(s) == Some(Marked(OrderedMark, rest)) <==> Marks(s, OrderedMark, rest)
  {
    hide StripOrderedListPrefix;
    NumberSpells(s, rest);
    forall digits, gap | IsNumbered(s, digits, gap, rest)
      ensures '0' <= s[0] <= '9'
    {
      assert s[0] == digits[0];
    }
    assert "- [x] "[0] == '-' && "- [ ] "[0] == '-' && "- "[0] == '-' && "* "[0] == '*';
  }

  /** A marker and the rest behind it are recognised exactly where they spell the line. */
  lemma MarkerSpells(s: string, m: Marker, rest: string)
    ensures DetectListMarker(s) == Some(Marked(m, rest)) <==> Marks(s, m, rest)
  {
    hide DetectListMarker, Marks;
    match m
    case TodoMark(done) => TodoSpells(s, done, rest);
    case BulletMark => BulletSpells(s, rest);
    case OrderedMark => OrderedSpells(s, rest);
  }

  lemma PrefixSpells(s: string, prefix: string, rest: string)
    ensures s == prefix + rest <==> prefix <= s && s[|prefix|..] == rest
  {
    if prefix <= s {
      assert s == prefix + s[|prefix|..];
    }
  }

  function Hashes(n: nat): string {
    if n == 0 then "" else "#" + Hashes(n - 1)
  }

  lemma SixHashes()
    ensures Hashes(1) == "#" && Hashes(2) == "##" && Hashes(3) == "###"
    ensures Hashes(4) == "####" && Hashes(5) == "#####" && Hashes(6) == "######"
  {
    assert Hashes(2) == "#" + Hashes(1) && Hashes(3) == "#" + Hashes(2) && Hashes(4) == "#" + Hashes(3);
    assert Hashes(5) == "#" + Hashes(4) && Hashes(6) == "#" + Hashes(5);
  }

  lemma {:induction false} HashAt(n: nat, k: nat)
    requires k < n
    ensures |Hashes(n)| == n && Hashes(n)[k] == '#'
    decreases n
  {
    if n > 1 {
      HashAt(n - 1, if k > 0 then k - 1 else 0);
    }
  }

  lemma HashesEnd(s: string, n: nat)
    requires Hashes(n) + " " <= s && 1 <= n
    ensures n < |s| && s[n] == ' ' && forall k: nat :: k < n ==> s[k] == '#'
  {
    hide Hashes;
    HashAt(n, 0);
    var front := Hashes(n) + " ";
    assert s[n] == front[n];
    forall k: nat | k < n
      ensures s[k] == '#'
    {
      HashAt(n, k);
      assert s[k] == front[k];
    }
  }

  lemma LevelSpells(s: string, level: nat)
    requires 1 <= level <= 6
    ensures HeadingLevel(s) == level <==> Hashes(level) + " " <= s
  {
    hide Hashes;
    SixHashes();
    forall k: nat | 1 <= k && Hashes(k) + " " <= s && Hashes(level) + " " <= s
      ensures k == level
    {
      HashesEnd(s, k);
      HashesEnd(s, level);
    }
    var n := HeadingLevel(s);
    assert n > 0 ==> Hashes(n) + " " <= s;
    assert Hashes(level) + " " <= s ==> n > 0;
  }

  /** A heading is one to six hashes, a blank and its text. */
  lemma HeadingSpells(s: string, level: nat, text: string)
    requires 1 <= level <= 6
    ensures ParseHeading(s) == Some(Heading(level, InlineElements(text))) <==> s == Hashes(level) + " " + text
  {
    hide Hashes, HeadingLevel;
    LevelSpells(s, level);
    HashAt(level, 0);
    PrefixSpells(s, Hashes(level) + " ", text);
    assert forall t :: InlineElements(t)[0].content == t;
  }

  /** A quote line without its mark and the blank behind it. */
  lemma QuoteSpells(line: string)
    requires IsQuoteLine(line)
    ensures Trim(line) == "> " + QuotedLine(line) || (Trim(line) == ">" + QuotedLine(line) && !("> " <= Trim(line)))
  {
    hide Trim;
    PrefixSpells(Trim(line), "> ", QuotedLine(line));
    PrefixSpells(Trim(line), ">", QuotedLine(line));
  }

  function Spaces(n: nat): string {
    seq(n, _ => ' ')
  }

  lemma {:induction false} IndentReaches(line: string, n: nat)
    ensures Spaces(n) <= line <==> n <= CountIndent(line)
    ensures |Spaces(n)| == n
    decreases n
  {
    if n > 0 {
      assert Spaces(n) == [' '] + Spaces(n - 1);
      if line != "" && line[0] == ' ' {
        IndentReaches(line[1..], n - 1);
        assert line == [' '] + line[1..];
      }
    }
  }

  /** The indent is all the blanks in front. */
  lemma IndentSpells(line: string)
    ensures var n := CountIndent(line); line == Spaces(n) + line[n..] && (n < |line| ==> line[n] != ' ')
  {
    hide CountIndent, Spaces;
    var n := CountIndent(line);
    IndentReaches(line, n);
    IndentReaches(line, n + 1);
    PrefixSpells(line, Spaces(n), line[n..]);
    OneMoreSpace(line, n);
  }

  lemma OneMoreSpace(line: string, n: nat)
    requires Spaces(n) <= line
    ensures n < |line| && line[n] == ' ' ==> Spaces(n + 1) <= line
  {
    hide Spaces;
    IndentReaches("", n);
    IndentReaches("", n + 1);
    if n < |line| && line[n] == ' ' {
      forall i | 0 <= i < n + 1
        ensures Spaces(n + 1)[i] == line[i]
      {
        AllSpaces(n + 1, i);
        if i < n {
          AllSpaces(n, i);
          assert Spaces(n)[i] == line[i];
        }
      }
      assert Spaces(n + 1) == line[..n + 1];
    }
  }

  lemma AllSpaces(n: nat, i: nat)
    requires i < n
    ensures |Spaces(n)| == n && Spaces(n)[i] == ' '
  {
  }

  // ---------------------------------------------------------------- texts

  lemma {:induction false} ParagraphJoins(lines: seq<string>)
    ensures ParagraphText(lines) == JoinWith(TrimAll(lines), " ")
    decreases |lines|
  {
    hide Trim;
    if |lines| > 1 {
      var init, last := lines[..|lines| - 1], lines[|lines| - 1];
      ParagraphJoins(init);
      assert TrimAll(lines) == TrimAll(init) + [Trim(last)];
      JoinLast(TrimAll(init), Trim(last), " ");
    }
  }

  lemma {:induction false} NestedJoins(lines: seq<string>)
    requires lines != []
    ensures NestedText(lines) == JoinWith([TrimStart(lines[0])] + TrimAll(lines[1..]), " ")
    decreases |lines|
  {
    hide Trim, TrimStart;
    if |lines| > 1 {
      var init, last := lines[..|lines| - 1], lines[|lines| - 1];
      NestedJoins(init);
      assert [TrimStart(lines[0])] + TrimAll(lines[1..]) == [TrimStart(init[0])] + TrimAll(init[1..]) + [Trim(last)];
      JoinLast([TrimStart(init[0])] + TrimAll(init[1..]), Trim(last), " ");
    } else {
      assert [TrimStart(lines[0])] + TrimAll(lines[1..]) == [TrimStart(lines[0])];
    }
  }

  /** A line of code without the indent of its block, where it has that much and more. */
  lemma CodeLineSpells(line: string, indent: nat)
    ensures |line| > indent && Spaces(indent) <= line ==> line == Spaces(indent) + CodeLine(line, indent)
    ensures !(|line| > indent && Spaces(indent) <= line) ==> CodeLine(line, indent) == TrimStart(line)
  {
    hide TrimStart, Spaces, CountIndent;
    IndentReaches(line, indent);
    if Spaces(indent) <= line {
      assert line == Spaces(indent) + line[indent..];
    }
  }

  function CodeLines(lines: seq<string>, indent: nat): (r: seq<string>)
    ensures |r| == |lines|
  {
    seq(|lines|, i requires 0 <= i < |lines| => CodeLine(lines[i], indent))
  }

  function WithoutEmptyStart(parts: seq<string>): seq<string> {
    if parts != [] && parts[0] == "" then WithoutEmptyStart(parts[1..]) else parts
  }

  lemma {:induction false} EmptyStart(parts: seq<string>, last: string)
    ensures WithoutEmptyStart(parts + [last]) ==
            if WithoutEmptyStart(parts) == [] then WithoutEmptyStart([last]) else WithoutEmptyStart(parts) + [last]
    decreases |parts|
  {
    if parts == [] {
      assert parts + [last] == [last];
    } else {
      assert (parts + [last])[1..] == parts[1..] + [last];
      EmptyStart(parts[1..], last);
    }
  }

  lemma {:induction false} StartsNotEmpty(parts: seq<string>)
    ensures WithoutEmptyStart(parts) != [] ==> JoinWith(WithoutEmptyStart(parts), "\n") != ""
  {
    if parts != [] && parts[0] == "" {
      StartsNotEmpty(parts[1..]);
    }
  }

  /** The lines of code are joined, but empty ones at the start leave no trace. */
  lemma {:induction false} CodeJoins(lines: seq<string>, indent: nat)
    ensures CodeText(lines, indent) == JoinWith(WithoutEmptyStart(CodeLines(lines, indent)), "\n")
    decreases |lines|
  {
    hide CodeLine;
    if lines != [] {
      var init, last := lines[..|lines| - 1], CodeLine(lines[|lines| - 1], indent);
      CodeJoins(init, indent);
      var parts := CodeLines(init, indent);
      assert CodeLines(lines, indent) == parts + [last];
      EmptyStart(parts, last);
      StartsNotEmpty(parts);
      if WithoutEmptyStart(parts) != [] {
        JoinLast(WithoutEmptyStart(parts), last, "\n");
      } else {
        assert [last][1..] == [];
      }
    }
  }

  function WithoutReturns(parts: seq<string>): (r: seq<string>)
    ensures |r| == |parts|
  {
    seq(|parts|, i requires 0 <= i < |parts| => WithoutReturn(parts[i]))
  }

  /** What is left of the pieces between line feeds: no empty one at the very end, and no returns. */
  function Kept(pieces: seq<string>): seq<string>
    requires pieces != []
  {
    WithoutReturns(if pieces[|pieces| - 1] == "" then pieces[..|pieces| - 1] else pieces)
  }

  lemma KeptPieces(first: string, rest: seq<string>)
    requires rest != []
    ensures Kept([first] + rest) == [WithoutReturn(first)] + Kept(rest)
  {
    hide WithoutReturn;
    var pieces := [first] + rest;
    assert pieces[|pieces| - 1] == rest[|rest| - 1];
    assert pieces[..|pieces| - 1] == [first] + rest[..|rest| - 1];
  }

  lemma KeptPiece(piece: string)
    ensures Kept([piece]) == if piece == "" then [] else [WithoutReturn(piece)]
  {
    hide WithoutReturn;
  }

  lemma FirstPiece(text: string) returns (first: string, rest: string)
    requires '\n' in text
    ensures text == first + "\n" + rest && '\n' !in first && |rest| < |text|
    ensures Lines(text) == [WithoutReturn(first)] + Lines(rest)
  {
    hide WithoutReturn;
    var i := LineFeed(text);
    first, rest := text[..i], text[i + 1..];
  }

  lemma OnePieceMore(first: string, rest: seq<string>)
    requires rest != []
    ensures JoinWith([first] + rest, "\n") == first + "\n" + JoinWith(rest, "\n")
  {
    assert ([first] + rest)[1..] == rest;
  }

  /** The lines are what stands between the line feeds, without a return at the end, and no empty one at the very end. */
  lemma {:induction false} LinesSpell(text: string) returns (pieces: seq<string>)
    ensures pieces != [] && JoinWith(pieces, "\n") == text && forall piece :: piece in pieces ==> '\n' !in piece
    ensures Lines(text) == Kept(pieces)
    decreases |text|
  {
    hide WithoutReturn, LineFeed, Kept;
    if '\n' !in text {
      pieces := [text];
      KeptPiece(text);
    } else {
      hide Lines, JoinWith;
      var first, rest := FirstPiece(text);
      var more := LinesSpell(rest);
      pieces := [first] + more;
      KeptPieces(first, more);
      OnePieceMore(first, more);
    }
  }

  /** What is nested goes to the last item, behind what is nested there already, and to no other. */
  lemma LastItemTakesAll(items: seq<ListItem>, nested: seq<MdNode>, kind: ListKind, k: nat)
    requires items != [] && AllItemsWellFormed(items, kind) && AllWellFormed(nested) && k < |items|
    ensures |WithNested(items, nested, kind)| == |items|
    ensures WithNested(items, nested, kind)[k].elements == items[k].elements
    ensures WithNested(items, nested, kind)[k].done == items[k].done
    ensures WithNested(items, nested, kind)[k].children == items[k].children + if k == |items| - 1 then nested else []
  {
  }
}
