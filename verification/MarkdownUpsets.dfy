/** The neighbouring lines on which looking for a table takes a lone bar apart. */
module MarkdownUpsets {
  import opened Collections
  import opened MarkdownBlocks
  import opened MarkdownLines

  /**
   * Two lines, one above the other, of which one is a lone bar that looking for a table takes apart,
   * at some depth of quoting.
   */
  predicate IsUpset(a: string, b: string)
    decreases |a|
  {
    || (IsLoneBar(b) && '|' in Trim(a))
    || (IsLoneBar(a) && !IsLoneBar(b) && IsTableSeparatorLine(b))
    || (IsQuoteLine(a) && IsQuoteLine(b) && IsUpset(QuotedLine(a), QuotedLine(b)))
  }

  predicate UpsetAt(lines: seq<string>, i: nat) {
    i + 1 < |lines| && IsUpset(lines[i], lines[i + 1])
  }

  ghost predicate SomeUpset(lines: seq<string>) {
    exists i: nat :: UpsetAt(lines, i)
  }

  /** Neither fences, quotes nor list items, behind which lines can be passed over. */
  ghost predicate IsPlainText(lines: seq<string>) {
    forall i {:trigger lines[i]} :: 0 <= i < |lines| ==>
      !IsFence(lines[i]) && !IsQuoteLine(lines[i]) && DetectListMarker(Trim(lines[i])).None?
  }

  lemma UpsetNotEmpty(a: string, b: string)
    requires IsUpset(a, b)
    ensures a != "" && b != ""
  {
  }

  lemma UpsetInQuote(c: string, d: string, line: string, next: string)
    requires SaysInQuote(c, line) && SaysInQuote(d, next) && IsUpset(c, d)
    ensures IsUpset(line, next)
  {
    hide Trim, Quoted, IsTableSeparatorLine, IsLoneBar;
    UpsetNotEmpty(c, d);
  }

  /** An upset in the quoted text is one of the quote's lines. */
  lemma FailureBelow(inner: seq<string>, lines: seq<string>, start: nat)
    requires AreQuoted(inner, lines, start) && SomeUpset(WithoutLastEmpty(inner))
    ensures SomeUpset(inner) && SomeUpset(lines)
  {
    hide SaysInQuote, IsUpset;
    var ls := WithoutLastEmpty(inner);
    var k: nat :| UpsetAt(ls, k);
    assert ls[k] == inner[k] && ls[k + 1] == inner[k + 1];
    assert UpsetAt(inner, k);
    UpsetInQuote(inner[k], inner[k + 1], lines[start + k], lines[start + k + 1]);
    assert UpsetAt(lines, start + k);
  }

  /** A lone bar among the lines of a table stands below another of its lines, or is the first, above a separator. */
  lemma LoneBarInTable(lines: seq<string>, start: nat, pos: nat)
    requires start <= pos < |lines| && !TableCheckFails(lines, start) && IsTableStartAt(lines, start)
    requires IsLoneBar(lines[pos]) && forall i :: start <= i < pos ==> IsTableLine(lines[i])
    ensures UpsetAt(lines, if pos == start then pos else pos - 1)
  {
    hide IsTableSeparatorLine;
  }

  lemma CheckFails(lines: seq<string>, pos: nat)
    requires pos < |lines| && TableCheckFails(lines, pos)
    ensures UpsetAt(lines, pos)
  {
  }

  /** Plain text has no upset among these lines and the next. */
  ghost predicate Settled(lines: seq<string>, from: nat, end: nat) {
    IsPlainText(lines) ==> forall i: nat :: from <= i < end ==> !UpsetAt(lines, i)
  }

  lemma SettledBoth(lines: seq<string>, from: nat, mid: nat, end: nat)
    requires Settled(lines, from, mid) && Settled(lines, mid, end)
    ensures Settled(lines, from, end)
  {
    hide UpsetAt, IsPlainText;
  }

  lemma SettledBlanks(lines: seq<string>, from: nat, end: nat)
    requires from <= end <= |lines| && forall i :: from <= i < end ==> IsBlank(lines[i])
    ensures Settled(lines, from, end)
  {
    forall i: nat | from <= i < end
      ensures !UpsetAt(lines, i)
    {
      BlankIsNoUpset(lines, i);
    }
  }

  /** What table checks do not stumble over is no upset. */
  lemma SettledLines(lines: seq<string>, from: nat, end: nat)
    requires from <= end <= |lines|
    requires forall i :: from <= i < end ==> !TableCheckFails(lines, i) && !IsTableStartAt(lines, i)
    ensures Settled(lines, from, end)
  {
    if IsPlainText(lines) {
      forall i: nat | from <= i < end
        ensures !UpsetAt(lines, i)
      {
        NotUpset(lines, i);
      }
    }
  }

  lemma SettledTable(lines: seq<string>, from: nat, end: nat)
    requires from <= end <= |lines| && forall i :: from <= i < end ==> IsTableLine(lines[i]) && !IsLoneBar(lines[i])
    requires end < |lines| ==> !IsTableLine(lines[end])
    ensures Settled(lines, from, end)
  {
    if IsPlainText(lines) {
      forall i: nat | from <= i < end
        ensures !UpsetAt(lines, i)
      {
        TableLineIsNoUpset(lines, i);
      }
    }
  }

  lemma TableLineIsNoUpset(lines: seq<string>, pos: nat)
    requires pos < |lines| && !IsLoneBar(lines[pos]) && !IsQuoteLine(lines[pos])
    requires pos + 1 < |lines| ==> !IsLoneBar(lines[pos + 1]) || !IsTableLine(lines[pos + 1])
    ensures !UpsetAt(lines, pos)
  {
    hide IsTableSeparatorLine;
  }

  lemma NotUpset(lines: seq<string>, pos: nat)
    requires pos < |lines| && !IsQuoteLine(lines[pos]) && !TableCheckFails(lines, pos) && !IsTableStartAt(lines, pos)
    ensures !UpsetAt(lines, pos)
  {
    hide IsTableSeparatorLine;
  }

  lemma BlankIsNoUpset(lines: seq<string>, pos: nat)
    requires pos < |lines| && IsBlank(lines[pos])
    ensures !UpsetAt(lines, pos)
  {
    hide IsTableSeparatorLine;
  }

  lemma NotPlain(lines: seq<string>, pos: nat, from: nat, end: nat)
    requires pos < |lines| && (IsFence(lines[pos]) || IsQuoteLine(lines[pos]) || DetectListMarker(Trim(lines[pos])).Some?)
    ensures Settled(lines, from, end)
  {
  }

  lemma AllSettled(lines: seq<string>)
    requires Settled(lines, 0, |lines|)
    ensures IsPlainText(lines) ==> !SomeUpset(lines)
  {
    hide IsUpset;
  }
}
