/** Knuth-Morris-Pratt: the table of longest borders, and the search for a pattern in a text. */
module PatternSearch {

  newtype byte = x: int | 0 <= x < 256

  // ---------------------------------------------------------------- borders

  /** The first `k` bytes of `p` are the last `k` bytes of `s`. */
  ghost predicate EndsWith(s: seq<byte>, p: seq<byte>, k: nat) {
    k <= |p| && k <= |s| && p[..k] == s[|s| - k..]
  }

  /** A proper border of the prefix of length `i`. */
  ghost predicate IsBorder(p: seq<byte>, i: nat, k: nat)
    requires i <= |p|
  {
    k < i && EndsWith(p[..i], p, k)
  }

  ghost predicate IsLongestBorder(p: seq<byte>, i: nat, k: nat)
    requires i <= |p|
  {
    IsBorder(p, i, k) && forall b: nat {:trigger IsBorder(p, i, b)} :: IsBorder(p, i, b) ==> b <= k
  }

  /** The table that both the search and the splitter use. */
  ghost predicate IsBorderTable(p: seq<byte>, next: seq<nat>) {
    |next| == |p| && forall i {:trigger next[i]} :: 0 <= i < |p| ==> IsLongestBorder(p, i + 1, next[i])
  }

  /** A shorter match at the end of `s` is a border of a longer one. */
  lemma ShorterMatchIsBorder(s: seq<byte>, p: seq<byte>, k: nat, b: nat)
    requires EndsWith(s, p, k) && EndsWith(s, p, b) && b < k
    ensures IsBorder(p, k, b)
  {
    assert p[..k][k - b..] == s[|s| - k..][k - b..] == s[|s| - b..];
  }

  lemma BorderOfMatch(s: seq<byte>, p: seq<byte>, k: nat, b: nat)
    requires EndsWith(s, p, k) && IsBorder(p, k, b)
    ensures EndsWith(s, p, b)
  {
    assert s[|s| - k..][k - b..] == s[|s| - b..];
  }

  /** A match of length `k + 1` after one more byte is a match of length `k` before it that the byte continues. */
  lemma OneMoreByte(s: seq<byte>, c: byte, p: seq<byte>, k: nat)
    requires k < |p|
    ensures EndsWith(s + [c], p, k + 1) <==> EndsWith(s, p, k) && p[k] == c
  {
    if k <= |s| {
      assert (s + [c])[|s| + 1 - (k + 1)..] == s[|s| - k..] + [c];
      assert p[..k + 1] == p[..k] + [p[k]];
      if EndsWith(s + [c], p, k + 1) {
        assert p[..k + 1][..k] == (s[|s| - k..] + [c])[..k] && p[..k + 1][k] == (s[|s| - k..] + [c])[k];
      }
    }
  }

  /** No match of `p` at the end of `s` that `c` continues is longer than `k`. */
  ghost predicate BoundsContinuation(s: seq<byte>, c: byte, p: seq<byte>, k: nat) {
    forall b: nat {:trigger EndsWith(s, p, b)} :: b < |p| && EndsWith(s, p, b) && p[b] == c ==> b <= k
  }

  /** Falling back to the longest border loses no match that `c` continues. */
  lemma FallBack(s: seq<byte>, c: byte, p: seq<byte>, k: nat, border: nat)
    requires 0 < k < |p| && EndsWith(s, p, k) && BoundsContinuation(s, c, p, k) && p[k] != c
    requires IsLongestBorder(p, k, border)
    ensures border < k && EndsWith(s, p, border) && BoundsContinuation(s, c, p, border)
  {
    BorderOfMatch(s, p, k, border);
    forall b: nat {:trigger EndsWith(s, p, b)} | b < |p| && EndsWith(s, p, b) && p[b] == c
      ensures b <= border
    {
      ShorterMatchIsBorder(s, p, k, b);
    }
  }

  /** When the byte continues the longest candidate, or no candidate is left, the longest match is known. */
  lemma LongestAfter(s: seq<byte>, c: byte, p: seq<byte>, k: nat)
    requires k < |p| && EndsWith(s, p, k) && BoundsContinuation(s, c, p, k) && (p[k] == c || k == 0)
    ensures var m := if p[k] == c then k + 1 else 0;
            EndsWith(s + [c], p, m) && forall b: nat {:trigger EndsWith(s + [c], p, b)} :: EndsWith(s + [c], p, b) ==> b <= m
  {
    OneMoreByte(s, c, p, k);
    forall b: nat {:trigger EndsWith(s + [c], p, b)} | EndsWith(s + [c], p, b)
      ensures b <= if p[k] == c then k + 1 else 0
    {
      if b > 0 {
        OneMoreByte(s, c, p, b - 1);
        assert EndsWith(s, p, b - 1);
      }
    }
  }

  /** For every prefix the length of its longest proper border. */
  method KmpNext(pattern: seq<byte>) returns (next: seq<nat>)
    ensures IsBorderTable(pattern, next)
  {
    next := seq(|pattern|, _ => 0);
    var prefixLen: nat, i: nat := 0, 1;
    while i < |pattern|
      invariant pattern != [] ==> 1 <= i <= |pattern|
      invariant |next| == |pattern| && prefixLen < i
      invariant forall q {:trigger next[q]} :: 0 <= q < i && q < |pattern| ==> IsLongestBorder(pattern, q + 1, next[q])
      invariant i < |pattern| ==> IsCandidate(pattern, i, prefixLen)
      decreases |pattern| - i, prefixLen
    {
      if pattern[i] == pattern[prefixLen] {
        BorderGrows(pattern, i, prefixLen);
        prefixLen := prefixLen + 1;
        next := next[i := prefixLen];
        i := i + 1;
      } else if prefixLen == 0 {
        BorderGrows(pattern, i, prefixLen);
        next := next[i := 0];
        i := i + 1;
      } else {
        assert IsLongestBorder(pattern, prefixLen - 1 + 1, next[prefixLen - 1]);
        CandidateFallsBack(pattern, i, prefixLen, next[prefixLen - 1]);
        prefixLen := next[prefixLen - 1];
      }
    }
  }

  /** No border that byte `i` continues is longer than the border `k`. */
  ghost predicate IsCandidate(p: seq<byte>, i: nat, k: nat)
    requires i < |p|
  {
    IsBorder(p, i, k) && forall b: nat {:trigger IsBorder(p, i, b)} :: IsBorder(p, i, b) && p[b] == p[i] ==> b <= k
  }

  lemma CandidateFallsBack(p: seq<byte>, i: nat, k: nat, border: nat)
    requires i < |p| && IsCandidate(p, i, k) && 0 < k && p[k] != p[i] && IsLongestBorder(p, k, border)
    ensures IsCandidate(p, i, border)
  {
    BorderOfMatch(p[..i], p, k, border);
    forall b: nat {:trigger IsBorder(p, i, b)} | IsBorder(p, i, b) && p[b] == p[i]
      ensures b <= border
    {
      ShorterMatchIsBorder(p[..i], p, k, b);
    }
  }

  lemma BorderGrows(p: seq<byte>, i: nat, k: nat)
    requires 0 < i < |p| && IsCandidate(p, i, k) && (p[k] == p[i] || k == 0)
    ensures var m := if p[k] == p[i] then k + 1 else 0;
            IsLongestBorder(p, i + 1, m) && (i + 1 < |p| ==> IsCandidate(p, i + 1, m))
  {
    var s, m := p[..i], if p[k] == p[i] then k + 1 else 0;
    assert p[..i + 1] == s + [p[i]];
    OneMoreByte(s, p[i], p, k);
    assert IsBorder(p, i + 1, m);
    forall b: nat {:trigger IsBorder(p, i + 1, b)} | IsBorder(p, i + 1, b)
      ensures b <= m
    {
      if b > 0 {
        OneMoreByte(s, p[i], p, b - 1);
        assert IsBorder(p, i, b - 1);
      }
    }
  }

  // ---------------------------------------------------------------- occurrences

  ghost predicate OccursAt(text: seq<byte>, p: seq<byte>, o: nat) {
    o + |p| <= |text| && text[o..o + |p|] == p
  }

  /** All places before `limit` where the pattern starts, overlapping or not, in ascending order. */
  ghost function Occurrences(text: seq<byte>, p: seq<byte>, limit: nat): seq<nat> {
    if limit == 0 then []
    else Occurrences(text, p, limit - 1) + if OccursAt(text, p, limit - 1) then [limit - 1] else []
  }

  ghost predicate IsAscending(s: seq<nat>) {
    forall i, j :: 0 <= i < j < |s| ==> s[i] < s[j]
  }

  lemma {:induction false} OccurrencesMember(text: seq<byte>, p: seq<byte>, limit: nat, o: nat)
    ensures o in Occurrences(text, p, limit) <==> o < limit && OccursAt(text, p, o)
  {
    hide OccursAt;
    if limit > 0 {
      OccurrencesMember(text, p, limit - 1, o);
    }
  }

  lemma {:induction false} OccurrencesAscend(text: seq<byte>, p: seq<byte>, limit: nat)
    ensures IsAscending(Occurrences(text, p, limit))
  {
    hide OccursAt;
    if limit > 0 {
      OccurrencesAscend(text, p, limit - 1);
      var init := Occurrences(text, p, limit - 1);
      forall i | 0 <= i < |init|
        ensures init[i] < limit - 1
      {
        OccurrencesMember(text, p, limit - 1, init[i]);
        assert init[i] in init;
      }
    }
  }

  lemma {:induction false} NoOccurrences(text: seq<byte>, p: seq<byte>, limit: nat)
    ensures Occurrences(text, p, limit) == [] <==> forall o: nat {:trigger OccursAt(text, p, o)} :: o < limit ==> !OccursAt(text, p, o)
  {
    hide OccursAt;
    if limit > 0 {
      NoOccurrences(text, p, limit - 1);
    }
  }

  /** All occurrences are listed, nothing else is, and the places ascend. */
  lemma OccurrencesAreAll(text: seq<byte>, p: seq<byte>, limit: nat)
    ensures forall o: nat :: o in Occurrences(text, p, limit) <==> o < limit && OccursAt(text, p, o)
    ensures IsAscending(Occurrences(text, p, limit))
    ensures Occurrences(text, p, limit) == [] <==> forall o: nat {:trigger OccursAt(text, p, o)} :: o < limit ==> !OccursAt(text, p, o)
  {
    hide OccursAt, Occurrences;
    forall o: nat
      ensures o in Occurrences(text, p, limit) <==> o < limit && OccursAt(text, p, o)
    {
      OccurrencesMember(text, p, limit, o);
    }
    OccurrencesAscend(text, p, limit);
    NoOccurrences(text, p, limit);
  }

  /** Nothing is found over a stretch where the pattern does not start. */
  lemma {:induction false} NoneBetween(text: seq<byte>, p: seq<byte>, lo: nat, hi: nat)
    requires lo <= hi && forall o: nat :: lo <= o < hi ==> !OccursAt(text, p, o)
    ensures Occurrences(text, p, hi) == Occurrences(text, p, lo)
    decreases hi
  {
    if lo < hi {
      NoneBetween(text, p, lo, hi - 1);
    }
  }

  lemma {:induction false} OccurrencesGrow(text: seq<byte>, p: seq<byte>, lo: nat, hi: nat)
    requires lo <= hi
    ensures Occurrences(text, p, lo) <= Occurrences(text, p, hi)
    decreases hi
  {
    if lo < hi {
      OccurrencesGrow(text, p, lo, hi - 1);
    }
  }

  /** An occurrence that starts `b` bytes before the end of what has been read so far matches so far. */
  lemma PartialMatch(text: seq<byte>, p: seq<byte>, i: nat, b: nat)
    requires b <= i <= |text| && b <= |p| && OccursAt(text, p, i - b)
    ensures EndsWith(text[..i], p, b)
    ensures b < |p| ==> i < |text| && text[i] == p[b]
  {
    assert text[i - b..i - b + |p|][..b] == text[..i][i - b..];
    if b < |p| {
      assert text[i - b..i - b + |p|][b] == text[i];
    }
  }

  /** `i` bytes are read, the last `j` of them match, and what starts before those is recorded. */
  ghost predicate Scanned(text: seq<byte>, p: seq<byte>, i: nat, j: nat, matches: seq<nat>) {
    && j <= i <= |text| && EndsWith(text[..i], p, j)
    && matches == Occurrences(text, p, i - j)
  }

  lemma Advance(text: seq<byte>, p: seq<byte>, i: nat, j: nat, matches: seq<nat>)
    requires Scanned(text, p, i, j, matches) && i < |text| && j < |p| && text[i] == p[j]
    ensures Scanned(text, p, i + 1, j + 1, matches)
  {
    OneMoreByte(text[..i], text[i], p, j);
    assert text[..i + 1] == text[..i] + [text[i]];
  }

  lemma SkipByte(text: seq<byte>, p: seq<byte>, i: nat, matches: seq<nat>)
    requires Scanned(text, p, i, 0, matches) && i < |text| && p != [] && text[i] != p[0]
    ensures Scanned(text, p, i + 1, 0, matches)
  {
    if OccursAt(text, p, i) {
      PartialMatch(text, p, i, 0);
    }
  }

  /** The pattern starts nowhere between a match of length `j` and the match of length `next` it falls back to. */
  lemma Retreat(text: seq<byte>, p: seq<byte>, i: nat, j: nat, next: nat, matches: seq<nat>)
    requires Scanned(text, p, i, j, matches) && 0 < j && IsLongestBorder(p, j, next)
    requires j == |p| || (i < |text| && text[i] != p[j])
    ensures next < j && Scanned(text, p, i, next, matches + if j == |p| then [i - j] else [])
  {
    hide OccursAt;
    BorderOfMatch(text[..i], p, j, next);
    MatchedOrNot(text, p, i, j);
    NoneSkipped(text, p, i, j, next);
    NoneBetween(text, p, i - j + 1, i - next);
  }

  lemma MatchedOrNot(text: seq<byte>, p: seq<byte>, i: nat, j: nat)
    requires j <= i <= |text| && EndsWith(text[..i], p, j)
    requires j == |p| || (i < |text| && text[i] != p[j])
    ensures OccursAt(text, p, i - j) <==> j == |p|
  {
    if j == |p| {
      assert text[i - j..i] == text[..i][i - j..];
    } else if OccursAt(text, p, i - j) {
      PartialMatch(text, p, i, j);
    }
  }

  lemma NoneSkipped(text: seq<byte>, p: seq<byte>, i: nat, j: nat, next: nat)
    requires i <= |text| && j <= i && j <= |p| && EndsWith(text[..i], p, j) && IsLongestBorder(p, j, next)
    ensures forall o: nat :: i - j + 1 <= o < i - next ==> !OccursAt(text, p, o)
  {
    hide OccursAt, EndsWith;
    forall o: nat | i - j + 1 <= o < i - next
      ensures !OccursAt(text, p, o)
    {
      if OccursAt(text, p, o) {
        PartialMatch(text, p, i, i - o);
        ShorterMatchIsBorder(text[..i], p, j, i - o);
      }
    }
  }

  /** What is recorded are the first occurrences, and all of them at the end of the text. */
  lemma RecordedFirst(text: seq<byte>, p: seq<byte>, i: nat, j: nat, matches: seq<nat>)
    requires Scanned(text, p, i, j, matches) && j < |p|
    ensures matches <= Occurrences(text, p, |text|)
    ensures i == |text| ==> matches == Occurrences(text, p, |text|)
  {
    OccurrencesGrow(text, p, i - j, |text|);
    if i == |text| {
      NoneBetween(text, p, i - j, |text|);
    }
  }

  function FirstOf(s: seq<nat>, n: int): seq<nat> {
    if 0 < n < |s| then s[..n] else s
  }

  /**
   * All places where the pattern starts, or with a positive `n` the first `n`
   * of them. An empty pattern is found once, at the start of a text that is
   * not empty.
   */
  method KmpSearchBytes(text: seq<byte>, pattern: seq<byte>, n: int) returns (matches: seq<nat>, ghost steps: nat)
    ensures text != [] && pattern == [] ==> matches == [0]
    ensures text == [] || pattern != [] ==> matches == if text == [] then [] else
              FirstOf(Occurrences(text, pattern, |text|), n)
    ensures steps <= 2 * |text|
  {
    matches, steps := [], 0;
    if text == [] {
      return;
    }
    if pattern == [] {
      return [0], 0;
    }
    hide Scanned, IsLongestBorder;
    var next := KmpNext(pattern);
    var i: nat, j: nat, enough := 0, 0, false;
    NothingRead(text, pattern);
    while i < |text| && !enough
      invariant j <= i <= |text| && j < |pattern| && Scanned(text, pattern, i, j, matches)
      invariant enough <==> 0 < n <= |matches|
      invariant n > 0 ==> |matches| <= n
      invariant steps + j <= 2 * i
      decreases !enough, |text| - i, j
    {
      steps := steps + 1;
      if text[i] == pattern[j] {
        Advance(text, pattern, i, j, matches);
        i := i + 1;
        j := j + 1;
      } else if j == 0 {
        SkipByte(text, pattern, i, matches);
        i := i + 1;
      } else {
        Retreat(text, pattern, i, j, next[j - 1], matches);
        j := next[j - 1];
      }
      if j == |pattern| {
        Retreat(text, pattern, i, j, next[j - 1], matches);
        matches := matches + [i - j];
        j := next[j - 1];
        enough := n > 0 && |matches| >= n;
      }
    }
    RecordedFirst(text, pattern, i, j, matches);
  }

  lemma NothingRead(text: seq<byte>, p: seq<byte>)
    ensures Scanned(text, p, 0, 0, [])
  {
  }

  /** An empty text contains nothing, not even the empty string. */
  method Contains(s: seq<byte>, sub: seq<byte>) returns (found: bool)
    ensures found <==> s != [] && exists o: nat :: OccursAt(s, sub, o)
  {
    if s == [] {
      return false;
    }
    if sub == [] {
      assert OccursAt(s, sub, 0);
      return true;
    }
    var matches, _ := KmpSearchBytes(s, sub, 1);
    OccurrencesAreAll(s, sub, |s|);
    assert matches != [] ==> matches[0] in Occurrences(s, sub, |s|);
    assert forall o: nat :: OccursAt(s, sub, o) ==> o in Occurrences(s, sub, |s|);
    found := matches != [];
  }
}
