/** Splitting a byte stream at a token, whatever the sizes of the reads that deliver it. */
module TokenSplits {
  import opened Collections
  import opened PatternSearch

  datatype ReadOutcome = Bytes(bytes: seq<byte>) | Failed

  /** What the reads deliver one after the other; an empty read ends the input, and past the last chunk it may fail. */
  class Reader {
    var chunks: seq<seq<byte>>
    const fails: bool

    constructor (chunks: seq<seq<byte>>, fails: bool)
      ensures this.chunks == chunks && this.fails == fails
    {
      this.chunks, this.fails := chunks, fails;
    }

    method Read() returns (outcome: ReadOutcome)
      modifies this
      ensures old(chunks) == [] ==> outcome == (if fails then Failed else Bytes([])) && chunks == []
      ensures old(chunks) != [] ==> outcome == Bytes(old(chunks)[0]) && chunks == old(chunks)[1..]
    {
      if chunks == [] {
        return if fails then Failed else Bytes([]);
      }
      outcome := Bytes(chunks[0]);
      chunks := chunks[1..];
    }
  }

  /** The bytes before the end of the input. */
  ghost function Delivered(chunks: seq<seq<byte>>): seq<byte> {
    if chunks == [] || chunks[0] == [] then [] else chunks[0] + Delivered(chunks[1..])
  }

  ghost predicate EndsInError(chunks: seq<seq<byte>>, fails: bool) {
    if chunks == [] then fails else chunks[0] != [] && EndsInError(chunks[1..], fails)
  }

  // ---------------------------------------------------------------- the specification

  /**
   * Cut at the first occurrence of the token, then go on behind it. Without
   * the tokens empty pieces are dropped; what follows the last token is a
   * piece of its own unless it is empty or the input ends in an error.
   */
  ghost function Split(s: seq<byte>, token: seq<byte>, keep: bool, fails: bool): seq<seq<byte>>
    requires token != []
    decreases |s|
  {
    OccurrencesAreAll(s, token, |s|);
    var os := Occurrences(s, token, |s|);
    if os == [] then
      if fails || s == [] then [] else [s]
    else
      assert os[0] in os;
      Piece(s, token, keep, os[0]) + Split(s[os[0] + |token|..], token, keep, fails)
  }

  /** The piece that ends with the token at `o`, if it is not empty. */
  ghost function Piece(s: seq<byte>, token: seq<byte>, keep: bool, o: nat): seq<seq<byte>>
    requires OccursAt(s, token, o)
  {
    var piece := s[..if keep then o + |token| else o];
    if piece == [] then [] else [piece]
  }

  ghost predicate IsFirst(s: seq<byte>, token: seq<byte>, o: nat) {
    OccursAt(s, token, o) && forall q: nat {:trigger OccursAt(s, token, q)} :: q < o ==> !OccursAt(s, token, q)
  }

  ghost predicate IsFree(s: seq<byte>, token: seq<byte>) {
    forall o: nat {:trigger OccursAt(s, token, o)} :: !OccursAt(s, token, o)
  }

  lemma FirstOfOccurrences(s: seq<byte>, token: seq<byte>, o: nat)
    requires token != [] && IsFirst(s, token, o)
    ensures Occurrences(s, token, |s|) != [] && Occurrences(s, token, |s|)[0] == o
  {
    hide Split;
    var os := Occurrences(s, token, |s|);
    OccurrencesAscend(s, token, |s|);
    OccurrencesMember(s, token, |s|, o);
    FirstIsLeast(os);
    OccurrencesMember(s, token, |s|, os[0]);
    assert os[0] in os && !(os[0] < o);
  }

  lemma SplitAtFirst(s: seq<byte>, token: seq<byte>, keep: bool, fails: bool, o: nat)
    requires token != [] && IsFirst(s, token, o)
    ensures Split(s, token, keep, fails) == Piece(s, token, keep, o) + Split(s[o + |token|..], token, keep, fails)
  {
    hide Piece, Occurrences;
    FirstOfOccurrences(s, token, o);
  }

  lemma FirstOccurs(s: seq<byte>, token: seq<byte>, o: nat)
    requires IsFirst(s, token, o)
    ensures OccursAt(s, token, o)
  {
  }

  lemma SplitFree(s: seq<byte>, token: seq<byte>, keep: bool, fails: bool)
    requires token != [] && IsFree(s, token)
    ensures Split(s, token, keep, fails) == if fails || s == [] then [] else [s]
  {
    OccurrencesAreAll(s, token, |s|);
  }

  /** Either the token does not occur, or there is a first place where it does. */
  lemma FreeOrFirst(s: seq<byte>, token: seq<byte>) returns (o: Option<nat>)
    requires token != []
    ensures o.None? ==> IsFree(s, token)
    ensures o.Some? ==> IsFirst(s, token, o.value) && |s[o.value + |token|..]| < |s|
  {
    OccurrencesAreAll(s, token, |s|);
    var os := Occurrences(s, token, |s|);
    if os == [] {
      return None;
    }
    assert os[0] in os;
    FirstIsLeast(os);
    assert forall q: nat {:trigger OccursAt(s, token, q)} :: OccursAt(s, token, q) ==> q in os;
    o := Some(os[0]);
  }

  lemma FirstIsLeast(os: seq<nat>)
    requires os != [] && IsAscending(os)
    ensures forall q :: q in os ==> os[0] <= q
  {
  }

  // ---------------------------------------------------------------- laws of the specification

  ghost function Concat(pieces: seq<seq<byte>>): seq<byte> {
    if pieces == [] then [] else pieces[0] + Concat(pieces[1..])
  }

  /** With the tokens kept, the pieces of an input that ends well make up the input. */
  lemma {:induction false} KeptPiecesConcatenate(s: seq<byte>, token: seq<byte>)
    requires token != []
    ensures Concat(Split(s, token, true, false)) == s
    decreases |s|
  {
    var first := FreeOrFirst(s, token);
    if first.None? {
      SplitFree(s, token, true, false);
      assert s != [] ==> Concat([s]) == s + Concat([]);
    } else {
      var o := first.value;
      SplitAtFirst(s, token, true, false, o);
      KeptPiecesConcatenate(s[o + |token|..], token);
      assert s == s[..o + |token|] + s[o + |token|..];
      var pieces := Split(s, token, true, false);
      assert pieces[0] == s[..o + |token|] && pieces[1..] == Split(s[o + |token|..], token, true, false);
    }
  }

  /** Every kept piece but a last one ends with the token, and has it nowhere else. */
  lemma {:induction false} KeptPieceEndsWithToken(s: seq<byte>, token: seq<byte>, fails: bool, k: nat)
    requires token != [] && k < |Split(s, token, true, fails)|
    ensures var pieces := Split(s, token, true, fails);
            (k == |pieces| - 1 && IsFree(pieces[k], token))
            || (|pieces[k]| >= |token| && IsFirst(pieces[k], token, |pieces[k]| - |token|))
    decreases |s|
  {
    hide Split, IsFirst, IsFree;
    var first := FreeOrFirst(s, token);
    if first.None? {
      SplitFree(s, token, true, fails);
    } else {
      var o := first.value;
      FirstOccurs(s, token, o);
      SplitAtFirst(s, token, true, fails, o);
      if k == 0 {
        FreeBeforeFirst(s, token, o);
      } else {
        KeptPieceEndsWithToken(s[o + |token|..], token, fails, k - 1);
      }
    }
  }

  lemma OccursInPrefix(s: seq<byte>, token: seq<byte>, n: nat, q: nat)
    requires n <= |s|
    ensures OccursAt(s[..n], token, q) <==> OccursAt(s, token, q) && q + |token| <= n
  {
    if q + |token| <= n {
      assert s[..n][q..q + |token|] == s[q..q + |token|];
    }
  }

  /** Nothing ends with a token at an earlier place than the first. */
  lemma FreeBeforeFirst(s: seq<byte>, token: seq<byte>, o: nat)
    requires token != [] && IsFirst(s, token, o)
    ensures IsFree(s[..o], token) && IsFirst(s[..o + |token|], token, o)
  {
    forall q: nat {:trigger OccursAt(s[..o], token, q)}
      ensures !OccursAt(s[..o], token, q)
    {
      OccursInPrefix(s, token, o, q);
    }
    OccursInPrefix(s, token, o + |token|, o);
    forall q: nat {:trigger OccursAt(s[..o + |token|], token, q)} | q < o
      ensures !OccursAt(s[..o + |token|], token, q)
    {
      OccursInPrefix(s, token, o + |token|, q);
    }
  }

  /** Takes the token off the end of a piece. */
  ghost function Stripped(piece: seq<byte>, token: seq<byte>): seq<byte> {
    if EndsWith(piece, token, |token|) then piece[..|piece| - |token|] else piece
  }

  ghost function StripAll(pieces: seq<seq<byte>>, token: seq<byte>): seq<seq<byte>> {
    if pieces == [] then []
    else (if Stripped(pieces[0], token) == [] then [] else [Stripped(pieces[0], token)]) + StripAll(pieces[1..], token)
  }

  /** The first piece of both modes. */
  lemma FirstPieces(s: seq<byte>, token: seq<byte>, fails: bool, o: nat)
    requires token != [] && IsFirst(s, token, o)
    ensures o + |token| <= |s|
    ensures Split(s, token, true, fails) == [s[..o + |token|]] + Split(s[o + |token|..], token, true, fails)
    ensures Split(s, token, false, fails) == (if o == 0 then [] else [s[..o]]) + Split(s[o + |token|..], token, false, fails)
    ensures Stripped(s[..o + |token|], token) == s[..o]
  {
    hide Split;
    SplitAtFirst(s, token, true, fails, o);
    SplitAtFirst(s, token, false, fails, o);
    assert s[..o + |token|][o..] == s[o..o + |token|] && s[..o + |token|][..o] == s[..o];
  }

  lemma FreeIsNotStripped(s: seq<byte>, token: seq<byte>)
    requires token != [] && IsFree(s, token)
    ensures Stripped(s, token) == s
  {
    assert token[..|token|] == token;
    if |token| <= |s| {
      assert s[|s| - |token|..|s| - |token| + |token|] == s[|s| - |token|..];
      assert EndsWith(s, token, |token|) <==> OccursAt(s, token, |s| - |token|);
    }
  }

  /** The two modes cut at the same places: they differ by the tokens and by the pieces that are nothing but a token. */
  lemma {:induction false} ModesAgree(s: seq<byte>, token: seq<byte>, fails: bool)
    requires token != []
    ensures Split(s, token, false, fails) == StripAll(Split(s, token, true, fails), token)
    decreases |s|
  {
    hide Split, IsFirst, IsFree, Stripped;
    var first := FreeOrFirst(s, token);
    if first.None? {
      SplitFree(s, token, true, fails);
      SplitFree(s, token, false, fails);
      FreeIsNotStripped(s, token);
      assert s != [] ==> StripAll([s], token) == [s] + StripAll([], token);
    } else {
      var o := first.value;
      FirstPieces(s, token, fails, o);
      var rest := s[o + |token|..];
      ModesAgree(rest, token, fails);
      var kept := Split(s, token, true, fails);
      assert kept[0] == s[..o + |token|] && kept[1..] == Split(rest, token, true, fails);
    }
  }

  /** Without the tokens no piece is empty and none contains the token. */
  lemma {:induction false} PiecesAreFree(s: seq<byte>, token: seq<byte>, fails: bool, k: nat)
    requires token != [] && k < |Split(s, token, false, fails)|
    ensures var piece := Split(s, token, false, fails)[k]; piece != [] && IsFree(piece, token)
    decreases |s|
  {
    var first := FreeOrFirst(s, token);
    if first.None? {
      SplitFree(s, token, false, fails);
    } else {
      var o := first.value;
      SplitAtFirst(s, token, false, fails, o);
      var cut := |Piece(s, token, false, o)|;
      if k < cut {
        FreeBeforeFirst(s, token, o);
      } else {
        PiecesAreFree(s[o + |token|..], token, fails, k - cut);
      }
    }
  }

  // ---------------------------------------------------------------- one byte at a time

  ghost predicate IsLongestMatch(s: seq<byte>, p: seq<byte>, m: nat) {
    EndsWith(s, p, m) && forall b: nat {:trigger EndsWith(s, p, b)} :: EndsWith(s, p, b) ==> b <= m
  }

  lemma LongestBoundsContinuation(s: seq<byte>, c: byte, p: seq<byte>, m: nat)
    requires IsLongestMatch(s, p, m)
    ensures BoundsContinuation(s, c, p, m)
  {
  }

  /** The token ends with the byte just read: this is its first occurrence in the stream. */
  lemma FirstFound(s: seq<byte>, c: byte, token: seq<byte>, rest: seq<byte>)
    requires token != [] && IsFree(s, token) && EndsWith(s + [c], token, |token|)
    ensures IsFirst(s + [c] + rest, token, |s| + 1 - |token|)
  {
    var t, o := s + [c] + rest, |s| + 1 - |token|;
    assert t[..|s| + 1] == s + [c] && t[..|s|] == s;
    OccursInPrefix(t, token, |s| + 1, o);
    assert (s + [c])[o..o + |token|] == (s + [c])[o..];
    assert OccursAt(s + [c], token, o);
    forall q: nat {:trigger OccursAt(t, token, q)} | q < o
      ensures !OccursAt(t, token, q)
    {
      OccursInPrefix(t, token, |s|, q);
      assert !OccursAt(s, token, q);
    }
  }

  lemma EmptyMatch(token: seq<byte>)
    requires token != []
    ensures IsLongestMatch([], token, 0) && IsFree([], token)
  {
  }

  lemma StillFree(s: seq<byte>, c: byte, token: seq<byte>, m: nat)
    requires token != [] && IsFree(s, token) && IsLongestMatch(s + [c], token, m) && m < |token|
    ensures IsFree(s + [c], token)
  {
    var t := s + [c];
    assert t[..|s|] == s;
    forall o: nat {:trigger OccursAt(t, token, o)}
      ensures !OccursAt(t, token, o)
    {
      OccursInPrefix(t, token, |s|, o);
      assert !OccursAt(s, token, o);
      if OccursAt(t, token, o) && o + |token| == |t| {
        assert EndsWith(t, token, |token|);
      }
    }
  }

  lemma ChunkUsedUp(buf: seq<byte>, chunk: seq<byte>, later: seq<byte>)
    ensures buf + (chunk[|chunk|..] + later) == buf + later && chunk[0..] == chunk
    ensures buf + [] == buf
  {
    assert chunk[|chunk|..] + later == later;
  }

  lemma ByteTaken(buf: seq<byte>, chunk: seq<byte>, pos: nat, later: seq<byte>)
    requires pos < |chunk|
    ensures buf + (chunk[pos..] + later) == buf + [chunk[pos]] + (chunk[pos + 1..] + later)
    ensures [] + (chunk[pos + 1..] + later) == chunk[pos + 1..] + later
  {
    assert chunk[pos..] == [chunk[pos]] + chunk[pos + 1..];
  }

  // ---------------------------------------------------------------- the splitter

  class TokenSplit {
    const reader: Reader
    const token: seq<byte>
    const lps: seq<nat>
    const keepToken: bool
    var buf: seq<byte>
    var matched: nat
    var done: bool
    var chunk: seq<byte>
    var chunkPos: nat

    ghost predicate Valid()
      reads this
    {
      && token != [] && IsBorderTable(token, lps) && chunkPos <= |chunk|
      && (!done ==> matched < |token| && IsLongestMatch(buf, token, matched) && IsFree(buf, token))
    }

    /** The bytes that are in no piece yet. */
    ghost function Remaining(): seq<byte>
      requires chunkPos <= |chunk|
      reads this, reader
    {
      if done then [] else buf + (chunk[chunkPos..] + Delivered(reader.chunks))
    }

    /** The pieces still to come. */
    ghost function Pieces(): seq<seq<byte>>
      requires token != [] && chunkPos <= |chunk|
      reads this, reader
    {
      Split(Remaining(), token, keepToken, !done && EndsInError(reader.chunks, reader.fails))
    }

    /** How many bytes no step has taken yet. */
    ghost function Unread(): nat
      requires chunkPos <= |chunk|
      reads this, reader
    {
      |chunk| - chunkPos + |Delivered(reader.chunks)|
    }

    lemma NothingLeft()
      requires Valid()
      ensures done ==> Pieces() == []
    {
      SplitFree([], token, keepToken, false);
    }

    constructor (reader: Reader, token: seq<byte>, keepToken: bool)
      requires token != []
      ensures Valid() && this.reader == reader && this.token == token && this.keepToken == keepToken
      ensures Pieces() == Split(Delivered(reader.chunks), token, keepToken, EndsInError(reader.chunks, reader.fails))
    {
      var table := KmpNext(token);
      this.reader, this.token, this.lps, this.keepToken := reader, token, table, keepToken;
      buf, matched, done, chunk, chunkPos := [], 0, false, [], 0;
      new;
      assert Remaining() == Delivered(reader.chunks);
    }

    /** Reads the next chunk when the last one is used up; without one the splitter is done. */
    method Refill() returns (failed: bool)
      requires Valid() && !done
      modifies this`chunk, this`chunkPos, this`done, reader
      ensures Valid()
      ensures !done ==> chunkPos < |chunk| && Remaining() == old(Remaining()) && Pieces() == old(Pieces()) && Unread() == old(Unread())
      ensures done ==> old(Pieces()) == if failed || buf == [] then [] else [buf]
    {
      hide Split, IsBorderTable, IsLongestMatch, IsFree;
      failed := false;
      if chunkPos >= |chunk| {
        SplitFree(buf, token, keepToken, EndsInError(reader.chunks, reader.fails));
        ChunkUsedUp(buf, chunk, Delivered(reader.chunks));
        var outcome := reader.Read();
        if outcome == Failed {
          done, failed := true, true;
        } else if outcome.bytes == [] {
          done := true;
        } else {
          chunk, chunkPos := outcome.bytes, 0;
          ChunkUsedUp(buf, chunk, []);
        }
      }
    }

    /** Takes one byte of the chunk into the buffer and follows the border table. */
    method Accept()
      requires Valid() && !done && chunkPos < |chunk|
      modifies this`buf, this`matched, this`chunkPos
      ensures chunkPos == old(chunkPos) + 1 && buf == old(buf) + [chunk[old(chunkPos)]]
      ensures IsLongestMatch(buf, token, matched)
    {
      var b := chunk[chunkPos];
      chunkPos := chunkPos + 1;
      LongestBoundsContinuation(buf, b, token, matched);
      while matched > 0 && b != token[matched]
        invariant chunkPos == old(chunkPos) + 1 && buf == old(buf)
        invariant matched < |token| && EndsWith(buf, token, matched) && BoundsContinuation(buf, b, token, matched)
        decreases matched
      {
        assert IsLongestBorder(token, matched - 1 + 1, lps[matched - 1]);
        FallBack(buf, b, token, matched, lps[matched - 1]);
        matched := lps[matched - 1];
      }
      LongestAfter(buf, b, token, matched);
      buf := buf + [b];
      if b == token[matched] {
        matched := matched + 1;
      }
    }

    /** The token is complete: what is buffered is cut off, and the automaton starts afresh. */
    method Cut(ghost rest: seq<byte>) returns (piece: Option<seq<byte>>)
      requires token != [] && IsBorderTable(token, lps) && !done && chunkPos <= |chunk| && matched == |token|
      requires |token| <= |buf| && IsFirst(buf + rest, token, |buf| - |token|)
      modifies this`buf, this`matched
      ensures Valid() && buf == []
      ensures forall fails :: Split(old(buf) + rest, token, keepToken, fails) ==
                              (if piece.Some? then [piece.value] else []) + Split(rest, token, keepToken, fails)
    {
      hide IsBorderTable, OccursAt;
      ghost var all := buf + rest;
      assert all[|buf|..] == rest && all[..|buf|] == buf;
      forall fails {
        SplitAtFirst(all, token, keepToken, fails, |buf| - |token|);
      }
      var out := buf;
      buf := [];
      if !keepToken {
        var newLen := SaturatingSub(|out|, |token|);
        assert all[..newLen] == out[..newLen];
        out := out[..newLen];
      }
      matched := 0;
      EmptyMatch(token);
      piece := if out == [] then None else Some(out);
    }

    /** One byte of the chunk, and a piece when the byte completes one. */
    method TakeByte() returns (piece: Option<seq<byte>>)
      requires Valid() && !done && chunkPos < |chunk|
      modifies this`buf, this`matched, this`chunkPos
      ensures Valid() && Unread() < old(Unread())
      ensures old(Pieces()) == (if piece.Some? then [piece.value] else []) + Pieces()
    {
      hide Split, IsFirst, IsFree, IsBorderTable, Delivered, EndsInError;
      ghost var s, b := buf, chunk[chunkPos];
      ghost var rest := chunk[chunkPos + 1..] + Delivered(reader.chunks);
      ByteTaken(s, chunk, chunkPos, Delivered(reader.chunks));
      Accept();
      if matched == |token| {
        FirstFound(s, b, token, rest);
        piece := Cut(rest);
      } else {
        StillFree(s, b, token, matched);
        piece := None;
      }
    }

    /** One round of the loop. */
    method Step() returns (piece: Option<seq<byte>>)
      requires Valid() && !done
      modifies this, reader
      ensures Valid()
      ensures old(Pieces()) == (if piece.Some? then [piece.value] else []) + Pieces()
      ensures !done ==> Unread() < old(Unread())
      ensures done ==> Pieces() == []
    {
      hide Split, IsBorderTable, IsLongestMatch, IsFree;
      var failed := Refill();
      NothingLeft();
      if !done {
        piece := TakeByte();
      } else if failed || buf == [] {
        piece := None;
      } else {
        piece := Some(buf);
        buf := [];
      }
    }

    /** The next piece; after the last one the iteration stays at its end. */
    method Next() returns (piece: Option<seq<byte>>)
      requires Valid()
      modifies this, reader
      ensures Valid()
      ensures old(Pieces()) == if piece.Some? then [piece.value] + Pieces() else []
      ensures piece.None? ==> done
    {
      hide Split, IsBorderTable, IsLongestMatch, IsFree;
      piece := None;
      ghost var all := Pieces();
      NothingLeft();
      while !done && piece == None
        invariant Valid()
        invariant all == (if piece.Some? then [piece.value] else []) + Pieces()
        invariant done ==> Pieces() == []
        decreases !done, piece == None, Unread()
      {
        piece := Step();
      }
    }
  }

  lemma OnePieceMore(pieces: seq<seq<byte>>, piece: seq<byte>, rest: seq<seq<byte>>)
    ensures pieces + ([piece] + rest) == pieces + [piece] + rest && |[piece] + rest| > |rest|
  {
  }

  /** Collects every piece: they depend on the bytes delivered and not on how the reads cut them. */
  method SplitByToken(reader: Reader, token: seq<byte>, keepToken: bool) returns (pieces: seq<seq<byte>>)
    requires token != []
    modifies reader
    ensures pieces == Split(Delivered(old(reader.chunks)), token, keepToken, EndsInError(old(reader.chunks), reader.fails))
  {
    hide Split, EndsInError, Delivered, IsBorderTable, IsLongestMatch, IsFree;
    var splitter := new TokenSplit(reader, token, keepToken);
    ghost var all := splitter.Pieces();
    pieces := [];
    var more := true;
    while more
      invariant splitter.Valid() && splitter.reader == reader && fresh(splitter)
      invariant if more then all == pieces + splitter.Pieces() else all == pieces
      decreases more, |splitter.Pieces()|
    {
      var piece := splitter.Next();
      if piece.Some? {
        OnePieceMore(pieces, piece.value, splitter.Pieces());
        pieces := pieces + [piece.value];
      } else {
        more := false;
      }
    }
  }
}
