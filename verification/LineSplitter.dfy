/** The line splitter of the job log (`_stream_subprocess`). */
module LineSplitter {
  import opened Splitting

  // The output of a subprocess arrives in chunks that were cut anywhere. The loop keeps
  // three variables between reads -- the pending bytes, where to resume the search for a
  // newline, and whether the rest of an over-long line is being dropped -- and must yield the
  // same lines however the stream was cut.
  //
  // Decoding is not modelled: a line is the bytes it was decoded from, and whether it went
  // through the clip.

  newtype byte = x: int | 0 <= x < 256

  const MAX_LINE_BYTES: nat := 1024 * 1024
  const READ_SIZE: nat := 65536
  const NEWLINE: byte := 10

  datatype Line = Whole(bytes: seq<byte>) | Clipped(head: seq<byte>)

  // ---------------------------------------------------------------- the simple reading

  function Render(piece: seq<byte>): Line {
    if |piece| > MAX_LINE_BYTES then Clipped(piece[..MAX_LINE_BYTES]) else Whole(piece)
  }

  function RenderAll(pieces: seq<seq<byte>>): seq<Line> {
    seq(|pieces|, i requires 0 <= i < |pieces| => Render(pieces[i]))
  }

  /** The pieces between newlines. */
  function Pieces(stream: seq<byte>): (pieces: seq<seq<byte>>)
    ensures pieces != []
  {
    Split(stream, NEWLINE)
  }

  /** What a reader of the whole stream would list: every piece, clipped if it is too long,
      and nothing for an empty piece at the very end. */
  function Lines(stream: seq<byte>): seq<Line> {
    var pieces := Pieces(stream);
    RenderAll(if Last(pieces) == [] then Init(pieces) else pieces)
  }

  ghost predicate NewlineFree(s: seq<byte>) {
    Free(s, NEWLINE)
  }

  /** Everything received before the reader reports the end of the stream (an empty read). */
  function Received(chunks: seq<seq<byte>>): seq<byte> {
    if chunks == [] || chunks[0] == [] then [] else chunks[0] + Received(chunks[1..])
  }

  /** The pieces are what the stream was joined from, each without a newline. */
  lemma PiecesAreTheSplit(stream: seq<byte>)
    ensures Join(Pieces(stream), 10) == stream && AllFree(Pieces(stream), 10)
    ensures forall pieces: seq<seq<byte>> ::
              pieces != [] && AllFree(pieces, 10) && Join(pieces, 10) == stream ==> pieces == Pieces(stream)
  {
    SplitJoins(stream, NEWLINE);
    SplitIsFree(stream, NEWLINE);
    forall pieces: seq<seq<byte>> | pieces != [] && AllFree(pieces, NEWLINE) && Join(pieces, NEWLINE) == stream
      ensures pieces == Pieces(stream)
    {
      SplitIsUnique(pieces, NEWLINE);
    }
  }

  /** A stream of lines reads as those lines, each up to a mebibyte as it is and a longer one as its
      first mebibyte; what follows the last newline is a line if there is anything. */
  lemma LinesOfPieces(pieces: seq<seq<byte>>)
    requires pieces != [] && AllFree(pieces, 10)
    ensures var lines := Lines(Join(pieces, 10));
            && |lines| == (if Last(pieces) == [] then |pieces| - 1 else |pieces|)
            && forall i :: 0 <= i < |lines| ==>
                 lines[i] == if |pieces[i]| <= 1048576 then Whole(pieces[i]) else Clipped(pieces[i][..1048576])
  {
    SplitIsUnique(pieces, NEWLINE);
    hide Split;
  }

  lemma RenderAllAppend(pieces: seq<seq<byte>>, piece: seq<byte>)
    ensures RenderAll(pieces + [piece]) == RenderAll(pieces) + [Render(piece)]
  {
  }

  // ---------------------------------------------------------------- the loop

  /** `bytearray.find(b"\n", start)`. */
  function Find(s: seq<byte>, start: nat): (at: int)
    requires start <= |s|
    ensures at == -1 || start <= at < |s|
    ensures at == -1 ==> NewlineFree(s[start..])
    ensures at != -1 ==> s[at] == NEWLINE && NewlineFree(s[start..at])
    decreases |s| - start
  {
    if start == |s| then -1
    else if s[start] == NEWLINE then start
    else
      var rest := Find(s, start + 1);
      assert s[start..] == [s[start]] + s[start + 1..];
      assert rest != -1 ==> s[start..rest] == [s[start]] + s[start + 1..rest];
      rest
  }

  /** What the loop has yielded once it has consumed the bytes `done`: every finished piece,
      and while it is dropping also the head of the piece it is in. */
  ghost predicate Consumed(done: seq<byte>, dropping: bool, lines: seq<Line>) {
    var pieces := Pieces(done);
    if dropping then
      |Last(pieces)| > MAX_LINE_BYTES &&
      lines == RenderAll(Init(pieces)) + [Clipped(Last(pieces)[..MAX_LINE_BYTES])]
    else
      Last(pieces) == [] && lines == RenderAll(Init(pieces))
  }

  /** A newline ends the piece the loop is in. */
  lemma PieceEnds(done: seq<byte>, dropping: bool, lines: seq<Line>, piece: seq<byte>)
    requires Consumed(done, dropping, lines) && NewlineFree(piece)
    ensures Consumed(done + (piece + [NEWLINE]), false, if dropping then lines else lines + [Render(piece)])
  {
    SplitExtends(done, piece, NEWLINE);
    SplitAtSeparator(done + piece, NEWLINE);
    assert done + piece + [NEWLINE] == done + (piece + [NEWLINE]);
    var pieces := Pieces(done);
    var whole := Last(pieces) + piece;
    assert Init(Pieces(done + (piece + [NEWLINE]))) == Init(pieces) + [whole];
    RenderAllAppend(Init(pieces), whole);
    if dropping {
      assert whole[..MAX_LINE_BYTES] == Last(pieces)[..MAX_LINE_BYTES];
    } else {
      assert whole == piece;
    }
  }

  /** Bytes without a newline that are cut off the buffer belong to a piece that is too long. */
  lemma PieceDropped(done: seq<byte>, dropping: bool, lines: seq<Line>, run: seq<byte>)
    requires Consumed(done, dropping, lines) && NewlineFree(run)
    requires dropping || |run| > MAX_LINE_BYTES
    ensures Consumed(done + run, true,
                     if dropping then lines else lines + [Clipped(run[..MAX_LINE_BYTES])])
  {
    SplitExtends(done, run, NEWLINE);
    var pieces := Pieces(done);
    var whole := Last(pieces) + run;
    assert Init(Pieces(done + run)) == Init(pieces);
    if dropping {
      assert whole[..MAX_LINE_BYTES] == Last(pieces)[..MAX_LINE_BYTES];
    } else {
      assert whole == run;
    }
  }

  /** The end of the stream: what is left in the buffer is the last line. */
  lemma StreamEnds(done: seq<byte>, dropping: bool, lines: seq<Line>, pending: seq<byte>)
    requires Consumed(done, dropping, lines) && NewlineFree(pending) && |pending| <= MAX_LINE_BYTES
    requires dropping ==> pending == []
    ensures Lines(done + pending)
            == if pending != [] && !dropping then lines + [Whole(pending)] else lines
  {
    SplitExtends(done, pending, NEWLINE);
    var pieces := Pieces(done);
    if dropping {
      assert done + pending == done;
      assert Init(pieces) + [Last(pieces)] == pieces;
      RenderAllAppend(Init(pieces), Last(pieces));
    } else {
      assert Last(pieces) + pending == pending;
      RenderAllAppend(Init(pieces), pending);
    }
  }

  lemma {:induction false} ReceivedUpTo(chunks: seq<seq<byte>>, n: nat)
    requires n <= |chunks| && forall i :: 0 <= i < n ==> chunks[i] != []
    ensures Received(chunks) == Received(chunks[..n]) + Received(chunks[n..])
  {
    if n == 0 {
    } else {
      ReceivedUpTo(chunks[1..], n - 1);
      assert chunks[..n][1..] == chunks[1..][..n - 1];
      assert chunks[n..] == chunks[1..][n - 1..];
    }
  }

  lemma ReceivedNext(chunks: seq<seq<byte>>, n: nat)
    requires n < |chunks| && forall i :: 0 <= i <= n ==> chunks[i] != []
    ensures Received(chunks[..n + 1]) == Received(chunks[..n]) + chunks[n]
  {
    ReceivedUpTo(chunks[..n + 1], n);
    assert chunks[..n + 1][..n] == chunks[..n];
    assert chunks[..n + 1][n..] == [chunks[n]];
    assert Received([chunks[n]]) == chunks[n] + Received([]);
  }

  /** Where a search from `start` leaves the buffer, nothing before `start` being a newline. */
  lemma FoundNext(done: seq<byte>, pending: seq<byte>, start: nat)
    requires start <= |pending| && NewlineFree(pending[..start])
    ensures var at := Find(pending, start);
            if at == -1 then NewlineFree(pending) && pending[..|pending|] == pending
            else
              && NewlineFree(pending[..at])
              && pending[..at + 1] == pending[..at] + [NEWLINE]
              && done + pending[..at + 1] + pending[at + 1..] == done + pending
              && pending[at + 1..][..0] == []
  {
    var at := Find(pending, start);
    if at == -1 {
      assert pending == pending[..start] + pending[start..];
    } else {
      assert pending[..at] == pending[..start] + pending[start..at];
      assert done + pending[..at + 1] + pending[at + 1..] == done + pending;
    }
  }

  lemma ReceivedAtEnd(chunks: seq<seq<byte>>, n: nat)
    requires n <= |chunks| && forall i :: 0 <= i < n ==> chunks[i] != []
    requires n == |chunks| || chunks[n] == []
    ensures Received(chunks) == Received(chunks[..n])
  {
    ReceivedUpTo(chunks, n);
    assert Received(chunks[n..]) == [];
  }

  lemma NothingIsNewlineFree()
    ensures NewlineFree([])
  {
  }

  lemma Start(chunks: seq<seq<byte>>)
    ensures Received(chunks[..0]) == [] && Consumed([], false, []) && NewlineFree([])
  {
  }

  /** The inner loop: take every line the buffer holds. No newline lies before `from`, so the
      search starts there; afterwards none is left, and the buffer is no longer than the cap.
      `done` are the bytes consumed so far, `searched` counts the bytes looked at. */
  method TakeLines(buffer: seq<byte>, from: nat, wasDropping: bool, before: seq<Line>, ghost done0: seq<byte>)
    returns (pending: seq<byte>, searchFrom: nat, dropping: bool, lines: seq<Line>, searched: nat, ghost done: seq<byte>)
    requires from <= |buffer| && NewlineFree(buffer[..from]) && (wasDropping ==> from == 0)
    requires Consumed(done0, wasDropping, before)
    ensures done + pending == done0 + buffer && Consumed(done, dropping, lines)
    ensures NewlineFree(pending) && searchFrom == |pending| <= MAX_LINE_BYTES
    ensures dropping ==> pending == []
    ensures searched == |buffer| - from
  {
    hide Consumed, NewlineFree, Find, Pieces;
    NothingIsNewlineFree();
    pending, searchFrom, dropping, lines, searched, done := buffer, from, wasDropping, before, 0, done0;
    while true
      invariant done + pending == done0 + buffer
      invariant Consumed(done, dropping, lines)
      invariant searchFrom <= |pending| && NewlineFree(pending[..searchFrom])
      invariant dropping ==> searchFrom == 0
      invariant searched + |pending| - searchFrom == |buffer| - from
      decreases |pending|
    {
      var newline := Find(pending, searchFrom);
      searched := searched + (if newline == -1 then |pending| else newline + 1) - searchFrom;
      FoundNext(done, pending, searchFrom);
      if dropping {
        if newline == -1 {
          PieceDropped(done, dropping, lines, pending);
          done := done + pending;
          pending, searchFrom := [], 0;
          break;
        }
        PieceEnds(done, dropping, lines, pending[..newline]);
        done := done + pending[..newline + 1];
        pending, dropping, searchFrom := pending[newline + 1..], false, 0;
        continue;
      }
      if newline == -1 {
        if |pending| > MAX_LINE_BYTES {
          PieceDropped(done, dropping, lines, pending);
          lines := lines + [Clipped(pending[..MAX_LINE_BYTES])];
          done := done + pending;
          pending, dropping, searchFrom := [], true, 0;
        } else {
          searchFrom := |pending|;
        }
        break;
      }
      var line := pending[..newline];
      PieceEnds(done, dropping, lines, line);
      done := done + pending[..newline + 1];
      pending, searchFrom := pending[newline + 1..], 0;
      if |line| > MAX_LINE_BYTES {
        lines := lines + [Clipped(line[..MAX_LINE_BYTES])];
      } else {
        lines := lines + [Whole(line)];
      }
    }
  }

  /** The outer loop. `chunks` are the answers of successive reads, the first empty one being
      the end of the stream. `searched` counts the bytes the newline search looks at, `held`
      is the largest the buffer gets between two reads and `peak` at any time. */
  method StreamLines(chunks: seq<seq<byte>>)
    returns (lines: seq<Line>, searched: nat, held: nat, peak: nat)
    requires forall i :: 0 <= i < |chunks| ==> |chunks[i]| <= READ_SIZE
    ensures lines == Lines(Received(chunks))
    ensures searched == |Received(chunks)|
    ensures held <= 1048576 && peak <= 1048576 + 65536
  {
    hide Consumed, Lines, Received, Pieces, NewlineFree;
    Start(chunks);
    var pending: seq<byte>, searchFrom, dropping := [], 0, false;
    lines, searched, held, peak := [], 0, 0, 0;
    ghost var done: seq<byte> := [];
    var next := 0;
    while next < |chunks| && chunks[next] != []
      invariant next <= |chunks| && forall i :: 0 <= i < next ==> chunks[i] != []
      invariant done + pending == Received(chunks[..next])
      invariant Consumed(done, dropping, lines)
      invariant NewlineFree(pending) && searchFrom == |pending| <= MAX_LINE_BYTES
      invariant dropping ==> pending == []
      invariant searched == |done + pending|
      invariant held <= MAX_LINE_BYTES && peak <= MAX_LINE_BYTES + READ_SIZE
    {
      var raw := chunks[next];
      ReceivedNext(chunks, next);
      assert done + (pending + raw) == done + pending + raw;
      assert (pending + raw)[..searchFrom] == pending;
      pending := pending + raw;
      next := next + 1;
      peak := if |pending| > peak then |pending| else peak;
      var looked: nat;
      pending, searchFrom, dropping, lines, looked, done :=
        TakeLines(pending, searchFrom, dropping, lines, done);
      searched := searched + looked;
      held := if |pending| > held then |pending| else held;
    }
    StreamEnds(done, dropping, lines, pending);
    ReceivedAtEnd(chunks, next);
    if pending != [] && !dropping {
      lines := lines + [Whole(pending)];
    }
  }
}
