/** The two bounded line readers of the IPC sockets: the daemon's over `read`
    (crates/daemon/src/adapters/ipc.rs:257-286) and the lock screen's over `BufRead`
    (crates/curtain/src/ipc/auth.rs:166-195). */
module BoundedLines {
  import opened Bytes

  const IPC_MAX_LINE_BYTES: nat := 64 * 1024
  const NEWLINE: byte := 10

  /** How the stream ends once its bytes are used up. */
  datatype Ending = EndOfFile | Broken

  datatype Line =
    | Text(line: seq<byte>)
    | NoLine
    | TooLong
    | EndedEarly
    | NotUtf8
    | ReadFailed

  /** `String::from_utf8` accepts the bytes. */
  type Utf8 = seq<byte> -> bool

  /** The index of the first newline, or the length. */
  function LineEnd(bytes: seq<byte>): (index: nat)
    ensures index <= |bytes|
    ensures index < |bytes| ==> bytes[index] == NEWLINE
    ensures forall i | 0 <= i < index :: bytes[i] != NEWLINE
  {
    if bytes == [] || bytes[0] == NEWLINE then 0 else 1 + LineEnd(bytes[1..])
  }

  /** What a reader returns, by the bytes of the stream alone. */
  function FirstLine(bytes: seq<byte>, ending: Ending, utf8: Utf8): Line {
    var end := LineEnd(bytes);
    if end > IPC_MAX_LINE_BYTES then TooLong
    else if end < |bytes| then if utf8(bytes[..end]) then Text(bytes[..end]) else NotUtf8
    else if ending.Broken? then ReadFailed
    else if bytes == [] then NoLine
    else EndedEarly
  }

  /** A line comes back exactly when a newline (10) sits within the first 64 KiB and one byte
      and what stands before it is UTF-8. */
  lemma FirstLineIff(bytes: seq<byte>, ending: Ending, utf8: Utf8, line: seq<byte>)
    ensures FirstLine(bytes, ending, utf8) == Text(line) <==>
      && |line| <= 65_536 && 10 !in line && utf8(line)
      && |line| < |bytes| && bytes[..|line| + 1] == line + [10]
  {
    var end := LineEnd(bytes);
    if end < |bytes| {
      assert bytes[..end + 1] == bytes[..end] + [NEWLINE];
      assert NEWLINE !in bytes[..end];
    }
    if |line| < |bytes| && bytes[..|line| + 1] == line + [NEWLINE] && NEWLINE !in line {
      assert bytes[..|line| + 1][|line|] == NEWLINE;
      assert forall i | 0 <= i < |line| :: bytes[i] == bytes[..|line| + 1][i] == line[i] && line[i] in line;
      assert bytes[..|line|] == line;
    }
  }

  /** Which error comes back without a line: too long exactly when more than 64 KiB hold no newline; and when the stream
      ends before that, the way it ended decides. */
  lemma FirstLineErrors(bytes: seq<byte>, ending: Ending, utf8: Utf8)
    ensures var result := FirstLine(bytes, ending, utf8);
            && (result == TooLong <==> |bytes| > 65_536 && 10 !in bytes[..65_537])
            && (result == ReadFailed <==> |bytes| <= 65_536 && 10 !in bytes && ending == Broken)
            && (result == NoLine <==> bytes == [] && ending == EndOfFile)
            && (result == EndedEarly <==> 0 < |bytes| <= 65_536 && 10 !in bytes && ending == EndOfFile)
  {
    var end := LineEnd(bytes);
    if end < |bytes| {
      assert bytes[end] in bytes;
      if end <= 65_536 < |bytes| {
        assert bytes[..65_537][end] == 10;
      }
    }
  }

  lemma LineEndInPrefix(line: seq<byte>, rest: seq<byte>)
    requires NEWLINE !in line
    ensures LineEnd(line + rest) == |line| + LineEnd(rest)
  {
    var end := LineEnd(line + rest);
    assert forall i | 0 <= i < |line| :: (line + rest)[i] == line[i] && line[i] in line;
    assert forall i | |line| <= i < |line + rest| :: (line + rest)[i] == rest[i - |line|];
    if end < |line + rest| {
      assert rest[end - |line|] == NEWLINE;
    }
    if LineEnd(rest) < |rest| {
      assert (line + rest)[|line| + LineEnd(rest)] == NEWLINE;
    }
  }

  // ---- A socket that delivers its bytes in pieces

  ghost function Flattened(chunks: seq<seq<byte>>): seq<byte> {
    if chunks == [] then [] else chunks[0] + Flattened(chunks[1..])
  }

  ghost predicate NonEmpty(chunks: seq<seq<byte>>) {
    forall i | 0 <= i < |chunks| :: chunks[i] != []
  }

  class Stream {
    var chunks: seq<seq<byte>>
    const ending: Ending

    ghost predicate Valid()
      reads this
    {
      NonEmpty(chunks)
    }

    /** The bytes still to come. */
    ghost function Rest(): seq<byte>
      reads this
    {
      Flattened(chunks)
    }

    constructor (pieces: seq<seq<byte>>, end: Ending)
      requires NonEmpty(pieces)
      ensures Valid() && chunks == pieces && ending == end
    {
      chunks, ending := pieces, end;
    }

    /** `read`: some of the bytes at hand, at most `limit`, or none at the end; false is an I/O error. */
    method Read(limit: nat) returns (ok: bool, bytes: seq<byte>)
      requires Valid() && limit > 0
      modifies this`chunks
      ensures Valid() && old(Rest()) == bytes + Rest()
      ensures |bytes| <= limit
      ensures ok <==> old(Rest()) != [] || ending == EndOfFile
      ensures bytes == [] <==> old(Rest()) == []
    {
      if chunks == [] {
        return ending == EndOfFile, [];
      }
      var first := chunks[0];
      if |first| <= limit {
        bytes, chunks := first, chunks[1..];
      } else {
        bytes, chunks := first[..limit], [first[limit..]] + chunks[1..];
        assert first == bytes + first[limit..];
      }
      ok := true;
    }

    /** The bytes at hand. */
    ghost function Front(): (bytes: seq<byte>)
      requires Valid()
      reads this
      ensures bytes <= Rest() && (bytes == [] <==> Rest() == [])
    {
      if chunks == [] then [] else chunks[0]
    }

    /** `fill_buf`: the bytes at hand, left in place. */
    method FillBuf() returns (ok: bool, bytes: seq<byte>)
      requires Valid()
      ensures ok <==> Rest() != [] || ending == EndOfFile
      ensures bytes == Front()
    {
      if chunks == [] {
        return ending == EndOfFile, [];
      }
      ok, bytes := true, chunks[0];
    }

    method Consume(count: nat)
      requires Valid() && count <= |Front()|
      modifies this`chunks
      ensures Valid() && count <= |old(Rest())| && Rest() == old(Rest())[count..]
    {
      if chunks == [] {
        return;
      }
      var first := chunks[0];
      assert Rest() == first + Flattened(chunks[1..]);
      if count == |first| {
        chunks := chunks[1..];
      } else {
        chunks := [first[count..]] + chunks[1..];
        assert Flattened(chunks) == first[count..] + Flattened(chunks[1..]);
      }
    }
  }

  lemma LineEndOfPart(part: seq<byte>, rest: seq<byte>)
    ensures if LineEnd(part) < |part| then LineEnd(part + rest) == LineEnd(part) else LineEnd(part + rest) >= |part|
    ensures NEWLINE !in part[..LineEnd(part)]
  {
    assert forall i | 0 <= i < |part| :: (part + rest)[i] == part[i];
  }

  /** What one more piece decides: too long, a line, or nothing yet. */
  lemma OnePieceMore(line: seq<byte>, piece: seq<byte>, rest: seq<byte>, ending: Ending, utf8: Utf8)
    requires NEWLINE !in line
    ensures var end, result := LineEnd(piece), FirstLine(line + (piece + rest), ending, utf8);
            if |line| + end > IPC_MAX_LINE_BYTES then result == TooLong
            else if end < |piece| then
              && result == (if utf8(line + piece[..end]) then Text(line + piece[..end]) else NotUtf8)
              && LineEnd(line + (piece + rest)) == |line| + end
            else NEWLINE !in line + piece[..end] && line + (piece + rest) == line + piece[..end] + rest
  {
    var end := LineEnd(piece);
    LineEndInPrefix(line, piece + rest);
    LineEndOfPart(piece, rest);
    Regrouped(line, piece, rest, end);
  }

  lemma Regrouped(line: seq<byte>, piece: seq<byte>, rest: seq<byte>, end: nat)
    requires end <= |piece|
    ensures |line| + end <= |line + (piece + rest)|
    ensures (line + (piece + rest))[..|line| + end] == line + piece[..end]
    ensures end == |piece| ==> line + (piece + rest) == line + piece[..end] + rest
  {
  }

  /** The daemon's reader, with its 1024-byte buffer: its result depends on the bytes, not on how they arrive. */
  method ReadBoundedLine(stream: Stream, utf8: Utf8) returns (result: Line)
    requires stream.Valid()
    modifies stream
    ensures result == FirstLine(old(stream.Rest()), stream.ending, utf8)
  {
    var line: seq<byte> := [];
    ghost var all := stream.Rest();
    assert all == line + all;
    while true
      invariant stream.Valid() && all == line + stream.Rest()
      invariant NEWLINE !in line && |line| <= IPC_MAX_LINE_BYTES
      decreases |stream.Rest()|
    {
      var ok, bytes := stream.Read(1024);
      if !ok || bytes == [] {
        NothingMore(line, stream.ending, utf8);
        return if !ok then ReadFailed else if line == [] then NoLine else EndedEarly;
      }
      OnePieceMore(line, bytes, stream.Rest(), stream.ending, utf8);
      var end := LineEnd(bytes);
      if |line| + end > IPC_MAX_LINE_BYTES {
        return TooLong;
      }
      line := line + bytes[..end];
      if end < |bytes| {
        return if utf8(line) then Text(line) else NotUtf8;
      }
    }
  }

  /** Exactly the first line and its newline are gone. */
  ghost predicate LineTaken(before: seq<byte>, after: seq<byte>) {
    LineEnd(before) < |before| && after == before[LineEnd(before) + 1..]
  }

  /** The lock screen's reader agrees, and on a line (or what would be one if it were UTF-8)
      it has taken exactly the line and its newline off the stream. */
  method ReadBufferedLine(stream: Stream, utf8: Utf8) returns (result: Line)
    requires stream.Valid()
    modifies stream
    ensures result == FirstLine(old(stream.Rest()), stream.ending, utf8)
    ensures result.Text? || result.NotUtf8? ==>
      stream.Valid() && LineTaken(old(stream.Rest()), stream.Rest())
  {
    var line: seq<byte> := [];
    ghost var all := stream.Rest();
    assert all == line + all;
    while true
      invariant stream.Valid() && all == line + stream.Rest()
      invariant NEWLINE !in line && |line| <= IPC_MAX_LINE_BYTES
      decreases |stream.Rest()|
    {
      var ok, buffer := stream.FillBuf();
      if !ok || buffer == [] {
        NothingMore(line, stream.ending, utf8);
        return if !ok then ReadFailed else if line == [] then NoLine else EndedEarly;
      }
      ghost var whole := stream.Rest();
      var end := LineEnd(buffer);
      OneBufferMore(line, buffer, whole, stream.ending, utf8);
      if |line| + end > IPC_MAX_LINE_BYTES {
        return TooLong;
      }
      line := line + buffer[..end];
      stream.Consume(if end < |buffer| then end + 1 else end);
      if end < |buffer| {
        return if utf8(line) then Text(line) else NotUtf8;
      }
    }
  }

  /** The same, when the piece is the front of a buffered stream and stays there until consumed. */
  lemma OneBufferMore(line: seq<byte>, piece: seq<byte>, whole: seq<byte>, ending: Ending, utf8: Utf8)
    requires NEWLINE !in line && piece <= whole
    ensures var end, result := LineEnd(piece), FirstLine(line + whole, ending, utf8);
            if |line| + end > IPC_MAX_LINE_BYTES then result == TooLong
            else if end < |piece| then
              && result == (if utf8(line + piece[..end]) then Text(line + piece[..end]) else NotUtf8)
              && LineTaken(line + whole, whole[end + 1..])
            else NEWLINE !in line + piece[..end] && line + whole == line + piece[..end] + whole[end..]
  {
    var rest := whole[|piece|..];
    assert whole == piece + rest;
    OnePieceMore(line, piece, rest, ending, utf8);
    if LineEnd(piece) < |piece| {
      AfterPart(line, whole, LineEnd(piece) + 1);
    }
  }

  lemma AfterPart(line: seq<byte>, rest: seq<byte>, count: nat)
    requires count <= |rest|
    ensures (line + rest)[|line| + count..] == rest[count..]
  {
  }

  lemma NothingMore(line: seq<byte>, ending: Ending, utf8: Utf8)
    requires NEWLINE !in line && |line| <= IPC_MAX_LINE_BYTES
    ensures FirstLine(line + [], ending, utf8)
            == if ending.Broken? then ReadFailed else if line == [] then NoLine else EndedEarly
  {
    LineEndInPrefix(line, []);
    assert line + [] == line;
  }
}
