/** The delimiter-framed reader of the debugger connection. Input arrives in chunks. */
module StreamFraming {
  import opened Bytes
  import opened Collections

  // ----- streams and lines

  /** The lines, each followed by the delimiter. */
  function Join(lines: seq<bytes>, delim: byte): bytes {
    if lines == [] then [] else lines[0] + [delim] + Join(lines[1..], delim)
  }

  /** All lines of a stream that are complete. */
  function Split(s: bytes, delim: byte): seq<bytes>
    decreases |s|
  {
    var i := IndexOf(s, delim);
    if i == |s| then [] else [s[..i]] + Split(s[i + 1..], delim)
  }

  ghost predicate Clean(lines: seq<bytes>, delim: byte) {
    forall i | 0 <= i < |lines| :: delim !in lines[i]
  }

  lemma {:induction false} JoinAppend(lines: seq<bytes>, line: bytes, delim: byte)
    ensures Join(lines + [line], delim) == Join(lines, delim) + line + [delim]
  {
    if lines == [] {
      assert [line][1..] == [] && lines + [line] == [line];
    } else {
      assert (lines + [line])[1..] == lines[1..] + [line];
      JoinAppend(lines[1..], line, delim);
    }
  }

  lemma {:induction false} IndexOfLine(line: bytes, delim: byte, more: bytes)
    requires delim !in line
    ensures IndexOf(line + [delim] + more, delim) == |line|
  {
    var s := line + [delim] + more;
    if line != [] {
      assert s[1..] == line[1..] + [delim] + more;
      IndexOfLine(line[1..], delim, more);
    }
  }

  lemma SplitLine(line: bytes, delim: byte, more: bytes)
    requires delim !in line
    ensures Split(line + [delim] + more, delim) == [line] + Split(more, delim)
  {
    var s := line + [delim] + more;
    IndexOfLine(line, delim, more);
    assert s[..|line|] == line && s[|line| + 1..] == more;
  }

  /** Splitting undoes joining: clean lines come back first, whatever follows. */
  lemma {:induction false} SplitOfJoin(lines: seq<bytes>, delim: byte, rest: bytes)
    requires Clean(lines, delim)
    ensures Split(Join(lines, delim) + rest, delim) == lines + Split(rest, delim)
  {
    if lines == [] {
      assert Join(lines, delim) + rest == rest;
    } else {
      var more := Join(lines[1..], delim) + rest;
      Regroup(lines[0] + [delim], Join(lines[1..], delim), rest);
      SplitLine(lines[0], delim, more);
      SplitOfJoin(lines[1..], delim, rest);
      Regroup([lines[0]], lines[1..], Split(rest, delim));
      assert [lines[0]] + lines[1..] == lines;
    }
  }

  // ----- the reader

  /** The peer: what every further read returns. An empty chunk stands for a read that
      fails or finds the end of the stream. */
  class Socket {
    var chunks: seq<bytes>

    constructor (chunks: seq<bytes>)
      ensures this.chunks == chunks
    {
      this.chunks := chunks;
    }

    method Read() returns (chunk: bytes)
      modifies this
      ensures old(chunks) == [] ==> chunk == [] && chunks == []
      ensures old(chunks) != [] ==> chunk == old(chunks)[0] && chunks == old(chunks)[1..]
    {
      chunk := [];
      if chunks != [] {
        chunk, chunks := chunks[0], chunks[1..];
      }
    }
  }

  /** Whether the buffer makes the reader stop reading. */
  predicate Complete(buffer: bytes, delim: byte) {
    |buffer| >= 1 && buffer[|buffer| - 1] == delim
  }

  function Concat(chunks: seq<bytes>): bytes {
    if chunks == [] then [] else chunks[0] + Concat(chunks[1..])
  }

  /** The chunks before the first read that fails. */
  function Live(chunks: seq<bytes>): seq<bytes> {
    if chunks == [] || chunks[0] == [] then [] else [chunks[0]] + Live(chunks[1..])
  }

  /** What is left after that read. */
  function Later(chunks: seq<bytes>): seq<bytes> {
    if chunks == [] then [] else if chunks[0] == [] then chunks[1..] else Later(chunks[1..])
  }

  /** How many pieces there are up to the last that ends with the delimiter. */
  function LastEnding(pieces: seq<bytes>, delim: byte): (k: nat)
    ensures k <= |pieces| && (k > 0 ==> Complete(pieces[k - 1], delim))
    ensures forall j | k <= j < |pieces| :: !Complete(pieces[j], delim)
  {
    if pieces == [] then 0
    else
      var k := LastEnding(pieces[1..], delim);
      if k > 0 then k + 1 else if Complete(pieces[0], delim) then 1 else 0
  }

  /** The bytes up to that piece, and those behind it. */
  function Due(pieces: seq<bytes>, delim: byte): bytes {
    Concat(pieces[..LastEnding(pieces, delim)])
  }

  function Held(pieces: seq<bytes>, delim: byte): bytes {
    Concat(pieces[LastEnding(pieces, delim)..])
  }

  lemma DueUnfolds(piece: bytes, more: seq<bytes>, delim: byte)
    ensures (LastEnding(more, delim) > 0) == (Due(more, delim) != [])
    ensures Due([piece] + more, delim) ==
      if Due(more, delim) != [] then piece + Due(more, delim) else if Complete(piece, delim) then piece else []
    ensures Held([piece] + more, delim) ==
      if Due(more, delim) != [] then Held(more, delim)
      else if Complete(piece, delim) then Concat(more) else piece + Concat(more)
  {
    var p, k := [piece] + more, LastEnding(more, delim);
    assert p[1..] == more;
    if k > 0 {
      ConcatHas(more[..k], k - 1);
      assert p[..k + 1] == [piece] + more[..k] && ([piece] + more[..k])[1..] == more[..k];
      assert p[k + 1..] == more[k..];
    } else if Complete(piece, delim) {
      assert p[..1] == [piece] && [piece][1..] == [];
    } else {
      assert p[0..] == p;
    }
  }

  lemma {:induction false} ConcatHas(pieces: seq<bytes>, k: nat)
    requires k < |pieces| && pieces[k] != []
    ensures Concat(pieces) != []
  {
    if k > 0 {
      ConcatHas(pieces[1..], k - 1);
    }
  }

  /** Reading a chunk behind an incomplete buffer leaves open what is due. */
  lemma PiecesMerge(buffer: bytes, chunk: bytes, more: seq<bytes>, delim: byte)
    requires !Complete(buffer, delim) && chunk != []
    ensures Due([buffer + chunk] + more, delim) == Due([buffer] + ([chunk] + more), delim)
    ensures Held([buffer + chunk] + more, delim) == Held([buffer] + ([chunk] + more), delim)
  {
    DueUnfolds(buffer + chunk, more, delim);
    DueUnfolds(chunk, more, delim);
    DueUnfolds(buffer, [chunk] + more, delim);
    assert Complete(buffer + chunk, delim) <==> Complete(chunk, delim);
    ConcatFirst(chunk, more);
    Regroup(buffer, chunk, Concat(more));
    Regroup(buffer, chunk, Due(more, delim));
  }

  lemma ConcatFirst(piece: bytes, more: seq<bytes>)
    ensures Concat([piece] + more) == piece + Concat(more)
  {
    assert ([piece] + more)[1..] == more;
  }

  /** Cutting the first line off a complete buffer takes it off what is due. */
  lemma PiecesCut(line: bytes, rest: bytes, more: seq<bytes>, delim: byte)
    requires rest == [] || Complete(rest, delim)
    ensures Due([line + [delim] + rest] + more, delim) == line + [delim] + Due([rest] + more, delim)
    ensures Held([line + [delim] + rest] + more, delim) == Held([rest] + more, delim)
  {
    DueUnfolds(line + [delim] + rest, more, delim);
    DueUnfolds(rest, more, delim);
    assert Complete(line + [delim] + rest, delim);
    Regroup(line + [delim], rest, Due(more, delim));
  }

  /** fd_buf, with what has gone through it so far. */
  class FdBuf {
    var buffer: bytes
    const delim: byte

    ghost var lines: seq<bytes>
    ghost var received: bytes

    /** No byte is lost, added or moved, and no line holds the delimiter. */
    ghost predicate Valid()
      reads this
    {
      Join(lines, delim) + buffer == received && Clean(lines, delim)
    }

    constructor (delim: byte)
      ensures Valid() && lines == [] && received == [] && this.delim == delim
    {
      buffer, lines, received := [], [], [];
      this.delim := delim;
    }

    /** Append what was read. */
    method Append(newl: bytes)
      requires Valid()
      modifies `buffer, `received
      ensures Valid() && buffer == old(buffer) + newl && received == old(received) + newl
    {
      assert Join(lines, delim) + (buffer + newl) == (Join(lines, delim) + buffer) + newl;
      buffer, received := buffer + newl, received + newl;
    }

    /** Cut the first line off the buffer. */
    method TakeLine() returns (tmp: bytes)
      requires Valid() && Complete(buffer, delim)
      modifies `buffer, `lines
      ensures Valid() && lines == old(lines) + [tmp]
      ensures old(buffer) == tmp + [delim] + buffer && (buffer == [] || Complete(buffer, delim))
    {
      var size := IndexOf(buffer, delim);
      IndexOfFirst(buffer, delim);
      tmp := buffer[..size];
      var rest := buffer[size + 1..];
      JoinAppend(lines, tmp, delim);
      assert Join(lines, delim) + buffer == Join(lines, delim) + tmp + [delim] + rest;
      lines := lines + [tmp];
      buffer := rest;
    }

    /** What is buffered and what will be read before a read fails. */
    ghost function Pieces(socket: Socket): seq<bytes>
      reads this, socket
    {
      [buffer] + Live(socket.chunks)
    }

    /** One read: its bytes are appended, or it fails. */
    method Receive(socket: Socket) returns (ok: bool)
      requires Valid() && !Complete(buffer, delim)
      modifies `buffer, `received, socket
      ensures Valid()
      ensures received + Concat(socket.chunks) == old(received + Concat(socket.chunks))
      ensures ok ==>
        && Due(Pieces(socket), delim) == old(Due(Pieces(socket), delim))
        && Held(Pieces(socket), delim) == old(Held(Pieces(socket), delim))
        && Later(socket.chunks) == old(Later(socket.chunks)) && |socket.chunks| < old(|socket.chunks|)
      ensures !ok ==>
        && old(Due(Pieces(socket), delim)) == []
        && buffer == old(Held(Pieces(socket), delim)) && socket.chunks == old(Later(socket.chunks))
    {
      var newl := socket.Read();
      ok := newl != [];
      if ok {
        Append(newl);
        Regroup(old(received), newl, Concat(socket.chunks));
        PiecesMerge(old(buffer), newl, Live(socket.chunks), delim);
      } else {
        Exhausted(buffer, delim);
      }
    }

    /** xdebug_fd_read_line_delim */
    method ReadLineDelim(socket: Socket) returns (line: Option<bytes>)
      requires Valid()
      modifies this, socket
      ensures Valid()
      ensures received + Concat(socket.chunks) == old(received + Concat(socket.chunks))
      ensures lines == old(lines) + if line.Some? then [line.value] else []
      ensures line.None? <==> old(Due(Pieces(socket), delim)) == []
      ensures line.None? ==> buffer == old(Held(Pieces(socket), delim)) && socket.chunks == old(Later(socket.chunks))
      ensures line.Some? ==>
        && old(Due(Pieces(socket), delim)) == line.value + [delim] + Due(Pieces(socket), delim)
        && old(Held(Pieces(socket), delim)) == Held(Pieces(socket), delim)
        && Later(socket.chunks) == old(Later(socket.chunks))
    {
      while !Complete(buffer, delim)
        invariant Valid() && lines == old(lines)
        invariant received + Concat(socket.chunks) == old(received + Concat(socket.chunks))
        invariant Due(Pieces(socket), delim) == old(Due(Pieces(socket), delim))
        invariant Held(Pieces(socket), delim) == old(Held(Pieces(socket), delim))
        invariant Later(socket.chunks) == old(Later(socket.chunks))
        decreases |socket.chunks|
      {
        var ok := Receive(socket);
        if !ok {
          return None;
        }
      }
      var tmp := TakeLine();
      PiecesCut(tmp, buffer, Live(socket.chunks), delim);
      line := Some(tmp);
    }
  }

  lemma SplitAll(lines: seq<bytes>, delim: byte)
    requires Clean(lines, delim)
    ensures Split(Join(lines, delim) + [], delim) == lines
  {
    SplitOfJoin(lines, delim, []);
  }

  lemma CleanAppend(all: seq<bytes>, lines: seq<bytes>, line: bytes, delim: byte)
    requires Clean(all + [line], delim) && Clean(lines, delim)
    ensures delim !in line && Clean(lines + [line], delim)
  {
    assert (all + [line])[|all|] == line;
  }

  lemma JoinMore(lines: seq<bytes>, line: bytes, delim: byte, more: bytes)
    ensures Join(lines, delim) + (line + [delim] + more) == Join(lines + [line], delim) + more
  {
    JoinAppend(lines, line, delim);
    Regroup(Join(lines, delim), line + [delim], more);
    Regroup(Join(lines, delim), line, [delim]);
  }

  /** When a read fails with an incomplete buffer, nothing is due. */
  lemma Exhausted(buffer: bytes, delim: byte)
    requires !Complete(buffer, delim)
    ensures Due([buffer] + [], delim) == [] && Held([buffer] + [], delim) == buffer
  {
    DueUnfolds(buffer, [], delim);
  }

  // ----- over whole runs

  /** The lines that were returned are the first lines of the stream, however much of it
      has arrived and whatever is still to come. */
  lemma LinesArePrefix(lines: seq<bytes>, buffer: bytes, delim: byte, more: bytes)
    requires Clean(lines, delim)
    ensures lines <= Split(Join(lines, delim) + buffer + more, delim)
  {
    assert Join(lines, delim) + buffer + more == Join(lines, delim) + (buffer + more);
    SplitOfJoin(lines, delim, buffer + more);
  }

  /** How a stream is cut into chunks does not matter: of two readers of one stream, one
      has returned the first lines of the other. */
  lemma ChunkingIsIrrelevant(stream: bytes, delim: byte, lines: seq<bytes>, buffer: bytes, more: bytes,
                             lines': seq<bytes>, buffer': bytes, more': bytes)
    requires Clean(lines, delim) && Join(lines, delim) + buffer + more == stream
    requires Clean(lines', delim) && Join(lines', delim) + buffer' + more' == stream
    ensures if |lines| <= |lines'| then lines <= lines' else lines' <= lines
  {
    LinesArePrefix(lines, buffer, delim, more);
    LinesArePrefix(lines', buffer', delim, more');
  }

  lemma {:induction false} NoDelimiterNoLine(s: bytes, delim: byte)
    ensures Split(s, delim) == [] <==> delim !in s
  {
    IndexOfFirst(s, delim);
    assert s[..|s|] == s;
  }

  lemma {:induction false} JoinOfSplit(s: bytes, delim: byte)
    requires s == [] || Complete(s, delim)
    ensures Join(Split(s, delim), delim) == s && Clean(Split(s, delim), delim)
    decreases |s|
  {
    if s != [] {
      var i := IndexOf(s, delim);
      IndexOfFirst(s, delim);
      assert s == s[..i] + [delim] + s[i + 1..];
      JoinOfSplit(s[i + 1..], delim);
      JoinFirst(s[..i], Split(s[i + 1..], delim), delim);
    }
  }

  lemma JoinFirst(line: bytes, lines: seq<bytes>, delim: byte)
    requires delim !in line && Clean(lines, delim)
    ensures Join([line] + lines, delim) == line + [delim] + Join(lines, delim)
    ensures Clean([line] + lines, delim)
  {
    assert ([line] + lines)[1..] == lines;
  }

  lemma {:induction false} ConcatSplits(pieces: seq<bytes>, k: nat)
    requires k <= |pieces|
    ensures Concat(pieces) == Concat(pieces[..k]) + Concat(pieces[k..])
  {
    if k > 0 {
      ConcatSplits(pieces[1..], k - 1);
      assert pieces[1..][..k - 1] == pieces[..k][1..] && pieces[1..][k - 1..] == pieces[k..];
    } else {
      assert pieces[..0] == [] && pieces[0..] == pieces;
    }
  }

  lemma {:induction false} ConcatEnds(pieces: seq<bytes>, k: nat, delim: byte)
    requires 0 < k <= |pieces| && Complete(pieces[k - 1], delim)
    ensures Complete(Concat(pieces[..k]), delim)
  {
    if k == 1 {
      assert pieces[..1] == [pieces[0]] && [pieces[0]][1..] == [];
    } else {
      ConcatEnds(pieces[1..], k - 1, delim);
      assert pieces[1..][..k - 1] == pieces[..k][1..];
    }
  }

  lemma {:induction false} ConcatHolds(pieces: seq<bytes>, delim: byte)
    ensures delim in Concat(pieces) <==> exists j | 0 <= j < |pieces| :: delim in pieces[j]
  {
    if pieces != [] {
      ConcatHolds(pieces[1..], delim);
      if j :| 0 <= j < |pieces| && delim in pieces[j] {
        assert j > 0 ==> delim in pieces[1..][j - 1];
      }
    }
  }

  /** The lines returned for these pieces are all the complete ones exactly when no piece
      behind the last that ends with the delimiter holds one. */
  lemma NothingWithheld(pieces: seq<bytes>, delim: byte)
    ensures Split(Due(pieces, delim), delim) <= Split(Concat(pieces), delim)
    ensures Split(Due(pieces, delim), delim) == Split(Concat(pieces), delim) <==>
      forall j | LastEnding(pieces, delim) <= j < |pieces| :: delim !in pieces[j]
  {
    DueIsSplit(pieces, delim);
    HeldHolds(pieces, delim);
    NoDelimiterNoLine(Held(pieces, delim), delim);
    PrefixOfSum(Split(Due(pieces, delim), delim), Split(Held(pieces, delim), delim));
  }

  lemma PrefixOfSum<T>(s: seq<T>, t: seq<T>)
    ensures s <= s + t && (s == s + t <==> t == [])
  {
    if t != [] {
      assert |s + t| > |s|;
    }
  }

  lemma HeldHolds(pieces: seq<bytes>, delim: byte)
    ensures delim in Held(pieces, delim) <==>
      exists j | LastEnding(pieces, delim) <= j < |pieces| :: delim in pieces[j]
  {
    var k := LastEnding(pieces, delim);
    ConcatHolds(pieces[k..], delim);
    if j :| k <= j < |pieces| && delim in pieces[j] {
      assert delim in pieces[k..][j - k];
    }
  }

  lemma DueIsSplit(pieces: seq<bytes>, delim: byte)
    ensures Split(Concat(pieces), delim) == Split(Due(pieces, delim), delim) + Split(Held(pieces, delim), delim)
  {
    var k := LastEnding(pieces, delim);
    ConcatSplits(pieces, k);
    if k > 0 {
      ConcatEnds(pieces, k, delim);
    }
    JoinOfSplit(Due(pieces, delim), delim);
    SplitOfJoin(Split(Due(pieces, delim), delim), delim, Held(pieces, delim));
  }

  /** A line can be complete and withheld: the reader waits for a chunk that ends with
      the delimiter. */
  lemma LineWithheld(a: byte, b: byte, delim: byte)
    requires a != delim && b != delim
    ensures Split([a, delim, b], delim) == [[a]] && Due([[], [a, delim, b]], delim) == []
  {
    var s := [a, delim, b];
    assert s == [a] + [delim] + [b];
    SplitLine([a], delim, [b]);
    NoDelimiterNoLine([b], delim);
    assert LastEnding([[], s], delim) == 0;
  }
}
