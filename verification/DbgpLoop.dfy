/** The command loop of the debugger engine: lines are read from the connection until
    none is left, and each is parsed. */
module DbgpLoop {
  import opened Bytes
  import opened Collections
  import opened StreamFraming
  import opened DbgpCommand

  /** Every line of the protocol ends with a NUL. */
  const NUL: byte := 0

  /** The commands are what the lines mean. */
  ghost predicate Parsed(lines: seq<bytes>, commands: seq<Command>) {
    |commands| == |lines| && forall i | 0 <= i < |lines| :: commands[i] == ParseLine(lines[i])
  }

  /** The lines up to the first whose command ends the loop. */
  function UpTo(lines: seq<bytes>, goesOn: Command -> bool): (r: seq<bytes>)
    ensures r <= lines
  {
    if lines == [] then []
    else [lines[0]] + if goesOn(ParseLine(lines[0])) then UpTo(lines[1..], goesOn) else []
  }

  lemma {:induction false} UpToAll(lines: seq<bytes>, more: seq<bytes>, goesOn: Command -> bool)
    requires forall i | 0 <= i < |lines| :: goesOn(ParseLine(lines[i]))
    ensures UpTo(lines + more, goesOn) == lines + UpTo(more, goesOn)
  {
    if lines == [] {
      assert lines + more == more;
    } else {
      assert (lines + more)[1..] == lines[1..] + more;
      UpToAll(lines[1..], more, goesOn);
    }
  }

  lemma UpToStop(lines: seq<bytes>, line: bytes, more: seq<bytes>, goesOn: Command -> bool)
    requires forall i | 0 <= i < |lines| :: goesOn(ParseLine(lines[i]))
    requires !goesOn(ParseLine(line))
    ensures UpTo(lines + [line] + more, goesOn) == lines + [line]
  {
    Regroup(lines, [line], more);
    UpToAll(lines, [line] + more, goesOn);
  }

  /** lines have been read and parsed, all let the loop go on; with what is due they are
      what was due. */
  ghost predicate GoneOn(lines: seq<bytes>, commands: seq<Command>, goesOn: Command -> bool, was: bytes, due: bytes) {
    && Clean(lines, NUL) && Parsed(lines, commands)
    && (forall i | 0 <= i < |lines| :: goesOn(commands[i]))
    && was == Join(lines, NUL) + due
  }

  lemma GoneOnNext(lines: seq<bytes>, commands: seq<Command>, goesOn: Command -> bool, was: bytes, line: bytes, due: bytes)
    requires GoneOn(lines, commands, goesOn, was, line + [NUL] + due) && NUL !in line
    ensures was == Join(lines + [line], NUL) + due && Clean(lines + [line], NUL)
    ensures Parsed(lines + [line], commands + [ParseLine(line)])
    ensures goesOn(ParseLine(line)) ==> GoneOn(lines + [line], commands + [ParseLine(line)], goesOn, was, due)
    ensures !goesOn(ParseLine(line)) ==> UpTo(Split(was, NUL), goesOn) == lines + [line]
  {
    JoinMore(lines, line, NUL, due);
    SplitOfJoin(lines + [line], NUL, due);
    if !goesOn(ParseLine(line)) {
      UpToStop(lines, line, Split(due, NUL), goesOn);
    }
  }

  lemma GoneOnEnds(lines: seq<bytes>, commands: seq<Command>, goesOn: Command -> bool, was: bytes)
    requires GoneOn(lines, commands, goesOn, was, [])
    ensures lines == Split(was, NUL) == UpTo(Split(was, NUL), goesOn)
  {
    SplitAll(lines, NUL);
    UpToAll(lines, [], goesOn);
    assert lines + [] == lines;
  }

  /** xdebug_dbgp_cmdloop: it reads and parses the lines of all that is received up to the
      last chunk that ends with a NUL, before a read fails, as far as the first command
      whose handler ends the loop. */
  method CmdLoop(fd: FdBuf, socket: Socket, goesOn: Command -> bool)
    returns (ended: bool, commands: seq<Command>, ghost lines: seq<bytes>)
    requires fd.Valid() && fd.delim == NUL
    modifies fd, socket
    ensures fd.Valid() && fd.lines == old(fd.lines) + lines
    ensures Parsed(lines, commands) && lines == UpTo(Split(old(Due(fd.Pieces(socket), NUL)), NUL), goesOn)
    ensures ended ==>
      && commands != [] && !goesOn(commands[|commands| - 1])
      && old(Due(fd.Pieces(socket), NUL)) == Join(lines, NUL) + Due(fd.Pieces(socket), NUL)
      && Held(fd.Pieces(socket), NUL) == old(Held(fd.Pieces(socket), NUL))
      && Later(socket.chunks) == old(Later(socket.chunks))
    ensures !ended ==>
      && (forall i | 0 <= i < |commands| :: goesOn(commands[i]))
      && lines == Split(old(Due(fd.Pieces(socket), NUL)), NUL)
      && fd.buffer == old(Held(fd.Pieces(socket), NUL)) && socket.chunks == old(Later(socket.chunks))
  {
    ghost var was := Due(fd.Pieces(socket), NUL);
    commands, lines := [], [];
    while true
      invariant fd.Valid() && fd.lines == old(fd.lines) + lines
      invariant GoneOn(lines, commands, goesOn, was, Due(fd.Pieces(socket), NUL))
      invariant old(Held(fd.Pieces(socket), NUL)) == Held(fd.Pieces(socket), NUL)
      invariant Later(socket.chunks) == old(Later(socket.chunks))
      decreases |Due(fd.Pieces(socket), NUL)|
    {
      var option, line := ReadCommand(fd, socket);
      if option == None {
        GoneOnEnds(lines, commands, goesOn, was);
        return false, commands, lines;
      }
      GoneOnNext(lines, commands, goesOn, was, line, Due(fd.Pieces(socket), NUL));
      Regroup(old(fd.lines), lines, [line]);
      commands, lines := commands + [option.value], lines + [line];
      if !goesOn(option.value) {
        return true, commands, lines;
      }
    }
  }

  /** One turn: the next line, if there is one, and its parse. */
  method ReadCommand(fd: FdBuf, socket: Socket) returns (command: Option<Command>, ghost line: bytes)
    requires fd.Valid() && fd.delim == NUL
    modifies fd, socket
    ensures fd.Valid() && fd.lines == old(fd.lines) + if command.Some? then [line] else []
    ensures command.None? <==> old(Due(fd.Pieces(socket), NUL)) == []
    ensures command.None? ==> fd.buffer == old(Held(fd.Pieces(socket), NUL)) && socket.chunks == old(Later(socket.chunks))
    ensures command.Some? ==>
      && command.value == ParseLine(line) && NUL !in line
      && old(Due(fd.Pieces(socket), NUL)) == line + [NUL] + Due(fd.Pieces(socket), NUL)
      && old(Held(fd.Pieces(socket), NUL)) == Held(fd.Pieces(socket), NUL)
      && Later(socket.chunks) == old(Later(socket.chunks))
  {
    var option := fd.ReadLineDelim(socket);
    if option == None {
      return None, [];
    }
    line := option.value;
    CleanAppend(old(fd.lines), [], line, NUL);
    var parsed := ParseOption(option.value);
    command := Some(parsed);
  }

  /** The parse at the start of xdebug_dbgp_parse_option. */
  method ParseOption(line: bytes) returns (command: Command)
    requires 0 !in line
    ensures command == ParseLine(line)
  {
    var cmd, status, args := ParseCmd(line);
    command := Command(cmd, Result(status, args[..]));
  }

  // ----- what a client sends

  datatype Request = Request(cmd: bytes, opts: seq<Opt>, data: Option<bytes>)

  ghost predicate Sendable(r: Request) {
    && SPACE !in r.cmd && 0 !in r.cmd && PrintableAll(r.opts, r.data)
    && (r.cmd != [] || r.opts != [] || r.data.Some?)
  }

  function Lines(requests: seq<Request>): seq<bytes> {
    seq(|requests|, i requires 0 <= i < |requests| => PrintLine(requests[i].cmd, requests[i].opts, requests[i].data))
  }

  /** c is the command r, with exactly the values of r in its table; a letter that r
      repeats is reported. */
  ghost predicate Conveys(r: Request, c: Command) {
    && c.cmd == Some(r.cmd)
    && c.result.status == (if DistinctLetters(r.opts) then Ok else DupArg)
    && |c.result.args| == 27
    && (c.result.status == Ok ==>
      && (forall o | o in r.opts && Printable(o) :: c.result.args[OptIndex(o.letter)] == Some(o.value))
      && (forall i | 0 <= i < 26 && (forall o | o in r.opts :: OptIndex(o.letter) != i) :: c.result.args[i].None?)
      && c.result.args[26] == r.data)
  }

  lemma RequestConveyed(r: Request)
    requires Sendable(r)
    ensures 0 !in PrintLine(r.cmd, r.opts, r.data)
    ensures Conveys(r, ParseLine(PrintLine(r.cmd, r.opts, r.data)))
  {
    PrintedHasNoNul(r.opts, r.data);
    RoundTrip(r.cmd, r.opts, r.data);
  }

  /** Whatever requests a client prints, with a NUL behind each, and however the stream is
      cut into chunks: from an empty buffer the loop parses these requests, in order, and
      all of them unless one ends it. */
  lemma RequestsArrive(requests: seq<Request>, chunks: seq<bytes>, goesOn: Command -> bool, commands: seq<Command>)
    requires forall r | r in requests :: Sendable(r)
    requires Concat(Live(chunks)) == Join(Lines(requests), NUL)
    requires Parsed(UpTo(Split(Due([[]] + Live(chunks), NUL), NUL), goesOn), commands)
    ensures |commands| <= |requests| && forall i | 0 <= i < |commands| :: Conveys(requests[i], commands[i])
    ensures |commands| == |requests| || (commands != [] && !goesOn(commands[|commands| - 1]))
  {
    LinesAreClean(requests);
    LinesAreDue(requests, chunks);
    UpToLast(Lines(requests), goesOn);
  }

  lemma LinesAreClean(requests: seq<Request>)
    requires forall r | r in requests :: Sendable(r)
    ensures Clean(Lines(requests), NUL)
    ensures forall i | 0 <= i < |requests| :: Conveys(requests[i], ParseLine(Lines(requests)[i]))
  {
    forall i | 0 <= i < |requests|
      ensures NUL !in Lines(requests)[i] && Conveys(requests[i], ParseLine(Lines(requests)[i]))
    {
      assert requests[i] in requests;
      RequestConveyed(requests[i]);
    }
  }

  lemma LinesAreDue(requests: seq<Request>, chunks: seq<bytes>)
    requires Clean(Lines(requests), NUL) && Concat(Live(chunks)) == Join(Lines(requests), NUL)
    ensures Split(Due([[]] + Live(chunks), NUL), NUL) == Lines(requests)
  {
    SplitAll(Lines(requests), NUL);
    JoinEnds(Lines(requests), NUL);
    ConcatFirst([], Live(chunks));
    assert [] + Concat(Live(chunks)) == Concat(Live(chunks));
    LiveNotEmpty(chunks);
    AllDue([[]] + Live(chunks), NUL);
    assert Join(Lines(requests), NUL) + [] == Join(Lines(requests), NUL);
  }

  lemma {:induction false} UpToLast(lines: seq<bytes>, goesOn: Command -> bool)
    ensures var r := UpTo(lines, goesOn);
      r == lines || (r != [] && !goesOn(ParseLine(r[|r| - 1])))
  {
    if lines != [] && goesOn(ParseLine(lines[0])) {
      UpToLast(lines[1..], goesOn);
    }
  }

  lemma {:induction false} JoinEnds(lines: seq<bytes>, delim: byte)
    ensures Join(lines, delim) == [] || Complete(Join(lines, delim), delim)
  {
    if lines != [] {
      JoinEnds(lines[1..], delim);
    }
  }

  lemma {:induction false} LiveNotEmpty(chunks: seq<bytes>)
    ensures [] !in Live(chunks)
  {
    if chunks != [] {
      LiveNotEmpty(chunks[1..]);
    }
  }

  /** When the whole stream ends with the delimiter, so does its last piece, and all of it
      is due. */
  lemma AllDue(pieces: seq<bytes>, delim: byte)
    requires forall i | 0 < i < |pieces| :: pieces[i] != []
    requires Concat(pieces) == [] || Complete(Concat(pieces), delim)
    ensures Due(pieces, delim) == Concat(pieces)
  {
    if pieces != [] {
      var n := |pieces| - 1;
      ConcatLast(pieces);
      if pieces[n] == [] {
        assert n == 0 && pieces[..0] == [];
      } else {
        CompleteSum(Concat(pieces[..n]), pieces[n], delim);
        assert pieces[..n + 1] == pieces;
      }
    }
  }

  lemma CompleteSum(s: bytes, t: bytes, delim: byte)
    requires t != []
    ensures s + t != [] && (Complete(s + t, delim) <==> Complete(t, delim))
  {
  }

  lemma ConcatLast(pieces: seq<bytes>)
    requires pieces != []
    ensures Concat(pieces) == Concat(pieces[..|pieces| - 1]) + pieces[|pieces| - 1]
  {
    ConcatSplits(pieces, |pieces| - 1);
    ConcatFirst(pieces[|pieces| - 1], []);
    assert pieces[|pieces| - 1..] == [pieces[|pieces| - 1]] + [];
  }
}
