/** The command line of the DBGp protocol: the parser of the debugger engine, and the
    printed form that it undoes. */
module DbgpCommand {
  import opened Bytes
  import opened Collections
  import opened StripSlashes

  const SPACE: byte := 32
  const DASH: byte := 45
  const QUOTE: byte := 34

  /** XDEBUG_ERROR_OK, XDEBUG_ERROR_PARSE and XDEBUG_ERROR_DUP_ARG; OutOfTable stands for
      an option letter that has no place in the table of values. */
  datatype Status = Ok | Parse | DupArg | OutOfTable

  datatype State =
    | Normal | OptFollows | SepFollows | ValueFollowsFirstChar | ValueFollows | Quoted | SkipChar | EscapedCharFollows

  /** The table of values, one for every letter and one for the data behind --. */
  type Args = seq<Option<bytes>>

  function NoArgs(): (args: Args)
    ensures |args| == 27
    ensures forall i | 0 <= i < 27 :: args[i] == None
  {
    seq(27, _ => None)
  }

  datatype Result = Result(status: Status, args: Args)

  function OptIndex(opt: byte): int {
    if opt == DASH then 26 else opt as int - 97
  }

  /** Store a value, unless the option was given before. */
  function Store(args: Args, opt: byte, value: bytes): (r: Result)
    requires |args| == 27
    ensures |r.args| == 27
  {
    var i := OptIndex(opt);
    if i < 0 || 26 < i then Result(OutOfTable, args)
    else if args[i].None? then Result(Ok, args[i := Some(value)])
    else Result(DupArg, args)
  }

  /** What the parser knows: its state, the option, the value so far, the table. */
  datatype Parser = Parser(state: State, opt: byte, value: bytes, args: Args)

  /** One turn of the loop, at the character c; the status is Ok as long as it goes on. */
  function Turn(p: Parser, c: byte): (r: (Status, Parser))
    requires |p.args| == 27
    ensures |r.1.args| == 27
  {
    match p.state
    case Normal => if c != DASH then (Parse, p) else (Ok, p.(state := OptFollows))
    case OptFollows => (Ok, p.(state := SepFollows, opt := c))
    case SepFollows => if c != SPACE then (Parse, p) else (Ok, p.(state := ValueFollowsFirstChar, value := []))
    case ValueFollowsFirstChar =>
      if c == QUOTE && p.opt != DASH then (Ok, p.(state := Quoted)) else (Ok, p.(state := ValueFollows, value := [c]))
    case ValueFollows =>
      if (c == SPACE && p.opt != DASH) || c == 0 then
        var r := Store(p.args, p.opt, p.value);
        (r.status, p.(state := Normal, args := r.args))
      else (Ok, p.(value := p.value + [c]))
    case Quoted =>
      if c == BACKSLASH then (Ok, p.(state := EscapedCharFollows, value := p.value + [c]))
      else if c == QUOTE then
        var r := Store(p.args, p.opt, Strip(p.value));
        (r.status, p.(state := SkipChar, args := r.args))
      else (Ok, p.(value := p.value + [c]))
    case SkipChar => (Ok, p.(state := Normal))
    case EscapedCharFollows => (Ok, p.(state := Quoted, value := p.value + [c]))
  }

  /** The loop, up to and with the NUL that ends the line. */
  function Run(p: Parser, rest: bytes): (r: Result)
    requires |p.args| == 27
    ensures |r.args| == 27
    decreases |rest|
  {
    var c := if rest == [] then 0 else rest[0];
    var t := Turn(p, c);
    if t.0 != Ok || c == 0 then Result(t.0, t.1.args) else Run(t.1, rest[1..])
  }

  datatype Command = Command(cmd: Option<bytes>, result: Result)

  /** What a line means: the command ends at the first space, the options follow. */
  function ParseLine(line: bytes): Command {
    var i := IndexOf(line, SPACE);
    if i < |line| then
      Command(Some(line[..i]), Run(Parser(Normal, SPACE, [], NoArgs()), line[i + 1..]))
    else if line != [] then Command(Some(line), Result(Ok, NoArgs()))
    else Command(None, Result(Parse, NoArgs()))
  }

  // ----- the parser

  function CharAt(line: bytes, i: nat): byte {
    if i < |line| then line[i] else 0
  }

  predicate InValue(state: State) {
    state in {ValueFollowsFirstChar, ValueFollows, Quoted, EscapedCharFollows}
  }

  /** p is what the variables of the parser stand for, before the character at next. */
  ghost predicate Tracks(line: bytes, next: nat, state: State, opt: byte, valueBegin: nat, args: Args, p: Parser) {
    && next <= |line| + 1 && |args| == 27
    && p.state == state && p.opt == opt && p.args == args
    && (state.ValueFollowsFirstChar? ==> valueBegin == next)
    && (InValue(state) && next <= |line| ==> valueBegin <= next && p.value == line[valueBegin..next])
  }

  /** The value that ends at ptr goes into the table. */
  method StoreValue(args: array<Option<bytes>>, opt: byte, value: bytes) returns (status: Status)
    requires args.Length == 27
    modifies args
    ensures Result(status, args[..]) == Store(old(args[..]), opt, value)
  {
    var optIndex := OptIndex(opt);
    if optIndex < 0 || 26 < optIndex {
      return OutOfTable;
    }
    if args[optIndex].None? {
      args[optIndex] := Some(value);
      status := Ok;
    } else {
      status := DupArg;
    }
  }

  /** A copy of the value with its escapes undone in place. */
  method Unescaped(value: bytes) returns (r: bytes)
    ensures r == Strip(value)
  {
    var d := new byte[|value| + 1](i requires 0 <= i <= |value| => if i < |value| then value[i] else 0);
    assert d[..|value|] == value;
    var l := StripCSlashes(d, |value|);
    r := d[..l];
  }

  /** One turn of the loop, at the character that ptr points to. */
  method TurnAt(line: bytes, ptr: nat, state: State, opt: byte, valueBegin: nat, args: array<Option<bytes>>, ghost p: Parser)
    returns (status: Status, state': State, opt': byte, valueBegin': nat)
    requires ptr <= |line| && Tracks(line, ptr, state, opt, valueBegin, args[..], p)
    modifies args
    ensures status == Turn(p, CharAt(line, ptr)).0
    ensures args.Length == 27 && args[..] == Turn(p, CharAt(line, ptr)).1.args
    ensures status == Ok ==> Tracks(line, ptr + 1, state', opt', valueBegin', args[..], Turn(p, CharAt(line, ptr)).1)
  {
    status, state', opt', valueBegin' := Ok, state, opt, valueBegin;
    var c := CharAt(line, ptr);
    assert InValue(state) && ptr < |line| ==> line[valueBegin..ptr + 1] == line[valueBegin..ptr] + [c];
    match state
    case Normal =>
      if c != DASH {
        status := Parse;
      } else {
        state' := OptFollows;
      }
    case OptFollows =>
      opt' := c;
      state' := SepFollows;
    case SepFollows =>
      if c != SPACE {
        status := Parse;
      } else {
        state' := ValueFollowsFirstChar;
        valueBegin' := ptr + 1;
      }
    case ValueFollowsFirstChar =>
      if c == QUOTE && opt != DASH {
        valueBegin' := ptr + 1;
        state' := Quoted;
      } else {
        state' := ValueFollows;
      }
    case ValueFollows =>
      if (c == SPACE && opt != DASH) || c == 0 {
        status := StoreValue(args, opt, line[valueBegin..ptr]);
        state' := Normal;
      }
    case Quoted =>
      if c == BACKSLASH {
        state' := EscapedCharFollows;
      } else if c == QUOTE {
        var value := Unescaped(line[valueBegin..ptr]);
        status := StoreValue(args, opt, value);
        state' := SkipChar;
      }
    case SkipChar =>
      state' := Normal;
    case EscapedCharFollows =>
      state' := Quoted;
  }

  /** xdebug_dbgp_parse_cmd, on a line without NUL. */
  method ParseCmd(line: bytes) returns (cmd: Option<bytes>, status: Status, args: array<Option<bytes>>)
    requires 0 !in line
    ensures fresh(args) && Command(cmd, Result(status, args[..])) == ParseLine(line)
  {
    args := new Option<bytes>[27](_ => None);
    assert args[..] == NoArgs();
    var ptr := IndexOf(line, SPACE);
    if ptr == |line| {
      if line != [] {
        return Some(line), Ok, args;
      }
      return None, Parse, args;
    }
    cmd := Some(line[..ptr]);
    var state, opt, valueBegin := Normal, SPACE, 0;
    ghost var p := Parser(Normal, SPACE, [], NoArgs());
    ghost var result := Run(p, line[ptr + 1..]);
    while true
      invariant ptr < |line| && args.Length == 27 && fresh(args)
      invariant Tracks(line, ptr + 1, state, opt, valueBegin, args[..], p)
      invariant Run(p, line[ptr + 1..]) == result
      decreases |line| - ptr
    {
      ptr := ptr + 1;
      status, state, opt, valueBegin := TurnAt(line, ptr, state, opt, valueBegin, args, p);
      ghost var rest := line[ptr..];
      assert CharAt(line, ptr) == if rest == [] then 0 else rest[0];
      if status != Ok || CharAt(line, ptr) == 0 {
        return;
      }
      p := Turn(p, CharAt(line, ptr)).1;
      assert rest[1..] == line[ptr + 1..];
    }
  }

  // ----- the printed form

  /** The bytes of a value between the quotes. */
  function QuoteByte(c: byte): bytes {
    if c == BACKSLASH || c == QUOTE then [BACKSLASH, c] else [c]
  }

  function QuoteValue(v: bytes): bytes {
    if v == [] then [] else QuoteByte(v[0]) + QuoteValue(v[1..])
  }

  lemma QuotedFirst(c: byte, more: bytes)
    ensures var s := QuoteByte(c) + more;
      First(s) == Escape(c, |QuoteByte(c)|) && s[|QuoteByte(c)|..] == more
  {
    var s := QuoteByte(c) + more;
    if c == BACKSLASH || c == QUOTE {
      assert s[1..] == [c] + more;
      assert c == QUOTE ==> OctalRun(s[1..], 3) == 0;
    }
  }

  /** Undoing the escapes undoes the quoting. */
  lemma {:induction false} StripOfQuoted(v: bytes)
    ensures Strip(QuoteValue(v)) == v
  {
    if v != [] {
      var more := QuoteValue(v[1..]);
      QuotedFirst(v[0], more);
      StripOfQuoted(v[1..]);
      assert Strip(QuoteByte(v[0]) + more) == [v[0]] + Strip(more);
    }
  }

  /** An option with its value, to be printed plain or in quotes. */
  datatype Opt = Opt(letter: byte, value: bytes, plain: bool)

  /** A value that needs no quotes. */
  predicate Plain(value: bytes) {
    value != [] && value[0] != QUOTE && SPACE !in value
  }

  predicate Printable(o: Opt) {
    97 <= o.letter <= 122 && 0 !in o.value && (o.plain ==> Plain(o.value))
  }

  function PrintOpt(o: Opt): bytes {
    [DASH, o.letter, SPACE] + if o.plain then o.value else [QUOTE] + QuoteValue(o.value) + [QUOTE]
  }

  function PrintData(data: bytes): bytes {
    [DASH, DASH, SPACE] + data
  }

  /** Everything behind the first space. */
  function PrintOpts(opts: seq<Opt>, data: Option<bytes>): bytes {
    if opts == [] then (match data case Some(d) => PrintData(d) case None => [])
    else if |opts| == 1 && data.None? then PrintOpt(opts[0])
    else PrintOpt(opts[0]) + [SPACE] + PrintOpts(opts[1..], data)
  }

  function PrintLine(cmd: bytes, opts: seq<Opt>, data: Option<bytes>): bytes {
    if opts == [] && data.None? then cmd else cmd + [SPACE] + PrintOpts(opts, data)
  }

  /** The parse of every line: the command up to the first space, the options behind it. */
  lemma LineIsOptions(line: bytes)
    requires 0 !in line
    ensures forall k | 0 <= k < |line| && line[k] == SPACE && SPACE !in line[..k] ::
      ParseLine(line) == Command(Some(line[..k]), Options(NoArgs(), line[k + 1..]))
    ensures SPACE !in line ==>
      ParseLine(line) == if line == [] then Command(None, Result(Parse, NoArgs())) else Command(Some(line), Result(Ok, NoArgs()))
  {
    IndexOfFirst(line, SPACE);
    forall k | 0 <= k < |line| && line[k] == SPACE && SPACE !in line[..k]
      ensures ParseLine(line) == Command(Some(line[..k]), Options(NoArgs(), line[k + 1..]))
    {
      assert forall j | 0 <= j < k :: line[..k][j] == line[j];
      IndexOfUnique(line, SPACE, k);
      RunIsOptions(Parser(Normal, SPACE, [], NoArgs()), line[k + 1..]);
    }
  }

  // ----- parsing undoes printing

  lemma RunTurn(p: Parser, c: byte, rest: bytes)
    requires |p.args| == 27 && c != 0
    ensures Run(p, [c] + rest) ==
      if Turn(p, c).0 != Ok then Result(Turn(p, c).0, Turn(p, c).1.args) else Run(Turn(p, c).1, rest)
  {
    assert ([c] + rest)[1..] == rest;
  }

  // ----- the options, without the state machine

  /** Where the first quote is that no backslash escapes, or the length. */
  function ClosingQuote(s: bytes): (k: nat)
    ensures k <= |s|
  {
    if s == [] || s[0] == QUOTE then 0
    else if s[0] != BACKSLASH then 1 + ClosingQuote(s[1..])
    else if |s| == 1 then 1
    else 2 + ClosingQuote(s[2..])
  }

  /** Store a value; then rest is what follows it, if anything does. */
  function Options(args: Args, s: bytes): (r: Result)
    requires |args| == 27
    ensures |r.args| == 27
    decreases |s|
  {
    if s == [] || s[0] != DASH then Result(Parse, args)
    else if |s| == 1 then Result(Ok, args)
    else if |s| == 2 || s[2] != SPACE then Result(Parse, args)
    else if |s| == 3 then Result(Ok, args)
    else if s[3] == QUOTE && s[1] != DASH then
      var k := ClosingQuote(s[4..]);
      if k == |s| - 4 then Result(Ok, args)
      else
        var r := Store(args, s[1], Strip(s[4..4 + k]));
        if r.status != Ok || 4 + k == |s| - 1 then r else Options(r.args, s[6 + k..])
    else
      var k := if s[1] == DASH then |s| else 4 + IndexOf(s[4..], SPACE);
      var r := Store(args, s[1], s[3..k]);
      if r.status != Ok || k == |s| then r else Options(r.args, s[k + 1..])
  }

  /** In a plain value the parser goes on to the first space, or to the end. */
  lemma {:induction false} RunPlain(p: Parser, s: bytes)
    requires |p.args| == 27 && p.state == ValueFollows && 0 !in s
    ensures var k := if p.opt == DASH then |s| else IndexOf(s, SPACE);
      var r := Store(p.args, p.opt, p.value + s[..k]);
      Run(p, s) == if r.status != Ok || k == |s| then r else Run(Parser(Normal, p.opt, p.value + s[..k], r.args), s[k + 1..])
    decreases |s|
  {
    if s == [] {
      assert p.value + [] == p.value;
    } else {
      assert s[0] in s && s == [s[0]] + s[1..];
      RunTurn(p, s[0], s[1..]);
      if s[0] == SPACE && p.opt != DASH {
        assert p.value + s[..0] == p.value;
      } else {
        var q := p.(value := p.value + [s[0]]);
        RunPlain(q, s[1..]);
        var k := if p.opt == DASH then |s| else IndexOf(s, SPACE);
        assert q.value + s[1..][..k - 1] == p.value + s[..k];
      }
    }
  }

  /** In a quoted value it goes on to the closing quote. */
  lemma {:induction false} RunQuoted(p: Parser, s: bytes)
    requires |p.args| == 27 && p.state == Quoted && 0 !in s
    ensures var k := ClosingQuote(s);
      if k == |s| then Run(p, s) == Result(Ok, p.args)
      else
        var r := Store(p.args, p.opt, Strip(p.value + s[..k]));
        Run(p, s) == if r.status != Ok then r else Run(Parser(SkipChar, p.opt, p.value + s[..k], r.args), s[k + 1..])
    decreases |s|, 0
  {
    if s != [] && s[0] == QUOTE {
      assert s == [QUOTE] + s[1..];
      RunTurn(p, QUOTE, s[1..]);
      assert p.value + s[..0] == p.value;
    } else if s != [] && s[0] != BACKSLASH {
      RunUnescaped(p, s);
      QuotedMore(p, s, 1);
    } else if |s| > 1 {
      RunEscaped(p, s);
      QuotedMore(p, s, 2);
    } else if |s| == 1 {
      assert s == [BACKSLASH] + [];
      RunTurn(p, BACKSLASH, []);
    }
  }

  lemma RunUnescaped(p: Parser, s: bytes)
    requires |p.args| == 27 && p.state == Quoted && 0 !in s && s != [] && s[0] != BACKSLASH && s[0] != QUOTE
    ensures Run(p, s) == Run(p.(value := p.value + s[..1]), s[1..])
  {
    assert s[0] in s && s == [s[0]] + s[1..] && [s[0]] == s[..1];
    RunTurn(p, s[0], s[1..]);
  }

  lemma RunEscaped(p: Parser, s: bytes)
    requires |p.args| == 27 && p.state == Quoted && 0 !in s && |s| > 1 && s[0] == BACKSLASH
    ensures Run(p, s) == Run(p.(value := p.value + s[..2]), s[2..])
  {
    assert s[1] in s && s == [s[0]] + ([s[1]] + s[2..]);
    RunTurn(p, s[0], [s[1]] + s[2..]);
    var e := p.(state := EscapedCharFollows, value := p.value + [s[0]]);
    RunTurn(e, s[1], s[2..]);
    assert p.value + [s[0]] + [s[1]] == p.value + s[..2];
  }

  /** The rest of a quoted value, behind its first n bytes. */
  lemma {:induction false} QuotedMore(p: Parser, s: bytes, n: nat)
    requires |p.args| == 27 && p.state == Quoted && 0 !in s && 0 < n <= |s|
    ensures var q := p.(value := p.value + s[..n]);
      var k := ClosingQuote(s[n..]);
      if k == |s| - n then Run(q, s[n..]) == Result(Ok, p.args)
      else
        var r := Store(p.args, p.opt, Strip(p.value + s[..n + k]));
        Run(q, s[n..]) == if r.status != Ok then r else Run(Parser(SkipChar, p.opt, p.value + s[..n + k], r.args), s[n + k + 1..])
    decreases |s| - n, 1
  {
    var q := p.(value := p.value + s[..n]);
    var k := ClosingQuote(s[n..]);
    RunQuoted(q, s[n..]);
    assert q.value + s[n..][..k] == p.value + s[..n + k];
    if k < |s| - n {
      assert s[n..][k + 1..] == s[n + k + 1..];
    }
  }

  /** Up to the first byte of a value. */
  lemma RunToValue(p: Parser, s: bytes)
    requires |p.args| == 27 && p.state == Normal && 0 !in s && |s| >= 3 && s[0] == DASH && s[2] == SPACE
    ensures Run(p, s) == Run(Parser(ValueFollowsFirstChar, s[1], [], p.args), s[3..])
  {
    assert s == [s[0]] + ([s[1]] + ([s[2]] + s[3..])) && s[1] in s;
    RunTurn(p, s[0], [s[1]] + ([s[2]] + s[3..]));
    var p1 := Turn(p, s[0]).1;
    RunTurn(p1, s[1], [s[2]] + s[3..]);
    RunTurn(Turn(p1, s[1]).1, s[2], s[3..]);
  }

  /** Without a value, or without its separator. */
  lemma RunShort(p: Parser, s: bytes)
    requires |p.args| == 27 && p.state == Normal && 0 !in s
    requires |s| <= 3 || s[0] != DASH || s[2] != SPACE
    ensures Run(p, s) == Options(p.args, s)
  {
    if s != [] && s[0] == DASH {
      assert s == [s[0]] + s[1..];
      RunTurn(p, s[0], s[1..]);
      if |s| > 1 {
        var p1 := Turn(p, s[0]).1;
        assert s[1] in s && s[1..] == [s[1]] + s[2..];
        RunTurn(p1, s[1], s[2..]);
        if |s| == 3 && s[2] == SPACE {
          assert s[2..] == [SPACE] + [];
          RunTurn(Turn(p1, s[1]).1, SPACE, []);
        }
      }
    }
  }

  /** The state machine parses the options of every line as Options does, in error and
      out of it. */
  lemma {:induction false} RunIsOptions(p: Parser, s: bytes)
    requires |p.args| == 27 && p.state == Normal && 0 !in s
    ensures Run(p, s) == Options(p.args, s)
    decreases |s|
  {
    if |s| <= 3 || s[0] != DASH || s[2] != SPACE {
      RunShort(p, s);
    } else {
      var first := Parser(ValueFollowsFirstChar, s[1], [], p.args);
      RunToValue(p, s);
      assert s[3] in s && s[3..] == [s[3]] + s[4..];
      RunTurn(first, s[3], s[4..]);
      if s[3] == QUOTE && s[1] != DASH {
        RunQuotedOption(p.args, s);
      } else {
        RunPlainOption(p.args, s);
      }
    }
  }

  lemma {:induction false} RunQuotedOption(args: Args, s: bytes)
    requires |args| == 27 && 0 !in s && |s| > 3 && s[0] == DASH && s[2] == SPACE && s[3] == QUOTE && s[1] != DASH
    ensures Run(Parser(Quoted, s[1], [], args), s[4..]) == Options(args, s)
    decreases |s|, 0
  {
    var p := Parser(Quoted, s[1], [], args);
    var k := ClosingQuote(s[4..]);
    RunQuoted(p, s[4..]);
    assert [] + s[4..][..k] == s[4..4 + k];
    if k < |s| - 4 {
      var r := Store(args, s[1], Strip(s[4..4 + k]));
      if r.status == Ok {
        var skip := Parser(SkipChar, s[1], s[4..4 + k], r.args);
        assert s[4..][k + 1..] == s[5 + k..];
        if 5 + k < |s| {
          assert s[5 + k] in s && s[5 + k..] == [s[5 + k]] + s[6 + k..];
          RunTurn(skip, s[5 + k], s[6 + k..]);
          RunIsOptions(skip.(state := Normal), s[6 + k..]);
        }
      }
    }
  }

  lemma {:induction false} RunPlainOption(args: Args, s: bytes)
    requires |args| == 27 && 0 !in s && |s| > 3 && s[0] == DASH && s[2] == SPACE && !(s[3] == QUOTE && s[1] != DASH)
    ensures Run(Parser(ValueFollows, s[1], [s[3]], args), s[4..]) == Options(args, s)
    decreases |s|, 0
  {
    var p := Parser(ValueFollows, s[1], [s[3]], args);
    var k := if s[1] == DASH then |s| else 4 + IndexOf(s[4..], SPACE);
    RunPlain(p, s[4..]);
    assert [s[3]] + s[4..][..k - 4] == s[3..k];
    var r := Store(args, s[1], s[3..k]);
    if k < |s| && r.status == Ok {
      assert s[4..][k - 3..] == s[k + 1..];
      RunIsOptions(Parser(Normal, s[1], s[3..k], r.args), s[k + 1..]);
    }
  }

  // ----- parsing undoes printing

  /** What the options mean: each is stored, up to one that is stored already. */
  function Fill(args: Args, opts: seq<Opt>, data: Option<bytes>): (r: Result)
    requires |args| == 27
    ensures |r.args| == 27
    decreases |opts|
  {
    if opts == [] then (match data case Some(d) => Store(args, DASH, d) case None => Result(Ok, args))
    else
      var r := Store(args, opts[0].letter, opts[0].value);
      if r.status != Ok then r else Fill(r.args, opts[1..], data)
  }

  ghost predicate PrintableAll(opts: seq<Opt>, data: Option<bytes>) {
    && (forall o | o in opts :: Printable(o))
    && (data.Some? ==> data.value != [] && 0 !in data.value)
  }

  lemma ClosingOfByte(c: byte, more: bytes)
    ensures ClosingQuote(QuoteByte(c) + more) == |QuoteByte(c)| + ClosingQuote(more)
  {
    var s := QuoteByte(c) + more;
    assert s[|QuoteByte(c)|..] == more;
  }

  lemma {:induction false} ClosingOfQuoted(v: bytes, tail: bytes)
    ensures ClosingQuote(QuoteValue(v) + ([QUOTE] + tail)) == |QuoteValue(v)|
  {
    var end := [QUOTE] + tail;
    if v == [] {
      assert QuoteValue(v) + end == end;
    } else {
      ClosingOfQuoted(v[1..], tail);
      ClosingOfByte(v[0], QuoteValue(v[1..]) + end);
      Regroup(QuoteByte(v[0]), QuoteValue(v[1..]), end);
    }
  }

  /** A printed option stores its value, whatever else follows a space. */
  lemma OptionPrinted(args: Args, o: Opt, tail: bytes)
    requires |args| == 27 && Printable(o) && (tail == [] || tail[0] == SPACE)
    ensures var r := Store(args, o.letter, o.value);
      Options(args, PrintOpt(o) + tail) == if r.status != Ok || tail == [] then r else Options(r.args, tail[1..])
  {
    if o.plain {
      PlainPrinted(args, o, tail);
    } else {
      QuotedPrinted(args, o, tail);
    }
  }

  lemma PlainPrinted(args: Args, o: Opt, tail: bytes)
    requires |args| == 27 && Printable(o) && o.plain && (tail == [] || tail[0] == SPACE)
    ensures var r := Store(args, o.letter, o.value);
      Options(args, PrintOpt(o) + tail) == if r.status != Ok || tail == [] then r else Options(r.args, tail[1..])
  {
    var s, k := PrintOpt(o) + tail, 3 + |o.value|;
    assert s[3] == o.value[0] && s[4..] == o.value[1..] + tail;
    IndexOfSpace(o.value[1..], tail);
    assert s[3..k] == o.value && (tail != [] ==> s[k + 1..] == tail[1..]);
  }

  lemma QuotedPrinted(args: Args, o: Opt, tail: bytes)
    requires |args| == 27 && Printable(o) && !o.plain && (tail == [] || tail[0] == SPACE)
    ensures var r := Store(args, o.letter, o.value);
      Options(args, PrintOpt(o) + tail) == if r.status != Ok || tail == [] then r else Options(r.args, tail[1..])
  {
    var s, v := PrintOpt(o) + tail, QuoteValue(o.value);
    QuotedSlices(o, tail);
    ClosingOfQuoted(o.value, tail);
    StripOfQuoted(o.value);
  }

  lemma QuotedSlices(o: Opt, tail: bytes)
    requires !o.plain
    ensures var s := PrintOpt(o) + tail; var v := QuoteValue(o.value);
      && |s| == 5 + |v| + |tail| && s[0] == DASH && s[1] == o.letter && s[2] == SPACE && s[3] == QUOTE
      && s[4..] == v + ([QUOTE] + tail) && s[4..4 + |v|] == v
      && (tail != [] ==> s[6 + |v|..] == tail[1..])
  {
  }

  lemma {:induction false} OptionsPrinted(args: Args, opts: seq<Opt>, data: Option<bytes>)
    requires |args| == 27 && PrintableAll(opts, data) && (opts != [] || data.Some?)
    ensures Options(args, PrintOpts(opts, data)) == Fill(args, opts, data)
    decreases |opts|
  {
    if opts == [] {
      var s := PrintData(data.value);
      assert s[3..] == data.value && s[3..|s|] == data.value;
    } else {
      var o := opts[0];
      if |opts| == 1 && data.None? {
        OptionPrinted(args, o, []);
        assert PrintOpt(o) + [] == PrintOpt(o);
      } else {
        var more := PrintOpts(opts[1..], data);
        assert PrintOpts(opts, data) == PrintOpt(o) + ([SPACE] + more);
        OptionPrinted(args, o, [SPACE] + more);
        assert ([SPACE] + more)[1..] == more;
        OptionsPrinted(Store(args, o.letter, o.value).args, opts[1..], data);
      }
    }
  }

  lemma {:induction false} IndexOfSpace(cmd: bytes, rest: bytes)
    requires SPACE !in cmd && (rest == [] || rest[0] == SPACE)
    ensures IndexOf(cmd + rest, SPACE) == |cmd|
  {
    if cmd == [] {
      assert cmd + rest == rest;
    } else {
      assert (cmd + rest)[1..] == cmd[1..] + rest;
      IndexOfSpace(cmd[1..], rest);
    }
  }

  /** Parsing undoes printing: the parser finds the command and fills the table with the
      options, in order, up to the first that repeats one. */
  lemma ParseOfPrinted(cmd: bytes, opts: seq<Opt>, data: Option<bytes>)
    requires SPACE !in cmd && PrintableAll(opts, data)
    requires cmd != [] || opts != [] || data.Some?
    ensures ParseLine(PrintLine(cmd, opts, data)) == Command(Some(cmd), Fill(NoArgs(), opts, data))
  {
    var line := PrintLine(cmd, opts, data);
    if opts == [] && data.None? {
      IndexOfSpace(cmd, []);
      assert cmd + [] == cmd;
    } else {
      var body := PrintOpts(opts, data);
      assert line == cmd + ([SPACE] + body);
      IndexOfSpace(cmd, [SPACE] + body);
      assert line[..|cmd|] == cmd && line[|cmd| + 1..] == body;
      PrintedHasNoNul(opts, data);
      RunIsOptions(Parser(Normal, SPACE, [], NoArgs()), body);
      OptionsPrinted(NoArgs(), opts, data);
    }
  }

  lemma {:induction false} QuotedHasNoNul(v: bytes)
    requires 0 !in v
    ensures 0 !in QuoteValue(v)
  {
    if v != [] {
      assert v[0] in v && 0 !in QuoteByte(v[0]);
      QuotedHasNoNul(v[1..]);
    }
  }

  lemma OptHasNoNul(o: Opt)
    requires Printable(o)
    ensures 0 !in PrintOpt(o)
  {
    QuotedHasNoNul(o.value);
  }

  /** A printed command is a C string, as the parser expects. */
  lemma {:induction false} PrintedHasNoNul(opts: seq<Opt>, data: Option<bytes>)
    requires PrintableAll(opts, data)
    ensures 0 !in PrintOpts(opts, data)
    decreases |opts|
  {
    if opts != [] {
      OptHasNoNul(opts[0]);
      PrintedHasNoNul(opts[1..], data);
    }
  }

  // ----- what is in the table

  ghost predicate DistinctLetters(opts: seq<Opt>) {
    forall i, j | 0 <= i < j < |opts| :: opts[i].letter != opts[j].letter
  }

  /** No option is stored already. */
  ghost predicate AllFree(args: Args, opts: seq<Opt>)
    requires |args| == 27
  {
    forall o | o in opts && Printable(o) :: args[OptIndex(o.letter)].None?
  }

  /** The value of entry i: that of the option with this letter, or the data. */
  ghost function Entry(args: Args, opts: seq<Opt>, data: Option<bytes>, i: nat): Option<bytes>
    requires |args| == 27 && i < 27
    decreases |opts|
  {
    if opts == [] then (if i == 26 && data.Some? then data else args[i])
    else if OptIndex(opts[0].letter) == i then Some(opts[0].value)
    else Entry(args, opts[1..], data, i)
  }

  lemma {:induction false} FillHolds(args: Args, opts: seq<Opt>, data: Option<bytes>)
    requires |args| == 27 && args[26].None? && PrintableAll(opts, data)
    ensures var r := Fill(args, opts, data);
      && r.status == (if DistinctLetters(opts) && AllFree(args, opts) then Ok else DupArg)
      && (r.status == Ok ==> forall i | 0 <= i < 27 :: r.args[i] == Entry(args, opts, data, i))
    decreases |opts|
  {
    if opts != [] {
      var o := opts[0];
      assert o in opts;
      var rest := opts[1..];
      var r := Store(args, o.letter, o.value);
      assert forall q | q in rest :: q in opts;
      if r.status == Ok {
        FillHolds(r.args, rest, data);
        FreeAfter(args, opts);
        if Fill(r.args, rest, data).status == Ok {
          forall i | 0 <= i < 27
            ensures Fill(args, opts, data).args[i] == Entry(args, opts, data, i)
          {
            EntryAfter(args, opts, data, i);
          }
        }
      }
    }
  }

  lemma FreeAfter(args: Args, opts: seq<Opt>)
    requires |args| == 27 && opts != [] && Printable(opts[0]) && (forall o | o in opts :: Printable(o))
    requires args[OptIndex(opts[0].letter)].None?
    ensures DistinctLetters(opts) && AllFree(args, opts) <==>
      DistinctLetters(opts[1..]) && AllFree(args[OptIndex(opts[0].letter) := Some(opts[0].value)], opts[1..])
  {
    var k := OptIndex(opts[0].letter);
    var after := args[k := Some(opts[0].value)];
    if DistinctLetters(opts) && AllFree(args, opts) {
      forall o | o in opts[1..] && Printable(o)
        ensures after[OptIndex(o.letter)].None?
      {
        var j :| 0 <= j < |opts| - 1 && opts[1..][j] == o;
        assert opts[j + 1] == o;
      }
    }
    if DistinctLetters(opts[1..]) && AllFree(after, opts[1..]) {
      forall i, j | 0 <= i < j < |opts|
        ensures opts[i].letter != opts[j].letter
      {
        assert opts[1..][j - 1] == opts[j] && opts[j] in opts[1..];
        assert i > 0 ==> opts[1..][i - 1] == opts[i];
      }
      assert forall o | o in opts :: o == opts[0] || o in opts[1..];
    }
  }

  lemma {:induction false} EntryUpdated(args: Args, opts: seq<Opt>, data: Option<bytes>, k: nat, v: bytes, i: nat)
    requires |args| == 27 && k < 26 && i < 27
    requires forall j | 0 <= j < |opts| :: OptIndex(opts[j].letter) != k
    ensures Entry(args[k := Some(v)], opts, data, i) == if i == k then Some(v) else Entry(args, opts, data, i)
    decreases |opts|
  {
    if opts != [] {
      EntryUpdated(args, opts[1..], data, k, v, i);
    }
  }

  lemma EntryAfter(args: Args, opts: seq<Opt>, data: Option<bytes>, i: nat)
    requires |args| == 27 && opts != [] && i < 27 && Printable(opts[0])
    requires DistinctLetters(opts) && forall o | o in opts :: Printable(o)
    ensures Entry(args[OptIndex(opts[0].letter) := Some(opts[0].value)], opts[1..], data, i) == Entry(args, opts, data, i)
  {
    forall j | 0 <= j < |opts| - 1
      ensures OptIndex(opts[1..][j].letter) != OptIndex(opts[0].letter)
    {
      assert opts[1..][j] == opts[j + 1] && opts[j + 1] in opts;
    }
    EntryUpdated(args, opts[1..], data, OptIndex(opts[0].letter), opts[0].value, i);
  }

  /** The whole law: a printed command parses as OK exactly when its letters are distinct,
      and then the table holds its values and nothing else; a repeated letter is reported
      as a duplicate. */
  lemma RoundTrip(cmd: bytes, opts: seq<Opt>, data: Option<bytes>)
    requires SPACE !in cmd && PrintableAll(opts, data)
    requires cmd != [] || opts != [] || data.Some?
    ensures var c := ParseLine(PrintLine(cmd, opts, data));
      && c.cmd == Some(cmd)
      && c.result.status == (if DistinctLetters(opts) then Ok else DupArg)
      && (c.result.status == Ok ==>
        && (forall o | o in opts :: c.result.args[o.letter as int - 97] == Some(o.value))
        && (forall i | 0 <= i < 26 && (forall o | o in opts :: o.letter as int - 97 != i) :: c.result.args[i].None?)
        && c.result.args[26] == data)
  {
    ParseOfPrinted(cmd, opts, data);
    FillHolds(NoArgs(), opts, data);
    if DistinctLetters(opts) {
      forall i | 0 <= i < 27 {
        EntryIsOpt(opts, data, i);
      }
    }
  }

  lemma {:induction false} EntryIsOpt(opts: seq<Opt>, data: Option<bytes>, i: nat)
    requires PrintableAll(opts, data) && DistinctLetters(opts) && i < 27
    ensures var e := Entry(NoArgs(), opts, data, i);
      && (forall o | o in opts && o.letter as int - 97 == i :: e == Some(o.value))
      && ((forall o | o in opts :: o.letter as int - 97 != i) ==> e == if i == 26 then data else None)
    decreases |opts|
  {
    if opts != [] {
      assert opts[0] in opts;
      assert forall o | o in opts :: o == opts[0] || o in opts[1..];
      assert forall o | o in opts[1..] :: o in opts;
      EntryIsOpt(opts[1..], data, i);
      if OptIndex(opts[0].letter) == i {
        forall o | o in opts && o.letter as int - 97 == i
          ensures o == opts[0]
        {
          var j :| 0 <= j < |opts| && opts[j] == o;
        }
      }
    }
  }
}
