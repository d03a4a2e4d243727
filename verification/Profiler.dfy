/** The profiler's accounting of inclusive and own cost over the frame stack, with
    time as an exact number. */
module Profiler {

  /** What a call costs: time and memory. */
  datatype Cost = Cost(time: real, memory: int)

  const ZERO := Cost(0.0, 0)

  function Plus(a: Cost, b: Cost): Cost {
    Cost(a.time + b.time, a.memory + b.memory)
  }

  function Minus(a: Cost, b: Cost): Cost {
    Cost(a.time - b.time, a.memory - b.memory)
  }

  function Sum(cs: seq<Cost>): Cost {
    if cs == [] then ZERO else Plus(Sum(cs[..|cs| - 1]), cs[|cs| - 1])
  }

  /** What is written for a completed call: its own cost and its call list. */
  datatype Record = Record(own: Cost, calls: seq<Cost>)

  /** The clock and the memory in use at the start or the end of a call. */
  datatype Event = Begin(at: Cost) | End(at: Cost)

  // ----- the accounting, frame by frame

  /** An open frame: what was in use when it started, and the inclusive costs of the
      calls it has completed. */
  datatype Open = Open(mark: Cost, calls: seq<Cost>)

  /** roots holds the inclusive costs of completed calls that had no caller. */
  datatype State = State(stack: seq<Open>, records: seq<Record>, roots: seq<Cost>)

  /** The innermost frame records a call that cost c. */
  ghost function Charge(stack: seq<Open>, c: Cost): seq<Open> {
    if stack == [] then []
    else
      var m := |stack| - 1;
      stack[..m] + [Open(stack[m].mark, stack[m].calls + [c])]
  }

  ghost function CloseTop(s: State, at: Cost): State
    requires s.stack != []
  {
    var n := |s.stack| - 1;
    var top := s.stack[n];
    var inclusive := Minus(at, top.mark);
    State(Charge(s.stack[..n], inclusive),
          s.records + [Record(Minus(inclusive, Sum(top.calls)), top.calls)],
          if n == 0 then s.roots + [inclusive] else s.roots)
  }

  /** Closing the top frame changes only the call list of the frame below it. */
  lemma CloseTopFrames(s: State, at: Cost)
    requires s.stack != []
    ensures var r := CloseTop(s, at); var n := |s.stack| - 1; var top := s.stack[n];
      && |r.stack| == n
      && (forall i | 0 <= i < n - 1 :: r.stack[i] == s.stack[i])
      && (n > 0 ==> r.stack[n - 1].mark == s.stack[n - 1].mark)
      && (n > 0 ==> r.stack[n - 1].calls == s.stack[n - 1].calls + [Minus(at, top.mark)])
      && r.records == s.records + [Record(Minus(Minus(at, top.mark), Sum(top.calls)), top.calls)]
  {
  }

  /** An event that can happen: only an open call can end. */
  ghost predicate Legal(s: State, e: Event) {
    e.End? ==> s.stack != []
  }

  ghost function Step(s: State, e: Event): State
    requires Legal(s, e)
  {
    match e
    case Begin(at) => s.(stack := s.stack + [Open(at, [])])
    case End(at) => CloseTop(s, at)
  }

  // ----- the profiler

  /** The profile part of a function_stack_entry. */
  class Frame {
    const prev: Frame?
    var time: real
    var mark: real
    var memory: int
    var memMark: int
    var callList: seq<Cost>

    constructor (prev: Frame?)
      ensures this.prev == prev && callList == []
    {
      this.prev, callList := prev, [];
      time, mark, memory, memMark := 0.0, 0.0, 0, 0;
    }

    /** What the frame has cost when the clock and the memory are at at. */
    ghost function Inclusive(at: Cost): Cost
      reads this
    {
      Cost(time + (at.time - mark), memory + (at.memory - memMark))
    }

    ghost function Callers(): set<Frame> {
      if prev == null then {} else {prev}
    }

    /** xdebug_profiler_function_begin */
    method FunctionBegin(utime: real, usage: int)
      modifies `time, `mark, `memory, `memMark
      ensures time == 0.0 && memory == 0 && mark == utime && memMark == usage
    {
      time := 0.0;
      mark := utime;
      memory := 0;
      memMark := usage;
    }

    /** xdebug_profiler_function_push */
    method FunctionPush(utime: real, usage: int)
      modifies `time, `mark, `memory, `memMark
      ensures time == old(time) + (utime - old(mark)) && memory == old(memory) + (usage - old(memMark))
      ensures mark == 0.0 && memMark == 0
    {
      time := time + utime;
      time := time - mark;
      mark := 0.0;
      memory := memory + usage;
      memory := memory - memMark;
      memMark := 0;
    }

    /** xdebug_profiler_function_end, up to the writing of the call list. */
    method FunctionEnd(utime: real, usage: int) returns (record: Record)
      requires prev != this
      modifies `time, `mark, `memory, `memMark, Callers()`callList
      ensures callList == old(callList)
      ensures record == Record(Minus(old(Inclusive(Cost(utime, usage))), Sum(callList)), callList)
      ensures prev != null ==> prev.callList == old(prev.callList) + [old(Inclusive(Cost(utime, usage)))]
    {
      FunctionPush(utime, usage);
      if prev != null {
        prev.callList := prev.callList + [Cost(time, memory)];
      }
      ghost var inclusive := Cost(time, memory);
      for i := 0 to |callList|
        invariant Cost(time, memory) == Minus(inclusive, Sum(callList[..i]))
        invariant callList == old(callList) && (prev != null ==> prev.callList == old(prev.callList) + [inclusive])
      {
        assert callList[..i + 1][..i] == callList[..i];
        time := time - callList[i].time;
        memory := memory - callList[i].memory;
      }
      assert callList[..|callList|] == callList;
      record := Record(Cost(time, memory), callList);
    }
  }

  ghost function CallerOf(frames: seq<Frame>, i: nat): Frame?
    requires i < |frames|
  {
    if i == 0 then null else frames[i - 1]
  }

  class Stack {
    var frames: seq<Frame>
    var records: seq<Record>

    /** The accounting that the frames stand for. */
    ghost var state: State

    /** An open frame has started and not been charged yet. */
    ghost predicate FrameOk(f: Frame, prev: Frame?, o: Open)
      reads f
    {
      && f.prev == prev && f.time == 0.0 && f.memory == 0
      && o.mark == Cost(f.mark, f.memMark) && o.calls == f.callList
    }

    ghost predicate FramesOk(fs: seq<Frame>, stack: seq<Open>)
      reads fs
    {
      && |fs| == |stack|
      && (forall i, j | 0 <= i < j < |fs| :: fs[i] != fs[j])
      && forall i {:trigger CallerOf(fs, i)} | 0 <= i < |fs| :: FrameOk(fs[i], CallerOf(fs, i), stack[i])
    }

    ghost predicate Valid()
      reads this, frames
    {
      FramesOk(frames, state.stack) && records == state.records
    }

    constructor ()
      ensures Valid() && state == State([], [], [])
    {
      frames, records, state := [], [], State([], [], []);
    }

    /** A new frame on top of the others. */
    lemma PushFrame(fs: seq<Frame>, stack: seq<Open>, f: Frame, o: Open)
      requires FramesOk(fs, stack) && f !in fs
      requires FrameOk(f, if fs == [] then null else fs[|fs| - 1], o)
      ensures FramesOk(fs + [f], stack + [o])
    {
      var gs, t := fs + [f], stack + [o];
      forall i | 0 <= i < |gs|
        ensures FrameOk(gs[i], CallerOf(gs, i), t[i])
      {
        if i < |fs| {
          assert gs[i] == fs[i] && CallerOf(gs, i) == CallerOf(fs, i) && t[i] == stack[i];
        }
      }
    }

    lemma PopFrame(fs: seq<Frame>, stack: seq<Open>)
      requires |fs| == |stack| + 1
      requires forall i, j | 0 <= i < j < |fs| :: fs[i] != fs[j]
      requires forall i {:trigger CallerOf(fs, i)} | 0 <= i < |stack| :: FrameOk(fs[i], CallerOf(fs, i), stack[i])
      ensures FramesOk(fs[..|stack|], stack)
    {
      var gs := fs[..|stack|];
      assert forall i | 0 <= i < |gs| :: gs[i] == fs[i] && CallerOf(gs, i) == CallerOf(fs, i);
    }

    /** A call starts: the engine pushes its frame and the profiler marks it. */
    method Call(utime: real, usage: int) returns (fse: Frame)
      requires Valid()
      modifies this
      ensures Valid() && state == Step(old(state), Begin(Cost(utime, usage)))
      ensures fresh(fse) && frames == old(frames) + [fse]
    {
      fse := new Frame(if frames == [] then null else frames[|frames| - 1]);
      fse.FunctionBegin(utime, usage);
      PushFrame(frames, state.stack, fse, Open(Cost(utime, usage), []));
      frames := frames + [fse];
      state := Step(state, Begin(Cost(utime, usage)));
    }

    /** Charge the top frame to its caller: below is what the other frames then are. */
    method EndTop(utime: real, usage: int, ghost below: seq<Open>) returns (record: Record)
      requires FramesOk(frames, state.stack) && frames != [] && |below| == |frames| - 1
      requires forall i | 0 <= i < |below| :: below[i].mark == state.stack[i].mark
      requires forall i | 0 <= i < |below| - 1 :: below[i].calls == state.stack[i].calls
      requires below != [] ==>
        below[|below| - 1].calls == state.stack[|below| - 1].calls + [Minus(Cost(utime, usage), state.stack[|below|].mark)]
      modifies frames
      ensures FramesOk(frames[..|frames| - 1], below)
      ensures var top := state.stack[|frames| - 1];
        record == Record(Minus(Minus(Cost(utime, usage), top.mark), Sum(top.calls)), top.calls)
    {
      var n := |frames| - 1;
      var fse := frames[n];
      assert FrameOk(frames[n], CallerOf(frames, n), state.stack[n]);
      ghost var inclusive := Minus(Cost(utime, usage), state.stack[n].mark);
      assert fse.Inclusive(Cost(utime, usage)) == inclusive;
      record := fse.FunctionEnd(utime, usage);
      forall i | 0 <= i < n
        ensures FrameOk(frames[i], CallerOf(frames, i), below[i])
      {
        assert old(FrameOk(frames[i], CallerOf(frames, i), state.stack[i]));
        assert fse.prev == frames[n - 1] && (i < n - 1 ==> frames[i] != frames[n - 1]);
        assert i == n - 1 ==> frames[i].callList == state.stack[i].calls + [inclusive];
      }
      PopFrame(frames, below);
    }

    /** A call ends: the profiler charges its frame and the engine pops it. */
    method Return(utime: real, usage: int)
      requires Valid() && frames != []
      modifies this, frames
      ensures Valid() && state == Step(old(state), End(Cost(utime, usage)))
      ensures frames == old(frames)[..|old(frames)| - 1]
    {
      CloseTopFrames(state, Cost(utime, usage));
      var record := EndTop(utime, usage, CloseTop(state, Cost(utime, usage)).stack);
      records := records + [record];
      frames := frames[..|frames| - 1];
      state := Step(state, End(Cost(utime, usage)));
    }

    /** xdebug_profiler_deinit: the frames that are still open end, the innermost first;
        ats are the readings of the clock and the memory. */
    method Deinit(ats: seq<Cost>)
      requires Valid() && |ats| == |frames|
      modifies this, frames
      ensures Valid() && frames == []
      ensures RunAbove(old(state), Ends(ats), 0) && state == Run(old(state), Ends(ats), 0)
    {
      EndsAreLegal(state, ats);
      for i := 0 to |ats|
        invariant Valid() && frames == old(frames)[..|ats| - i]
        invariant RunAbove(state, Ends(ats[i..]), 0)
        invariant Run(state, Ends(ats[i..]), 0) == Run(old(state), Ends(ats), 0)
      {
        assert ats[i..][1..] == ats[i + 1..];
        EndsFirst(ats[i..]);
        Return(ats[i].time, ats[i].memory);
      }
    }
  }

  // ----- runs

  /** The events of a run, none of which ends a call below depth d. */
  ghost predicate RunAbove(s: State, es: seq<Event>, d: nat)
    decreases |es|
  {
    && |s.stack| >= d
    && (es != [] ==> Legal(s, es[0]) && RunAbove(Step(s, es[0]), es[1..], d))
  }

  ghost function Run(s: State, es: seq<Event>, d: nat): State
    requires RunAbove(s, es, d)
    decreases |es|
  {
    if es == [] then s else Run(Step(s, es[0]), es[1..], d)
  }

  /** As many calls end, one after the other. */
  ghost function Ends(ats: seq<Cost>): seq<Event> {
    if ats == [] then [] else [End(ats[0])] + Ends(ats[1..])
  }

  lemma EndsFirst(ats: seq<Cost>)
    requires ats != []
    ensures Ends(ats)[0] == End(Cost(ats[0].time, ats[0].memory)) && Ends(ats)[1..] == Ends(ats[1..])
  {
  }

  lemma {:induction false} EndsAreLegal(s: State, ats: seq<Cost>)
    requires |ats| <= |s.stack|
    ensures RunAbove(s, Ends(ats), 0) && |Run(s, Ends(ats), 0).stack| == |s.stack| - |ats|
    decreases |ats|
  {
    if ats != [] {
      EndsFirst(ats);
      CloseTopFrames(s, ats[0]);
      EndsAreLegal(CloseTop(s, ats[0]), ats[1..]);
    }
  }

  // ----- conservation

  function OwnSum(rs: seq<Record>): Cost {
    if rs == [] then ZERO else Plus(OwnSum(rs[..|rs| - 1]), rs[|rs| - 1].own)
  }

  /** The costs that open frames have recorded for their completed calls. */
  function CallSum(stack: seq<Open>): Cost {
    if stack == [] then ZERO else Plus(CallSum(stack[..|stack| - 1]), Sum(stack[|stack| - 1].calls))
  }

  /** What the own costs that were written exceed the completed calls by. */
  function Gap(s: State): Cost {
    Minus(OwnSum(s.records), Plus(CallSum(s.stack), Sum(s.roots)))
  }

  lemma SumAppend(cs: seq<Cost>, c: Cost)
    ensures Sum(cs + [c]) == Plus(Sum(cs), c)
  {
    assert (cs + [c])[..|cs|] == cs;
  }

  lemma OwnSumAppend(rs: seq<Record>, r: Record)
    ensures OwnSum(rs + [r]) == Plus(OwnSum(rs), r.own)
  {
    assert (rs + [r])[..|rs|] == rs;
  }

  lemma CallSumAppend(stack: seq<Open>, o: Open)
    ensures CallSum(stack + [o]) == Plus(CallSum(stack), Sum(o.calls))
  {
    assert (stack + [o])[..|stack|] == stack;
  }

  lemma ChargeAdds(stack: seq<Open>, c: Cost)
    ensures CallSum(Charge(stack, c)) == if stack == [] then ZERO else Plus(CallSum(stack), c)
  {
    if stack != [] {
      var m := |stack| - 1;
      SumAppend(stack[m].calls, c);
      CallSumAppend(stack[..m], Open(stack[m].mark, stack[m].calls + [c]));
    }
  }

  /** What a return does to the three sums. */
  lemma EndSums(s: State, at: Cost)
    requires s.stack != []
    ensures var n := |s.stack| - 1; var top := s.stack[n]; var r := CloseTop(s, at);
      && OwnSum(r.records) == Plus(OwnSum(s.records), Minus(Minus(at, top.mark), Sum(top.calls)))
      && CallSum(s.stack) == Plus(CallSum(s.stack[..n]), Sum(top.calls))
      && CallSum(r.stack) == (if n == 0 then ZERO else Plus(CallSum(s.stack[..n]), Minus(at, top.mark)))
      && Sum(r.roots) == (if n == 0 then Plus(Sum(s.roots), Minus(at, top.mark)) else Sum(s.roots))
      && (n == 0 ==> CallSum(s.stack[..n]) == ZERO)
  {
    var n := |s.stack| - 1;
    var top := s.stack[n];
    OwnSumAppend(s.records, Record(Minus(Minus(at, top.mark), Sum(top.calls)), top.calls));
    ChargeAdds(s.stack[..n], Minus(at, top.mark));
    SumAppend(s.roots, Minus(at, top.mark));
  }

  /** The own cost written and the inclusive cost recorded balance the calls forgotten. */
  lemma ReturnBalances(own: Cost, below: Cost, calls: Cost, roots: Cost, inclusive: Cost)
    ensures Minus(Plus(own, Minus(inclusive, calls)), Plus(Plus(below, inclusive), roots)) ==
      Minus(own, Plus(Plus(below, calls), roots))
    ensures Minus(Plus(own, Minus(inclusive, calls)), Plus(ZERO, Plus(roots, inclusive))) ==
      Minus(own, Plus(Plus(ZERO, calls), roots))
  {
  }

  lemma EndKeepsGap(s: State, at: Cost)
    requires s.stack != []
    ensures Gap(CloseTop(s, at)) == Gap(s)
  {
    var n := |s.stack| - 1;
    var top := s.stack[n];
    EndSums(s, at);
    ReturnBalances(OwnSum(s.records), CallSum(s.stack[..n]), Sum(top.calls), Sum(s.roots), Minus(at, top.mark));
  }

  /** Neither a call nor a return changes the gap. */
  lemma StepKeepsGap(s: State, e: Event)
    requires Legal(s, e)
    ensures Gap(Step(s, e)) == Gap(s)
  {
    match e
    case Begin(at) => CallSumAppend(s.stack, Open(at, []));
    case End(at) => EndKeepsGap(s, at);
  }

  /** Over every run, the own costs that were written add up to the inclusive costs of
      the calls that are complete, as their callers or the program recorded them. */
  lemma {:induction false} RunKeepsGap(s: State, es: seq<Event>, d: nat)
    requires RunAbove(s, es, d)
    ensures Gap(Run(s, es, d)) == Gap(s)
    decreases |es|
  {
    if es != [] {
      StepKeepsGap(s, es[0]);
      RunKeepsGap(Step(s, es[0]), es[1..], d);
    }
  }

  lemma GapClosed(own: Cost, x: Cost, own': Cost, x': Cost)
    requires Minus(own', x') == Minus(own, x) && own == x
    ensures own' == x'
  {
  }

  lemma StartIsClosed(s: State)
    requires s.stack == [] && s.records == [] && s.roots == []
    ensures OwnSum(s.records) == Plus(CallSum(s.stack), Sum(s.roots))
  {
    assert OwnSum(s.records) == CallSum(s.stack) == Sum(s.roots) == ZERO;
  }

  lemma StaysClosed(s: State, r: State)
    requires Gap(r) == Gap(s) && OwnSum(s.records) == Plus(CallSum(s.stack), Sum(s.roots))
    ensures OwnSum(r.records) == Plus(CallSum(r.stack), Sum(r.roots))
  {
    GapClosed(OwnSum(s.records), Plus(CallSum(s.stack), Sum(s.roots)), OwnSum(r.records), Plus(CallSum(r.stack), Sum(r.roots)));
  }

  /** Over every run of the program, the own costs that were written are the inclusive
      costs of its completed calls: those of the main program, and those that callers
      which are still open have on record. */
  lemma ProgramConserves(s: State, es: seq<Event>)
    requires s.stack == [] && s.records == [] && s.roots == [] && RunAbove(s, es, 0)
    ensures var r := Run(s, es, 0);
      OwnSum(r.records) == Plus(CallSum(r.stack), Sum(r.roots))
  {
    RunKeepsGap(s, es, 0);
    StartIsClosed(s);
    StaysClosed(s, Run(s, es, 0));
  }

  /** After the shutdown that ends the open calls, every cost is written: the own costs
      of all calls add up to what the outermost calls took. */
  lemma ShutdownConserves(s: State, es: seq<Event>, ats: seq<Cost>)
    requires s.stack == [] && s.records == [] && s.roots == [] && RunAbove(s, es, 0)
    requires |ats| == |Run(s, es, 0).stack|
    ensures RunAbove(Run(s, es, 0), Ends(ats), 0)
    ensures var r := Run(Run(s, es, 0), Ends(ats), 0);
      r.stack == [] && OwnSum(r.records) == Sum(r.roots)
  {
    var t := Run(s, es, 0);
    EndsAreLegal(t, ats);
    RunKeepsGap(t, Ends(ats), 0);
    ProgramConserves(s, es);
    StaysClosed(t, Run(t, Ends(ats), 0));
    PlusZero(Sum(Run(t, Ends(ats), 0).roots));
  }

  lemma PlusZero(c: Cost)
    ensures Plus(ZERO, c) == c
  {
  }

  /** A run that stays at depth d or above leaves the frames below d as they are, and
      the frame at d started when it did. */
  lemma {:induction false} RunLeavesBelow(s: State, es: seq<Event>, d: nat)
    requires d > 0 && RunAbove(s, es, d)
    ensures var r := Run(s, es, d);
      && |r.stack| >= d && r.stack[..d - 1] == s.stack[..d - 1] && r.roots == s.roots
      && r.stack[d - 1].mark == s.stack[d - 1].mark
      && s.records <= r.records
    decreases |es|
  {
    if es != [] {
      var t := Step(s, es[0]);
      if es[0].End? {
        CloseTopFrames(s, es[0].at);
        assert |s.stack| > d;
      }
      assert forall i | 0 <= i < d - 1 :: t.stack[i] == s.stack[i];
      assert t.stack[..d - 1] == s.stack[..d - 1];
      RunLeavesBelow(t, es[1..], d);
    }
  }

  /** The call c is on record with the open caller, or with the program. */
  ghost predicate Charged(s: State, r: State, c: Cost) {
    r.stack == Charge(s.stack, c) && r.roots == if s.stack == [] then s.roots + [c] else s.roots
  }

  lemma Cancel(own: Cost, own': Cost, x: Cost, c: Cost)
    requires Minus(own', Plus(x, c)) == Minus(own, x)
    ensures Minus(own', own) == c
  {
  }

  lemma PlusReorders(a: Cost, b: Cost, c: Cost)
    ensures Plus(Plus(a, c), b) == Plus(Plus(a, b), c) == Plus(a, Plus(b, c))
  {
  }

  lemma ChargedSums(s: State, r: State, c: Cost)
    requires Charged(s, r, c)
    ensures Plus(CallSum(r.stack), Sum(r.roots)) == Plus(Plus(CallSum(s.stack), Sum(s.roots)), c)
  {
    ChargeAdds(s.stack, c);
    SumAppend(s.roots, c);
    PlusReorders(CallSum(s.stack), Sum(s.roots), c);
  }

  /** With the gap unchanged, what was charged is what was written as own cost. */
  lemma ChargedIsWritten(s: State, r: State, c: Cost)
    requires Gap(r) == Gap(s) && Charged(s, r, c)
    ensures Minus(OwnSum(r.records), OwnSum(s.records)) == c
  {
    ChargedSums(s, r, c);
    Cancel(OwnSum(s.records), OwnSum(r.records), Plus(CallSum(s.stack), Sum(s.roots)), c);
  }

  /** The events of a call from its start to its end: the call is charged, and its own
      cost is what it took less what its direct callees took. */
  lemma CallIsCharged(s: State, b: Cost, inner: seq<Event>, e: Cost)
    requires RunAbove(Step(s, Begin(b)), inner, |s.stack| + 1)
    requires |Run(Step(s, Begin(b)), inner, |s.stack| + 1).stack| == |s.stack| + 1
    ensures var r := Step(Run(Step(s, Begin(b)), inner, |s.stack| + 1), End(e));
      && Charged(s, r, Minus(e, b))
      && |s.records| < |r.records| && s.records <= r.records
      && Plus(r.records[|r.records| - 1].own, Sum(r.records[|r.records| - 1].calls)) == Minus(e, b)
  {
    var d := |s.stack| + 1;
    var t := Step(s, Begin(b));
    var mid := Run(t, inner, d);
    RunLeavesBelow(t, inner, d);
    assert mid.stack[..d - 1] == t.stack[..d - 1] == s.stack;
  }

  /** Conservation: the own costs written from the start of a call to its end add up to
      what the call took from end to end. That is also what its caller records, and its
      own cost together with the inclusive costs of its direct callees. */
  lemma SubtreeConserves(s: State, b: Cost, inner: seq<Event>, e: Cost)
    requires RunAbove(Step(s, Begin(b)), inner, |s.stack| + 1)
    requires |Run(Step(s, Begin(b)), inner, |s.stack| + 1).stack| == |s.stack| + 1
    ensures var r := Step(Run(Step(s, Begin(b)), inner, |s.stack| + 1), End(e));
      && Minus(OwnSum(r.records), OwnSum(s.records)) == Minus(e, b)
      && Charged(s, r, Minus(e, b))
  {
    var t := Step(s, Begin(b));
    var mid := Run(t, inner, |s.stack| + 1);
    CallIsCharged(s, b, inner, e);
    StepKeepsGap(s, Begin(b));
    RunKeepsGap(t, inner, |s.stack| + 1);
    StepKeepsGap(mid, End(e));
    ChargedIsWritten(s, Step(mid, End(e)), Minus(e, b));
  }
}
