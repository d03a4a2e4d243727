/** The dead-code walk over an op array, which also collects where basic blocks
    start and end and where they lead. */
module DeadCode {
  import opened XdebugSet
  import opened BranchPaths
  import opened Opcodes

  /** xdebug_branch: outs has room for 64 entries, of which outsCount are in use. */
  datatype Branch = Branch(outs: seq<int>, outsCount: nat, endOp: nat)

  const NONE := -1

  const NO_BRANCH := Branch(seq(MAX_OUTS, _ => 0), 0, 0)

  /** What the walk has recorded. */
  datatype State = State(visited: set<nat>, starts: set<nat>, ends: set<nat>, branches: seq<Branch>)

  // ----- what holds of a record

  ghost predicate OutsOf(b: Branch, js: seq<int>) {
    |b.outs| == MAX_OUTS && b.outsCount <= |js| <= MAX_OUTS && b.outs[..b.outsCount] == js[..b.outsCount]
  }

  /** q is a root or a jump target of a visited opcode. */
  ghost predicate Started(ops: seq<Op>, visited: set<nat>, q: nat) {
    Root(ops, q) ||
    exists p {:trigger JumpsTo(ops, p, q)} | p in visited && p < |ops| :: JumpsTo(ops, p, q)
  }

  ghost predicate JumpsTo(ops: seq<Op>, p: nat, q: nat)
    requires p < |ops|
  {
    q != JMP_EXIT && q in Jumps(ops[p], p)
  }

  ghost predicate Terminator(ops: seq<Op>, p: nat)
    requires p < |ops|
  {
    !ops[p].Other?
  }

  /** Everything recorded is right. */
  ghost predicate Sound(ops: seq<Op>, s: State) {
    && |s.branches| == |ops|
    && (forall p | p in s.visited :: p <= |ops| && (p < |ops| ==> Reachable(ops, p)))
    && (forall q | q in s.starts :: q < |ops| && Started(ops, s.visited, q))
    && (forall e | e in s.ends :: e < |ops| && e in s.visited && Terminator(ops, e))
    && (forall p | 0 <= p < |ops| ::
      OutsOf(s.branches[p], Jumps(ops[p], p)) && (s.branches[p].outsCount > 0 ==> p in s.visited))
  }

  /** Everything that follows from visiting p is recorded. */
  ghost predicate Done(ops: seq<Op>, s: State, p: nat)
    requires p < |ops| == |s.branches|
  {
    && (forall q {:trigger Leads(ops, p, q)} | Leads(ops, p, q) :: q in s.visited)
    && (Terminator(ops, p) ==> p in s.ends)
    && (forall q {:trigger JumpsTo(ops, p, q)} | JumpsTo(ops, p, q) :: q in s.starts)
    && s.branches[p].outsCount == |Jumps(ops[p], p)|
  }

  /** Nothing recorded is lost from s to t. */
  ghost predicate Grows(s: State, t: State) {
    && s.visited <= t.visited && s.starts <= t.starts && s.ends <= t.ends
    && |s.branches| == |t.branches|
    && forall p | 0 <= p < |s.branches| :: s.branches[p].outsCount <= t.branches[p].outsCount
  }

  /** The opcodes visited between s and t, other than pending, are done. */
  ghost predicate NewDone(ops: seq<Op>, s: State, t: State, pending: int)
    requires |t.branches| == |ops|
  {
    forall p | p in t.visited && p !in s.visited && p != pending && p < |ops| :: Done(ops, t, p)
  }

  lemma DoneGrows(ops: seq<Op>, s: State, t: State, p: nat)
    requires p < |ops| == |s.branches|
    requires Done(ops, s, p) && Grows(s, t) && Sound(ops, t)
    ensures Done(ops, t, p)
  {
  }

  lemma NewDoneGrows(ops: seq<Op>, s: State, t: State, u: State, pending: int)
    requires Sound(ops, t) && Sound(ops, u)
    requires NewDone(ops, s, t, pending) && Grows(t, u) && NewDone(ops, t, u, NONE)
    ensures NewDone(ops, s, u, pending)
  {
    forall p | p in u.visited && p !in s.visited && p != pending && p < |ops|
      ensures Done(ops, u, p)
    {
      if p in t.visited {
        DoneGrows(ops, t, u, p);
      }
    }
  }

  lemma GrowsTransitive(s: State, t: State, u: State)
    requires Grows(s, t) && Grows(t, u)
    ensures Grows(s, u)
  {
  }

  /** The walk moves from position p to position q. */
  lemma NewDoneShifts(ops: seq<Op>, s: State, t: State, u: State, p: nat, q: nat)
    requires Sound(ops, t) && Sound(ops, u) && p < |ops|
    requires NewDone(ops, s, t, p) && Grows(t, u) && NewDone(ops, t, u, q) && Done(ops, u, p)
    ensures NewDone(ops, s, u, q)
  {
    forall r | r in u.visited && r !in s.visited && r != q && r < |ops|
      ensures Done(ops, u, r)
    {
      if r in t.visited && r != p {
        DoneGrows(ops, t, u, r);
      }
    }
  }

  // ----- termination

  /** How many of the positions up to n are still to be visited. */
  ghost function Unvisited(v: set<nat>, n: nat): nat {
    (if n in v then 0 else 1) + (if n == 0 then 0 else Unvisited(v, n - 1))
  }

  lemma {:induction false} UnvisitedShrinks(v: set<nat>, w: set<nat>, n: nat, p: nat)
    requires v <= w
    ensures Unvisited(w, n) <= Unvisited(v, n)
    ensures p in w && p !in v && p <= n ==> Unvisited(w, n) < Unvisited(v, n)
  {
    if n > 0 {
      UnvisitedShrinks(v, w, n - 1, p);
    }
  }

  // ----- recording steps

  ghost function Visited(s: State, p: nat): State {
    s.(visited := s.visited + {p})
  }

  ghost function WithStart(s: State, p: nat): State {
    s.(starts := s.starts + {p})
  }

  ghost function WithEnd(s: State, p: nat): State {
    s.(ends := s.ends + {p})
  }

  function WithOut(b: Branch, idx: nat, jump: int): Branch
    requires |b.outs| == MAX_OUTS
  {
    if idx < MAX_OUTS
    then Branch(b.outs[idx := jump], if idx + 1 > b.outsCount then idx + 1 else b.outsCount, b.endOp)
    else b
  }

  /** xdebug_branch_info_update */
  ghost function Updated(s: State, p: nat, idx: nat, jump: int): State
    requires p < |s.branches| && |s.branches[p].outs| == MAX_OUTS
  {
    s.(ends := s.ends + {p}, branches := s.branches[p := WithOut(s.branches[p], idx, jump)])
  }

  lemma UpdateKeeps(ops: seq<Op>, s: State, p: nat, idx: nat)
    requires Sound(ops, s) && p in s.visited && p < |ops|
    requires IsJump(ops[p]) && idx < |Jumps(ops[p], p)| && idx <= s.branches[p].outsCount
    ensures var t := Updated(s, p, idx, Jumps(ops[p], p)[idx]);
      Sound(ops, t) && Grows(s, t) && t.branches[p].outsCount > idx
  {
    var js := Jumps(ops[p], p);
    var b, b' := s.branches[p], WithOut(s.branches[p], idx, js[idx]);
    assert OutsOf(b', js) by {
      forall k | 0 <= k < b'.outsCount
        ensures b'.outs[k] == js[k]
      {
        if k != idx {
          assert b.outs[k] == b.outs[..b.outsCount][k] == js[..b.outsCount][k];
        }
      }
    }
  }

  lemma StartKeeps(ops: seq<Op>, s: State, q: nat)
    requires Sound(ops, s) && q < |ops| && Started(ops, s.visited, q)
    ensures Sound(ops, WithStart(s, q)) && Grows(s, WithStart(s, q))
  {
  }

  lemma VisitKeeps(ops: seq<Op>, s: State, p: nat)
    requires Sound(ops, s) && p <= |ops| && (p < |ops| ==> Reachable(ops, p))
    ensures Sound(ops, Visited(s, p)) && Grows(s, Visited(s, p))
    ensures NewDone(ops, s, Visited(s, p), p)
  {
    forall q | q in s.starts
      ensures Started(ops, s.visited + {p}, q)
    {
      if !Root(ops, q) {
        var r :| r in s.visited && r < |ops| && JumpsTo(ops, r, q);
      }
    }
  }

  /** One analysis: the op array, the set of visited opcodes and the branch record. */
  class Analysis {
    const ops: seq<Op>
    const visited: Set
    const entryPoints: Set
    const starts: Set
    const ends: Set
    const branches: array<Branch>

    ghost predicate Valid() {
      && visited.Valid() && entryPoints.Valid() && starts.Valid() && ends.Valid()
      && visited.size == entryPoints.size == starts.size == ends.size == branches.Length == |ops|
      && visited.setinfo != entryPoints.setinfo && visited.setinfo != starts.setinfo
      && visited.setinfo != ends.setinfo && entryPoints.setinfo != starts.setinfo
      && entryPoints.setinfo != ends.setinfo && starts.setinfo != ends.setinfo
      && branches as object !in {visited.setinfo, entryPoints.setinfo, starts.setinfo, ends.setinfo}
    }

    ghost function Recorded(): State
      reads visited.setinfo, starts.setinfo, ends.setinfo, branches
    {
      State(visited.Members(), starts.Members(), ends.Members(), branches[..])
    }

    /** xdebug_set_create and xdebug_branch_info_create, for the size of the op array. */
    constructor (ops: seq<Op>)
      ensures Valid() && this.ops == ops
      ensures Recorded() == State({}, {}, {}, seq(|ops|, _ => NO_BRANCH))
      ensures entryPoints.Members() == {}
      ensures fresh(visited.setinfo) && fresh(entryPoints.setinfo) && fresh(starts.setinfo) && fresh(ends.setinfo)
      ensures fresh(branches)
    {
      this.ops := ops;
      visited := new Set(|ops|);
      entryPoints := new Set(|ops|);
      starts := new Set(|ops|);
      ends := new Set(|ops|);
      branches := new Branch[|ops|](_ => NO_BRANCH);
    }

    /** xdebug_branch_info_update */
    method Update(position: nat, outidx: nat, jump: int)
      requires Valid() && position < |ops| && |branches[position].outs| == MAX_OUTS
      modifies ends.setinfo, branches
      ensures Recorded() == Updated(old(Recorded()), position, outidx, jump)
    {
      ends.Add(position);
      if outidx < MAX_OUTS {
        branches[position] := branches[position].(outs := branches[position].outs[outidx := jump]);
        if outidx + 1 > branches[position].outsCount {
          branches[position] := branches[position].(outsCount := outidx + 1);
        }
      }
    }

    /** After the first i outs of position. */
    ghost predicate OutsFollowed(s: State, position: nat, i: nat)
      requires position < |ops| == |s.branches|
    {
      && position in s.visited
      && i <= |Jumps(ops[position], position)| && i <= s.branches[position].outsCount
      && (i > 0 ==> position in s.ends)
      && forall k {:trigger Jumps(ops[position], position)[k]} | 0 <= k < i ::
        var j := Jumps(ops[position], position)[k];
        j == JMP_EXIT || (j >= 0 && j in s.visited && j in s.starts)
    }

    lemma OutsFollowedGrow(s: State, t: State, position: nat, i: nat)
      requires position < |ops| == |s.branches| && i < |Jumps(ops[position], position)|
      requires OutsFollowed(s, position, i) && Grows(s, t)
      requires position in t.ends && t.branches[position].outsCount > i
      requires var j := Jumps(ops[position], position)[i];
        j == JMP_EXIT || (j >= 0 && j in t.visited && j in t.starts)
      ensures OutsFollowed(t, position, i + 1)
    {
    }

    lemma OutsFollowedDone(s: State, position: nat)
      requires Sound(ops, s) && WellFormedOps(ops) && position < |ops| && IsJump(ops[position])
      requires OutsFollowed(s, position, |Jumps(ops[position], position)|)
      ensures Done(ops, s, position)
    {
      var js := Jumps(ops[position], position);
      forall q: nat {:trigger JumpsTo(ops, position, q)} | JumpsTo(ops, position, q)
        ensures q in s.visited && q in s.starts
      {
        var k :| 0 <= k < |js| && js[k] == q;
      }
    }

    /** A target of a visited jump may be analysed. */
    lemma TargetStarts(s: State, position: nat, i: nat)
      requires Sound(ops, s) && WellFormedOps(ops)
      requires position < |ops| && position in s.visited && IsJump(ops[position])
      requires i < |Jumps(ops[position], position)| && Jumps(ops[position], position)[i] != JMP_EXIT
      ensures var j := Jumps(ops[position], position)[i];
        0 <= j < |ops| && Reachable(ops, j) && Started(ops, s.visited, j)
    {
      var j := Jumps(ops[position], position)[i];
      assert JumpsTo(ops, position, j) && Leads(ops, position, j);
      StepReachable(ops, position, j);
    }

    /** One round of the jump loop of xdebug_analyse_branch. */
    method FollowOut(position: nat, i: nat, jump: int)
      requires Valid() && WellFormedOps(ops) && Sound(ops, Recorded())
      requires position < |ops| && IsJump(ops[position])
      requires i < |Jumps(ops[position], position)| && jump == Jumps(ops[position], position)[i]
      requires OutsFollowed(Recorded(), position, i)
      modifies visited.setinfo, starts.setinfo, ends.setinfo, branches
      ensures Sound(ops, Recorded()) && Grows(old(Recorded()), Recorded())
      ensures NewDone(ops, old(Recorded()), Recorded(), NONE)
      ensures OutsFollowed(Recorded(), position, i + 1)
      decreases Unvisited(Recorded().visited, |ops|), 1
    {
      ghost var s := Recorded();
      UpdateKeeps(ops, s, position, i);
      Update(position, i, jump);
      ghost var t := Recorded();
      UnvisitedShrinks(s.visited, Recorded().visited, |ops|, 0);
      if jump != JMP_EXIT {
        TargetStarts(Recorded(), position, i);
        AnalyseBranch(jump);
      }
      GrowsTransitive(s, t, Recorded());
      OutsFollowedGrow(s, Recorded(), position, i);
    }

    /** The jump loop of xdebug_analyse_branch: record every out and analyse its target. */
    method FollowJumps(position: nat, jumpCount: nat, jumps: array<int>)
      requires Valid() && WellFormedOps(ops) && Sound(ops, Recorded())
      requires position < |ops| && position in Recorded().visited && IsJump(ops[position])
      requires jumps.Length == MAX_OUTS && jumpCount <= MAX_OUTS
      requires jumps[..jumpCount] == Jumps(ops[position], position)
      requires jumps as object !in {visited.setinfo, starts.setinfo, ends.setinfo, branches}
      modifies visited.setinfo, starts.setinfo, ends.setinfo, branches
      ensures Sound(ops, Recorded()) && Grows(old(Recorded()), Recorded())
      ensures Done(ops, Recorded(), position)
      ensures NewDone(ops, old(Recorded()), Recorded(), NONE)
      decreases Unvisited(Recorded().visited, |ops|), 2
    {
      ghost var s0 := Recorded();
      ghost var js := jumps[..jumpCount];
      for i := 0 to jumpCount
        invariant Sound(ops, Recorded()) && Grows(s0, Recorded())
        invariant NewDone(ops, s0, Recorded(), NONE)
        invariant OutsFollowed(Recorded(), position, i)
        invariant jumps[..jumpCount] == js
      {
        ghost var s := Recorded();
        UnvisitedShrinks(s0.visited, s.visited, |ops|, 0);
        FollowOut(position, i, jumps[i]);
        NewDoneGrows(ops, s0, s, Recorded(), NONE);
        GrowsTransitive(s0, s, Recorded());
      }
      OutsFollowedDone(Recorded(), position);
    }

    /** The walk of xdebug_analyse_branch, begun on the record s0, stands at position. */
    ghost predicate Walking(s0: State, s: State, position: nat, start: nat) {
      && Sound(ops, s) && Grows(s0, s)
      && position in s.visited && start in s.visited && start in s.starts
      && Unvisited(s.visited, |ops|) < Unvisited(s0.visited, |ops|)
      && NewDone(ops, s0, s, position)
    }

    ghost predicate Walked(s0: State, s: State, start: nat) {
      && Sound(ops, s) && Grows(s0, s)
      && start in s.visited && start in s.starts
      && NewDone(ops, s0, s, NONE)
    }

    lemma StartWalking(s0: State, start: nat)
      requires Sound(ops, s0) && start !in s0.visited
      requires start < |ops| && Reachable(ops, start) && Started(ops, s0.visited, start)
      ensures Walking(s0, Visited(WithStart(s0, start), start), start, start)
    {
      StartKeeps(ops, s0, start);
      VisitKeeps(ops, WithStart(s0, start), start);
      UnvisitedShrinks(s0.visited, s0.visited + {start}, |ops|, start);
    }

    /** The opcode at position falls through. */
    lemma FallThrough(s0: State, s: State, position: nat, next: nat, start: nat)
      requires Walking(s0, s, position, start) && WellFormedOps(ops)
      requires position < |ops| && ops[position].Other? && next == position + 1
      ensures Walking(s0, Visited(s, next), next, start)
    {
      var t := Visited(s, next);
      if next < |ops| {
        assert Leads(ops, position, next);
        StepReachable(ops, position, next);
      }
      VisitKeeps(ops, s, next);
      UnvisitedShrinks(s.visited, t.visited, |ops|, 0);
      GrowsTransitive(s0, s, t);
      OtherDone(s, position, next);
      NewDoneShifts(ops, s0, s, t, position, next);
    }

    lemma OtherDone(s: State, position: nat, next: nat)
      requires Sound(ops, s) && position < |ops| && ops[position].Other? && next == position + 1
      ensures Done(ops, Visited(s, next), position)
    {
    }

    /** The opcode at position was done last, on the way from s to t. */
    lemma WalkEnds(s0: State, s: State, t: State, position: nat, start: nat)
      requires Walking(s0, s, position, start) && position < |ops|
      requires Sound(ops, t) && Grows(s, t) && NewDone(ops, s, t, NONE) && Done(ops, t, position)
      ensures Walked(s0, t, start)
    {
      GrowsTransitive(s0, s, t);
      NewDoneGrows(ops, s0, s, t, position);
    }

    lemma EndKeeps(s: State, position: nat)
      requires Sound(ops, s) && position < |ops| && position in s.visited && ops[position].ReturnByRef?
      ensures Sound(ops, WithEnd(s, position)) && Grows(s, WithEnd(s, position))
      ensures NewDone(ops, s, WithEnd(s, position), NONE) && Done(ops, WithEnd(s, position), position)
    {
    }

    /** One round of the walk of xdebug_analyse_branch. THROW, EXIT and RETURN are
        jumps to the exit by then, so of its exit tests only the one for
        RETURN_BY_REF can succeed. */
    method WalkStep(position: nat, ghost s0: State, ghost start: nat) returns (more: bool, next: nat)
      requires Valid() && WellFormedOps(ops) && position < |ops|
      requires Walking(s0, Recorded(), position, start)
      modifies visited.setinfo, starts.setinfo, ends.setinfo, branches
      ensures more ==> next == position + 1 && Walking(s0, Recorded(), next, start)
      ensures !more ==> Walked(s0, Recorded(), start)
      decreases Unvisited(Recorded().visited, |ops|), 3
    {
      ghost var s := Recorded();
      var jumps := new int[MAX_OUTS];
      var found, jumpCount := FindJumps(ops, position, jumps);
      if found {
        FollowJumps(position, jumpCount, jumps);
        WalkEnds(s0, s, Recorded(), position, start);
        return false, position;
      }
      if ops[position].ReturnByRef? {
        ends.Add(position);
        EndKeeps(s, position);
        WalkEnds(s0, s, Recorded(), position, start);
        return false, position;
      }
      next := position + 1;
      visited.Add(next);
      FallThrough(s0, s, position, next, start);
      return true, next;
    }

    /** xdebug_analyse_branch */
    method AnalyseBranch(start: nat)
      requires Valid() && WellFormedOps(ops) && Sound(ops, Recorded())
      requires start < |ops| && Reachable(ops, start) && Started(ops, Recorded().visited, start)
      modifies visited.setinfo, starts.setinfo, ends.setinfo, branches
      ensures Walked(old(Recorded()), Recorded(), start)
      decreases Unvisited(Recorded().visited, |ops|), 0
    {
      ghost var s0 := Recorded();
      StartKeeps(ops, s0, start);
      starts.Add(start);
      var seen := visited.In(start);
      if seen {
        return;
      }
      visited.Add(start);
      StartWalking(s0, start);
      var position := start;
      while position < |ops|
        invariant position <= |ops| && Walking(s0, Recorded(), position, start)
        decreases |ops| - position
      {
        var more, next := WalkStep(position, s0, start);
        if !more {
          return;
        }
        position := next;
      }
    }

    /** After the roots below i have been analysed. */
    ghost predicate RootsDone(s: State, entries: set<nat>, i: nat) {
      Sound(ops, s) && NewDone(ops, Nothing(), s, NONE) && RootsIn(s.visited, s.starts, entries, i)
    }

    ghost predicate RootsIn(visited: set<nat>, starts: set<nat>, entries: set<nat>, i: nat) {
      && (forall r: nat {:trigger Root(ops, r)} | r < i && Root(ops, r) :: r in visited && r in starts && r in entries)
      && (forall r {:trigger r in entries} | r in entries :: Root(ops, r))
    }

    lemma RootsInNext(visited: set<nat>, starts: set<nat>, entries: set<nat>, i: nat, next: nat)
      requires RootsIn(visited, starts, entries, i) && next == i + 1
      ensures !Root(ops, i) ==> RootsIn(visited, starts, entries, next)
      ensures Root(ops, i) ==> RootsIn(visited + {i}, starts + {i}, entries + {i}, next)
    {
    }

    lemma RootsInGrow(visited: set<nat>, starts: set<nat>, v: set<nat>, t: set<nat>, entries: set<nat>, i: nat)
      requires RootsIn(visited, starts, entries, i) && visited <= v && starts <= t
      ensures RootsIn(v, t, entries, i)
    {
    }

    ghost function Nothing(): State {
      State({}, {}, {}, seq(|ops|, _ => NO_BRANCH))
    }

    lemma NothingDone()
      ensures RootsDone(Nothing(), {}, 0)
    {
      assert Sound(ops, Nothing());
    }

    lemma RootDone(s: State, t: State, entries: set<nat>, i: nat, next: nat)
      requires RootsDone(s, entries, i) && Walked(s, t, i) && Root(ops, i) && next == i + 1
      ensures RootsDone(t, entries + {i}, next)
    {
      GrowsTransitive(Nothing(), s, t);
      NewDoneGrows(ops, Nothing(), s, t, NONE);
      RootsInNext(s.visited, s.starts, entries, i, next);
      RootsInGrow(s.visited + {i}, s.starts + {i}, t.visited, t.starts, entries + {i}, next);
    }

    lemma NoRoot(s: State, entries: set<nat>, i: nat, next: nat)
      requires RootsDone(s, entries, i) && !Root(ops, i) && next == i + 1
      ensures RootsDone(s, entries, next)
    {
      RootsInNext(s.visited, s.starts, entries, i, next);
    }

    /** One round of the root loop. */
    method AnalyseRoot(position: nat) returns (next: nat)
      requires Valid() && WellFormedOps(ops) && position < |ops|
      requires RootsDone(Recorded(), entryPoints.Members(), position)
      modifies visited.setinfo, entryPoints.setinfo, starts.setinfo, ends.setinfo, branches
      ensures next == position + 1 && RootsDone(Recorded(), entryPoints.Members(), next)
    {
      ghost var s, entries := Recorded(), entryPoints.Members();
      next := position + 1;
      if position == 0 {
        RootReachable(ops, position);
        AnalyseBranch(position);
        entryPoints.Add(position);
        RootDone(s, Recorded(), entries, position, next);
      } else if ops[position].Catch? {
        RootReachable(ops, position);
        AnalyseBranch(position);
        entryPoints.Add(position);
        RootDone(s, Recorded(), entries, position, next);
      } else {
        NoRoot(s, entries, position, next);
      }
    }

    /** The root loop of xdebug_analyse_oparray. */
    method AnalyseRoots()
      requires Valid() && WellFormedOps(ops)
      requires Recorded() == Nothing() && entryPoints.Members() == {}
      modifies visited.setinfo, entryPoints.setinfo, starts.setinfo, ends.setinfo, branches
      ensures RootsDone(Recorded(), entryPoints.Members(), |ops|)
    {
      NothingDone();
      var position := 0;
      while position < |ops|
        invariant position <= |ops| && RootsDone(Recorded(), entryPoints.Members(), position)
      {
        position := AnalyseRoot(position);
      }
    }

    /** The visited opcodes are the reachable ones. */
    ghost predicate ExactVisited(visited: set<nat>) {
      forall p | 0 <= p < |ops| :: p in visited <==> Reachable(ops, p)
    }

    /** The starts are the roots and the jump targets of reachable opcodes. */
    ghost predicate ExactStarts(starts: set<nat>) {
      forall q: nat :: q in starts <==> StartsBlock(q)
    }

    /** The ends are the reachable terminators and, as the last step adds it whether it
        is reachable or not, the last opcode. */
    ghost predicate ExactEnds(ends: set<nat>)
      requires ops != []
    {
      forall e: nat :: e in ends <==> e == |ops| - 1 || EndsBlock(e)
    }

    ghost predicate EndsBlock(e: nat) {
      e < |ops| && Reachable(ops, e) && Terminator(ops, e)
    }

    /** Each reachable jump has its outs recorded, in order; no other opcode has any. */
    ghost predicate ExactOuts(branches: seq<Branch>) {
      && |branches| == |ops|
      && forall p | 0 <= p < |ops| :: OutsRecorded(branches[p], p)
    }

    ghost predicate OutsRecorded(b: Branch, p: nat)
      requires p < |ops|
    {
      && |b.outs| == MAX_OUTS && b.outsCount <= MAX_OUTS
      && b.outs[..b.outsCount] == if Reachable(ops, p) then Jumps(ops[p], p) else []
    }

    /** The record of a finished analysis. */
    ghost predicate Exact(s: State)
      requires ops != []
    {
      ExactVisited(s.visited) && ExactStarts(s.starts) && ExactEnds(s.ends) && ExactOuts(s.branches)
    }

    ghost predicate StartsBlock(q: nat) {
      Root(ops, q) ||
      exists p {:trigger JumpsTo(ops, p, q)} | 0 <= p < |ops| && Reachable(ops, p) :: JumpsTo(ops, p, q)
    }

    lemma VisitedExact(s: State, entries: set<nat>)
      requires RootsDone(s, entries, |ops|)
      ensures ExactVisited(s.visited)
    {
      assert Closed(ops, s.visited) by {
        forall a, b {:trigger Leads(ops, a, b)} | a in s.visited && a < |ops| && Leads(ops, a, b)
          ensures b in s.visited
        {
          assert Done(ops, s, a);
        }
      }
      forall p | 0 <= p < |ops| && Reachable(ops, p)
        ensures p in s.visited
      {
        ReachableLeast(ops, s.visited, p);
      }
    }

    lemma StartsExact(s: State, entries: set<nat>)
      requires RootsDone(s, entries, |ops|)
      ensures ExactStarts(s.starts)
    {
      VisitedExact(s, entries);
      forall q: nat
        ensures q in s.starts <==> StartsBlock(q)
      {
        if StartsBlock(q) && !Root(ops, q) {
          var p :| 0 <= p < |ops| && Reachable(ops, p) && JumpsTo(ops, p, q);
          assert Done(ops, s, p);
        }
      }
    }

    lemma EndsExact(s: State, entries: set<nat>)
      requires RootsDone(s, entries, |ops|)
      ensures forall e: nat :: e in s.ends <==> EndsBlock(e)
    {
      VisitedExact(s, entries);
      forall e: nat
        ensures e in s.ends <==> EndsBlock(e)
      {
        if EndsBlock(e) {
          assert Done(ops, s, e);
        }
      }
    }

    lemma OutsExact(s: State, entries: set<nat>)
      requires RootsDone(s, entries, |ops|)
      ensures ExactOuts(s.branches)
    {
      VisitedExact(s, entries);
      forall p | 0 <= p < |ops|
        ensures OutsRecorded(s.branches[p], p)
      {
        if Reachable(ops, p) {
          assert Done(ops, s, p);
        }
      }
    }

    /** xdebug_analyse_oparray */
    method AnalyseOpArray()
      requires Valid() && ops != [] && WellFormedOps(ops)
      requires Recorded() == Nothing() && entryPoints.Members() == {}
      modifies visited.setinfo, entryPoints.setinfo, starts.setinfo, ends.setinfo, branches
      ensures Exact(Recorded())
      ensures forall r: nat :: r in entryPoints.Members() <==> Root(ops, r)
    {
      AnalyseRoots();
      ghost var s, entries := Recorded(), entryPoints.Members();
      VisitedExact(s, entries);
      StartsExact(s, entries);
      EndsExact(s, entries);
      OutsExact(s, entries);
      ends.Add(|ops| - 1);
    }
  }
}
