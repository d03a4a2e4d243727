/** The analysis of one function, as code coverage prefills it: dead code, basic
    blocks and paths. */
module BranchCoverage {
  import opened XdebugSet
  import opened BranchPaths
  import opened BranchTrails
  import opened BranchPathKeys
  import opened Opcodes
  import opened DeadCode
  import opened BranchInfo
  import opened BasicBlocks

  /** Take the catches that are chained to an earlier one off the entry points. */
  method DropEntries(entryPoints: Set, chained: seq<nat>)
    requires entryPoints.Valid() && forall i | 0 <= i < |chained| :: chained[i] <= entryPoints.size
    modifies entryPoints.setinfo
    ensures entryPoints.Members() == old(entryPoints.Members()) - set i | 0 <= i < |chained| :: chained[i]
  {
    for i := 0 to |chained|
      invariant entryPoints.Members() == old(entryPoints.Members()) - set k | 0 <= k < i :: chained[k]
    {
      entryPoints.Remove(chained[i]);
    }
  }

  /** Analyse an op array. The visited opcodes are the reachable ones, the folded blocks
      are the ones their terminators make exactly when the last opcode is reachable,
      and the recorded paths are the enumerator's listing for the blocks. */
  method Prefill(ops: seq<Op>, chained: seq<nat>) returns (a: Analysis, finder: Finder, info: PathInfo)
    requires ops != [] && WellFormedOps(ops)
    requires forall i | 0 <= i < |chained| :: chained[i] < |ops|
    ensures a.Valid() && a.ops == ops
    ensures a.ExactVisited(a.visited.Members()) && a.ExactStarts(a.starts.Members())
    ensures forall p | 0 <= p < |ops| :: |a.branches[p].outs| == MAX_OUTS && a.branches[p].outsCount <= MAX_OUTS
    ensures Reachable(ops, |ops| - 1) <==>
      forall q, nx {:trigger NextStart(a.starts.Members(), |ops|, q, nx)} |
        q in a.starts.Members() && q < |ops| && NextStart(a.starts.Members(), |ops|, q, nx) ::
        AtTerminator(ops, a.branches[q], q, nx)
    ensures finder.outs == CfgOf(a.branches[..]) && WellFormed(finder.outs)
    ensures finder.paths == Capped(ListEntries(finder.outs, a.entryPoints.Members(), 0))
    ensures forall e: nat :: e in a.entryPoints.Members() <==> e < |ops| && (e == 0 || ops[e].Catch?) && e !in chained
    ensures info.Valid() && info.paths == finder.paths && info.hit == seq(|info.paths|, _ => false)
  {
    a := new Analysis(ops);
    a.AnalyseOpArray();
    ghost var s := a.Recorded();
    SizedRecord(a, s);
    DropEntries(a.entryPoints, chained);
    assert a.Recorded() == s;
    assert a.StartsBlock(0);
    PostProcess(a.starts, a.ends, a.branches);
    BlocksAreBasic(a, s, a.branches[..]);
    BlocksWellFormed(a, s, a.branches[..]);
    finder := MakeFinder(a.branches);
    finder.FindPaths(a.entryPoints);
    info := IndexPaths(finder.outs, a.entryPoints.Members(), finder.paths);
  }

  /** The recorded paths with their keys: every element of a path is a block number, and
      so fits its key. */
  method IndexPaths(ghost outs: Cfg, ghost entries: set<nat>, paths: seq<seq<int>>) returns (info: PathInfo)
    requires WellFormed(outs) && |outs| <= JMP_EXIT
    requires paths == Capped(ListEntries(outs, entries, 0))
    ensures fresh(info) && info.Valid() && info.paths == paths && info.hit == seq(|paths|, _ => false)
  {
    forall j | 0 <= j < |paths|
      ensures forall i | 0 <= i < |paths[j]| :: 0 <= paths[j][i] < 0x1_0000_0000
    {
      assert paths[j] in paths;
      RecordedPaths(outs, entries, paths, paths[j]);
    }
    info := new PathInfo(paths);
  }

  ghost predicate Marked(info: PathInfo, executed: seq<nat>)
    requires |info.hit| == |info.paths|
    reads info
  {
    exists j | 0 <= j < |info.paths| :: info.hit[j] && info.paths[j] == executed
  }

  /** A function of the analysed kind ends: its path is marked exactly when it was recorded,
      below the cap exactly when it is a maximal trail from an entry point. */
  method EndFunction(info: PathInfo, ghost outs: Cfg, ghost entries: set<nat>, executed: seq<nat>)
    requires info.Valid() && Unsigned(executed) && WellFormed(outs)
    requires info.paths == Capped(ListEntries(outs, entries, 0))
    modifies info`hit
    ensures info.Valid() && (Marked(info, executed) <==> executed in info.paths)
    ensures |ListEntries(outs, entries, 0)| <= 4096 ==>
      (Marked(info, executed) <==> MaximalTrail(outs, executed) && executed[0] in entries)
    ensures forall j | 0 <= j < |info.paths| && info.paths[j] != executed :: info.hit[j] == old(info.hit)[j]
  {
    info.EndOfFunction(executed);
    if executed in info.paths {
      var j := LastOf(info.paths, executed);
      assert info.hit[j];
    }
    RecordedPaths(outs, entries, info.paths, executed);
  }

  lemma {:induction false} LastOf(paths: seq<seq<nat>>, p: seq<nat>) returns (j: nat)
    requires p in paths
    ensures j < |paths| && paths[j] == p && p !in paths[j + 1..]
    decreases |paths|
  {
    var n := |paths| - 1;
    if paths[n] == p {
      j := n;
    } else {
      j := LastOf(paths[..n], p);
      assert paths[j + 1..] == paths[..n][j + 1..] + [paths[n]];
    }
  }

  lemma SizedRecord(a: Analysis, s: State)
    requires a.ops != [] && a.Exact(s)
    ensures Sized(s.branches)
  {
    forall p | 0 <= p < |s.branches|
      ensures |s.branches[p].outs| == MAX_OUTS && s.branches[p].outsCount <= MAX_OUTS
    {
      assert a.OutsRecorded(s.branches[p], p);
    }
  }

  method MakeFinder(branches: array<Branch>) returns (finder: Finder)
    requires Sized(branches[..])
    ensures fresh(finder) && finder.outs == CfgOf(branches[..]) && finder.paths == []
  {
    var outs: Cfg := [];
    for i := 0 to branches.Length
      invariant outs == CfgOf(branches[..])[..i]
    {
      outs := outs + [branches[i].outs[..branches[i].outsCount]];
    }
    finder := new Finder(outs);
  }

  /** A conditional jump to the next opcode. */
  const JUMP_TO_NEXT: seq<Op> := [JmpCond(1), Leave]

  /** Its block lists the next one twice, so the one path of the function is recorded
      twice. */
  lemma JumpToNextTwice(a: Analysis, s: State, after: seq<Branch>)
    requires a.ops == JUMP_TO_NEXT && a.Exact(s)
    requires AllFolded(s.starts, s.ends, s.branches, after)
    ensures WellFormedOps(JUMP_TO_NEXT) && CfgOf(after) == TWO_OUTS && WellFormed(TWO_OUTS)
    ensures Capped(ListEntries(TWO_OUTS, {0}, 0)) == [[0, 1], [0, 1]]
  {
    JumpToNextStarts(a, s);
    TerminatorOuts(a, s, after, 0, 1, 0);
    TerminatorOuts(a, s, after, 1, 2, 1);
    TwoBlocks(after);
    ListsTwice();
  }

  /** The outs of a block that its first terminator ends. */
  lemma TerminatorOuts(a: Analysis, s: State, after: seq<Branch>, q: nat, nx: nat, t: nat)
    requires a.ops != [] && WellFormedOps(a.ops) && a.Exact(s) && Reachable(a.ops, |a.ops| - 1)
    requires AllFolded(s.starts, s.ends, s.branches, after)
    requires q in s.starts && q < |a.ops| && NextStart(s.starts, |a.ops|, q, nx)
    requires FirstTerminator(a.ops, q, t) && t < nx
    ensures InUse(after[q]) == Jumps(a.ops[t], t)
  {
    BlocksAreBasic(a, s, after);
    assert AtTerminator(a.ops, after[q], q, nx);
  }

  const TWO_OUTS: Cfg := [[1, 1], [JMP_EXIT]]

  lemma TwoBlocks(after: seq<Branch>)
    requires Sized(after) && |after| == 2 && InUse(after[0]) == [1, 1] && InUse(after[1]) == [JMP_EXIT]
    ensures CfgOf(after) == TWO_OUTS
  {
  }

  lemma JumpToNextStarts(a: Analysis, s: State)
    requires a.ops == JUMP_TO_NEXT && a.Exact(s)
    ensures WellFormedOps(a.ops) && Reachable(a.ops, 1) && 0 in s.starts && 1 in s.starts
  {
    RootReachable(a.ops, 0);
    assert Leads(a.ops, 0, 1);
    StepReachable(a.ops, 0, 1);
    assert JumpsTo(a.ops, 0, 1);
    assert a.StartsBlock(0) && a.StartsBlock(1);
  }

  lemma ListsTwice()
    ensures WellFormed(TWO_OUTS) && ListEntries(TWO_OUTS, {0}, 0) == [[0, 1], [0, 1]]
  {
    var outs, q := TWO_OUTS, [0] + [1];
    assert !Usable(q, outs[Last(q)][0]) && ListFrom(outs, q) == [q];
    assert Usable([0], outs[0][1]) && ListVia(outs, [0], 1) == [q];
    assert Usable([0], outs[0][0]) && ListVia(outs, [0], 0) == [q, q];
    assert Usable([0], outs[Last([0])][0]) && ListFrom(outs, [0]) == [q, q];
    assert q == [0, 1];
    assert ListEntries(outs, {0}, 1) == [] + ListEntries(outs, {0}, 2) == [];
    assert ListEntries(outs, {0}, 0) == ListFrom(outs, [0]) + ListEntries(outs, {0}, 1);
  }
}
