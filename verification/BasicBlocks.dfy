/** What the blocks of an analysed op array are. */
module BasicBlocks {
  import opened BranchPaths
  import opened Opcodes
  import opened DeadCode
  import opened BranchInfo

  // ----- extents

  /** Blocks start at their start, end before the next start and do not overlap. */
  lemma BlocksDisjoint(starts: set<nat>, ends: set<nat>, before: seq<Branch>, after: seq<Branch>, q: nat, r: nat)
    requires AllFolded(starts, ends, before, after)
    requires q in starts && r in starts && q < |after| && r < |after|
    ensures q <= after[q].endOp < |after|
    ensures q < r ==> after[q].endOp < r
  {
    var nx := NextOf(starts, |after|, q);
    assert Folded(ends, before, |after|, after[q], q, nx);
  }

  /** Every start has a next start, or the end of the op array. */
  lemma NextOf(starts: set<nat>, n: nat, q: nat) returns (nx: nat)
    requires q < n
    ensures NextStart(starts, n, q, nx)
  {
    nx := q + 1;
    while nx < n && nx !in starts
      invariant q < nx <= n
      invariant forall s | q < s < nx :: s !in starts
    {
      nx := nx + 1;
    }
  }

  // ----- terminators

  /** The opcodes from q up to p fall through. */
  ghost predicate Falls(ops: seq<Op>, q: nat, p: nat) {
    q <= p <= |ops| && forall k {:trigger ops[k]} | q <= k < p :: ops[k].Other?
  }

  /** t is the first terminator from q on. */
  ghost predicate FirstTerminator(ops: seq<Op>, q: nat, t: nat) {
    t < |ops| && Falls(ops, q, t) && Terminator(ops, t)
  }

  /** b ends at its first terminator and leads where that one jumps; without one before
      the next start nx it ends just before nx and leads there alone. */
  ghost predicate AtTerminator(ops: seq<Op>, b: Branch, q: nat, nx: nat)
    requires |b.outs| == MAX_OUTS && b.outsCount <= MAX_OUTS
  {
    && (forall t: nat {:trigger FirstTerminator(ops, q, t)} | t < nx && FirstTerminator(ops, q, t) ::
      b.endOp == t && InUse(b) == Jumps(ops[t], t))
    && (Falls(ops, q, nx) ==>
      b.endOp == nx - 1 && InUse(b) == if nx < |ops| then [nx] else [])
  }

  lemma FallsOn(ops: seq<Op>, q: nat, p: nat, r: nat)
    requires p < |ops| && Falls(ops, q, p) && ops[p].Other? && r == p + 1
    ensures Falls(ops, q, r)
  {
  }

  /** Where the fall-through from q stops. */
  lemma {:induction false} FallStops(ops: seq<Op>, q: nat, p: nat) returns (t: nat)
    requires Falls(ops, q, p)
    ensures p <= t && Falls(ops, q, t) && (t == |ops| || Terminator(ops, t))
    decreases |ops| - p
  {
    if p < |ops| && ops[p].Other? {
      FallsOn(ops, q, p, p + 1);
      t := FallStops(ops, q, p + 1);
    } else {
      t := p;
    }
  }

  /** A reachable opcode is reached by falling through from a start. */
  lemma {:induction false} RunStart(a: Analysis, s: seq<nat>, k: nat) returns (q: nat)
    requires Trace(a.ops, s) && k < |s|
    ensures a.StartsBlock(q) && Falls(a.ops, q, s[k])
  {
    if k == 0 {
      q := s[0];
    } else {
      var p := s[k - 1];
      assert Leads(a.ops, p, s[k - 1 + 1]);
      if Terminator(a.ops, p) {
        q := s[k];
        TracePrefix(a.ops, s, k - 1);
        assert JumpsTo(a.ops, p, q);
      } else {
        q := RunStart(a, s, k - 1);
        FallsOn(a.ops, q, p, s[k]);
      }
    }
  }

  lemma TracePrefix(ops: seq<Op>, s: seq<nat>, k: nat)
    requires Trace(ops, s) && k < |s|
    ensures Reachable(ops, s[k])
  {
    var t := s[..k + 1];
    forall i {:trigger t[i]} | 0 <= i < |t| - 1
      ensures Leads(ops, t[i], t[i + 1])
    {
      assert Leads(ops, s[i], s[i + 1]);
    }
    assert Trace(ops, t) && t[|t| - 1] == s[k];
  }

  /** Starts are reachable, and so is what follows them up to a terminator. */
  lemma {:induction false} RunReachable(a: Analysis, q: nat, p: nat)
    requires WellFormedOps(a.ops) && a.StartsBlock(q)
    requires p < |a.ops| && Falls(a.ops, q, p)
    ensures Reachable(a.ops, p)
    decreases p - q
  {
    if p == q {
      if Root(a.ops, q) {
        RootReachable(a.ops, q);
      } else {
        var r :| 0 <= r < |a.ops| && Reachable(a.ops, r) && JumpsTo(a.ops, r, q);
        assert Leads(a.ops, r, q);
        StepReachable(a.ops, r, q);
      }
    } else {
      RunReachable(a, q, p - 1);
      assert a.ops[p - 1].Other?;
      assert Leads(a.ops, p - 1, p);
      StepReachable(a.ops, p - 1, p);
    }
  }

  /** A reachable opcode of the block from q is at or before its first terminator. */
  lemma NothingAfterTerminator(a: Analysis, s: State, q: nat, nx: nat, t: nat, e: nat)
    requires a.ops != [] && a.Exact(s)
    requires q in s.starts && NextStart(s.starts, |a.ops|, q, nx)
    requires FirstTerminator(a.ops, q, t)
    requires Reachable(a.ops, e) && q <= e < nx
    ensures e <= t
  {
    var tr :| Trace(a.ops, tr) && tr[|tr| - 1] == e;
    var r := RunStart(a, tr, |tr| - 1);
    assert r in s.starts;
    assert r <= t ==> t >= e;
  }

  /** The block of a start, when the last opcode is reachable. */
  lemma BlockAtTerminator(a: Analysis, s: State, b: Branch, q: nat, nx: nat)
    requires a.ops != [] && WellFormedOps(a.ops) && a.Exact(s)
    requires Reachable(a.ops, |a.ops| - 1)
    requires q in s.starts && q < |a.ops| && NextStart(s.starts, |a.ops|, q, nx)
    requires Sized(s.branches) && |b.outs| == MAX_OUTS && b.outsCount <= MAX_OUTS
    requires Folded(s.ends, s.branches, |a.ops|, b, q, nx)
    ensures AtTerminator(a.ops, b, q, nx)
  {
    forall t: nat {:trigger FirstTerminator(a.ops, q, t)} | t < nx && FirstTerminator(a.ops, q, t)
      ensures b.endOp == t && InUse(b) == Jumps(a.ops[t], t)
    {
      RunReachable(a, q, t);
      assert a.EndsBlock(t) && t in s.ends;
      assert Meets(s.ends, q, nx);
      var e: nat :| LastIn(s.ends, q, nx, e) && b.endOp == e && InUse(b) == InUse(s.branches[e]);
      NothingAfterTerminator(a, s, q, nx, t, e);
      assert a.OutsRecorded(s.branches[t], t);
    }
    if Falls(a.ops, q, nx) {
      BlockWithoutTerminator(a, s, b, q, nx);
    }
  }

  lemma BlockWithoutTerminator(a: Analysis, s: State, b: Branch, q: nat, nx: nat)
    requires a.ops != [] && WellFormedOps(a.ops) && a.Exact(s)
    requires q in s.starts && q < |a.ops| && NextStart(s.starts, |a.ops|, q, nx)
    requires Sized(s.branches) && |b.outs| == MAX_OUTS && b.outsCount <= MAX_OUTS
    requires Folded(s.ends, s.branches, |a.ops|, b, q, nx)
    requires Falls(a.ops, q, nx)
    ensures b.endOp == nx - 1 && InUse(b) == if nx < |a.ops| then [nx] else []
  {
    var n := |a.ops|;
    if nx == n {
      assert n - 1 in s.ends;
      assert Meets(s.ends, q, nx);
      RunReachable(a, q, n - 1);
      assert a.OutsRecorded(s.branches[n - 1], n - 1);
    } else {
      assert !Meets(s.ends, q, nx);
    }
  }

  /** Every block is the one its terminator makes, exactly when the last opcode is
      reachable: the analysis records the last opcode as an end in any case, and the
      scan lets a later end of a block overrule an earlier one. */
  lemma BlocksAreBasic(a: Analysis, s: State, after: seq<Branch>)
    requires a.ops != [] && WellFormedOps(a.ops) && a.Exact(s)
    requires AllFolded(s.starts, s.ends, s.branches, after)
    ensures Reachable(a.ops, |a.ops| - 1) <==>
      forall q, nx {:trigger NextStart(s.starts, |a.ops|, q, nx)} |
        q in s.starts && q < |a.ops| && NextStart(s.starts, |a.ops|, q, nx) ::
        AtTerminator(a.ops, after[q], q, nx)
  {
    if Reachable(a.ops, |a.ops| - 1) {
      forall q, nx {:trigger NextStart(s.starts, |a.ops|, q, nx)} |
        q in s.starts && q < |a.ops| && NextStart(s.starts, |a.ops|, q, nx)
        ensures AtTerminator(a.ops, after[q], q, nx)
      {
        BlockAtTerminator(a, s, after[q], q, nx);
      }
    } else {
      var q, t := LastBlockOverruns(a, s, after);
    }
  }

  /** With an unreachable last opcode, the last block stops at a terminator before it,
      yet the scan ends the block at the last opcode, and takes that one's outs, of
      which it has none: every jump of the block is lost. */
  lemma LastBlockOverruns(a: Analysis, s: State, after: seq<Branch>) returns (q: nat, t: nat)
    requires a.ops != [] && WellFormedOps(a.ops) && a.Exact(s)
    requires AllFolded(s.starts, s.ends, s.branches, after)
    requires !Reachable(a.ops, |a.ops| - 1)
    ensures q in s.starts && q < |a.ops| && NextStart(s.starts, |a.ops|, q, |a.ops|)
    ensures FirstTerminator(a.ops, q, t) && t < |a.ops| - 1
    ensures after[q].endOp == |a.ops| - 1 && InUse(after[q]) == []
  {
    var n := |a.ops|;
    q := LastStart(a, s);
    t := FallStops(a.ops, q, q);
    if t >= n - 1 {
      RunReachable(a, q, n - 1);
    }
    assert n - 1 in s.ends && Meets(s.ends, q, n);
    assert Folded(s.ends, s.branches, n, after[q], q, n);
    var e: nat :| LastIn(s.ends, q, n, e) && after[q].endOp == e && InUse(after[q]) == InUse(s.branches[e]);
    assert e == n - 1 && a.OutsRecorded(s.branches[e], e);
  }

  /** A function body that is one return statement: the compiler puts another return
      behind it. */
  const RETURN_ONLY: seq<Op> := [Leave, Leave]

  lemma ReturnOnlyLeadsNowhere(a: Analysis, s: State, after: seq<Branch>)
    requires a.ops == RETURN_ONLY && a.Exact(s)
    requires AllFolded(s.starts, s.ends, s.branches, after)
    ensures WellFormedOps(RETURN_ONLY) && Jumps(RETURN_ONLY[0], 0) == [JMP_EXIT]
    ensures s.starts == {0} && after[0].endOp == 1 && InUse(after[0]) == []
  {
    var ops := RETURN_ONLY;
    assert Closed(ops, {0});
    forall p: nat | Reachable(ops, p)
      ensures p in {0}
    {
      ReachableLeast(ops, {0}, p);
    }
    forall q | q in s.starts
      ensures q == 0
    {
      assert a.StartsBlock(q);
    }
    assert a.StartsBlock(0);
    var q, t := LastBlockOverruns(a, s, after);
  }

  lemma LastStart(a: Analysis, s: State) returns (q: nat)
    requires a.ops != [] && a.Exact(s)
    ensures q in s.starts && q < |a.ops| && NextStart(s.starts, |a.ops|, q, |a.ops|)
  {
    assert a.StartsBlock(0);
    q := 0;
    var i := 1;
    while i < |a.ops|
      invariant q < i <= |a.ops| && q in s.starts
      invariant forall r | r in s.starts && q < r :: i <= r
    {
      if i in s.starts {
        q := i;
      }
      i := i + 1;
    }
  }

  // ----- the graph of the blocks

  ghost function CfgOf(branches: seq<Branch>): Cfg
    requires Sized(branches)
  {
    seq(|branches|, p requires 0 <= p < |branches| => InUse(branches[p]))
  }

  /** The outs after the scan are blocks or the exit, so the paths can be enumerated. */
  lemma BlocksWellFormed(a: Analysis, s: State, after: seq<Branch>)
    requires a.ops != [] && WellFormedOps(a.ops) && a.Exact(s)
    requires AllFolded(s.starts, s.ends, s.branches, after)
    ensures WellFormed(CfgOf(after))
  {
    var n := |a.ops|;
    forall p, i | 0 <= p < n && 0 <= i < |CfgOf(after)[p]|
      ensures CfgOf(after)[p][i] == JMP_EXIT || 0 <= CfgOf(after)[p][i] < n
    {
      if p in s.starts {
        var nx := NextOf(s.starts, n, p);
        assert Folded(s.ends, s.branches, n, after[p], p, nx);
        if Meets(s.ends, p, nx) {
          var e: nat :| LastIn(s.ends, p, nx, e) && InUse(after[p]) == InUse(s.branches[e]);
          assert a.OutsRecorded(s.branches[e], e);
          assert after[p].outs[i] == InUse(after[p])[i];
          if Reachable(a.ops, e) {
            assert Jumps(a.ops[e], e)[i] == CfgOf(after)[p][i];
          }
        }
      } else {
        assert a.OutsRecorded(s.branches[p], p);
        if Reachable(a.ops, p) {
          assert Jumps(a.ops[p], p)[i] == CfgOf(after)[p][i];
        }
      }
    }
  }
}
