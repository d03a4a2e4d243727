/** The scan that folds the opcode-level record of the analysis into basic blocks. */
module BranchInfo {
  import opened XdebugSet
  import opened Opcodes
  import opened DeadCode

  /** The outs in use. */
  ghost function InUse(b: Branch): seq<int>
    requires b.outsCount <= |b.outs|
  {
    b.outs[..b.outsCount]
  }

  ghost predicate Sized(branches: seq<Branch>) {
    forall p | 0 <= p < |branches| :: |branches[p].outs| == MAX_OUTS && branches[p].outsCount <= MAX_OUTS
  }

  /** Some member of s lies in [from, to). */
  ghost predicate Meets(s: set<nat>, from: nat, to: nat) {
    exists e | e in s :: from <= e < to
  }

  ghost predicate LastIn(s: set<nat>, from: nat, to: nat, e: nat) {
    e in s && from <= e < to && forall d | d in s && e < d :: to <= d
  }

  /** The next start after q is nx, n standing for none. */
  ghost predicate NextStart(starts: set<nat>, n: nat, q: nat, nx: nat) {
    && q < nx <= n && (nx < n ==> nx in starts)
    && forall s | s in starts && q < s :: nx <= s
  }

  /** b is the block from q to the next start nx: it runs to the last recorded end
      before nx and leads where that end leads, or, without an end, to nx itself. */
  ghost predicate Folded(ends: set<nat>, before: seq<Branch>, n: nat, b: Branch, q: nat, nx: nat)
    requires Sized(before) && |before| == n && nx <= n
    requires |b.outs| == MAX_OUTS && b.outsCount <= MAX_OUTS
  {
    if Meets(ends, q, nx)
    then exists e: nat {:trigger LastIn(ends, q, nx, e)} ::
      LastIn(ends, q, nx, e) && b.endOp == e && InUse(b) == InUse(before[e])
    else nx < n && b.endOp == nx - 1 && InUse(b) == [nx]
  }

  /** The branch record during the scan: positions up to i are looked at, last_start is
      the start of the current block, and in_branch says that no end was met in it. */
  ghost predicate Scanning(starts: set<nat>, ends: set<nat>, before: seq<Branch>, branches: seq<Branch>,
                           i: nat, lastStart: int, inBranch: bool)
  {
    && |branches| == |before| && Sized(before) && Sized(branches) && i <= |branches|
    && (lastStart < 0 ==> i == 0 && branches == before && !inBranch)
    && (lastStart >= 0 ==> lastStart < i && lastStart in starts && forall s | s in starts && lastStart < s :: i <= s)
    && (forall p | 0 <= p < |branches| && (i <= p || p !in starts) :: branches[p] == before[p])
    && (lastStart >= 0 ==> OpenBlock(ends, before, branches[lastStart], lastStart, i, inBranch))
    && (forall q, nx {:trigger NextStart(starts, |branches|, q, nx)} |
      q in starts && q < lastStart && NextStart(starts, |branches|, q, nx) ::
      Folded(ends, before, |branches|, branches[q], q, nx))
  }

  ghost predicate OpenBlock(ends: set<nat>, before: seq<Branch>, b: Branch, q: nat, i: nat, inBranch: bool)
    requires Sized(before) && i <= |before|
    requires |b.outs| == MAX_OUTS && b.outsCount <= MAX_OUTS
  {
    if inBranch then !Meets(ends, q, i)
    else exists e: nat {:trigger LastIn(ends, q, i, e)} ::
      LastIn(ends, q, i, e) && b.endOp == e && InUse(b) == InUse(before[e])
  }

  function WithNext(b: Branch, i: nat): Branch
    requires |b.outs| == MAX_OUTS && i > 0
  {
    Branch(b.outs[0 := i], 1, i - 1)
  }

  function WithOutsOf(b: Branch, src: Branch, i: nat): Branch
    requires |b.outs| == MAX_OUTS == |src.outs| && src.outsCount <= MAX_OUTS
  {
    Branch(src.outs[..src.outsCount] + b.outs[src.outsCount..], src.outsCount, i)
  }

  /** As Scanning, after the start test of position i. */
  ghost predicate StartSeen(starts: set<nat>, ends: set<nat>, before: seq<Branch>, branches: seq<Branch>,
                            i: nat, lastStart: nat, inBranch: bool)
  {
    && |branches| == |before| && Sized(before) && Sized(branches) && i < |branches|
    && lastStart <= i && lastStart in starts && (forall s | s in starts && lastStart < s :: i < s)
    && (forall p | 0 <= p < |branches| && (i <= p || p !in starts) :: branches[p] == before[p])
    && OpenBlock(ends, before, branches[lastStart], lastStart, i, inBranch)
    && (forall q, nx {:trigger NextStart(starts, |branches|, q, nx)} |
      q in starts && q < lastStart && NextStart(starts, |branches|, q, nx) ::
      Folded(ends, before, |branches|, branches[q], q, nx))
  }

  /** A start closes the current block, if it is still open. */
  lemma StartCloses(starts: set<nat>, ends: set<nat>, before: seq<Branch>, branches: seq<Branch>,
                    i: nat, lastStart: int, inBranch: bool)
    requires Scanning(starts, ends, before, branches, i, lastStart, inBranch)
    requires i < |branches| && i in starts
    ensures var r := if inBranch then branches[lastStart := WithNext(branches[lastStart], i)] else branches;
      StartSeen(starts, ends, before, r, i, i, true)
  {
    var r := if inBranch then branches[lastStart := WithNext(branches[lastStart], i)] else branches;
    forall q, nx {:trigger NextStart(starts, |r|, q, nx)} |
      q in starts && q < i && NextStart(starts, |r|, q, nx)
      ensures Folded(ends, before, |r|, r[q], q, nx)
    {
      if q == lastStart {
        assert nx == i;
      } else {
        assert q < lastStart;
      }
    }
  }

  /** An end gives the current block its extent and its outs. */
  lemma EndFolds(starts: set<nat>, ends: set<nat>, before: seq<Branch>, branches: seq<Branch>,
                 i: nat, lastStart: nat, inBranch: bool, next: nat)
    requires StartSeen(starts, ends, before, branches, i, lastStart, inBranch)
    requires i in ends && next == i + 1
    ensures var r := branches[lastStart := WithOutsOf(branches[lastStart], branches[i], i)];
      Scanning(starts, ends, before, r, next, lastStart, false)
  {
    var r := branches[lastStart := WithOutsOf(branches[lastStart], branches[i], i)];
    assert LastIn(ends, lastStart, next, i);
    assert InUse(r[lastStart]) == InUse(before[i]);
  }

  lemma NoEnd(starts: set<nat>, ends: set<nat>, before: seq<Branch>, branches: seq<Branch>,
              i: nat, lastStart: nat, inBranch: bool, next: nat)
    requires StartSeen(starts, ends, before, branches, i, lastStart, inBranch)
    requires i !in ends && next == i + 1
    ensures Scanning(starts, ends, before, branches, next, lastStart, inBranch)
  {
    if !inBranch {
      var e: nat :| LastIn(ends, lastStart, i, e) && branches[lastStart].endOp == e
        && InUse(branches[lastStart]) == InUse(before[e]);
      assert LastIn(ends, lastStart, next, e);
    }
  }

  /** The out-copying loop of xdebug_branch_post_process. */
  method CopyOuts(branches: array<Branch>, i: nat, lastStart: nat)
    requires i < branches.Length && lastStart < branches.Length && Sized(branches[..])
    modifies branches
    ensures branches[..] == old(branches[..])[lastStart := WithOutsOf(old(branches[lastStart]), old(branches[i]), i)]
  {
    ghost var b, src := branches[lastStart], branches[i];
    var j := 0;
    assert src.outs[..0] + b.outs[0..] == b.outs;
    while j < branches[i].outsCount
      invariant j <= src.outsCount && branches[i].outsCount == src.outsCount
      invariant branches[..] == old(branches[..])[lastStart := b.(outs := src.outs[..j] + b.outs[j..])]
      invariant branches[i].outs[j..src.outsCount] == src.outs[j..src.outsCount]
      decreases src.outsCount - j
    {
      assert branches[i].outs[j] == branches[i].outs[j..src.outsCount][0] == src.outs[j];
      assert (src.outs[..j] + b.outs[j..])[j := src.outs[j]] == src.outs[..j + 1] + b.outs[j + 1..];
      branches[lastStart] := branches[lastStart].(outs := branches[lastStart].outs[j := branches[i].outs[j]]);
      j := j + 1;
    }
    branches[lastStart] := branches[lastStart].(outsCount := branches[i].outsCount);
    branches[lastStart] := branches[lastStart].(endOp := i);
  }

  /** Every start has its block, and nothing else changed. */
  ghost predicate AllFolded(starts: set<nat>, ends: set<nat>, before: seq<Branch>, after: seq<Branch>) {
    && |after| == |before| && Sized(before) && Sized(after)
    && (forall p | 0 <= p < |after| && p !in starts :: after[p] == before[p])
    && (forall q, nx {:trigger NextStart(starts, |after|, q, nx)} |
      q in starts && q < |after| && NextStart(starts, |after|, q, nx) ::
      Folded(ends, before, |after|, after[q], q, nx))
  }

  /** One round of the scan. */
  method ScanStep(starts: Set, ends: Set, branches: array<Branch>, i: nat, lastStart: int, inBranch: bool,
                  ghost before: seq<Branch>)
    returns (next: nat, lastStart': int, inBranch': bool)
    requires starts.Valid() && ends.Valid() && starts.size == ends.size == branches.Length
    requires branches as object !in {starts.setinfo, ends.setinfo}
    requires i < branches.Length && 0 in starts.Members()
    requires Scanning(starts.Members(), ends.Members(), before, branches[..], i, lastStart, inBranch)
    modifies branches
    ensures next == i + 1
    ensures lastStart' >= 0
    ensures Scanning(starts.Members(), ends.Members(), before, branches[..], next, lastStart', inBranch')
  {
    ghost var S, E := starts.Members(), ends.Members();
    next, lastStart', inBranch' := i + 1, lastStart, inBranch;
    var atStart := starts.In(i);
    if atStart {
      StartCloses(S, E, before, branches[..], i, lastStart, inBranch);
      if inBranch {
        branches[lastStart] := WithNext(branches[lastStart], i);
      }
      lastStart', inBranch' := i, true;
    } else {
      NoStart(S, E, before, branches[..], i, lastStart, inBranch);
    }
    var atEnd := ends.In(i);
    if atEnd {
      EndFolds(S, E, before, branches[..], i, lastStart', inBranch', next);
      CopyOuts(branches, i, lastStart');
      inBranch' := false;
    } else {
      NoEnd(S, E, before, branches[..], i, lastStart', inBranch', next);
    }
  }

  lemma NoStart(starts: set<nat>, ends: set<nat>, before: seq<Branch>, branches: seq<Branch>,
                i: nat, lastStart: int, inBranch: bool)
    requires Scanning(starts, ends, before, branches, i, lastStart, inBranch)
    requires i < |branches| && i !in starts && 0 in starts
    ensures lastStart >= 0 && StartSeen(starts, ends, before, branches, i, lastStart, inBranch)
  {
  }

  /** The scan of xdebug_branch_post_process. */
  method PostProcess(starts: Set, ends: Set, branches: array<Branch>)
    requires starts.Valid() && ends.Valid() && starts.size == ends.size == branches.Length
    requires branches as object !in {starts.setinfo, ends.setinfo}
    requires branches.Length > 0 && Sized(branches[..])
    requires 0 in starts.Members() && branches.Length - 1 in ends.Members()
    modifies branches
    ensures AllFolded(starts.Members(), ends.Members(), old(branches[..]), branches[..])
  {
    ghost var before := branches[..];
    var i, lastStart, inBranch := 0, -1, false;
    while i < starts.size
      invariant i <= branches.Length && (i > 0 ==> lastStart >= 0)
      invariant Scanning(starts.Members(), ends.Members(), before, branches[..], i, lastStart, inBranch)
    {
      i, lastStart, inBranch := ScanStep(starts, ends, branches, i, lastStart, inBranch, before);
    }
    ScanDone(starts.Members(), ends.Members(), before, branches[..], lastStart, inBranch);
  }

  lemma ScanDone(starts: set<nat>, ends: set<nat>, before: seq<Branch>, branches: seq<Branch>,
                 lastStart: nat, inBranch: bool)
    requires |branches| > 0 && |branches| - 1 in ends
    requires Scanning(starts, ends, before, branches, |branches|, lastStart, inBranch)
    ensures AllFolded(starts, ends, before, branches)
  {
    var n := |branches|;
    assert Meets(ends, lastStart, n);
    forall q, nx {:trigger NextStart(starts, n, q, nx)} |
      q in starts && q < n && NextStart(starts, n, q, nx)
      ensures Folded(ends, before, n, branches[q], q, nx)
    {
      if q == lastStart {
        assert nx == n;
      } else {
        assert q < lastStart;
      }
    }
  }
}
