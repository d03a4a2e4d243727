/** Switches with more cases than the analysis has room for. */
module SwitchCut {
  import opened Collections
  import opened BranchPaths
  import opened Opcodes
  import opened Control
  import opened DeadCode

  /** s is a run of control from the start of the function or from a catch. */
  ghost predicate FullTrace(ops: seq<Op>, s: seq<nat>) {
    && s != [] && (forall i | 0 <= i < |s| :: s[i] < |ops|)
    && (s[0] == 0 || ops[s[0]].Catch?)
    && (forall i | 0 <= i < |s| - 1 :: CanStep(ops, s, i))
  }

  ghost predicate CanStep(ops: seq<Op>, s: seq<nat>, i: nat)
    requires i + 1 < |s|
  {
    s[i] < |ops| && ContinuesAt(ops[s[i]], s[i], s[i + 1])
  }

  ghost predicate CanReach(ops: seq<Op>, p: nat) {
    exists s :: FullTrace(ops, s) && s[|s| - 1] == p
  }

  lemma LeadsContinues(ops: seq<Op>, p: nat, q: nat)
    requires p < |ops| && Leads(ops, p, q)
    ensures ContinuesAt(ops[p], p, q)
  {
    JumpsAreControl(ops[p], p, q);
    if ops[p].Other? {
      assert Place(ops[p], p, Nothing) == Some(p + 1);
    }
  }

  /** All that the analysis misses are the labels that were cut off. */
  lemma ContinuesLeads(ops: seq<Op>, p: nat, q: nat)
    requires p < |ops| && q < |ops| <= JMP_EXIT && ContinuesAt(ops[p], p, q)
    ensures Leads(ops, p, q) || (ops[p].Switch? && exists i | LABELS <= i < |ops[p].cases| :: ops[p].cases[i] == q)
  {
    JumpsAreControl(ops[p], p, q);
  }

  lemma ReachableCanReach(ops: seq<Op>, p: nat)
    requires Reachable(ops, p)
    ensures CanReach(ops, p)
  {
    var s :| Trace(ops, s) && s[|s| - 1] == p;
    forall i | 0 <= i < |s| - 1
      ensures CanStep(ops, s, i)
    {
      assert Leads(ops, s[i], s[i + 1]);
      LeadsContinues(ops, s[i], s[i + 1]);
    }
    assert FullTrace(ops, s);
  }

  lemma CanReachStep(ops: seq<Op>, p: nat, q: nat)
    requires CanReach(ops, p) && p < |ops| && q < |ops| && ContinuesAt(ops[p], p, q)
    ensures CanReach(ops, q)
  {
    var s :| FullTrace(ops, s) && s[|s| - 1] == p;
    var t := s + [q];
    forall i | 0 <= i < |t| - 1
      ensures CanStep(ops, t, i)
    {
      if i < |s| - 1 {
        assert CanStep(ops, s, i);
      }
    }
    assert FullTrace(ops, t) && t[|t| - 1] == q;
  }

  /** The cases of visited switches that were cut off lead to visited opcodes. */
  ghost predicate CutIsVisited(ops: seq<Op>, visited: set<nat>) {
    forall p, i | 0 <= p < |ops| && p in visited && ops[p].Switch? && LABELS <= i < |ops[p].cases| ::
      0 <= ops[p].cases[i] < |ops| ==> ops[p].cases[i] in visited
  }

  /** The visited opcodes are those that control can reach by any case exactly when no
      case that was cut off leads out of them; so they are with at most 62 cases. */
  lemma VisitedCanReach(a: Analysis, visited: set<nat>)
    requires a.ExactVisited(visited) && WellFormedOps(a.ops)
    ensures (forall p | 0 <= p < |a.ops| :: p in visited <==> CanReach(a.ops, p)) <==> CutIsVisited(a.ops, visited)
  {
    var ops := a.ops;
    if CutIsVisited(ops, visited) {
      forall p | 0 <= p < |ops|
        ensures p in visited <==> CanReach(ops, p)
      {
        if p in visited {
          ReachableCanReach(ops, p);
        }
        if CanReach(ops, p) {
          var s :| FullTrace(ops, s) && s[|s| - 1] == p;
          FullTraceVisited(a, visited, s, |s| - 1);
        }
      }
    }
    if forall p | 0 <= p < |ops| :: p in visited <==> CanReach(ops, p) {
      forall p, i | 0 <= p < |ops| && p in visited && ops[p].Switch? && LABELS <= i < |ops[p].cases|
        ensures 0 <= ops[p].cases[i] < |ops| ==> ops[p].cases[i] in visited
      {
        if 0 <= ops[p].cases[i] < |ops| {
          assert Place(ops[p], p, Label(i)) == Some(ops[p].cases[i]);
          CanReachStep(ops, p, ops[p].cases[i]);
        }
      }
    }
  }

  lemma {:induction false} FullTraceVisited(a: Analysis, visited: set<nat>, s: seq<nat>, k: nat)
    requires a.ExactVisited(visited) && WellFormedOps(a.ops) && CutIsVisited(a.ops, visited)
    requires FullTrace(a.ops, s) && k < |s|
    ensures s[k] in visited
  {
    if k == 0 {
      RootReachable(a.ops, s[0]);
    } else {
      FullTraceVisited(a, visited, s, k - 1);
      assert CanStep(a.ops, s, k - 1);
      StepVisited(a, visited, s[k - 1], s[k]);
    }
  }

  lemma StepVisited(a: Analysis, visited: set<nat>, p: nat, q: nat)
    requires a.ExactVisited(visited) && WellFormedOps(a.ops) && CutIsVisited(a.ops, visited)
    requires p < |a.ops| && p in visited && q < |a.ops| && ContinuesAt(a.ops[p], p, q)
    ensures q in visited
  {
    ContinuesLeads(a.ops, p, q);
    if Leads(a.ops, p, q) {
      StepReachable(a.ops, p, q);
    }
  }

  /** 62 cases lead to opcode 1, the 63rd to opcode 2. */
  function LongSwitch(): seq<Op> {
    [Switch(seq(LABELS, _ => 1) + [2], 1), Leave, Leave]
  }

  lemma LongSwitchJumps()
    ensures forall j | j in Jumps(LongSwitch()[0], 0) :: j == 1
    ensures WellFormedOps(LongSwitch())
  {
    var op := LongSwitch()[0];
    assert op.cases[..LABELS] == seq(LABELS, _ => 1);
  }

  lemma LongSwitchMisses(p: nat)
    requires Reachable(LongSwitch(), p)
    ensures p != 2
  {
    LongSwitchJumps();
    assert Closed(LongSwitch(), {0, 1});
    ReachableLeast(LongSwitch(), {0, 1}, p);
  }

  /** There the analysis leaves opcode 2 out, though control can reach it. */
  lemma LongSwitchIsCut(a: Analysis, visited: set<nat>)
    requires a.ops == LongSwitch() && a.ExactVisited(visited)
    ensures WellFormedOps(a.ops) && CanReach(a.ops, 2) && 2 !in visited
  {
    LongSwitchJumps();
    RootReachable(a.ops, 0);
    ReachableCanReach(a.ops, 0);
    assert Place(a.ops[0], 0, Label(LABELS)) == Some(2);
    CanReachStep(a.ops, 0, 2);
    if Reachable(a.ops, 2) {
      LongSwitchMisses(2);
    }
  }
}
