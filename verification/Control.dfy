/** Where control can go from an opcode, from what the opcode does when it is executed. */
module Control {
  import opened Collections
  import opened BranchPaths
  import opened Opcodes

  /** What an opcode finds when it is executed. */
  datatype Finding =
    | Nothing              // there is nothing to find
    | Condition(jump: bool)
    | Zero(zero: bool)
    | Element(more: bool)  // of the array that a foreach goes over
    | Class(matches: bool) // of the exception, with that of the catch
    | Finished             // the finally block
    | Label(i: nat)
    | NoLabel
    | NoSwitch             // the value has another type than the labels

  /** Where control continues then; leaving the function is JMP_EXIT. */
  function Place(op: Op, p: nat, f: Finding): Option<int> {
    match f
    case Nothing =>
      if op.Jmp? || op.Goto? || op.FastCall? then Some(op.op1)
      else if op.FastRet? || op.Leave? || op.ReturnByRef? then Some(JMP_EXIT)
      else if op.Other? then Some(p + 1)
      else None
    case Condition(jump) =>
      if op.JmpCond? then Some(if jump then op.op2 else p + 1) else None
    case Zero(zero) =>
      if op.JmpZNZ? then Some(if zero then op.op2 else op.extended) else None
    case Element(more) =>
      if op.FeFetch? then Some(if more then p + 1 else op.extended)
      else if op.FeReset? then Some(if more then p + 1 else op.op2)
      else None
    case Class(matches) =>
      if op.Catch? then Some(if matches then p + 1 else if op.last then JMP_EXIT else op.extended) else None
    case Finished =>
      if op.FastCall? then Some(p + 1) else None
    case Label(i) =>
      if op.Switch? && i < |op.cases| then Some(op.cases[i]) else None
    case NoLabel =>
      if op.Switch? then Some(op.extended) else None
    case NoSwitch =>
      if op.Switch? then Some(p + 1) else None
  }

  /** Control can go from opcode p, which is op, to q. */
  ghost predicate ContinuesAt(op: Op, p: nat, q: int) {
    exists f :: Place(op, p, f) == Some(q)
  }

  /** The labels of a switch that are reported; there is room for no more. */
  const LABELS := 62

  function Labels(n: nat): seq<Finding> {
    seq(n, i requires 0 <= i < n => Label(i))
  }

  /** What op can find, in the order in which the places are reported. */
  function Findings(op: Op): seq<Finding> {
    match op
    case JmpCond(_) => [Condition(false), Condition(true)]
    case JmpZNZ(_, _) => [Zero(true), Zero(false)]
    case FeFetch(_) => [Element(true), Element(false)]
    case FeReset(_) => [Element(true), Element(false)]
    case Catch(_, _) => [Class(true), Class(false)]
    case FastCall(_) => [Nothing, Finished]
    case Switch(cases, _) => Labels(if |cases| <= LABELS then |cases| else LABELS) + [NoLabel, NoSwitch]
    case _ => [Nothing]
  }

  /** They are all there is to find, labels behind the 62nd apart. */
  lemma FindingsComplete(op: Op, p: nat, f: Finding)
    ensures f in Findings(op) <==> Place(op, p, f).Some? && (f.Label? ==> f.i < LABELS)
  {
    if op.Switch? {
      var n := if |op.cases| <= LABELS then |op.cases| else LABELS;
      var labels := Labels(n);
      if f.Label? && f.i < n {
        assert labels[f.i] == f;
      }
      assert Findings(op)[n] == NoLabel && Findings(op)[n + 1] == NoSwitch;
    }
  }

  /** The two places of a catch that is not the last are reported once if they agree. */
  ghost predicate SameTwice(op: Op, p: nat) {
    op.Catch? && !op.last && op.extended == p + 1
  }

  /** xdebug_find_jumps reports where control can go, in this order, for every opcode that
      it takes for a jump. */
  lemma JumpsInOrder(op: Op, p: nat)
    requires !op.Other? && !op.ReturnByRef?
    ensures if SameTwice(op, p) then Jumps(op, p) == [p + 1]
      else
        && |Jumps(op, p)| == |Findings(op)|
        && forall i | 0 <= i < |Findings(op)| :: Place(op, p, Findings(op)[i]) == Some(Jumps(op, p)[i])
  {
  }

  /** So it reports all places but those of the labels that are left out, and nothing
      else; of the other opcodes it reports none. */
  lemma JumpsAreControl(op: Op, p: nat, q: int)
    ensures !op.Other? && !op.ReturnByRef? ==>
      (q in Jumps(op, p) <==> exists f :: Place(op, p, f) == Some(q) && (f.Label? ==> f.i < LABELS))
    ensures op.Other? || op.ReturnByRef? <==> Jumps(op, p) == []
  {
    if !op.Other? && !op.ReturnByRef? {
      JumpsInOrder(op, p);
      if q in Jumps(op, p) {
        var i :| 0 <= i < |Jumps(op, p)| && Jumps(op, p)[i] == q;
        FindingsComplete(op, p, Findings(op)[i]);
      }
      if f :| Place(op, p, f) == Some(q) && (f.Label? ==> f.i < LABELS) {
        FindingsComplete(op, p, f);
        var i :| 0 <= i < |Findings(op)| && Findings(op)[i] == f;
      }
    }
  }

  /** A switch has at most 62 labels. */
  ghost predicate Short(op: Op) {
    op.Switch? ==> |op.cases| <= LABELS
  }

  /** The steps of the analysis are those of control, for every opcode but a long switch. */
  lemma LeadsIsControl(ops: seq<Op>, p: nat, q: nat)
    requires p < |ops| && q < |ops| <= JMP_EXIT && Short(ops[p])
    ensures Leads(ops, p, q) <==> ContinuesAt(ops[p], p, q)
  {
    var op := ops[p];
    JumpsAreControl(op, p, q);
    if op.Other? {
      assert Place(op, p, Nothing) == Some(p + 1);
    }
  }
}
