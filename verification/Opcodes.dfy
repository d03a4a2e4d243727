/** Opcodes, as far as the branch analysis tells them apart, and where they lead. */
module Opcodes {
  import opened BranchPaths

  const MAX_OUTS := 64

  /** Jump operands are opcode numbers, the line arithmetic on operands being done. */
  datatype Op =
    | Jmp(op1: int)
    | JmpCond(op2: int)                       // JMPZ, JMPNZ, JMPZ_EX, JMPNZ_EX
    | JmpZNZ(op2: int, extended: int)
    | FeFetch(extended: int)                  // FE_FETCH_R, FE_FETCH_RW
    | FeReset(op2: int)                       // FE_RESET_R, FE_RESET_RW
    | Catch(last: bool, extended: int)        // last: result.num is not 0
    | Goto(op1: int)
    | FastCall(op1: int)
    | FastRet
    | Leave                                   // GENERATOR_RETURN, EXIT, THROW, RETURN
    | Switch(cases: seq<int>, extended: int)  // SWITCH_LONG, SWITCH_STRING
    | ReturnByRef
    | Other

  predicate IsJump(op: Op) {
    !op.ReturnByRef? && !op.Other?
  }

  /** What xdebug_find_jumps reports: the places an opcode can continue at. */
  function Jumps(op: Op, position: nat): (js: seq<int>)
    ensures |js| <= MAX_OUTS
    ensures IsJump(op) <==> js != []
  {
    match op
    case Jmp(op1) => [op1]
    case JmpCond(op2) => [position + 1, op2]
    case JmpZNZ(op2, ext) => [op2, ext]
    case FeFetch(ext) => [position + 1, ext]
    case FeReset(op2) => [position + 1, op2]
    case Catch(last, ext) =>
      if last then [position + 1, JMP_EXIT]
      else if ext == position + 1 then [position + 1]
      else [position + 1, ext]
    case Goto(op1) => [op1]
    case FastCall(op1) => [op1, position + 1]
    case FastRet => [JMP_EXIT]
    case Leave => [JMP_EXIT]
    case Switch(cases, ext) =>
      (if |cases| <= MAX_OUTS - 2 then cases else cases[..MAX_OUTS - 2]) + [ext, position + 1]
    case ReturnByRef => []
    case Other => []
  }

  /** xdebug_find_jumps, filling the caller's array. */
  method FindJumps(ops: seq<Op>, position: nat, jumps: array<int>) returns (found: bool, jumpCount: nat)
    requires position < |ops| && jumps.Length == MAX_OUTS
    modifies jumps
    ensures found <==> IsJump(ops[position])
    ensures jumpCount <= MAX_OUTS && jumps[..jumpCount] == Jumps(ops[position], position)
  {
    jumpCount := 0;
    match ops[position] {
      case Jmp(op1) =>
        jumps[0], jumpCount := op1, 1;
      case JmpCond(op2) =>
        jumps[0], jumps[1], jumpCount := position + 1, op2, 2;
      case JmpZNZ(op2, ext) =>
        jumps[0], jumps[1], jumpCount := op2, ext, 2;
      case FeFetch(ext) =>
        jumps[0], jumps[1], jumpCount := position + 1, ext, 2;
      case FeReset(op2) =>
        jumps[0], jumps[1], jumpCount := position + 1, op2, 2;
      case Catch(last, ext) =>
        jumpCount := 2;
        jumps[0] := position + 1;
        if !last {
          jumps[1] := ext;
          if jumps[1] == jumps[0] {
            jumps[1] := JMP_NOT_SET;
            jumpCount := 1;
          }
        } else {
          jumps[1] := JMP_EXIT;
        }
      case Goto(op1) =>
        jumps[0], jumpCount := op1, 1;
      case FastCall(op1) =>
        jumps[0], jumps[1], jumpCount := op1, position + 1, 2;
      case FastRet =>
        jumps[0], jumpCount := JMP_EXIT, 1;
      case Leave =>
        jumps[0], jumpCount := JMP_EXIT, 1;
      case Switch(cases, ext) =>
        jumpCount := SwitchCases(cases, jumps);
        jumps[jumpCount], jumpCount := ext, jumpCount + 1;
        jumps[jumpCount], jumpCount := position + 1, jumpCount + 1;
      case ReturnByRef => return false, 0;
      case Other => return false, 0;
    }
    return true, jumpCount;
  }

  /** The case labels of a switch, as many as leave room for default and next. */
  method SwitchCases(cases: seq<int>, jumps: array<int>) returns (jumpCount: nat)
    requires jumps.Length == MAX_OUTS
    modifies jumps
    ensures jumpCount <= MAX_OUTS - 2
    ensures jumps[..jumpCount] == if |cases| <= MAX_OUTS - 2 then cases else cases[..MAX_OUTS - 2]
  {
    jumpCount := 0;
    for i := 0 to |cases|
      invariant jumpCount == if i <= MAX_OUTS - 2 then i else MAX_OUTS - 2
      invariant jumps[..jumpCount] == cases[..jumpCount]
    {
      if jumpCount < MAX_OUTS - 2 {
        jumps[jumpCount] := cases[i];
        jumpCount := jumpCount + 1;
      }
    }
  }

  /** A compiled op array: every reported target is an opcode. */
  ghost predicate WellFormedOps(ops: seq<Op>) {
    |ops| <= JMP_EXIT &&
    forall p, i {:trigger Jumps(ops[p], p)[i]} | 0 <= p < |ops| && 0 <= i < |Jumps(ops[p], p)| ::
      Jumps(ops[p], p)[i] == JMP_EXIT || 0 <= Jumps(ops[p], p)[i] < |ops|
  }

  /** Control can go from opcode p to opcode q. */
  ghost predicate Leads(ops: seq<Op>, p: nat, q: nat)
    requires p < |ops|
  {
    if IsJump(ops[p]) then q != JMP_EXIT && q in Jumps(ops[p], p)
    else ops[p].Other? && q == p + 1 && q < |ops|
  }

  /** Where analysis starts: opcode 0 and every catch. */
  ghost predicate Root(ops: seq<Op>, p: nat) {
    p < |ops| && (p == 0 || ops[p].Catch?)
  }

  /** s is a run of control from a root. */
  ghost predicate Trace(ops: seq<Op>, s: seq<nat>) {
    && s != [] && Root(ops, s[0])
    && (forall i | 0 <= i < |s| :: s[i] < |ops|)
    && (forall i {:trigger s[i]} | 0 <= i < |s| - 1 :: Leads(ops, s[i], s[i + 1]))
  }

  ghost predicate Reachable(ops: seq<Op>, p: nat) {
    exists s :: Trace(ops, s) && s[|s| - 1] == p
  }

  lemma RootReachable(ops: seq<Op>, p: nat)
    requires Root(ops, p)
    ensures Reachable(ops, p)
  {
    assert Trace(ops, [p]) && [p][|[p]| - 1] == p;
  }

  lemma StepReachable(ops: seq<Op>, p: nat, q: nat)
    requires WellFormedOps(ops) && p < |ops|
    requires Reachable(ops, p) && Leads(ops, p, q)
    ensures q < |ops| && Reachable(ops, q)
  {
    var s :| Trace(ops, s) && s[|s| - 1] == p;
    var t := s + [q];
    if IsJump(ops[p]) {
      var i :| 0 <= i < |Jumps(ops[p], p)| && Jumps(ops[p], p)[i] == q;
    }
    forall i {:trigger t[i]} | 0 <= i < |t| - 1
      ensures Leads(ops, t[i], t[i + 1])
    {
      if i < |s| - 1 {
        assert Leads(ops, s[i], s[i + 1]);
      }
    }
    assert Trace(ops, t) && t[|t| - 1] == q;
  }

  /** v is closed under control. */
  ghost predicate Closed(ops: seq<Op>, v: set<nat>) {
    forall a, b {:trigger Leads(ops, a, b)} | a in v && a < |ops| && Leads(ops, a, b) :: b in v
  }

  lemma {:induction false} TraceStays(ops: seq<Op>, v: set<nat>, s: seq<nat>, k: nat)
    requires forall r {:trigger Root(ops, r)} | Root(ops, r) :: r in v
    requires Closed(ops, v)
    requires Trace(ops, s) && k < |s|
    ensures s[k] in v
  {
    if k > 0 {
      TraceStays(ops, v, s, k - 1);
      assert Leads(ops, s[k - 1], s[k - 1 + 1]);
    }
  }

  /** Any set that has the roots and is closed under control has all of it. */
  lemma ReachableLeast(ops: seq<Op>, v: set<nat>, p: nat)
    requires forall r {:trigger Root(ops, r)} | Root(ops, r) :: r in v
    requires Closed(ops, v)
    requires Reachable(ops, p)
    ensures p in v
  {
    var s :| Trace(ops, s) && s[|s| - 1] == p;
    TraceStays(ops, v, s, |s| - 1);
  }
}
