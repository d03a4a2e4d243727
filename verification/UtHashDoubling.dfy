/** When a table doubles, and what it remembers of its doublings, over whole runs. */
module UtHashDoubling {
  import opened Collections
  import opened BitArithmetic
  import opened UtHashRow
  import opened UtHashSort
  import opened UtHashSpec
  import opened UtHashInvariant
  import opened UtHashExpansion
  import opened UtHashRuns

  // ----- one add

  ghost predicate IsAdd(op: Op) {
    op.Adding? || op.AddingInOrder?
  }

  /** The doubled buckets b and b + 2^log2 have what chain sends to each, in reverse. */
  ghost predicate Splits(h: HashFcn, chain: seq<Filter>, r: Table, b: nat, n: nat) {
    && |r.chains| == 2 * n && b < n
    && r.chains[b] == Reversed(Going(h, chain, 2 * n, b))
    && r.chains[b + n] == Reversed(Going(h, chain, 2 * n, b + n))
  }

  /** The elements of chain whose hash value is b modulo size. */
  function Going(h: HashFcn, chain: seq<Filter>, size: nat, b: nat): seq<Filter>
    requires size > 0
  {
    if chain == [] then []
    else (if h(chain[0].row.name) % size == b then [chain[0]] else []) + Going(h, chain[1..], size, b)
  }

  function Reversed(s: seq<Filter>): seq<Filter> {
    if s == [] then [] else Reversed(s[1..]) + [s[0]]
  }

  lemma ReversedAppend(s: seq<Filter>, t: seq<Filter>)
    ensures Reversed(s + t) == Reversed(t) + Reversed(s)
  {
    if s == [] {
      assert s + t == t;
    } else {
      assert (s + t)[1..] == s[1..] + t;
      ReversedAppend(s[1..], t);
    }
  }

  lemma {:induction false} SiftIsGoing(h: HashFcn, chain: seq<Filter>, log2: nat, b: nat)
    ensures Sift(h, chain, log2, b) == Reversed(Going(h, chain, Pow2(log2), b))
  {
    if chain != [] {
      BucketIsRemainder(h(chain[0].row.name), log2);
      SiftIsGoing(h, chain[1..], log2, b);
      ReversedAppend(if h(chain[0].row.name) % Pow2(log2) == b then [chain[0]] else [], Going(h, chain[1..], Pow2(log2), b));
    }
  }

  /** t with f in the list, at the head of the chain of bucket b. */
  ghost predicate JustPushed(t: Table, f: Filter, b: nat, r: Table)
    requires b < |t.chains|
  {
    r == t.(app := r.app, chains := t.chains[b := [f] + t.chains[b]])
  }

  /** What adding f does to t, with b the bucket of its key: the table doubles exactly when
      the brake is off and the chain comes to ten times its multiplier plus one; otherwise
      only that chain and the list change. */
  ghost predicate AddEffect(h: HashFcn, t: Table, f: Filter, r: Table) {
    var n := Pow2(t.log2);
    var b := h(f.row.name) % n;
    && |t.chains| == |t.mults| == n && |r.app| == |t.app| + 1
    && (r.log2 == t.log2 + 1 <==> !t.noexpand && |t.chains[b]| + 1 >= 10 * (t.mults[b] + 1))
    && (r.log2 != t.log2 + 1 ==> JustPushed(t, f, b, r))
    && (r.log2 == t.log2 + 1 ==> AllSplit(h, t.chains[b := [f] + t.chains[b]], r))
  }

  ghost predicate AllSplit(h: HashFcn, chains: seq<seq<Filter>>, r: Table) {
    forall c | 0 <= c < |chains| :: Splits(h, chains[c], r, c, |chains|)
  }

  /** Every legal add to a table. */
  lemma AddDoubles(h: HashFcn, t: Table, op: Op)
    requires Valid(h, t) && Legal(t, op) && t.app != [] && IsAdd(op)
    ensures Valid(h, Apply(h, t, op)) && AddEffect(h, t, op.f, Apply(h, t, op))
  {
    ApplyKeeps(h, t, op);
    AddAtDoubles(h, t, if op.Adding? then |t.app| else InsertAt(op.cmp, t.app, op.f), op.f);
  }

  /** An add pushes f on its chain and doubles the table if it is crowded then. */
  lemma AddIsPush(h: HashFcn, t: Table, k: nat, f: Filter) returns (pushed: Table)
    requires Valid(h, t) && k <= |t.app| && f !in t.app
    ensures PushedOrDoubled(h, if t.app == [] then MadeTable() else t, f, pushed, AddAt(h, t, k, f))
    ensures |pushed.app| == |t.app| + 1
  {
    var base := if t.app == [] then MadeTable() else t;
    BucketIsRemainder(h(f.row.name), base.log2);
    InsertionJoins(h, t, k, f);
    JoinedHolds(h, base.(app := Inserted(t.app, k, f)), t.app, f);
    pushed := Pushed(h, base.(app := Inserted(t.app, k, f)), f);
  }

  lemma AddAtDoubles(h: HashFcn, t: Table, k: nat, f: Filter)
    requires Valid(h, t) && t.app != [] && k <= |t.app| && f !in t.app
    ensures AddEffect(h, t, f, AddAt(h, t, k, f))
  {
    var pushed := AddIsPush(h, t, k, f);
    PushEffect(h, t, f, pushed, AddAt(h, t, k, f));
  }

  /** r is pushed, doubled if the chain is as long as ten times the multiplier plus one. */
  ghost predicate PushedOrDoubled(h: HashFcn, t: Table, f: Filter, pushed: Table, r: Table) {
    var b := h(f.row.name) % Pow2(t.log2);
    && |t.chains| == |t.mults| == Pow2(t.log2)
    && JustPushed(t, f, b, pushed) && pushed.app != [] && Consistent(h, pushed)
    && r == if !t.noexpand && |t.chains[b]| + 1 >= 10 * (t.mults[b] + 1) then Expand(h, pushed) else pushed
  }

  lemma PushEffect(h: HashFcn, t: Table, f: Filter, pushed: Table, r: Table)
    requires PushedOrDoubled(h, t, f, pushed, r) && |pushed.app| == |t.app| + 1
    ensures AddEffect(h, t, f, r)
  {
    AllSplitsApart(h, pushed);
  }

  lemma AllSplitsApart(h: HashFcn, t: Table)
    requires t.app != [] && Consistent(h, t)
    ensures AllSplit(h, t.chains, Expand(h, t))
  {
    forall c | 0 <= c < Pow2(t.log2)
      ensures Splits(h, t.chains[c], Expand(h, t), c, Pow2(t.log2))
    {
      SplitsApart(h, t, c);
    }
  }

  lemma SplitsApart(h: HashFcn, t: Table, b: nat)
    requires t.app != [] && Consistent(h, t) && b < Pow2(t.log2)
    ensures Splits(h, t.chains[b], Expand(h, t), b, Pow2(t.log2))
  {
    ExpandSplitsChains(h, t, b);
    SiftsSplit(h, t.chains[b], Expand(h, t), t.log2, b);
  }

  lemma SiftsSplit(h: HashFcn, chain: seq<Filter>, r: Table, log2: nat, b: nat)
    requires |r.chains| == 2 * Pow2(log2) && b < Pow2(log2)
    requires r.chains[b] == Sift(h, chain, log2 + 1, b)
    requires r.chains[b + Pow2(log2)] == Sift(h, chain, log2 + 1, b + Pow2(log2))
    ensures Splits(h, chain, r, b, Pow2(log2))
  {
    SiftIsGoing(h, chain, log2 + 1, b);
    SiftIsGoing(h, chain, log2 + 1, b + Pow2(log2));
  }

  // ----- the other operations

  /** r is t without element f, in the list and in its chain, the others in their order. */
  ghost predicate JustCut(h: HashFcn, t: Table, f: Filter, r: Table) {
    var b := h(f.row.name) % Pow2(t.log2);
    && |t.chains| == Pow2(t.log2)
    && exists i, j | 0 <= i < |t.app| && 0 <= j < |t.chains[b]| ::
      && t.app[i] == f && t.chains[b][j] == f
      && r == t.(app := Without(t.app, i), chains := t.chains[b := Without(t.chains[b], j)])
  }

  /** A delete that leaves a table cuts the element and changes nothing else; a sort changes
      the list alone. */
  lemma OtherEffects(h: HashFcn, t: Table, op: Op)
    requires Valid(h, t) && Legal(t, op) && t.app != [] && !IsAdd(op)
    ensures op.Deleting? ==> if |t.app| == 1 then Apply(h, t, op) == NO_TABLE else JustCut(h, t, op.f, Apply(h, t, op))
    ensures op.Sorting? ==> Apply(h, t, op) == t.(app := Apply(h, t, op).app)
  {
    if op.Deleting? && |t.app| > 1 {
      BucketIsRemainder(h(op.f.row.name), t.log2);
      InItsChain(h, t, op.f);
      var i := RemoveFromCuts(t.app, op.f);
      var j := RemoveFromCuts(t.chains[h(op.f.row.name) % Pow2(t.log2)], op.f);
    }
  }

  // ----- whole runs

  /** The ideal chain length of a table that has just doubled: items over buckets, rounded up. */
  function IdealOf(t: Table): nat {
    CeilDiv(|t.app|, Pow2(t.log2))
  }

  /** More than half of the items are beyond the ideal length of their chains. */
  ghost predicate Ineffective(t: Table) {
    2 * TotalExcess(t.chains, IdealOf(t)) > |t.app|
  }

  /** By how much the chain of bucket b exceeds the ideal length. */
  ghost function Overload(t: Table, b: nat): nat
    requires b < |t.chains| && t.app != []
  {
    CeilDivIsLeast(|t.app|, Pow2(t.log2), 0);
    if |t.chains[b]| > IdealOf(t) then |t.chains[b]| / IdealOf(t) else 0
  }

  /** The tables that the doublings of a run have left, since the table was last made. */
  ghost function Doublings(h: HashFcn, t: Table, ops: seq<Op>, seen: seq<Table>): seq<Table>
    requires Valid(h, t) && LegalRun(h, t, ops)
    decreases |ops|
  {
    if ops == [] then seen
    else
      ApplyKeeps(h, t, ops[0]);
      var r := Apply(h, t, ops[0]);
      Doublings(h, r, ops[1..], SeenAfter(t, r, seen))
  }

  ghost function SeenAfter(t: Table, r: Table, seen: seq<Table>): seq<Table> {
    if r.app == [] then []
    else if t.app != [] && |r.chains| == 2 * |t.chains| then seen + [r]
    else seen
  }

  /** Two doublings, one right after the other, were both ineffective. */
  ghost predicate TwiceInVain(seen: seq<Table>) {
    exists i | 0 <= i < |seen| - 1 :: InVainAt(seen, i)
  }

  ghost predicate InVainAt(seen: seq<Table>, i: nat)
    requires i + 1 < |seen|
  {
    Ineffective(seen[i]) && Ineffective(seen[i + 1])
  }

  /** What a table tells of its doublings. */
  ghost predicate Remembers(t: Table, seen: seq<Table>) {
    && |t.chains| == |t.mults| == Pow2(t.log2)
    && t.log2 == 5 + |seen|
    && (seen == [] ==> forall b | 0 <= b < |t.mults| :: t.mults[b] == 0)
    && (seen != [] ==> Multiplied(t, seen[|seen| - 1]))
    && (t.noexpand <==> TwiceInVain(seen))
  }

  ghost predicate Multiplied(t: Table, last: Table) {
    && last.app != [] && |last.chains| == |t.mults|
    && forall b | 0 <= b < |t.mults| :: t.mults[b] == Overload(last, b)
  }

  /** The counter of ineffective doublings, while the brake is off. */
  ghost predicate Counts(t: Table, seen: seq<Table>) {
    !t.noexpand ==> t.ineff == if seen != [] && Ineffective(seen[|seen| - 1]) then 1 else 0
  }

  ghost predicate Kept(t: Table, seen: seq<Table>) {
    if t.app == [] then seen == [] else Remembers(t, seen) && Counts(t, seen)
  }

  lemma InVainAppend(seen: seq<Table>, r: Table)
    ensures TwiceInVain(seen + [r]) <==>
      TwiceInVain(seen) || (seen != [] && Ineffective(seen[|seen| - 1]) && Ineffective(r))
  {
    var all := seen + [r];
    if TwiceInVain(seen) {
      var i :| 0 <= i < |seen| - 1 && InVainAt(seen, i);
      assert InVainAt(all, i);
    }
    if seen != [] && Ineffective(seen[|seen| - 1]) && Ineffective(r) {
      assert InVainAt(all, |seen| - 1);
    }
    if TwiceInVain(all) {
      var i :| 0 <= i < |all| - 1 && InVainAt(all, i);
      if i < |seen| - 1 {
        assert InVainAt(seen, i);
      }
    }
  }

  /** A doubling: the counters are those of the table it leaves. */
  lemma ExpandRemembers(h: HashFcn, t: Table, seen: seq<Table>)
    requires t.app != [] && Consistent(h, t) && !t.noexpand && Remembers(t, seen) && Counts(t, seen)
    ensures var r := Expand(h, t);
      |r.chains| == 2 * |t.chains| && Remembers(r, seen + [r]) && Counts(r, seen + [r])
  {
    var r := Expand(h, t);
    ExpandKeeps(h, t);
    ExpandCounts(h, t);
    IdealChainIsCeiling(|t.app|, t.log2 + 1);
    HalfIs(|t.app|);
    InVainAppend(seen, r);
  }

  lemma HalfIs(n: nat)
    ensures forall x: nat :: x > ShiftRight(n, 1) <==> 2 * x > n
  {
    ShiftIsDivision(n, 1);
  }

  /** Without a doubling nothing is forgotten. */
  lemma StepKeeps(h: HashFcn, t: Table, op: Op, seen: seq<Table>)
    requires Valid(h, t) && Legal(t, op) && Kept(t, seen)
    ensures Valid(h, Apply(h, t, op)) && Kept(Apply(h, t, op), SeenAfter(t, Apply(h, t, op), seen))
  {
    ApplyKeeps(h, t, op);
    match op
    case Adding(f) => AddKeepsBooks(h, t, |t.app|, f, seen);
    case AddingInOrder(cmp, f) => AddKeepsBooks(h, t, InsertAt(cmp, t.app, f), f, seen);
    case Deleting(f) => DeleteKeeps(h, t, f);
    case Sorting(cmp) => SortKeeps(h, cmp, t);
  }

  lemma AddKeepsBooks(h: HashFcn, t: Table, k: nat, f: Filter, seen: seq<Table>)
    requires Valid(h, t) && k <= |t.app| && f !in t.app && Kept(t, seen)
    ensures var r := AddAt(h, t, k, f); Kept(r, SeenAfter(t, r, seen))
  {
    var pushed := AddIsPush(h, t, k, f);
    assert Pow2(5) == 32;
    PushKeepsBooks(h, if t.app == [] then MadeTable() else t, f, pushed, AddAt(h, t, k, f), seen);
  }

  lemma PushKeepsBooks(h: HashFcn, base: Table, f: Filter, pushed: Table, r: Table, seen: seq<Table>)
    requires PushedOrDoubled(h, base, f, pushed, r) && Remembers(base, seen) && Counts(base, seen)
    ensures var seen' := if |r.chains| == 2 * |base.chains| then seen + [r] else seen;
      r.app != [] && Remembers(r, seen') && Counts(r, seen')
    ensures base == MadeTable() ==> r == pushed
  {
    if r != pushed {
      ExpandRemembers(h, pushed, seen);
    }
  }

  lemma {:induction false} RunKeeps(h: HashFcn, t: Table, ops: seq<Op>, seen: seq<Table>)
    requires Valid(h, t) && LegalRun(h, t, ops) && Kept(t, seen)
    ensures Kept(Run(h, t, ops), Doublings(h, t, ops, seen))
    decreases |ops|
  {
    if ops != [] {
      StepKeeps(h, t, ops[0], seen);
      RunKeeps(h, Apply(h, t, ops[0]), ops[1..], SeenAfter(t, Apply(h, t, ops[0]), seen));
    }
  }

  /** After every run that leaves a table: it has 32 buckets doubled as often as it was
      doubled since it was made, its multipliers are the overloads that the last doubling
      left, and its brake is on exactly when two doublings in a row were ineffective. */
  lemma RunRemembers(h: HashFcn, ops: seq<Op>)
    requires LegalRun(h, NO_TABLE, ops) && Run(h, NO_TABLE, ops).app != []
    ensures Remembers(Run(h, NO_TABLE, ops), Doublings(h, NO_TABLE, ops, []))
  {
    RunKeeps(h, NO_TABLE, ops, []);
  }
}
