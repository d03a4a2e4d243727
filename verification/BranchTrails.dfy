/** What the path enumerator records: exactly the maximal edge-simple trails. */
module BranchTrails {
  import opened BranchPaths

  /** t follows outs of the graph none of them 0 or the exit marker, and uses no
      edge twice. */
  ghost predicate Trail(outs: Cfg, t: seq<int>) {
    && InCfg(outs, t)
    && (forall i {:trigger t[i]} | 0 <= i < |t| - 1 :: t[i + 1] in outs[t[i]] && t[i + 1] != 0 && t[i + 1] != JMP_EXIT)
    && (forall i, j {:trigger t[i], t[j]} | 0 <= i < j < |t| - 1 :: t[i] != t[j] || t[i + 1] != t[j + 1])
  }

  /** No out of the last block could prolong t. */
  ghost predicate Maximal(outs: Cfg, t: seq<int>)
    requires InCfg(outs, t)
  {
    forall i | 0 <= i < |outs[Last(t)]| :: !Usable(t, outs[Last(t)][i])
  }

  ghost predicate UsesEdge(t: seq<int>, a: int, b: int) {
    exists i {:trigger t[i]} | 0 <= i < |t| - 1 :: t[i] == a && t[i + 1] == b
  }

  /** That is, every out of it is 0, or the exit, or along an edge of t. */
  lemma MaximalMeans(outs: Cfg, t: seq<int>)
    requires InCfg(outs, t)
    ensures var last := t[|t| - 1];
      Maximal(outs, t) <==> forall i | 0 <= i < |outs[last]| ::
        outs[last][i] == 0 || outs[last][i] == JMP_EXIT || UsesEdge(t, last, outs[last][i])
  {
    var last := t[|t| - 1];
    assert Last(t) == last;
    forall i | 0 <= i < |outs[last]|
      ensures Usable(t, outs[last][i]) <==>
        !(outs[last][i] == 0 || outs[last][i] == JMP_EXIT || UsesEdge(t, last, outs[last][i]))
    {
      assert UsesEdge(t, last, outs[last][i]) <==> HasEdge(t, last, outs[last][i]);
    }
  }

  ghost predicate MaximalTrail(outs: Cfg, t: seq<int>) {
    Trail(outs, t) && Maximal(outs, t)
  }

  /** In how many ways t can be followed from its position k on: at each step, how
      often the next block is listed among the outs. */
  ghost function Ways(outs: Cfg, t: seq<int>, k: nat): nat
    requires InCfg(outs, t)
    decreases |t| - k
  {
    if k + 1 >= |t| then 1 else multiset(outs[t[k]])[t[k + 1]] * Ways(outs, t, k + 1)
  }

  lemma ExtendTrail(outs: Cfg, q: seq<int>, x: int)
    requires WellFormed(outs) && Trail(outs, q)
    requires x in outs[Last(q)] && Usable(q, x)
    ensures Trail(outs, q + [x])
  {
    var t := q + [x];
    forall i, j {:trigger t[i], t[j]} | 0 <= i < j < |t| - 1
      ensures t[i] != t[j] || t[i + 1] != t[j + 1]
    {
      assert t[i] == q[i];
      if j == |t| - 2 {
        assert !(q[i] == Last(q) && q[i + 1] == x);
      } else {
        assert q[i] != q[j] || q[i + 1] != q[j + 1];
      }
    }
  }

  /** The step a trail takes after a prefix of it was usable there. */
  lemma StepWasUsable(outs: Cfg, q: seq<int>, t: seq<int>)
    requires Trail(outs, t) && q != [] && q <= t && |q| < |t|
    ensures Usable(q, t[|q|]) && t[|q|] in outs[Last(q)]
  {
    var n := |q| - 1;
    assert t[n] == Last(q);
    forall i | 0 <= i < |q| - 1
      ensures !(q[i] == Last(q) && q[i + 1] == t[|q|])
    {
      assert t[i] == q[i] && t[i + 1] == q[i + 1];
      assert t[i] != t[n] || t[i + 1] != t[n + 1];
    }
  }

  lemma CountCons(s: seq<int>, i: nat, y: int)
    requires i < |s|
    ensures multiset(s[i..])[y] == (if s[i] == y then 1 else 0) + multiset(s[i + 1..])[y]
  {
    assert s[i..] == [s[i]] + s[i + 1..];
  }

  ghost predicate Beyond(q: seq<int>, t: seq<int>) {
    |q| < |t| && q <= t
  }

  /** How often t is to be listed from q on. */
  ghost function Expected(outs: Cfg, q: seq<int>, t: seq<int>): nat
    requires q != []
  {
    if q <= t && MaximalTrail(outs, t) then Ways(outs, t, |q| - 1) else 0
  }

  /** How often t is to be listed from q on, through the outs from number i on. */
  ghost function ExpectedVia(outs: Cfg, q: seq<int>, i: nat, t: seq<int>): nat
    requires InCfg(outs, q) && i <= |outs[Last(q)]|
  {
    if Beyond(q, t) && MaximalTrail(outs, t)
    then multiset(outs[Last(q)][i..])[t[|q|]] * Ways(outs, t, |q|)
    else 0
  }

  lemma ExpectedStep(outs: Cfg, q: seq<int>, i: nat, t: seq<int>)
    requires WellFormed(outs) && Trail(outs, q) && i < |outs[Last(q)]|
    ensures var x := outs[Last(q)][i];
      ExpectedVia(outs, q, i, t)
        == (if Usable(q, x) then Expected(outs, q + [x], t) else 0) + ExpectedVia(outs, q, i + 1, t)
  {
    var nexts := outs[Last(q)];
    var x := nexts[i];
    assert q + [x] <= t <==> Beyond(q, t) && t[|q|] == x;
    if Beyond(q, t) && MaximalTrail(outs, t) {
      var y := t[|q|];
      CountCons(nexts, i, y);
      StepWasUsable(outs, q, t);
      Distribute(if x == y then 1 else 0, multiset(nexts[i + 1..])[y], Ways(outs, t, |q|));
    }
  }

  lemma CountConcat(a: seq<seq<int>>, b: seq<seq<int>>, t: seq<int>)
    ensures multiset(a + b)[t] == multiset(a)[t] + multiset(b)[t]
  {
  }

  lemma ViaSplits(outs: Cfg, q: seq<int>, i: nat, t: seq<int>)
    requires WellFormed(outs) && Trail(outs, q) && i < |outs[Last(q)]|
    requires Usable(q, outs[Last(q)][i]) ==> Trail(outs, q + [outs[Last(q)][i]])
    ensures multiset(ListVia(outs, q, i))[t] == multiset(ListVia(outs, q, i + 1))[t] +
      if Usable(q, outs[Last(q)][i]) then multiset(ListFrom(outs, q + [outs[Last(q)][i]]))[t] else 0
  {
    var x := outs[Last(q)][i];
    var rest := ListVia(outs, q, i + 1);
    if Usable(q, x) {
      CountConcat(ListFrom(outs, q + [x]), rest, t);
    } else {
      assert [] + rest == rest;
    }
  }

  lemma {:induction false} ViaCounts(outs: Cfg, q: seq<int>, i: nat, t: seq<int>)
    requires WellFormed(outs) && Trail(outs, q)
    requires i <= |outs[Last(q)]|
    ensures multiset(ListVia(outs, q, i))[t] == ExpectedVia(outs, q, i, t)
    decreases Unused(outs, q), |outs[Last(q)]| - i
  {
    var nexts := outs[Last(q)];
    if i == |nexts| {
      assert nexts[i..] == [];
    } else {
      ViaCounts(outs, q, i + 1, t);
      ExpectedStep(outs, q, i, t);
      if Usable(q, nexts[i]) {
        UnusedShrinks(outs, q, i);
        ExtendTrail(outs, q, nexts[i]);
        FromCounts(outs, q + [nexts[i]], t);
      }
      ViaSplits(outs, q, i, t);
    }
  }

  lemma Distribute(a: nat, b: nat, c: nat)
    ensures (a + b) * c == a * c + b * c
  {
  }

  /** From a trail q on, the enumerator lists every maximal trail that prolongs q, as
      many times as there are ways to follow it, and nothing else. */
  lemma {:induction false} FromCounts(outs: Cfg, q: seq<int>, t: seq<int>)
    requires WellFormed(outs) && Trail(outs, q)
    ensures multiset(ListFrom(outs, q))[t] == Expected(outs, q, t)
    decreases Unused(outs, q), |outs[Last(q)]| + 1
  {
    var nexts := outs[Last(q)];
    if exists i | 0 <= i < |nexts| :: Usable(q, nexts[i]) {
      ViaCounts(outs, q, 0, t);
      assert nexts[0..] == nexts;
      if t == q {
        assert !Maximal(outs, t);
      }
    } else {
      assert Maximal(outs, q);
      if Beyond(q, t) && Trail(outs, t) {
        StepWasUsable(outs, q, t);
        assert false;
      }
      assert q <= t ==> t == q || Beyond(q, t);
    }
  }

  // ----- all entry points

  lemma {:induction false} EntriesCount(outs: Cfg, entries: set<nat>, e: nat, t: seq<int>)
    requires WellFormed(outs) && e <= |outs|
    ensures multiset(ListEntries(outs, entries, e))[t]
         == if MaximalTrail(outs, t) && t[0] in entries && t[0] >= e then Ways(outs, t, 0) else 0
    decreases |outs| - e
  {
    if e < |outs| {
      EntriesCount(outs, entries, e + 1, t);
      var rest := ListEntries(outs, entries, e + 1);
      if e in entries {
        FromCounts(outs, [e], t);
        CountConcat(ListFrom(outs, [e]), rest, t);
        assert t != [] ==> ([e] <= t <==> t[0] == e);
      }
    }
  }

  lemma CappedCounts(paths: seq<seq<int>>, t: seq<int>)
    ensures multiset(Capped(paths))[t] <= multiset(paths)[t]
    ensures |Capped(paths)| < MAX_PATHS ==> Capped(paths) == paths
  {
    if |paths| > MAX_PATHS {
      assert paths == paths[..MAX_PATHS] + paths[MAX_PATHS..];
    }
  }

  /** Each step of t is listed once among its block's outs. */
  ghost predicate SingleOuts(outs: Cfg, t: seq<int>)
    requires InCfg(outs, t)
  {
    forall i {:trigger t[i]} | 0 <= i < |t| - 1 :: multiset(outs[t[i]])[t[i + 1]] == 1
  }

  lemma {:induction false} WaysPositive(outs: Cfg, t: seq<int>, k: nat)
    requires Trail(outs, t)
    ensures Ways(outs, t, k) >= 1
    ensures Ways(outs, t, k) == 1 <==> forall i {:trigger t[i]} | k <= i < |t| - 1 :: multiset(outs[t[i]])[t[i + 1]] == 1
    decreases |t| - k
  {
    if k + 1 < |t| {
      WaysPositive(outs, t, k + 1);
      var m, w := multiset(outs[t[k]])[t[k + 1]], Ways(outs, t, k + 1);
      assert t[k + 1] in multiset(outs[t[k]]);
      Grows(m, w);
    }
  }

  lemma Grows(m: nat, w: nat)
    requires m >= 1 && w >= 1
    ensures m * w >= 1
    ensures m * w == 1 <==> m == 1 && w == 1
  {
    if m > 1 {
      assert m * w >= 2 * w;
    }
  }

  /** What xdebug_branch_find_paths records: at most 4096 paths, all of them maximal
      trails from an entry point; and, unless there are more to list, every such trail,
      as often as there are ways to follow it, which is once exactly when no step of
      it is listed twice among its block's outs. */
  lemma RecordedPaths(outs: Cfg, entries: set<nat>, paths: seq<seq<int>>, t: seq<int>)
    requires WellFormed(outs)
    requires paths == Capped(ListEntries(outs, entries, 0))
    ensures |paths| <= 4096 && (|paths| < 4096 ==> |ListEntries(outs, entries, 0)| <= 4096)
    ensures t in paths ==> MaximalTrail(outs, t) && t[0] in entries
    ensures |ListEntries(outs, entries, 0)| <= 4096 && MaximalTrail(outs, t) && t[0] in entries ==>
      && t in paths
      && multiset(paths)[t] == Ways(outs, t, 0)
      && (multiset(paths)[t] == 1 <==> SingleOuts(outs, t))
  {
    EntriesCount(outs, entries, 0, t);
    CappedCounts(ListEntries(outs, entries, 0), t);
    if t in paths {
      assert t in multiset(paths);
    }
    if MaximalTrail(outs, t) {
      WaysPositive(outs, t, 0);
      if multiset(paths)[t] >= 1 {
        assert t in multiset(paths);
      }
    }
  }

  /** All ways to follow all trails are recorded exactly when there are at most 4096. */
  lemma AllRecorded(outs: Cfg, entries: set<nat>, paths: seq<seq<int>>)
    requires WellFormed(outs)
    requires paths == Capped(ListEntries(outs, entries, 0))
    ensures |ListEntries(outs, entries, 0)| <= 4096 <==>
      forall t | MaximalTrail(outs, t) && t[0] in entries :: multiset(paths)[t] == Ways(outs, t, 0)
  {
    var all := ListEntries(outs, entries, 0);
    if |all| <= MAX_PATHS {
      forall t | MaximalTrail(outs, t) && t[0] in entries
        ensures multiset(paths)[t] == Ways(outs, t, 0)
      {
        EntriesCount(outs, entries, 0, t);
      }
    } else {
      var t := all[MAX_PATHS];
      FirstDropped(all, t);
      EntriesCount(outs, entries, 0, t);
      assert MaximalTrail(outs, t) && multiset(paths)[t] != Ways(outs, t, 0);
    }
  }

  // ----- the order of the paths

  /** At their k-th block p and q part, or go on by different outs to the same block, p by
      an earlier out of the block before. */
  ghost predicate PartsAt(outs: Cfg, p: seq<int>, q: seq<int>, k: nat) {
    && 0 < k < |p| && k < |q| && p[..k] == q[..k] && 0 <= p[k - 1] < |outs|
    && Earlier(outs[p[k - 1]], p[k], q[k])
  }

  /** x is listed at an earlier place than y. */
  ghost predicate Earlier(nexts: seq<int>, x: int, y: int) {
    exists a, b | 0 <= a < b < |nexts| :: nexts[a] == x && nexts[b] == y
  }

  /** p is to be listed before q. */
  ghost predicate Before(outs: Cfg, p: seq<int>, q: seq<int>) {
    p != [] && q != [] && (p[0] < q[0] || exists k :: PartsAt(outs, p, q, k))
  }

  ghost predicate Ordered(outs: Cfg, paths: seq<seq<int>>) {
    forall i, j | 0 <= i < j < |paths| :: Before(outs, paths[i], paths[j])
  }

  /** p goes on from path by an out of number i or later. */
  ghost predicate GoesBy(outs: Cfg, path: seq<int>, i: nat, p: seq<int>)
    requires InCfg(outs, path)
  {
    |path| < |p| && path <= p && exists a | i <= a < |outs[Last(path)]| :: outs[Last(path)][a] == p[|path|]
  }

  lemma OrderedJoins(outs: Cfg, s: seq<seq<int>>, t: seq<seq<int>>)
    requires Ordered(outs, s) && Ordered(outs, t)
    requires forall p, q | p in s && q in t :: Before(outs, p, q)
    ensures Ordered(outs, s + t)
  {
  }

  /** The listing from a path goes on from it, in the order of the outs. */
  lemma {:induction false} FromOrdered(outs: Cfg, path: seq<int>)
    requires WellFormed(outs) && InCfg(outs, path)
    ensures Ordered(outs, ListFrom(outs, path)) && forall p | p in ListFrom(outs, path) :: path <= p
    decreases Unused(outs, path), |outs[Last(path)]| + 1
  {
    ViaOrdered(outs, path, 0);
  }

  lemma {:induction false} ViaOrdered(outs: Cfg, path: seq<int>, i: nat)
    requires WellFormed(outs) && InCfg(outs, path) && i <= |outs[Last(path)]|
    ensures Ordered(outs, ListVia(outs, path, i))
    ensures forall p | p in ListVia(outs, path, i) :: GoesBy(outs, path, i, p)
    decreases Unused(outs, path), |outs[Last(path)]| - i
  {
    var nexts := outs[Last(path)];
    if i < |nexts| {
      ViaOrdered(outs, path, i + 1);
      if Usable(path, nexts[i]) {
        UnusedShrinks(outs, path, i);
        FromOrdered(outs, path + [nexts[i]]);
        ViaJoins(outs, path, i, ListFrom(outs, path + [nexts[i]]), ListVia(outs, path, i + 1));
      }
    }
  }

  lemma ViaJoins(outs: Cfg, path: seq<int>, i: nat, first: seq<seq<int>>, rest: seq<seq<int>>)
    requires InCfg(outs, path) && i < |outs[Last(path)]| && Ordered(outs, first) && Ordered(outs, rest)
    requires forall p | p in first :: path + [outs[Last(path)][i]] <= p
    requires forall q | q in rest :: GoesBy(outs, path, i + 1, q)
    ensures Ordered(outs, first + rest)
    ensures forall p | p in first + rest :: GoesBy(outs, path, i, p)
  {
    forall p, q | p in first && q in rest
      ensures Before(outs, p, q)
    {
      OutsPart(outs, path, i, p, q);
    }
    OrderedJoins(outs, first, rest);
    forall p | p in first
      ensures GoesBy(outs, path, i, p)
    {
      assert p[..|path|] == path && p[|path|] == outs[Last(path)][i];
    }
  }

  lemma OutsPart(outs: Cfg, path: seq<int>, i: nat, p: seq<int>, q: seq<int>)
    requires InCfg(outs, path) && i < |outs[Last(path)]|
    requires path + [outs[Last(path)][i]] <= p && GoesBy(outs, path, i + 1, q)
    ensures Before(outs, p, q)
  {
    var k := |path|;
    assert p[..k] == path == q[..k] && p[k] == outs[Last(path)][i] && p[k - 1] == Last(path);
    assert PartsAt(outs, p, q, k);
  }

  lemma {:induction false} EntriesOrdered(outs: Cfg, entries: set<nat>, e: nat)
    requires WellFormed(outs) && e <= |outs|
    ensures Ordered(outs, ListEntries(outs, entries, e))
    ensures forall p | p in ListEntries(outs, entries, e) :: p != [] && p[0] >= e
    decreases |outs| - e
  {
    if e < |outs| {
      EntriesOrdered(outs, entries, e + 1);
      if e in entries {
        FromOrdered(outs, [e]);
        OrderedJoins(outs, ListFrom(outs, [e]), ListEntries(outs, entries, e + 1));
      }
    }
  }

  /** The paths are recorded by entry point, and from each in the order of the outs. */
  lemma RecordedInOrder(outs: Cfg, entries: set<nat>, paths: seq<seq<int>>)
    requires WellFormed(outs) && paths == Capped(ListEntries(outs, entries, 0))
    ensures Ordered(outs, paths) && paths <= ListEntries(outs, entries, 0)
  {
    EntriesOrdered(outs, entries, 0);
  }

  lemma FirstDropped(all: seq<seq<int>>, t: seq<int>)
    requires |all| > MAX_PATHS && t == all[MAX_PATHS]
    ensures multiset(Capped(all))[t] < multiset(all)[t]
  {
    assert all == all[..MAX_PATHS] + ([t] + all[MAX_PATHS + 1..]);
    CountConcat(all[..MAX_PATHS], [t] + all[MAX_PATHS + 1..], t);
  }
}
