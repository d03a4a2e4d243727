/** What every operation of the hash table keeps. */
module UtHashInvariant {
  import opened Collections
  import opened BitArithmetic
  import opened UtHashRow
  import opened UtHashSort
  import opened UtHashSpec

  // ----- elements as multisets

  lemma NoDupCounts(s: seq<Filter>, f: Filter)
    requires NoDup(s)
    ensures multiset(s)[f] <= 1
  {
    if f in s {
      var k :| 0 <= k < |s| && s[k] == f;
      assert s == s[..k] + [f] + s[k + 1..];
      assert f !in s[..k] && f !in s[k + 1..];
    }
  }

  lemma {:induction false} SingleCountsNoDup(s: seq<Filter>)
    requires forall i | 0 <= i < |s| :: multiset(s)[s[i]] <= 1
    ensures NoDup(s)
  {
    forall i, j | 0 <= i < j < |s|
      ensures s[i] != s[j]
    {
      assert s == s[..j] + s[j..];
      assert s[i] in s[..j] && s[j] in s[j..];
    }
  }

  lemma SameElements(s: seq<Filter>, t: seq<Filter>)
    requires multiset(s) == multiset(t)
    ensures |s| == |t|
    ensures NoDup(s) ==> NoDup(t)
    ensures forall i | 0 <= i < |s| :: s[i] in t
  {
    assert |multiset(s)| == |s| && |multiset(t)| == |t|;
    forall i | 0 <= i < |s|
      ensures s[i] in t
    {
      assert s[i] in multiset(t);
    }
    if NoDup(s) {
      forall i | 0 <= i < |t|
        ensures multiset(t)[t[i]] <= 1
      {
        NoDupCounts(s, t[i]);
      }
      SingleCountsNoDup(t);
    }
  }

  lemma InsertedCounts(s: seq<Filter>, k: nat, f: Filter)
    requires k <= |s|
    ensures multiset(Inserted(s, k, f)) == multiset(s) + multiset{f}
  {
    assert s == s[..k] + s[k..];
  }

  lemma InsertedNoDup(s: seq<Filter>, k: nat, f: Filter)
    requires k <= |s| && NoDup(s) && f !in s
    ensures NoDup(Inserted(s, k, f))
  {
    var t := Inserted(s, k, f);
    assert forall i | 0 <= i < |t| :: t[i] == if i < k then s[i] else if i == k then f else s[i - 1];
  }

  lemma InsertedElements(s: seq<Filter>, k: nat, f: Filter)
    requires k <= |s|
    ensures forall i | 0 <= i <= |s| :: Inserted(s, k, f)[i] == f || Inserted(s, k, f)[i] in s
  {
  }

  /** The index at which RemoveFrom cuts. */
  lemma {:induction false} RemoveFromCuts(s: seq<Filter>, f: Filter) returns (k: nat)
    requires f in s
    ensures k < |s| && s[k] == f && RemoveFrom(s, f) == Without(s, k)
  {
    if s[0] == f {
      k := 0;
    } else {
      k := RemoveFromCuts(s[1..], f);
      assert [s[0]] + Without(s[1..], k) == Without(s, k + 1);
      k := k + 1;
    }
  }

  lemma {:induction false} RemoveFromCounts(s: seq<Filter>, f: Filter)
    requires f in s
    ensures multiset(RemoveFrom(s, f)) == multiset(s) - multiset{f}
    ensures |RemoveFrom(s, f)| == |s| - 1
  {
    assert s == [s[0]] + s[1..];
    if s[0] != f {
      RemoveFromCounts(s[1..], f);
      assert multiset(RemoveFrom(s, f)) == multiset{s[0]} + (multiset(s[1..]) - multiset{f});
    }
  }

  lemma {:induction false} RemoveFromElements(s: seq<Filter>, f: Filter)
    ensures forall i | 0 <= i < |RemoveFrom(s, f)| :: RemoveFrom(s, f)[i] in s
  {
    if s != [] && s[0] != f {
      RemoveFromElements(s[1..], f);
    }
  }

  lemma RemoveFromNoDup(s: seq<Filter>, f: Filter)
    requires f in s && NoDup(s)
    ensures NoDup(RemoveFrom(s, f)) && f !in RemoveFrom(s, f)
  {
    var k := RemoveFromCuts(s, f);
    var t := Without(s, k);
    assert forall i | 0 <= i < |t| :: t[i] == if i < k then s[i] else s[i + 1];
  }

  // ----- chains

  /** What the chains other than chain b hold. */
  ghost function Others(chains: seq<seq<Filter>>, b: nat): multiset<Filter>
    requires b < |chains|
  {
    multiset(Flatten(chains[..b])) + multiset(Flatten(chains[b + 1..]))
  }

  lemma {:induction false} FlattenSplits(chains: seq<seq<Filter>>, b: nat)
    requires b < |chains|
    ensures Flatten(chains) == Flatten(chains[..b]) + chains[b] + Flatten(chains[b + 1..])
  {
    if b > 0 {
      FlattenSplits(chains[1..], b - 1);
      assert chains[..b][1..] == chains[1..][..b - 1];
    }
  }

  lemma FlattenAround(chains: seq<seq<Filter>>, b: nat, c: seq<Filter>)
    requires b < |chains|
    ensures multiset(Flatten(chains)) == Others(chains, b) + multiset(chains[b])
    ensures multiset(Flatten(chains[b := c])) == Others(chains, b) + multiset(c)
  {
    var updated := chains[b := c];
    FlattenSplits(chains, b);
    FlattenSplits(updated, b);
    assert updated[..b] == chains[..b] && updated[b + 1..] == chains[b + 1..];
  }

  lemma {:induction false} FlattenHolds(chains: seq<seq<Filter>>, b: nat)
    requires b < |chains|
    ensures multiset(chains[b]) <= multiset(Flatten(chains))
  {
    if b > 0 {
      FlattenHolds(chains[1..], b - 1);
    }
  }

  lemma {:induction false} FlattenFinds(chains: seq<seq<Filter>>, f: Filter) returns (b: nat)
    requires f in Flatten(chains)
    ensures b < |chains| && f in chains[b]
  {
    if f in chains[0] {
      b := 0;
    } else {
      b := FlattenFinds(chains[1..], f);
      b := b + 1;
    }
  }

  /** An element of the list is in the chain of its bucket and in no other. */
  lemma InItsChain(h: HashFcn, t: Table, f: Filter)
    requires Consistent(h, t)
    ensures f in t.app <==> f in t.chains[BucketOf(h, f, t.log2)]
    ensures forall b | 0 <= b < |t.chains| && f in t.chains[b] :: b == BucketOf(h, f, t.log2)
  {
    var b := BucketOf(h, f, t.log2);
    FlattenHolds(t.chains, b);
    if f in t.app {
      assert f in multiset(Flatten(t.chains));
      var b' := FlattenFinds(t.chains, f);
      var i :| 0 <= i < |t.chains[b']| && t.chains[b'][i] == f;
    }
    if f in t.chains[b] {
      assert f in multiset(t.chains[b]);
      assert f in multiset(t.app);
    }
  }

  lemma ChainNoDup(h: HashFcn, t: Table, b: nat)
    requires Consistent(h, t) && b < |t.chains|
    ensures NoDup(t.chains[b])
    ensures forall i | 0 <= i < |t.chains[b]| :: t.chains[b][i] in t.app
  {
    var c := t.chains[b];
    FlattenHolds(t.chains, b);
    forall i | 0 <= i < |c|
      ensures multiset(c)[c[i]] <= 1 && c[i] in t.app
    {
      assert c[i] in multiset(c);
      assert c[i] in multiset(t.app);
      NoDupCounts(t.app, c[i]);
    }
    SingleCountsNoDup(c);
  }

  /** The sum of the bucket counts that HASH_FSCK compares with num_items. */
  function SumOfCounts(chains: seq<seq<Filter>>): (n: nat)
    ensures n == |Flatten(chains)|
  {
    if chains == [] then 0 else |chains[0]| + SumOfCounts(chains[1..])
  }

  // ----- expansion

  lemma EmptySpreadHolds(h: HashFcn, log2: nat)
    ensures InPlace(h, EmptySpread(log2).chains, log2)
    ensures Flatten(EmptySpread(log2).chains) == []
  {
    FlattenEmpty(Pow2(log2));
  }

  lemma {:induction false} FlattenEmpty(n: nat)
    ensures Flatten(seq(n, _ => [])) == []
  {
    if n > 0 {
      assert seq<seq<Filter>>(n, _ => [])[1..] == seq(n - 1, _ => []);
      FlattenEmpty(n - 1);
    }
  }

  lemma PushInPlace(h: HashFcn, chains: seq<seq<Filter>>, log2: nat, f: Filter)
    requires |chains| == Pow2(log2) && InPlace(h, chains, log2)
    ensures var b := BucketOf(h, f, log2);
      InPlace(h, chains[b := [f] + chains[b]], log2)
  {
    var b := BucketOf(h, f, log2);
    var c := [f] + chains[b];
    var pushed := chains[b := c];
    forall d, i | 0 <= d < |pushed| && 0 <= i < |pushed[d]|
      ensures BucketOf(h, pushed[d][i], log2) == d
    {
      if d == b && i > 0 {
        assert pushed[d][i] == chains[b][i - 1];
      }
    }
  }

  lemma PushCounts(chains: seq<seq<Filter>>, b: nat, f: Filter)
    requires b < |chains|
    ensures multiset(Flatten(chains[b := [f] + chains[b]])) == multiset(Flatten(chains)) + multiset{f}
  {
    FlattenAround(chains, b, [f] + chains[b]);
    assert multiset([f] + chains[b]) == multiset{f} + multiset(chains[b]);
  }

  lemma CutInPlace(h: HashFcn, chains: seq<seq<Filter>>, log2: nat, b: nat, k: nat)
    requires InPlace(h, chains, log2) && b < |chains| && k < |chains[b]|
    ensures InPlace(h, chains[b := Without(chains[b], k)], log2)
  {
    var cut := chains[b := Without(chains[b], k)];
    forall d, i | 0 <= d < |cut| && 0 <= i < |cut[d]|
      ensures BucketOf(h, cut[d][i], log2) == d
    {
      if d == b {
        assert cut[d][i] == chains[b][if i < k then i else i + 1];
      }
    }
  }

  lemma MultisetMinus(others: multiset<Filter>, m: multiset<Filter>, f: Filter)
    requires f in m
    ensures others + (m - multiset{f}) == others + m - multiset{f}
  {
  }

  lemma CutCounts(chains: seq<seq<Filter>>, b: nat, f: Filter)
    requires b < |chains| && f in chains[b]
    ensures multiset(Flatten(chains[b := RemoveFrom(chains[b], f)])) == multiset(Flatten(chains)) - multiset{f}
  {
    FlattenAround(chains, b, RemoveFrom(chains[b], f));
    RemoveFromCounts(chains[b], f);
    MultisetMinus(Others(chains, b), multiset(chains[b]), f);
  }

  lemma {:induction false} PlaceAllHolds(h: HashFcn, log2: nat, ideal: nat, s: Spread, fs: seq<Filter>)
    requires ideal > 0 && Wide(s, log2)
    requires InPlace(h, s.chains, log2)
    ensures var r := PlaceAll(h, log2, ideal, s, fs);
      InPlace(h, r.chains, log2) && multiset(Flatten(r.chains)) == multiset(Flatten(s.chains)) + multiset(fs)
    decreases |fs|
  {
    if fs != [] {
      PushInPlace(h, s.chains, log2, fs[0]);
      PushCounts(s.chains, BucketOf(h, fs[0], log2), fs[0]);
      assert fs == [fs[0]] + fs[1..];
      PlaceAllHolds(h, log2, ideal, Place(h, log2, ideal, s, fs[0]), fs[1..]);
    }
  }

  lemma RedistributeHolds(h: HashFcn, t: Table)
    requires t.app != []
    ensures InPlace(h, Redistribute(h, t).chains, t.log2 + 1)
    ensures multiset(Flatten(Redistribute(h, t).chains)) == multiset(Flatten(t.chains))
  {
    var log2 := t.log2 + 1;
    EmptySpreadHolds(h, log2);
    PlaceAllHolds(h, log2, IdealChain(|t.app|, log2), EmptySpread(log2), Flatten(t.chains));
  }

  /** HASH_EXPAND_BUCKETS keeps the invariant. */
  lemma ExpandKeeps(h: HashFcn, t: Table)
    requires t.app != [] && Consistent(h, t)
    ensures Consistent(h, Expand(h, t)) && Expand(h, t).app == t.app
  {
    RedistributeHolds(h, t);
  }

  // ----- operations

  lemma MadeTableHolds(h: HashFcn)
    ensures Consistent(h, MadeTable())
  {
    FlattenEmpty(Pow2(INITIAL_LOG2));
  }

  lemma PushedKeeps(h: HashFcn, t: Table, app: seq<Filter>, f: Filter)
    requires Consistent(h, t)
    requires NoDup(app) && multiset(app) == multiset(t.app) + multiset{f}
    ensures Consistent(h, Pushed(h, t.(app := app), f))
  {
    PushInPlace(h, t.chains, t.log2, f);
    PushCounts(t.chains, BucketOf(h, f, t.log2), f);
  }

  lemma AddToBucketKeeps(h: HashFcn, t: Table, app: seq<Filter>, f: Filter)
    requires Consistent(h, t)
    requires app != [] && NoDup(app) && multiset(app) == multiset(t.app) + multiset{f}
    ensures Consistent(h, AddToBucket(h, t.(app := app), f))
    ensures AddToBucket(h, t.(app := app), f).app == app
  {
    PushedKeeps(h, t, app, f);
    ExpandKeeps(h, Pushed(h, t.(app := app), f));
  }

  /** f has joined the application-order list of base but not yet its bucket. */
  ghost predicate Joined(h: HashFcn, t: Table, base: seq<Filter>, f: Filter) {
    && Consistent(h, t.(app := base)) && f !in base
    && NoDup(t.app) && multiset(t.app) == multiset(base) + multiset{f}
  }

  lemma JoinedHolds(h: HashFcn, t: Table, base: seq<Filter>, f: Filter)
    requires Joined(h, t, base, f)
    ensures t.app != [] && f in t.app
    ensures forall i | 0 <= i < |base| :: base[i] in t.app
    ensures Consistent(h, Pushed(h, t, f))
    ensures Consistent(h, AddToBucket(h, t, f)) && AddToBucket(h, t, f).app == t.app
  {
    assert f in multiset(t.app);
    forall i | 0 <= i < |base|
      ensures base[i] in t.app
    {
      assert base[i] in multiset(t.app);
    }
    assert t.(app := base).(app := t.app) == t;
    PushedKeeps(h, t.(app := base), t.app, f);
    AddToBucketKeeps(h, t.(app := base), t.app, f);
  }

  lemma InsertionJoins(h: HashFcn, t: Table, k: nat, f: Filter)
    requires Valid(h, t) && k <= |t.app| && f !in t.app
    ensures var base := if t.app == [] then MadeTable() else t;
      Joined(h, base.(app := Inserted(t.app, k, f)), t.app, f)
  {
    InsertedCounts(t.app, k, f);
    InsertedNoDup(t.app, k, f);
    MadeTableHolds(h);
    assert MadeTable().(app := []) == MadeTable();
    assert t.(app := Inserted(t.app, k, f)).(app := t.app) == t;
  }

  /** HASH_ADD and HASH_ADD_INORDER keep the invariant. */
  lemma AddAtKeeps(h: HashFcn, t: Table, k: nat, f: Filter)
    requires Valid(h, t) && k <= |t.app| && f !in t.app
    ensures Valid(h, AddAt(h, t, k, f))
    ensures AddAt(h, t, k, f).app == Inserted(t.app, k, f)
  {
    var base := if t.app == [] then MadeTable() else t;
    InsertionJoins(h, t, k, f);
    JoinedHolds(h, base.(app := Inserted(t.app, k, f)), t.app, f);
  }

  /** HASH_DELETE keeps the invariant. */
  lemma DeleteKeeps(h: HashFcn, t: Table, f: Filter)
    requires Valid(h, t) && f in t.app
    ensures Valid(h, Delete(h, t, f))
    ensures Delete(h, t, f).app == RemoveFrom(t.app, f)
  {
    RemoveFromCounts(t.app, f);
    RemoveFromNoDup(t.app, f);
    if |t.app| > 1 {
      var b := BucketOf(h, f, t.log2);
      InItsChain(h, t, f);
      CutCounts(t.chains, b, f);
      var k := RemoveFromCuts(t.chains[b], f);
      CutInPlace(h, t.chains, t.log2, b, k);
    }
  }

  /** HASH_SRT keeps the invariant and leaves every chain alone. */
  lemma SortKeeps(h: HashFcn, cmp: Comparator, t: Table)
    requires Valid(h, t)
    ensures Valid(h, Sort(cmp, t))
  {
    BottomUpPermutes(cmp, t.app, 1);
    SameElements(t.app, BottomUp(cmp, t.app, 1));
  }

  lemma {:induction false} MergePermutes(cmp: Comparator, p: seq<Filter>, q: seq<Filter>)
    ensures multiset(Merge(cmp, p, q)) == multiset(p) + multiset(q)
    decreases |p| + |q|
  {
    if p != [] && q != [] {
      assert p == [p[0]] + p[1..] && q == [q[0]] + q[1..];
      if Leq(cmp, p[0], q[0]) {
        MergePermutes(cmp, p[1..], q);
      } else {
        MergePermutes(cmp, p, q[1..]);
      }
    }
  }

  lemma {:induction false} PassPermutes(cmp: Comparator, s: seq<Filter>, k: nat)
    requires k > 0
    ensures multiset(Pass(cmp, s, k)) == multiset(s)
    decreases |s|
  {
    if s != [] {
      var p, q, rest := Take(s, k), Take(Drop(s, k), k), Drop(Drop(s, k), k);
      assert s == (p + q) + rest;
      MergePermutes(cmp, p, q);
      PassPermutes(cmp, rest, k);
    }
  }

  /** HASH_SRT permutes the list whatever the comparison callback answers. */
  lemma {:induction false} BottomUpPermutes(cmp: Comparator, s: seq<Filter>, k: nat)
    requires k > 0
    ensures multiset(BottomUp(cmp, s, k)) == multiset(s)
    decreases |s| - k
  {
    PassPermutes(cmp, s, k);
    if |s| > 2 * k {
      BottomUpPermutes(cmp, Pass(cmp, s, k), 2 * k);
    }
  }
}
