/** Runs that set the expansion brake, and runs that release it again. */
module UtHashBrake {
  import opened Collections
  import opened BitArithmetic
  import opened UtHashRow
  import opened UtHashSpec
  import opened UtHashInvariant
  import opened UtHashExpansion
  import opened UtHashRuns
  import opened UtHashBuckets
  import opened UtHash

  // ----- composed runs

  lemma RunOne(h: HashFcn, t: Table, op: Op)
    requires Valid(h, t) && Legal(t, op)
    ensures LegalRun(h, t, [op]) && Run(h, t, [op]) == Apply(h, t, op)
  {
    ApplyKeeps(h, t, op);
  }

  /** A run with one more operation behind it. */
  lemma {:induction false} RunLast(h: HashFcn, t: Table, ops: seq<Op>, op: Op)
    requires Valid(h, t) && LegalRun(h, t, ops) && Legal(Run(h, t, ops), op)
    ensures LegalRun(h, t, ops + [op]) && Run(h, t, ops + [op]) == Apply(h, Run(h, t, ops), op)
    decreases |ops|
  {
    if ops == [] {
      assert ops + [op] == [op];
      RunOne(h, t, op);
    } else {
      ApplyKeeps(h, t, ops[0]);
      RestOfSum(ops, op);
      RunLast(h, Apply(h, t, ops[0]), ops[1..], op);
    }
  }

  lemma RestOfSum(ops: seq<Op>, op: Op)
    requires ops != []
    ensures (ops + [op])[0] == ops[0] && (ops + [op])[1..] == ops[1..] + [op]
  {
  }

  // ----- keys that collide

  ghost function Adds(fs: seq<Filter>): seq<Op> {
    if fs == [] then [] else Adds(fs[..|fs| - 1]) + [Adding(fs[|fs| - 1])]
  }

  ghost predicate DistinctNames(fs: seq<Filter>) {
    forall i, j | 0 <= i < j < |fs| :: fs[i].row.name != fs[j].row.name
  }

  /** All keys have the hash value v. */
  ghost predicate Collide(h: HashFcn, fs: seq<Filter>, v: Word) {
    forall i | 0 <= i < |fs| :: h(fs[i].row.name) == v
  }

  /** How far a table with n colliding items has got: it doubles at 10 items, when its
      chain reaches the threshold, and at 110, when it reaches that of the multiplier
      10; both doublings are ineffective. */
  ghost predicate Level(t: Table, b: nat, n: nat)
    requires b < |t.mults|
  {
    if n < 10 then t.log2 == INITIAL_LOG2 && t.mults[b] == 0 && t.ineff == 0 && !t.noexpand
    else if n < 110 then t.log2 == INITIAL_LOG2 + 1 && t.mults[b] == 10 && t.ineff == 1 && !t.noexpand
    else t.log2 == INITIAL_LOG2 + 2 && t.ineff == 2 && t.noexpand
  }

  /** The n items of t are all in the chain of the hash value v. */
  ghost predicate OneChain(h: HashFcn, t: Table, v: Word) {
    && |t.chains| == |t.mults| == Pow2(t.log2)
    && |t.chains[Bucket(v, t.log2)]| == |t.app|
    && Collide(h, t.chains[Bucket(v, t.log2)], v)
  }

  ghost predicate Piled(h: HashFcn, t: Table, v: Word) {
    Valid(h, t) && t.app != [] && OneChain(h, t, v) && Level(t, Bucket(v, t.log2), |t.app|)
  }

  lemma {:induction false} SiftAll(h: HashFcn, fs: seq<Filter>, log2: nat, b: nat)
    requires forall i | 0 <= i < |fs| :: BucketOf(h, fs[i], log2) == b
    ensures |Sift(h, fs, log2, b)| == |fs|
    ensures forall f | f in Sift(h, fs, log2, b) :: f in fs
  {
    if fs != [] {
      SiftAll(h, fs[1..], log2, b);
    }
  }

  lemma {:induction false} ExcessOfOne(chains: seq<seq<Filter>>, b: nat, ideal: nat)
    requires b < |chains|
    ensures TotalExcess(chains, ideal) >= Excess(|chains[b]|, ideal)
  {
    if b > 0 {
      ExcessOfOne(chains[1..], b - 1, ideal);
    }
  }

  /** A doubling of a table with one chain leaves one chain. */
  lemma ExpandOneChain(h: HashFcn, t: Table, v: Word)
    requires t.app != [] && Consistent(h, t) && OneChain(h, t, v)
    ensures OneChain(h, Expand(h, t), v)
  {
    var r := Expand(h, t);
    var b, chain := Bucket(v, r.log2), t.chains[Bucket(v, t.log2)];
    BucketSplits(h, chain[0], t.log2);
    NewChain(h, t, b);
    SiftAll(h, chain, r.log2, b);
    forall i | 0 <= i < |r.chains[b]|
      ensures h(r.chains[b][i].row.name) == v
    {
      assert r.chains[b][i] in chain;
    }
  }

  /** With as many buckets as items it is ineffective, and the chain's length becomes its
      multiplier. */
  lemma ExpandPile(h: HashFcn, t: Table, v: Word)
    requires Consistent(h, t) && OneChain(h, t, v) && 3 <= |t.app| <= Pow2(t.log2 + 1)
    ensures var r := Expand(h, t);
      && Consistent(h, r) && OneChain(h, r, v) && r.app == t.app && r.log2 == t.log2 + 1
      && r.mults[Bucket(v, r.log2)] == |t.app| && r.ineff == t.ineff + 1
      && r.noexpand == (t.noexpand || r.ineff > 1)
  {
    var r := Expand(h, t);
    var b := Bucket(v, r.log2);
    ExpandKeeps(h, t);
    ExpandOneChain(h, t, v);
    assert r.ideal == 1 && r.nonideal >= |t.app| - 1 by {
      ExpandCounts(h, t);
      assert |t.app| <= 1 * Pow2(r.log2);
      ExcessOfOne(r.chains, b, r.ideal);
    }
    ExpandCounts(h, t);
    HalfShift(|t.app|);
  }

  lemma HalfShift(n: nat)
    ensures ShiftRight(n, 1) == n / 2
  {
    ShiftIsDivision(n, 1);
  }

  lemma PushedOneChain(h: HashFcn, t: Table, app: seq<Filter>, f: Filter, v: Word)
    requires OneChain(h, t, v) && h(f.row.name) == v && |app| == |t.app| + 1
    ensures OneChain(h, Pushed(h, t.(app := app), f), v)
  {
    var chain := t.chains[Bucket(v, t.log2)];
    assert forall i | 0 <= i <= |chain| :: ([f] + chain)[i] == if i == 0 then f else chain[i - 1];
  }

  /** One more colliding item. */
  lemma AddPile(h: HashFcn, t: Table, f: Filter, v: Word)
    requires Piled(h, t, v) && FreshKey(t.app, f) && h(f.row.name) == v
    ensures Piled(h, Add(h, t, f), v) && Add(h, t, f).app == t.app + [f]
  {
    var app := t.app + [f];
    assert Inserted(t.app, |t.app|, f) == app;
    AddAtKeeps(h, t, |t.app|, f);
    InsertionJoins(h, t, |t.app|, f);
    JoinedHolds(h, t.(app := app), t.app, f);
    PushedOneChain(h, t, app, f, v);
    PushedLevel(h, t, Pushed(h, t.(app := app), f), f, v);
  }

  /** What the push of f, and the doubling it may cause, make of the level. */
  lemma PushedLevel(h: HashFcn, t: Table, pushed: Table, f: Filter, v: Word)
    requires OneChain(h, t, v) && t.app != [] && Level(t, Bucket(v, t.log2), |t.app|)
    requires pushed == t.(app := pushed.app, chains := pushed.chains) && |pushed.app| == |t.app| + 1
    requires Consistent(h, pushed) && OneChain(h, pushed, v) && h(f.row.name) == v
    ensures var r := if Crowded(h, pushed, f) then Expand(h, pushed) else pushed;
      OneChain(h, r, v) && Level(r, Bucket(v, r.log2), |r.app|)
  {
    assert Pow2(6) == 64 && Pow2(7) == 128;
    if Crowded(h, pushed, f) {
      ExpandPile(h, pushed, v);
    }
  }

  lemma FirstPile(h: HashFcn, f: Filter, v: Word)
    requires h(f.row.name) == v
    ensures Piled(h, Add(h, NO_TABLE, f), v) && Add(h, NO_TABLE, f).app == [f]
  {
    AddAtKeeps(h, NO_TABLE, 0, f);
    assert Inserted([], 0, f) == [f];
  }

  /** What adding fs makes of the empty table. */
  ghost predicate AddsGive(h: HashFcn, fs: seq<Filter>, t: Table) {
    LegalRun(h, NO_TABLE, Adds(fs)) && Run(h, NO_TABLE, Adds(fs)) == t && t.app == fs
  }

  lemma AddsLast(h: HashFcn, fs: seq<Filter>, t: Table, f: Filter)
    requires AddsGive(h, fs, t) && FreshKey(fs, f)
    ensures AddsGive(h, fs + [f], Add(h, t, f))
  {
    assert (fs + [f])[..|fs|] == fs;
    RunLast(h, NO_TABLE, Adds(fs), Adding(f));
    AddAtKeeps(h, t, |t.app|, f);
    assert Inserted(t.app, |t.app|, f) == t.app + [f];
  }

  lemma {:induction false} CollisionsPile(h: HashFcn, fs: seq<Filter>, v: Word) returns (t: Table)
    requires DistinctNames(fs) && Collide(h, fs, v)
    ensures AddsGive(h, fs, t) && (fs != [] ==> Piled(h, t, v))
    decreases |fs|
  {
    if fs == [] {
      t := NO_TABLE;
    } else {
      var n := |fs| - 1;
      t := CollisionsPile(h, fs[..n], v);
      AddNext(h, t, fs[n], v);
      AddsLast(h, fs[..n], t, fs[n]);
      t := Add(h, t, fs[n]);
      assert fs == fs[..n] + [fs[n]];
    }
  }

  /** Adding n items with distinct keys of one hash value sets the brake exactly when n is
      at least 110: the table has doubled at 10 and at 110 items, in vain both times. */
  lemma CollisionsSetBrake(h: HashFcn, fs: seq<Filter>, v: Word)
    requires DistinctNames(fs) && Collide(h, fs, v)
    ensures LegalRun(h, NO_TABLE, Adds(fs))
    ensures var t := Run(h, NO_TABLE, Adds(fs));
      && t.app == fs && BrakeConsistent(t) && (t.noexpand <==> |fs| >= 110)
      && (fs != [] ==> t.log2 == if |fs| < 10 then 5 else if |fs| < 110 then 6 else 7)
  {
    var t := CollisionsPile(h, fs, v);
  }

  lemma AddNext(h: HashFcn, t: Table, f: Filter, v: Word)
    requires Valid(h, t) && (t.app != [] ==> Piled(h, t, v)) && FreshKey(t.app, f) && h(f.row.name) == v
    ensures Piled(h, Add(h, t, f), v) && Add(h, t, f).app == t.app + [f]
  {
    if t.app == [] {
      FirstPile(h, f, v);
    } else {
      AddPile(h, t, f, v);
    }
  }

  /** The table of filters is what adding fs makes of the empty one. */
  ghost predicate Added(h: HashFcn, filters: Hash, fs: seq<Filter>)
    reads filters, filters.buckets, filters.table.app, Members(filters.table.chains)
  {
    filters.Valid() && filters.hashFcn == h && AddsGive(h, fs, filters.table)
  }

  ghost predicate Named(fs: seq<Filter>, names: seq<string>) {
    |fs| <= |names| && forall k | 0 <= k < |fs| :: fs[k].row.name == names[k]
  }

  /** Adding elements with these names to a new table does it. */
  method FillTable(h: HashFcn, names: seq<string>, ghost v: Word) returns (filters: Hash, ghost fs: seq<Filter>)
    requires forall i, j | 0 <= i < j < |names| :: names[i] != names[j]
    requires forall i | 0 <= i < |names| :: h(names[i]) == v
    ensures fresh(filters) && Added(h, filters, fs) && DistinctNames(fs) && Collide(h, fs, v)
    ensures |fs| == |names| && (filters.table.noexpand <==> |names| >= 110)
  {
    filters, fs := AddAll(h, names);
    assert forall i | 0 <= i < |fs| :: fs[i].row.name == names[i];
    CollisionsSetBrake(h, fs, v);
  }

  method AddAll(h: HashFcn, names: seq<string>) returns (filters: Hash, ghost fs: seq<Filter>)
    requires forall i, j | 0 <= i < j < |names| :: names[i] != names[j]
    ensures fresh(filters) && Added(h, filters, fs) && |fs| == |names| && Named(fs, names)
  {
    filters := new Hash(h);
    fs := [];
    for i := 0 to |names|
      invariant fresh(filters) && fresh(filters.buckets) && fresh(fs)
      invariant Added(h, filters, fs) && |fs| == i && Named(fs, names)
    {
      var f := AddNamed(filters, names[i], fs);
      NamedNext(fs, names, f);
      fs := fs + [f];
    }
  }

  lemma NamedNext(fs: seq<Filter>, names: seq<string>, f: Filter)
    requires Named(fs, names) && |fs| < |names| && f.row.name == names[|fs|]
    ensures Named(fs + [f], names)
  {
  }

  method AddNamed(filters: Hash, name: string, ghost fs: seq<Filter>) returns (f: Filter)
    requires Added(filters.hashFcn, filters, fs) && forall i | 0 <= i < |fs| :: fs[i].row.name != name
    modifies filters, filters.buckets, filters.table.app
    ensures fresh(f) && f.row.name == name && Added(filters.hashFcn, filters, fs + [f])
    ensures filters.buckets == old(filters.buckets) || fresh(filters.buckets)
  {
    f := new Filter(Row(name, []));
    AddsLast(filters.hashFcn, fs, filters.table, f);
    filters.Add(f);
  }

  // ----- every hash function has such keys

  ghost function NamesWith(h: HashFcn, lengths: set<nat>, v: nat): set<nat> {
    set n | n in lengths && h(NameOf(n)) == v
  }

  function NameOf(n: nat): string {
    seq(n, _ => 'a')
  }

  /** Of more than 109 names a value, 110 share one. */
  lemma {:induction false} SomeCrowd(h: HashFcn, lengths: set<nat>, values: nat) returns (v: nat)
    requires values > 0 && forall n | n in lengths :: h(NameOf(n)) < values
    requires |lengths| > 109 * values
    ensures v < values && |NamesWith(h, lengths, v)| >= 110
    decreases values
  {
    if values == 1 {
      v := 0;
      assert NamesWith(h, lengths, v) == lengths;
    } else {
      v := values - 1;
      var here := NamesWith(h, lengths, v);
      if |here| < 110 {
        assert lengths == here + (lengths - here);
        v := SomeCrowd(h, lengths - here, values - 1);
        SubsetSize(NamesWith(h, lengths - here, v), NamesWith(h, lengths, v));
      }
    }
  }

  lemma SubsetSize(s: set<nat>, t: set<nat>)
    requires s <= t
    ensures |s| <= |t|
  {
    assert t == s + (t - s);
  }

  lemma {:induction false} NatsTo(n: nat) returns (s: set<nat>)
    ensures |s| == n && forall k | k in s :: k < n
  {
    if n == 0 {
      s := {};
    } else {
      s := NatsTo(n - 1);
      s := s + {n - 1};
    }
  }

  lemma {:induction false} Spelled(h: HashFcn, lengths: set<nat>, v: nat) returns (names: seq<string>)
    requires forall n | n in lengths :: h(NameOf(n)) == v
    ensures |names| == |lengths|
    ensures forall i | 0 <= i < |names| :: h(names[i]) == v && |names[i]| in lengths
    ensures forall i, j | 0 <= i < j < |names| :: names[i] != names[j]
    decreases lengths
  {
    if lengths == {} {
      names := [];
    } else {
      var n :| n in lengths;
      names := Spelled(h, lengths - {n}, v);
      names := names + [NameOf(n)];
    }
  }

  /** Whatever the hash function, there are 110 distinct names with one hash value. */
  lemma CollisionsExist(h: HashFcn) returns (names: seq<string>, v: Word)
    ensures |names| >= 110
    ensures forall i, j | 0 <= i < j < |names| :: names[i] != names[j]
    ensures forall i | 0 <= i < |names| :: h(names[i]) == v
  {
    var lengths := NatsTo(109 * 0x1_0000_0000 + 1);
    v := SomeCrowd(h, lengths, 0x1_0000_0000);
    names := Spelled(h, NamesWith(h, lengths, v), v);
  }

  // ----- and its release

  ghost function Deletes(fs: seq<Filter>): seq<Op> {
    if fs == [] then [] else Deletes(fs[..|fs| - 1]) + [Deleting(fs[|fs| - 1])]
  }

  /** t lists app under the brake. */
  ghost predicate Braked(t: Table, app: seq<Filter>, log2: nat) {
    t.app == app && t.noexpand && BrakeConsistent(t) && t.log2 == log2
  }

  /** Deleting the first of several elements keeps the brake. */
  lemma DeleteFirst(h: HashFcn, t: Table, f: Filter, rest: seq<Filter>, log2: nat)
    requires Valid(h, t) && Braked(t, [f] + rest, log2) && rest != []
    ensures Legal(t, Deleting(f)) && Braked(Apply(h, t, Deleting(f)), rest, log2)
  {
    assert t.app[0] == f && t.app[1..] == rest;
    ApplyKeeps(h, t, Deleting(f));
    BrakeAfter(h, t, Deleting(f));
  }

  lemma DeleteNext(h: HashFcn, t: Table, ops: seq<Op>, f: Filter, rest: seq<Filter>, log2: nat)
    requires Valid(h, t) && LegalRun(h, t, ops)
    requires Braked(Run(h, t, ops), [f] + rest, log2) && rest != []
    ensures LegalRun(h, t, ops + [Deleting(f)]) && Braked(Run(h, t, ops + [Deleting(f)]), rest, log2)
  {
    DeleteFirst(h, Run(h, t, ops), f, rest, log2);
    RunLast(h, t, ops, Deleting(f));
  }

  /** Deleting elements from the front, but not all, keeps the brake. */
  lemma {:induction false} DeletesKeepBrake(h: HashFcn, t: Table, ops: seq<Op>, fs: seq<Filter>, rest: seq<Filter>,
                                            log2: nat)
    requires Valid(h, t) && LegalRun(h, t, ops)
    requires Braked(Run(h, t, ops), fs + rest, log2) && rest != []
    ensures LegalRun(h, t, ops + Deletes(fs)) && Braked(Run(h, t, ops + Deletes(fs)), rest, log2)
    decreases |fs|
  {
    if fs == [] {
      assert fs + rest == rest && ops + [] == ops;
    } else {
      var first, f := fs[..|fs| - 1], fs[|fs| - 1];
      Regroup(first, [f], rest);
      assert fs == first + [f];
      DeletesKeepBrake(h, t, ops, first, [f] + rest, log2);
      DeleteNext(h, t, ops + Deletes(first), f, rest, log2);
      Regroup(ops, Deletes(first), [Deleting(f)]);
    }
  }

  /** The run that sets the brake and then deletes all elements but the last. */
  ghost function Braking(fs: seq<Filter>): seq<Op>
    requires fs != []
  {
    Adds(fs) + Deletes(fs[..|fs| - 1])
  }

  /** From the empty table: after at least 110 colliding adds, and with all elements but the
      last deleted again, the brake is on. */
  lemma BrakeStaysOn(h: HashFcn, fs: seq<Filter>, v: Word)
    requires DistinctNames(fs) && Collide(h, fs, v) && |fs| >= 110
    ensures LegalRun(h, NO_TABLE, Braking(fs))
    ensures Braked(Run(h, NO_TABLE, Braking(fs)), [fs[|fs| - 1]], 7)
  {
    CollisionsSetBrake(h, fs, v);
    assert fs == fs[..|fs| - 1] + [fs[|fs| - 1]];
    DeletesKeepBrake(h, NO_TABLE, Adds(fs), fs[..|fs| - 1], [fs[|fs| - 1]], 7);
  }

  /** Deleting that one too, and adding any element, gives a table of 32 buckets without
      the brake. */
  lemma BrakeComesAndGoes(h: HashFcn, fs: seq<Filter>, v: Word, f: Filter)
    requires DistinctNames(fs) && Collide(h, fs, v) && |fs| >= 110
    ensures LegalRun(h, NO_TABLE, Braking(fs)) && Run(h, NO_TABLE, Braking(fs)).noexpand
    ensures var ops := Braking(fs) + [Deleting(fs[|fs| - 1])] + [Adding(f)];
      LegalRun(h, NO_TABLE, ops) &&
      var r := Run(h, NO_TABLE, ops);
      r.app == [f] && !r.noexpand && r.log2 == INITIAL_LOG2
  {
    BrakeStaysOn(h, fs, v);
    var last := fs[|fs| - 1];
    var t := Run(h, NO_TABLE, Braking(fs));
    EmptyingReleasesBrake(h, t, last, f);
    RunLast(h, NO_TABLE, Braking(fs), Deleting(last));
    assert Apply(h, t, Deleting(last)) == NO_TABLE;
    RunLast(h, NO_TABLE, Braking(fs) + [Deleting(last)], Adding(f));
  }
}
