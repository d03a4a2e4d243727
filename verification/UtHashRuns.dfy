/** What holds over every run of adds, in-order adds, deletes and sorts. */
module UtHashRuns {
  import opened Collections
  import opened BitArithmetic
  import opened UtHashRow
  import opened UtHashSort
  import opened UtHashSpec
  import opened UtHashInvariant

  datatype Op =
    | Adding(f: Filter)
    | AddingInOrder(cmp: Comparator, f: Filter)
    | Deleting(f: Filter)
    | Sorting(cmp: Comparator)

  /** What uthash asks of its caller: a fresh element with a fresh key to add, and a
      present one to delete. */
  ghost predicate Legal(t: Table, op: Op) {
    match op
    case Adding(f) => FreshKey(t.app, f)
    case AddingInOrder(_, f) => FreshKey(t.app, f)
    case Deleting(f) => f in t.app
    case Sorting(_) => true
  }

  ghost predicate FreshKey(app: seq<Filter>, f: Filter) {
    forall i | 0 <= i < |app| :: app[i].row.name != f.row.name
  }

  function Apply(h: HashFcn, t: Table, op: Op): Table
    requires Valid(h, t) && Legal(t, op)
  {
    match op
    case Adding(f) => Add(h, t, f)
    case AddingInOrder(cmp, f) => AddInOrder(h, cmp, t, f)
    case Deleting(f) => Delete(h, t, f)
    case Sorting(cmp) => Sort(cmp, t)
  }

  /** Every operation keeps the table invariant. */
  lemma ApplyKeeps(h: HashFcn, t: Table, op: Op)
    requires Valid(h, t) && Legal(t, op)
    ensures Valid(h, Apply(h, t, op))
  {
    match op
    case Adding(f) => AddAtKeeps(h, t, |t.app|, f);
    case AddingInOrder(cmp, f) => AddAtKeeps(h, t, InsertAt(cmp, t.app, f), f);
    case Deleting(f) => DeleteKeeps(h, t, f);
    case Sorting(cmp) => SortKeeps(h, cmp, t);
  }

  /** Every step of the run is legal. */
  ghost predicate LegalRun(h: HashFcn, t: Table, ops: seq<Op>)
    requires Valid(h, t)
    decreases |ops|
  {
    ops == [] || (Legal(t, ops[0]) && (ApplyKeeps(h, t, ops[0]); LegalRun(h, Apply(h, t, ops[0]), ops[1..])))
  }

  ghost function Run(h: HashFcn, t: Table, ops: seq<Op>): (r: Table)
    requires Valid(h, t) && LegalRun(h, t, ops)
    ensures Valid(h, r)
    decreases |ops|
  {
    if ops == [] then t
    else
      ApplyKeeps(h, t, ops[0]);
      Run(h, Apply(h, t, ops[0]), ops[1..])
  }

  // ----- HASH_FSCK

  /** Every count that HASH_FSCK compares: the bucket sizes add up to num_items and
      the chains hold the elements of the list, each once and in its own bucket. */
  lemma FsckHolds(h: HashFcn, t: Table)
    requires Valid(h, t) && t.app != []
    ensures SumOfCounts(t.chains) == |t.app|
    ensures |t.chains| == Pow2(t.log2)
    ensures forall b, f | 0 <= b < |t.chains| && f in t.chains[b] :: f in t.app && b == h(f.row.name) % Pow2(t.log2)
    ensures forall i | 0 <= i < |t.app| :: t.app[i] in t.chains[BucketOf(h, t.app[i], t.log2)]
    ensures NoDup(t.app) && forall b | 0 <= b < |t.chains| :: NoDup(t.chains[b])
  {
    SameElements(Flatten(t.chains), t.app);
    forall b, f | 0 <= b < |t.chains| && f in t.chains[b]
      ensures f in t.app && b == h(f.row.name) % Pow2(t.log2)
    {
      InItsChain(h, t, f);
      BucketIsRemainder(h(f.row.name), t.log2);
    }
    forall i | 0 <= i < |t.app|
      ensures t.app[i] in t.chains[BucketOf(h, t.app[i], t.log2)]
    {
      InItsChain(h, t, t.app[i]);
    }
    forall b | 0 <= b < |t.chains|
      ensures NoDup(t.chains[b])
    {
      ChainNoDup(h, t, b);
    }
  }

  // ----- lookup

  lemma {:induction false} FindInChainFirst(h: HashFcn, chain: seq<Filter>, key: string)
    ensures var f := FindInChain(h, chain, key);
      (f != null ==> f in chain && f.row.name == key) &&
      (f == null ==> forall i | 0 <= i < |chain| :: chain[i].row.name != key)
  {
    if chain != [] {
      FindInChainFirst(h, chain[1..], key);
    }
  }

  /** HASH_FIND finds an element with the key exactly when the list has one. */
  lemma FindIsLookup(h: HashFcn, t: Table, key: string)
    requires Valid(h, t)
    ensures var f := Find(h, t, key);
      (f != null ==> f in t.app && f.row.name == key) &&
      (f == null ==> forall i | 0 <= i < |t.app| :: t.app[i].row.name != key)
  {
    if t.app != [] {
      var b := Bucket(h(key), t.log2);
      FindInChainFirst(h, t.chains[b], key);
      ChainNoDup(h, t, b);
      forall i | 0 <= i < |t.app| && t.app[i].row.name == key
        ensures t.app[i] in t.chains[b]
      {
        InItsChain(h, t, t.app[i]);
      }
    }
  }

  /** The finite map from keys to elements that the operations describe. */
  ghost function MapAfter(m: map<string, Filter>, op: Op): map<string, Filter> {
    match op
    case Adding(f) => m[f.row.name := f]
    case AddingInOrder(_, f) => m[f.row.name := f]
    case Deleting(f) => m - {f.row.name}
    case Sorting(_) => m
  }

  ghost function MapRun(m: map<string, Filter>, ops: seq<Op>): map<string, Filter>
    decreases |ops|
  {
    if ops == [] then m else MapRun(MapAfter(m, ops[0]), ops[1..])
  }

  /** m maps the keys of the list to its elements. */
  ghost predicate Indexes(m: map<string, Filter>, app: seq<Filter>) {
    && (forall k | k in m :: m[k] in app && m[k].row.name == k)
    && (forall i | 0 <= i < |app| :: app[i].row.name in m && m[app[i].row.name] == app[i])
  }

  lemma IndexesAfter(h: HashFcn, t: Table, m: map<string, Filter>, op: Op)
    requires Valid(h, t) && Legal(t, op) && Indexes(m, t.app)
    ensures Indexes(MapAfter(m, op), Apply(h, t, op).app)
  {
    match op
    case Adding(f) =>
      IndexesInserted(m, t.app, |t.app|, f);
      AddAtKeeps(h, t, |t.app|, f);
    case AddingInOrder(cmp, f) =>
      IndexesInserted(m, t.app, InsertAt(cmp, t.app, f), f);
      AddAtKeeps(h, t, InsertAt(cmp, t.app, f), f);
    case Deleting(f) =>
      IndexesRemoved(m, t.app, f);
      DeleteKeeps(h, t, f);
    case Sorting(cmp) =>
      BottomUpPermutes(cmp, t.app, 1);
      SameElements(t.app, BottomUp(cmp, t.app, 1));
      SameElements(BottomUp(cmp, t.app, 1), t.app);
  }

  lemma IndexesInserted(m: map<string, Filter>, app: seq<Filter>, k: nat, f: Filter)
    requires Indexes(m, app) && k <= |app| && FreshKey(app, f)
    ensures Indexes(m[f.row.name := f], Inserted(app, k, f))
  {
    var s := Inserted(app, k, f);
    assert s[k] == f;
    forall i | 0 <= i < |app|
      ensures app[i] in s
    {
      assert s[if i < k then i else i + 1] == app[i];
    }
    InsertedElements(app, k, f);
  }

  lemma IndexesRemoved(m: map<string, Filter>, app: seq<Filter>, f: Filter)
    requires Indexes(m, app) && f in app && NoDup(app)
    ensures Indexes(m - {f.row.name}, RemoveFrom(app, f))
  {
    var s := RemoveFrom(app, f);
    RemoveFromElements(app, f);
    RemoveFromNoDup(app, f);
    RemoveFromCounts(app, f);
    var i :| 0 <= i < |app| && app[i] == f;
    forall k | k in m - {f.row.name}
      ensures m[k] in s
    {
      assert m[k] in multiset(app) - multiset{f};
    }
  }

  /** Over every legal run from an empty table, HASH_FIND answers as the finite map
      that the run describes. */
  lemma {:induction false} RunFindsAsMap(h: HashFcn, t: Table, m: map<string, Filter>, ops: seq<Op>, key: string)
    requires Valid(h, t) && LegalRun(h, t, ops) && Indexes(m, t.app)
    ensures var m' := MapRun(m, ops);
      Find(h, Run(h, t, ops), key) == if key in m' then m'[key] else null
    decreases |ops|
  {
    if ops == [] {
      FindIsLookup(h, t, key);
    } else {
      ApplyKeeps(h, t, ops[0]);
      IndexesAfter(h, t, m, ops[0]);
      RunFindsAsMap(h, Apply(h, t, ops[0]), MapAfter(m, ops[0]), ops[1..], key);
    }
  }

  // ----- iteration order

  /** The list that the operations describe, sorts being the stable sort. */
  ghost function ListAfter(s: seq<Filter>, op: Op): seq<Filter> {
    match op
    case Adding(f) => s + [f]
    case AddingInOrder(cmp, f) => Insert(cmp, s, f)
    case Deleting(f) => RemoveFrom(s, f)
    case Sorting(cmp) => InsertionSort(cmp, s)
  }

  ghost function ListRun(s: seq<Filter>, ops: seq<Op>): seq<Filter>
    decreases |ops|
  {
    if ops == [] then s else ListRun(ListAfter(s, ops[0]), ops[1..])
  }

  ghost predicate ProperOrders(ops: seq<Op>) {
    forall i | 0 <= i < |ops| && ops[i].Sorting? :: TotalPreorder(ops[i].cmp)
  }

  /** Over every legal run the application order is the described list, whatever the
      hash function and the expansions did to the chains. */
  lemma {:induction false} RunListsInOrder(h: HashFcn, t: Table, ops: seq<Op>)
    requires Valid(h, t) && LegalRun(h, t, ops) && ProperOrders(ops)
    ensures Run(h, t, ops).app == ListRun(t.app, ops)
    decreases |ops|
  {
    if ops != [] {
      ApplyKeeps(h, t, ops[0]);
      ApplyLists(h, t, ops[0]);
      assert ProperOrders(ops[1..]);
      RunListsInOrder(h, Apply(h, t, ops[0]), ops[1..]);
    }
  }

  lemma ApplyLists(h: HashFcn, t: Table, op: Op)
    requires Valid(h, t) && Legal(t, op) && (op.Sorting? ==> TotalPreorder(op.cmp))
    ensures Apply(h, t, op).app == ListAfter(t.app, op)
  {
    match op
    case Adding(f) =>
      AddAtKeeps(h, t, |t.app|, f);
      assert Inserted(t.app, |t.app|, f) == t.app + [f];
    case AddingInOrder(cmp, f) => AddAtKeeps(h, t, InsertAt(cmp, t.app, f), f);
    case Deleting(f) => DeleteKeeps(h, t, f);
    case Sorting(cmp) => MergeSortIsInsertionSort(cmp, t.app);
  }

  /** Only in-order adds and sorts with cmp, and deletes. */
  ghost predicate OrderedBy(cmp: Comparator, ops: seq<Op>) {
    forall i | 0 <= i < |ops| ::
      match ops[i]
      case Adding(_) => false
      case AddingInOrder(c, _) => c == cmp
      case Sorting(c) => c == cmp
      case Deleting(_) => true
  }

  lemma RemoveSorted(cmp: Comparator, s: seq<Filter>, f: Filter)
    requires Sorted(cmp, s)
    ensures Sorted(cmp, RemoveFrom(s, f))
    decreases |s|
  {
    if s != [] && s[0] != f {
      RemoveSorted(cmp, s[1..], f);
      RemoveFromElements(s[1..], f);
      SortedCons(cmp, s[0], RemoveFrom(s[1..], f));
    }
  }

  /** A list built with HASH_ADD_INORDER stays sorted through every such run. */
  lemma {:induction false} RunStaysSorted(h: HashFcn, cmp: Comparator, t: Table, ops: seq<Op>)
    requires TotalPreorder(cmp)
    requires Valid(h, t) && LegalRun(h, t, ops) && OrderedBy(cmp, ops)
    requires Sorted(cmp, t.app)
    ensures Sorted(cmp, Run(h, t, ops).app)
    decreases |ops|
  {
    if ops != [] {
      ApplyKeeps(h, t, ops[0]);
      match ops[0] {
        case AddingInOrder(_, f) =>
          AddAtKeeps(h, t, InsertAt(cmp, t.app, f), f);
          InsertSorted(cmp, t.app, f);
        case Deleting(f) =>
          DeleteKeeps(h, t, f);
          RemoveSorted(cmp, t.app, f);
        case Sorting(_) => MergeSortIsInsertionSort(cmp, t.app);
        case _ =>
      }
      assert OrderedBy(cmp, ops[1..]);
      RunStaysSorted(h, cmp, Apply(h, t, ops[0]), ops[1..]);
    }
  }

  // ----- the expansion brake

  /** noexpand is set exactly when more than one ineffective doubling is on record. */
  ghost predicate BrakeConsistent(t: Table) {
    t.noexpand <==> t.ineff > 1
  }

  /** A step leaves the brake on exactly when the table is not emptied and either the
      brake was on or the step made the second ineffective doubling in a row. */
  lemma BrakeAfter(h: HashFcn, t: Table, op: Op)
    requires Valid(h, t) && Legal(t, op) && BrakeConsistent(t)
    ensures BrakeConsistent(Apply(h, t, op))
    ensures var r := Apply(h, t, op);
      && (t.noexpand && r.app != [] ==> r.log2 == t.log2)
      && (r.noexpand <==>
        r.app != [] &&
        (t.noexpand || (r.log2 == t.log2 + 1 && t.ineff == 1 && r.nonideal > ShiftRight(|r.app|, 1))))
  {
    ApplyKeeps(h, t, op);
  }

  /** The run never empties the table. */
  ghost predicate NeverEmpty(h: HashFcn, t: Table, ops: seq<Op>)
    requires Valid(h, t) && LegalRun(h, t, ops)
    decreases |ops|
  {
    t.app != [] && (ops != [] ==>
      (ApplyKeeps(h, t, ops[0]); NeverEmpty(h, Apply(h, t, ops[0]), ops[1..])))
  }

  /** Once the brake is on, the bucket count is frozen for as long as the table is
      not emptied. */
  lemma {:induction false} BrakeFreezes(h: HashFcn, t: Table, ops: seq<Op>)
    requires Valid(h, t) && LegalRun(h, t, ops) && BrakeConsistent(t)
    requires t.noexpand && NeverEmpty(h, t, ops)
    ensures Run(h, t, ops).noexpand && Run(h, t, ops).log2 == t.log2
    decreases |ops|
  {
    if ops != [] {
      ApplyKeeps(h, t, ops[0]);
      BrakeAfter(h, t, ops[0]);
      BrakeFreezes(h, Apply(h, t, ops[0]), ops[1..]);
    }
  }

  /** The brake is on before and after every step. */
  ghost predicate BrakeThroughout(h: HashFcn, t: Table, ops: seq<Op>)
    requires Valid(h, t) && LegalRun(h, t, ops)
    decreases |ops|
  {
    t.noexpand && (ops != [] ==>
      (ApplyKeeps(h, t, ops[0]); BrakeThroughout(h, Apply(h, t, ops[0]), ops[1..])))
  }

  /** The brake stays on through a whole run exactly when the run never empties the
      table. */
  lemma {:induction false} BrakeHolds(h: HashFcn, t: Table, ops: seq<Op>)
    requires Valid(h, t) && LegalRun(h, t, ops) && BrakeConsistent(t) && t.noexpand && t.app != []
    ensures BrakeThroughout(h, t, ops) <==> NeverEmpty(h, t, ops)
    decreases |ops|
  {
    if ops != [] {
      var r := Apply(h, t, ops[0]);
      ApplyKeeps(h, t, ops[0]);
      BrakeAfter(h, t, ops[0]);
      if r.app != [] {
        BrakeHolds(h, r, ops[1..]);
      }
    }
  }

  /** Deleting the last element frees the table, so the next add starts over with 32
      buckets and the brake released: the freeze does not outlive the last element. */
  lemma EmptyingReleasesBrake(h: HashFcn, t: Table, last: Filter, f: Filter)
    requires Valid(h, t) && t.app == [last] && t.noexpand
    ensures var r := Add(h, Delete(h, t, last), f);
      !r.noexpand && r.log2 == INITIAL_LOG2 && r.app == [f]
  {
    var b := BucketOf(h, f, INITIAL_LOG2);
    assert Inserted([], 0, f) == [f];
  }
}
