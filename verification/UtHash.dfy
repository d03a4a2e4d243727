/** The hash table of the seccomp extension: the program's head pointer together
    with the UT_hash_table it leads to. */
module UtHash {
  import opened Collections
  import opened BitArithmetic
  import opened UtHashRow
  import opened UtHashSort
  import opened UtHashLists
  import opened UtHashSpec
  import opened UtHashInvariant
  import opened UtHashBuckets

  class Hash {
    const hashFcn: HashFcn
    var head: Filter?
    var tail: Filter?
    var buckets: array<BucketCell>
    var numBuckets: nat
    var log2NumBuckets: nat
    var numItems: nat
    var idealChainMaxlen: nat
    var nonidealItems: nat
    var ineffExpands: nat
    var noexpand: bool

    /** What the links and fields spell out. */
    ghost var table: Table

    /** The elements store the hash values of their keys. */
    ghost predicate Hashed(app: seq<Filter>)
      reads app`hashv
    {
      forall i | 0 <= i < |app| :: app[i].hashv == hashFcn(app[i].row.name)
    }

    /** The application-order list, its ends, and the stored hash values. */
    ghost predicate AppOk(app: seq<Filter>)
      reads `head, `tail, app`next, app`prev, app`hashv
    {
      && app != [] && head == app[0] && tail == Last(app)
      && AppLinked(app) && Hashed(app)
    }

    /** The table size and the expansion bookkeeping. */
    ghost predicate ScalarsOk(t: Table)
      reads `numBuckets, `log2NumBuckets, `idealChainMaxlen, `nonidealItems, `ineffExpands, `noexpand
    {
      && numBuckets == Pow2(t.log2) && log2NumBuckets == t.log2
      && idealChainMaxlen == t.ideal && nonidealItems == t.nonideal
      && ineffExpands == t.ineff && noexpand == t.noexpand
    }

    ghost predicate BucketsOk(t: Table)
      reads `buckets, `numBuckets, `log2NumBuckets, `idealChainMaxlen, `nonidealItems, `ineffExpands, `noexpand
      reads buckets, Members(t.chains)`hhNext, Members(t.chains)`hhPrev
    {
      ScalarsOk(t) && CellsOk(buckets, t.chains, t.mults)
    }

    /** The bucket side does not depend on the application-order links. */
    twostate lemma BucketsUntouched(t: Table)
      requires old(BucketsOk(t))
      requires unchanged(`buckets, `numBuckets, `log2NumBuckets, `idealChainMaxlen, `nonidealItems, `ineffExpands, `noexpand)
      requires unchanged(buckets)
      requires forall b, i | 0 <= b < |t.chains| && 0 <= i < |t.chains[b]| ::
        t.chains[b][i].hhNext == old(t.chains[b][i].hhNext) && t.chains[b][i].hhPrev == old(t.chains[b][i].hhPrev)
      ensures BucketsOk(t)
    {
      forall b | 0 <= b < |t.chains|
        ensures CellOk(buckets[b], t.chains[b], t.mults[b])
      {
        assert old(CellOk(buckets[b], t.chains[b], t.mults[b]));
      }
    }

    lemma SameBuckets(t: Table, r: Table)
      requires BucketsOk(t) && r == t.(app := r.app)
      ensures BucketsOk(r)
    {
    }

    ghost predicate Valid()
      reads this, buckets, table.app, Members(table.chains)
    {
      && UtHashSpec.Valid(hashFcn, table)
      && if table.app == [] then head == null
         else AppOk(table.app) && numItems == |table.app| && BucketsOk(table)
    }

    /** The program starts with a NULL head pointer. */
    constructor (hashFcn: HashFcn)
      ensures Valid() && table == NO_TABLE
      ensures this.hashFcn == hashFcn
      ensures fresh(buckets)
    {
      this.hashFcn := hashFcn;
      head, tail := null, null;
      buckets := new BucketCell[0];
      table := NO_TABLE;
    }

    /** HASH_MAKE_TABLE */
    method MakeTable()
      modifies this
      ensures BucketsOk(MadeTable()) && fresh(buckets)
      ensures head == old(head) && tail == old(tail) && numItems == 0 && table == old(table)
    {
      numBuckets, log2NumBuckets := 32, INITIAL_LOG2;
      numItems, idealChainMaxlen, nonidealItems, ineffExpands, noexpand := 0, 0, 0, 0, false;
      buckets := new BucketCell[32](_ => BucketCell(null, 0, 0));
      assert Pow2(5) == 32;
    }

    /** The redistribution loop of HASH_EXPAND_BUCKETS. */
    method NewBuckets(ghost t: Table, log2: nat, ideal: nat) returns (cells: array<BucketCell>, nonideal: nat)
      requires t.app != [] && Consistent(hashFcn, t)
      requires AppOk(t.app) && BucketsOk(t) && numItems == |t.app|
      requires log2 == t.log2 + 1 && ideal == IdealChain(|t.app|, log2)
      modifies t.app`hhNext, t.app`hhPrev
      ensures fresh(cells)
      ensures CellsOk(cells, Redistribute(hashFcn, t).chains, Redistribute(hashFcn, t).mults)
      ensures nonideal == Redistribute(hashFcn, t).nonideal
    {
      cells := new BucketCell[2 * numBuckets](_ => BucketCell(null, 0, 0));
      ghost var S := set f | f in t.app;
      ghost var target := Redistribute(hashFcn, t);
      StartExpand(t, cells, S);
      nonideal := MoveAll(hashFcn, buckets, cells, log2, numBuckets * 2, ideal, t.chains, S, target);
    }

    /** The bookkeeping of HASH_EXPAND_BUCKETS after the redistribution. */
    method InstallBuckets(ghost t: Table, cells: array<BucketCell>, ideal: nat, nonideal: nat)
      requires t.app != [] && numItems == |t.app| && ScalarsOk(t)
      requires ideal == IdealChain(|t.app|, t.log2 + 1)
      requires nonideal == Redistribute(hashFcn, t).nonideal
      modifies `buckets, `numBuckets, `log2NumBuckets, `idealChainMaxlen, `nonidealItems, `ineffExpands, `noexpand
      ensures buckets == cells && ScalarsOk(Expand(hashFcn, t))
    {
      idealChainMaxlen, nonidealItems := ideal, nonideal;
      numBuckets := numBuckets * 2;
      log2NumBuckets := log2NumBuckets + 1;
      buckets := cells;
      ineffExpands := if nonidealItems > ShiftRight(numItems, 1) then ineffExpands + 1 else 0;
      if ineffExpands > 1 {
        noexpand := true;
      }
    }

    /** The ceiling of items over the new bucket count, by shift and mask. */
    method IdealLength(ghost t: Table) returns (ideal: nat)
      requires ScalarsOk(t) && numItems == |t.app|
      ensures ideal == IdealChain(|t.app|, t.log2 + 1)
    {
      ideal := ShiftRight(numItems, log2NumBuckets + 1)
        + (if BitAnd(numItems, numBuckets * 2 - 1) != 0 then 1 else 0);
    }

    /** HASH_EXPAND_BUCKETS */
    method ExpandBuckets(ghost t: Table)
      requires t.app != [] && Consistent(hashFcn, t)
      requires AppOk(t.app) && BucketsOk(t) && numItems == |t.app|
      modifies `buckets, `numBuckets, `log2NumBuckets, `idealChainMaxlen, `nonidealItems, `ineffExpands, `noexpand
      modifies t.app`hhNext, t.app`hhPrev
      ensures BucketsOk(Expand(hashFcn, t)) && fresh(buckets)
    {
      var ideal := IdealLength(t);
      var cells, nonideal := NewBuckets(t, log2NumBuckets + 1, ideal);
      ghost var s := Redistribute(hashFcn, t);
      assert CellsOk(cells, s.chains, s.mults);
      InstallBuckets(t, cells, ideal, nonideal);
      assert CellsOk(cells, s.chains, s.mults);
    }

    lemma StartExpand(t: Table, cells: array<BucketCell>, S: set<Filter>)
      requires t.app != [] && Consistent(hashFcn, t)
      requires AppOk(t.app) && BucketsOk(t)
      requires S == set f | f in t.app
      requires cells.Length == Pow2(t.log2 + 1)
      requires forall b | 0 <= b < cells.Length :: cells[b] == BucketCell(null, 0, 0)
      ensures var log2 := t.log2 + 1;
        ChainState(hashFcn, cells, EmptySpread(log2), log2, IdealChain(|t.app|, log2), 0, {}, t.chains, S,
                   Redistribute(hashFcn, t))
    {
      SameElements(t.app, Flatten(t.chains));
      forall b, i | 0 <= b < |t.chains| && 0 <= i < |t.chains[b]|
        ensures t.chains[b][i] in t.app
      {
        ChainNoDup(hashFcn, t, b);
      }
      forall b | 0 <= b < |t.chains|
        ensures ChainNext(t.chains[b])
      {
        LinkedNext(t, b);
      }
    }

    lemma LinkedNext(t: Table, b: nat)
      requires CellsOk(buckets, t.chains, t.mults) && b < |t.chains|
      ensures ChainNext(t.chains[b])
    {
      assert CellOk(buckets[b], t.chains[b], t.mults[b]);
    }

    // ----- HASH_ADD

    /** The chain push of HASH_ADD_TO_BKT; base is the list before f joined it. */
    method PushBucket(ghost t: Table, ghost base: seq<Filter>, f: Filter) returns (crowded: bool)
      requires Consistent(hashFcn, t.(app := base)) && f !in base
      requires BucketsOk(t) && f.hashv == hashFcn(f.row.name)
      modifies buckets, base`hhPrev, f`hhNext, f`hhPrev
      ensures BucketsOk(Pushed(hashFcn, t, f))
      ensures crowded == Crowded(hashFcn, Pushed(hashFcn, t, f), f)
    {
      ChainNoDup(hashFcn, t.(app := base), BucketOf(hashFcn, f, t.log2));
      OtherBuckets(t.(app := base), f);
      var b := BitAnd(f.hashv, numBuckets - 1);
      assert b == BucketOf(hashFcn, f, t.log2);
      var count, mult := buckets[b].count + 1, buckets[b].expandMult;
      PushCell(buckets, t.chains, t.mults, b, f, mult);
      assert t.mults[b := mult] == t.mults;
      crowded := count >= (mult + 1) * BKT_CAPACITY_THRESH && !noexpand;
    }

    /** The other chains share no element with the chain that f joins or leaves. */
    lemma OtherBuckets(t: Table, f: Filter)
      requires Consistent(hashFcn, t)
      ensures forall b, g | 0 <= b < |t.chains| && g in t.chains[b] ::
        && (f !in t.app ==> g != f)
        && (b != BucketOf(hashFcn, f, t.log2) ==> g !in t.chains[BucketOf(hashFcn, f, t.log2)])
    {
      forall b, g | 0 <= b < |t.chains| && g in t.chains[b]
        ensures g in t.app && (b != BucketOf(hashFcn, f, t.log2) ==> g !in t.chains[BucketOf(hashFcn, f, t.log2)])
      {
        InItsChain(hashFcn, t, g);
      }
    }

    /** HASH_ADD_TO_BKT */
    method AddToBkt(ghost t: Table, ghost base: seq<Filter>, f: Filter)
      requires Consistent(hashFcn, t.(app := base)) && f !in base
      requires t.app != [] && Consistent(hashFcn, Pushed(hashFcn, t, f))
      requires AppOk(t.app) && BucketsOk(t) && numItems == |t.app|
      requires f in t.app && forall i | 0 <= i < |base| :: base[i] in t.app
      requires f.hashv == hashFcn(f.row.name)
      modifies buckets, t.app`hhNext, t.app`hhPrev
      modifies `buckets, `numBuckets, `log2NumBuckets, `idealChainMaxlen, `nonidealItems, `ineffExpands, `noexpand
      ensures BucketsOk(AddToBucket(hashFcn, t, f))
      ensures AppOk(t.app) && numItems == |t.app|
      ensures buckets == old(buckets) || fresh(buckets)
    {
      var crowded := PushBucket(t, base, f);
      if crowded {
        ExpandBuckets(Pushed(hashFcn, t, f));
      }
    }

    /** Link the first element into an empty table. */
    method StartTable(add: Filter)
      requires add.hashv == hashFcn(add.row.name)
      modifies this, add`next, add`prev
      ensures AppOk([add]) && BucketsOk(MadeTable()) && numItems == 0 && fresh(buckets)
      ensures table == old(table)
    {
      add.next := null;
      add.prev := null;
      MakeTable();
      head := add;
      tail := add;
    }

    /** HASH_ADD_TO_TABLE: add is already linked into the application-order list. */
    method AddToTable(ghost t: Table, ghost base: seq<Filter>, add: Filter)
      requires Joined(hashFcn, t, base, add)
      requires AppOk(t.app) && BucketsOk(t) && numItems + 1 == |t.app|
      requires add.hashv == hashFcn(add.row.name)
      modifies this, buckets, t.app`hhNext, t.app`hhPrev
      ensures Valid() && table == AddToBucket(hashFcn, t, add)
      ensures buckets == old(buckets) || fresh(buckets)
    {
      JoinedHolds(hashFcn, t, base, add);
      numItems := numItems + 1;
      AddToBkt(t, base, add);
      Record(AddToBucket(hashFcn, t, add));
    }

    /** The fields and links spell out t. */
    ghost method Record(t: Table)
      requires t.app != [] && Consistent(hashFcn, t)
      requires AppOk(t.app) && BucketsOk(t) && numItems == |t.app|
      modifies `table
      ensures Valid() && table == t
    {
      table := t;
    }

    /** The links spell out app; the buckets are still those of the table. */
    ghost predicate LinkedAs(app: seq<Filter>)
      reads this, buckets, app, Members(table.chains)
    {
      AppOk(app) && BucketsOk(table.(app := app))
    }

    /** The application-order part of HASH_ADD_KEYPTR_BYHASHVALUE. */
    method LinkLast(add: Filter)
      requires table.app != [] && NoDup(table.app) && add !in table.app
      requires AppOk(table.app) && BucketsOk(table) && add.hashv == hashFcn(add.row.name)
      modifies `tail, table.app`next, add`next, add`prev
      ensures LinkedAs(Inserted(table.app, |table.app|, add))
    {
      AppendList(table.app, tail, add);
      tail := add;
      assert Inserted(table.app, |table.app|, add) == table.app + [add];
    }

    /** HASH_ADD_TO_TABLE for add, linked in at position k of the list. */
    method JoinTable(ghost k: nat, add: Filter)
      requires UtHashSpec.Valid(hashFcn, table) && table.app != [] && add !in table.app && k <= |table.app|
      requires LinkedAs(Inserted(table.app, k, add)) && numItems == |table.app|
      requires add.hashv == hashFcn(add.row.name)
      modifies this, buckets, table.app`hhNext, table.app`hhPrev, add`hhNext, add`hhPrev
      ensures Valid() && table == AddAt(hashFcn, old(table), k, add)
      ensures buckets == old(buckets) || fresh(buckets)
    {
      InsertionJoins(hashFcn, table, k, add);
      InsertedElements(table.app, k, add);
      AddToTable(table.(app := Inserted(table.app, k, add)), table.app, add);
    }

    /** The branch for a NULL head. */
    method AddFirst(add: Filter)
      requires add.hashv == hashFcn(add.row.name)
      modifies this, add
      ensures Valid() && table == AddAt(hashFcn, NO_TABLE, 0, add)
      ensures fresh(buckets)
    {
      InsertionJoins(hashFcn, NO_TABLE, 0, add);
      assert Inserted([], 0, add) == [add];
      StartTable(add);
      AddToTable(MadeTable().(app := [add]), [], add);
    }

    /** HASH_ADD_KEYPTR: append add and put it in its bucket. */
    method Add(add: Filter)
      requires Valid() && add !in table.app
      modifies this, buckets, table.app, add
      ensures Valid() && table == UtHashSpec.Add(hashFcn, old(table), add)
      ensures buckets == old(buckets) || fresh(buckets)
    {
      add.hashv := hashFcn(add.row.name);
      if head == null {
        AddFirst(add);
      } else {
        LinkLast(add);
        JoinTable(|table.app|, add);
      }
    }

    /** HASH_AKBI_INNER_LOOP: the first element that sorts strictly after add. */
    method ScanInOrder(cmp: Comparator, add: Filter) returns (iter: Filter?, ghost k: nat)
      requires table.app != [] && AppOk(table.app)
      ensures k == InsertAt(cmp, table.app, add)
      ensures iter == var p := InsertAt(cmp, table.app, add); if p < |table.app| then table.app[p] else null
    {
      iter, k := head, 0;
      while iter != null
        invariant k <= |table.app| && iter == if k < |table.app| then table.app[k] else null
        invariant forall i | 0 <= i < k :: Leq(cmp, table.app[i], add)
        decreases |table.app| - k
      {
        if cmp(iter.row, add.row) > 0 {
          break;
        }
        iter := iter.next;
        k := k + 1;
      }
    }

    /** The application-order part of HASH_ADD_KEYPTR_BYHASHVALUE_INORDER. */
    method LinkBefore(ghost k: nat, iter: Filter, add: Filter)
      requires NoDup(table.app) && add !in table.app
      requires AppOk(table.app) && BucketsOk(table) && add.hashv == hashFcn(add.row.name)
      requires k < |table.app| && table.app[k] == iter
      modifies `head, table.app`next, table.app`prev, add`next, add`prev
      ensures LinkedAs(Inserted(table.app, k, add))
    {
      LinkAppBefore(k, iter, add);
      BucketsUntouched(table);
      SameBuckets(table, table.(app := Inserted(table.app, k, add)));
    }

    method LinkAppBefore(ghost k: nat, iter: Filter, add: Filter)
      requires NoDup(table.app) && add !in table.app
      requires AppOk(table.app) && add.hashv == hashFcn(add.row.name)
      requires k < |table.app| && table.app[k] == iter
      modifies `head, table.app`next, table.app`prev, add`next, add`prev
      ensures AppOk(Inserted(table.app, k, add))
    {
      StoredHashes(k, add);
      head := InsertBefore(table.app, k, head, iter, add);
    }

    /** The stored hash values and the tail, with add in front of position k. */
    lemma StoredHashes(k: nat, add: Filter)
      requires k < |table.app| && add.hashv == hashFcn(add.row.name)
      requires Hashed(table.app)
      ensures Last(Inserted(table.app, k, add)) == Last(table.app) && Hashed(Inserted(table.app, k, add))
    {
      ghost var app := Inserted(table.app, k, add);
      assert forall i | 0 <= i < |app| ::
        app[i] == if i < k then table.app[i] else if i == k then add else table.app[i - 1];
    }

    /** Link add in front of the first element that sorts strictly after it. */
    method LinkInOrder(cmp: Comparator, add: Filter) returns (ghost k: nat)
      requires table.app != [] && NoDup(table.app) && add !in table.app
      requires AppOk(table.app) && BucketsOk(table) && add.hashv == hashFcn(add.row.name)
      modifies `head, `tail, table.app`next, table.app`prev, add`next, add`prev
      ensures k == InsertAt(cmp, table.app, add)
      ensures LinkedAs(Inserted(table.app, k, add))
    {
      var iter;
      iter, k := ScanInOrder(cmp, add);
      if iter != null {
        LinkBefore(k, iter, add);
      } else {
        LinkLast(add);
      }
    }

    /** HASH_ADD_KEYPTR_INORDER: put add in front of the first element that sorts
        strictly after it, and in its bucket. */
    method AddInOrder(cmp: Comparator, add: Filter)
      requires Valid() && add !in table.app
      modifies this, buckets, table.app, add
      ensures Valid() && table == UtHashSpec.AddInOrder(hashFcn, cmp, old(table), add)
      ensures buckets == old(buckets) || fresh(buckets)
    {
      add.hashv := hashFcn(add.row.name);
      if head == null {
        AddFirst(add);
      } else {
        ghost var k := LinkInOrder(cmp, add);
        JoinTable(k, add);
      }
    }

    // ----- HASH_FIND, HASH_DELETE, HASH_SORT

    /** HASH_FIND_STR */
    method Find(key: string) returns (out: Filter?)
      requires Valid()
      ensures out == UtHashSpec.Find(hashFcn, table, key)
    {
      out := null;
      if head != null {
        var hashval := hashFcn(key);
        var b := BitAnd(hashval, numBuckets - 1);
        assert b == Bucket(hashval, table.log2);
        out := FindInBkt(b, hashval, key);
      }
    }

    /** HASH_FIND_IN_BKT */
    method FindInBkt(b: nat, hashval: nat, key: string) returns (out: Filter?)
      requires Valid() && head != null
      requires b < |table.chains| && hashval == hashFcn(key)
      ensures out == FindInChain(hashFcn, table.chains[b], key)
    {
      ghost var chain := table.chains[b];
      assert CellOk(buckets[b], chain, table.mults[b]);
      ChainNoDup(hashFcn, table, b);
      out := buckets[b].hhHead;
      ghost var i := 0;
      while out != null
        invariant i <= |chain| && out == if i < |chain| then chain[i] else null
        invariant FindInChain(hashFcn, chain[i..], key) == FindInChain(hashFcn, chain, key)
        decreases |chain| - i
      {
        assert chain[i..][1..] == chain[i + 1..];
        if out.hashv == hashval && |out.row.name| == |key| {
          if out.row.name == key {
            break;
          }
        }
        out := out.hhNext;
        i := i + 1;
      }
    }

    /** HASH_DEL_IN_BKT */
    method DelInBkt(ghost t: Table, del: Filter)
      requires Consistent(hashFcn, t) && del in t.app && |t.app| > 1
      requires BucketsOk(t) && del.hashv == hashFcn(del.row.name)
      modifies buckets, t.app`hhNext, t.app`hhPrev
      ensures BucketsOk(UtHashSpec.Delete(hashFcn, t, del))
    {
      ghost var bkt := BucketOf(hashFcn, del, t.log2);
      ghost var chain := t.chains[bkt];
      InItsChain(hashFcn, t, del);
      ChainNoDup(hashFcn, t, bkt);
      OtherBuckets(t, del);
      ghost var k := RemoveFromCuts(chain, del);
      var b := BitAnd(del.hashv, numBuckets - 1);
      var c := buckets[b];
      var hhHead := UnlinkChain(chain, k, c.hhHead, del);
      buckets[b] := BucketCell(hhHead, c.count - 1, c.expandMult);
    }

    /** HASH_DELETE: deleting the only element frees the table. */
    method Delete(del: Filter)
      requires Valid() && del in table.app
      modifies this, buckets, table.app
      ensures Valid() && table == UtHashSpec.Delete(hashFcn, old(table), del)
      ensures buckets == old(buckets)
    {
      OnlyElement(del);
      if del.prev == null && del.next == null {
        head := null;
        table := NO_TABLE;
      } else {
        DeleteOneOfMany(del);
      }
    }

    /** The branch of HASH_DELETE_HH that keeps the table. */
    method DeleteOneOfMany(del: Filter)
      requires Consistent(hashFcn, table) && |table.app| > 1 && del in table.app
      requires AppOk(table.app) && BucketsOk(table) && numItems == |table.app|
      modifies this, buckets, table.app
      ensures Valid() && table == UtHashSpec.Delete(hashFcn, old(table), del)
      ensures buckets == old(buckets)
    {
      ghost var r := UtHashSpec.Delete(hashFcn, table, del);
      assert Consistent(hashFcn, r) && |r.app| == |table.app| - 1 by {
        DeleteKeeps(hashFcn, table, del);
        RemoveFromCounts(table.app, del);
      }
      UnlinkBoth(del, r);
      CountDown(r);
    }

    /** One item less is linked. */
    method CountDown(ghost r: Table)
      requires r.app != [] && Consistent(hashFcn, r)
      requires AppOk(r.app) && BucketsOk(r) && numItems == |r.app| + 1
      modifies `numItems, `table
      ensures Valid() && table == r
    {
      numItems := numItems - 1;
      table := r;
    }

    /** Take del off both of its lists. */
    method UnlinkBoth(del: Filter, ghost r: Table)
      requires Consistent(hashFcn, table) && |table.app| > 1 && del in table.app
      requires AppOk(table.app) && BucketsOk(table)
      requires r == UtHashSpec.Delete(hashFcn, table, del)
      modifies `head, `tail, buckets, table.app
      ensures AppOk(r.app) && BucketsOk(r)
    {
      RemoveFromElements(table.app, del);
      UnlinkApp(del);
      BucketsUntouched(table);
      DelInBkt(table, del);
    }

    lemma OnlyElement(del: Filter)
      requires table.app != [] && AppOk(table.app) && del in table.app
      ensures del.prev == null && del.next == null <==> |table.app| == 1
    {
      var i :| 0 <= i < |table.app| && table.app[i] == del;
    }

    /** The application-order part of HASH_DELETE_HH. */
    method UnlinkApp(del: Filter)
      requires NoDup(table.app) && |table.app| > 1 && AppOk(table.app)
      requires del in table.app
      modifies `head, `tail, table.app`next, table.app`prev
      ensures AppOk(RemoveFrom(table.app, del))
      ensures del.hashv == hashFcn(del.row.name)
    {
      ghost var k := RemoveFromCuts(table.app, del);
      RemainingHashes(table.app, k);
      head, tail := Unlink(table.app, k, head, tail, del);
    }

    /** The stored hash values without position k. */
    lemma RemainingHashes(app: seq<Filter>, k: nat)
      requires k < |app| && Hashed(app)
      ensures Hashed(Without(app, k)) && app[k].hashv == hashFcn(app[k].row.name)
      ensures |Without(app, k)| == |app| - 1 && forall f | f in Without(app, k) :: f in app
    {
      forall i | 0 <= i < |app| - 1
        ensures Without(app, k)[i] == app[if i < k then i else i + 1]
      {
      }
    }

    /** HASH_SORT */
    method Sort(cmp: Comparator)
      requires Valid()
      modifies this, table.app
      ensures Valid() && table == UtHashSpec.Sort(cmp, old(table))
      ensures buckets == old(buckets)
    {
      if head != null {
        SortMany(cmp);
      }
    }

    method SortMany(cmp: Comparator)
      requires table.app != [] && Consistent(hashFcn, table)
      requires AppOk(table.app) && BucketsOk(table) && numItems == |table.app|
      modifies `head, `tail, `table, table.app`next, table.app`prev
      ensures Valid() && table == UtHashSpec.Sort(cmp, old(table))
    {
      ghost var r := UtHashSpec.Sort(cmp, table);
      SortKeeps(hashFcn, cmp, table);
      BottomUpPermutes(cmp, table.app, 1);
      SortedHashes(table.app, r.app);
      SortApp(cmp, r);
      Record(r);
    }

    method SortApp(cmp: Comparator, ghost r: Table)
      requires NoDup(table.app) && table.app != [] && AppOk(table.app) && BucketsOk(table)
      requires r == UtHashSpec.Sort(cmp, table) && SortedFrom(table.app, r.app)
      modifies `head, `tail, table.app`next, table.app`prev
      ensures AppOk(r.app) && BucketsOk(r)
    {
      SortLinks(cmp, r.app);
      BucketsUntouched(table);
      SameBuckets(table, r);
    }

    /** HASH_SRT on the list of a non-empty table. */
    method SortLinks(cmp: Comparator, ghost sorted: seq<Filter>)
      requires NoDup(table.app) && table.app != [] && AppOk(table.app)
      requires sorted == BottomUp(cmp, table.app, 1) && SortedFrom(table.app, sorted)
      modifies `head, `tail, table.app`next, table.app`prev
      ensures AppOk(sorted)
    {
      head, tail := SortList(cmp, head, table.app);
    }

    ghost predicate SortedFrom(app: seq<Filter>, sorted: seq<Filter>)
      reads sorted`hashv
    {
      Hashed(sorted) && |sorted| == |app| && forall f | f in sorted :: f in app
    }

    lemma SortedHashes(app: seq<Filter>, sorted: seq<Filter>)
      requires Hashed(app) && multiset(sorted) == multiset(app)
      ensures SortedFrom(app, sorted)
    {
      SameElements(sorted, app);
    }
  }
}
