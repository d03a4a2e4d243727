/** The order theory behind HASH_SRT and HASH_ADD_INORDER: sortedness, stability,
    the insertion that HASH_ADD_INORDER performs and the bottom-up merge passes
    that HASH_SRT performs, all on plain sequences of elements. */
module UtHashSort {
  import opened Collections
  import opened UtHashRow

  ghost predicate Sorted(cmp: Comparator, s: seq<Filter>) {
    forall i, j | 0 <= i < j < |s| :: Leq(cmp, s[i], s[j])
  }

  /** f and the row d compare as equal. */
  predicate Ties(cmp: Comparator, f: Filter, d: Row) {
    cmp(f.row, d) <= 0 && cmp(d, f.row) <= 0
  }

  /** The elements of s that tie with d, in their order in s. */
  function Tied(cmp: Comparator, s: seq<Filter>, d: Row): seq<Filter> {
    if s == [] then []
    else (if Ties(cmp, s[0], d) then [s[0]] else []) + Tied(cmp, s[1..], d)
  }

  /** t holds the elements of s with no two tying elements swapped. */
  ghost predicate StablePermutation(cmp: Comparator, s: seq<Filter>, t: seq<Filter>) {
    forall d: Row :: Tied(cmp, s, d) == Tied(cmp, t, d)
  }

  lemma {:induction false} TiedConcat(cmp: Comparator, s: seq<Filter>, t: seq<Filter>, d: Row)
    ensures Tied(cmp, s + t, d) == Tied(cmp, s, d) + Tied(cmp, t, d)
  {
    if s == [] {
      assert s + t == t;
    } else {
      assert (s + t)[1..] == s[1..] + t;
      TiedConcat(cmp, s[1..], t, d);
    }
  }

  lemma {:induction false} TiedMembers(cmp: Comparator, s: seq<Filter>, d: Row)
    ensures forall f :: f in Tied(cmp, s, d) <==> f in s && Ties(cmp, f, d)
  {
    if s != [] {
      TiedMembers(cmp, s[1..], d);
    }
  }

  lemma {:induction false} TiedNone(cmp: Comparator, s: seq<Filter>, d: Row)
    requires forall f | f in s :: !Ties(cmp, f, d)
    ensures Tied(cmp, s, d) == []
  {
    if s != [] {
      TiedNone(cmp, s[1..], d);
    }
  }

  lemma {:induction false} TiedCounts(cmp: Comparator, s: seq<Filter>, f: Filter)
    requires TotalPreorder(cmp)
    ensures multiset(Tied(cmp, s, f.row))[f] == multiset(s)[f]
  {
    if s != [] {
      TiedCounts(cmp, s[1..], f);
      assert s == [s[0]] + s[1..];
      assert Ties(cmp, f, f.row);
    }
  }

  /** A stable permutation is a permutation. */
  lemma StableIsPermutation(cmp: Comparator, s: seq<Filter>, t: seq<Filter>)
    requires TotalPreorder(cmp)
    requires StablePermutation(cmp, s, t)
    ensures multiset(s) == multiset(t)
  {
    forall f: Filter
      ensures multiset(s)[f] == multiset(t)[f]
    {
      TiedCounts(cmp, s, f);
      TiedCounts(cmp, t, f);
    }
  }

  /** A list has only one sorted stable permutation. */
  lemma {:induction false} SortedStableUnique(cmp: Comparator, s: seq<Filter>, t: seq<Filter>)
    requires TotalPreorder(cmp)
    requires Sorted(cmp, s) && Sorted(cmp, t)
    requires StablePermutation(cmp, s, t)
    ensures s == t
  {
    if s == [] {
      if t != [] {
        assert t[0] in Tied(cmp, t, t[0].row);
        assert false;
      }
    } else {
      TiedMembers(cmp, s, s[0].row);
      TiedMembers(cmp, t, s[0].row);
      assert s[0] in Tied(cmp, t, s[0].row);
      HeadsAgree(cmp, s, t);
      forall d: Row
        ensures Tied(cmp, s[1..], d) == Tied(cmp, t[1..], d)
      {
        assert Tied(cmp, s, d) == Tied(cmp, t, d);
        var head := if Ties(cmp, s[0], d) then [s[0]] else [];
        assert Tied(cmp, s[1..], d) == Tied(cmp, s, d)[|head|..];
        assert Tied(cmp, t[1..], d) == Tied(cmp, t, d)[|head|..];
      }
      SortedStableUnique(cmp, s[1..], t[1..]);
    }
  }

  lemma HeadsAgree(cmp: Comparator, s: seq<Filter>, t: seq<Filter>)
    requires TotalPreorder(cmp)
    requires Sorted(cmp, s) && Sorted(cmp, t)
    requires StablePermutation(cmp, s, t)
    requires s != [] && t != []
    ensures s[0] == t[0]
  {
    var d := s[0].row;
    TiedMembers(cmp, s, d);
    TiedMembers(cmp, t, d);
    assert s[0] in Tied(cmp, t, d);
    assert Leq(cmp, t[0], s[0]);
    TiedMembers(cmp, s, t[0].row);
    TiedMembers(cmp, t, t[0].row);
    assert t[0] in Tied(cmp, s, t[0].row);
    assert Leq(cmp, s[0], t[0]);
    assert Tied(cmp, s, d)[0] == s[0];
    assert Tied(cmp, t, d)[0] == t[0];
  }

  // ----- insertion in order

  /** How many leading elements of s the in-order scan passes over before it stops
      at one that sorts strictly after x. */
  function InsertAt(cmp: Comparator, s: seq<Filter>, x: Filter): (k: nat)
    ensures k <= |s|
    ensures forall i | 0 <= i < k :: Leq(cmp, s[i], x)
    ensures k < |s| ==> !Leq(cmp, s[k], x)
  {
    if s == [] || !Leq(cmp, s[0], x) then 0 else 1 + InsertAt(cmp, s[1..], x)
  }

  function Insert(cmp: Comparator, s: seq<Filter>, x: Filter): seq<Filter> {
    Inserted(s, InsertAt(cmp, s, x), x)
  }

  /** The reference stable sort: insert the elements in order, one at a time. */
  function InsertionSort(cmp: Comparator, s: seq<Filter>): seq<Filter> {
    if s == [] then [] else Insert(cmp, InsertionSort(cmp, s[..|s| - 1]), s[|s| - 1])
  }

  /** Insertion in order keeps a sorted list sorted, and puts x after its ties. */
  lemma InsertSorted(cmp: Comparator, s: seq<Filter>, x: Filter)
    requires TotalPreorder(cmp)
    requires Sorted(cmp, s)
    ensures Sorted(cmp, Insert(cmp, s, x))
    ensures StablePermutation(cmp, s + [x], Insert(cmp, s, x))
  {
    var k := InsertAt(cmp, s, x);
    InsertPointSplits(cmp, s, x);
    forall d: Row
      ensures Tied(cmp, s + [x], d) == Tied(cmp, Insert(cmp, s, x), d)
    {
      var a, b := s[..k], s[k..];
      assert s == a + b;
      TiedConcat(cmp, a, b, d);
      TiedConcat(cmp, s, [x], d);
      TiedConcat(cmp, a + [x], b, d);
      TiedConcat(cmp, a, [x], d);
      if Ties(cmp, x, d) {
        TiedNone(cmp, b, d);
      }
    }
  }

  lemma InsertPointSplits(cmp: Comparator, s: seq<Filter>, x: Filter)
    requires TotalPreorder(cmp)
    requires Sorted(cmp, s)
    ensures forall f | f in s[InsertAt(cmp, s, x)..] :: !Leq(cmp, f, x) && Leq(cmp, x, f)
    ensures Sorted(cmp, Insert(cmp, s, x))
  {
    var k := InsertAt(cmp, s, x);
    forall i | k <= i < |s|
      ensures !Leq(cmp, s[i], x) && Leq(cmp, x, s[i])
    {
      if k < i {
        assert Leq(cmp, s[k], s[i]);
      }
    }
  }

  lemma {:induction false} InsertionSortSorts(cmp: Comparator, s: seq<Filter>)
    requires TotalPreorder(cmp)
    ensures Sorted(cmp, InsertionSort(cmp, s))
    ensures StablePermutation(cmp, s, InsertionSort(cmp, s))
  {
    if s != [] {
      var front, last := s[..|s| - 1], s[|s| - 1];
      var t := InsertionSort(cmp, front);
      InsertionSortSorts(cmp, front);
      InsertSorted(cmp, t, last);
      forall d: Row
        ensures Tied(cmp, s, d) == Tied(cmp, InsertionSort(cmp, s), d)
      {
        assert s == front + [last];
        TiedConcat(cmp, front, [last], d);
        TiedConcat(cmp, t, [last], d);
        assert Tied(cmp, front, d) == Tied(cmp, t, d);
        assert Tied(cmp, t + [last], d) == Tied(cmp, Insert(cmp, t, last), d);
      }
    }
  }

  // ----- bottom-up merging

  /** The merge step: on a tie the element of the left run goes first. */
  function Merge(cmp: Comparator, p: seq<Filter>, q: seq<Filter>): (m: seq<Filter>)
    ensures |m| == |p| + |q|
    decreases |p| + |q|
  {
    if p == [] then q
    else if q == [] then p
    else if Leq(cmp, p[0], q[0]) then [p[0]] + Merge(cmp, p[1..], q)
    else [q[0]] + Merge(cmp, p, q[1..])
  }

  function Take<T>(s: seq<T>, k: nat): seq<T> {
    if k <= |s| then s[..k] else s
  }

  function Drop<T>(s: seq<T>, k: nat): seq<T> {
    if k <= |s| then s[k..] else []
  }

  /** One pass over the list: merge neighbouring runs of length k. */
  function Pass(cmp: Comparator, s: seq<Filter>, k: nat): (t: seq<Filter>)
    requires k > 0
    ensures |t| == |s|
    decreases |s|
  {
    if s == [] then []
    else Merge(cmp, Take(s, k), Take(Drop(s, k), k)) + Pass(cmp, Drop(Drop(s, k), k), k)
  }

  /** Passes with doubling run length until one merge covers the list. */
  function BottomUp(cmp: Comparator, s: seq<Filter>, k: nat): seq<Filter>
    requires k > 0
    decreases |s| - k
  {
    if |s| <= 2 * k then Pass(cmp, s, k) else BottomUp(cmp, Pass(cmp, s, k), 2 * k)
  }

  /** s splits into sorted runs of length k, the last one possibly shorter. */
  ghost predicate Runs(cmp: Comparator, s: seq<Filter>, k: nat)
    requires k > 0
    decreases |s|
  {
    s == [] || (Sorted(cmp, Take(s, k)) && Runs(cmp, Drop(s, k), k))
  }

  lemma {:induction false} MergeMembers(cmp: Comparator, p: seq<Filter>, q: seq<Filter>)
    ensures forall i | 0 <= i < |p| + |q| :: Merge(cmp, p, q)[i] in p || Merge(cmp, p, q)[i] in q
    decreases |p| + |q|
  {
    if p != [] && q != [] {
      if Leq(cmp, p[0], q[0]) {
        MergeMembers(cmp, p[1..], q);
      } else {
        MergeMembers(cmp, p, q[1..]);
      }
    }
  }

  lemma SortedCons(cmp: Comparator, x: Filter, s: seq<Filter>)
    requires Sorted(cmp, s)
    requires forall f | f in s :: Leq(cmp, x, f)
    ensures Sorted(cmp, [x] + s)
  {
  }

  lemma SortedHead(cmp: Comparator, s: seq<Filter>, x: Filter)
    requires TotalPreorder(cmp)
    requires Sorted(cmp, s)
    requires s != [] ==> Leq(cmp, x, s[0])
    ensures forall f | f in s :: Leq(cmp, x, f)
  {
    forall f | f in s
      ensures Leq(cmp, x, f)
    {
      var i :| 0 <= i < |s| && s[i] == f;
      assert i > 0 ==> Leq(cmp, s[0], s[i]);
    }
  }

  lemma {:induction false} MergeSorted(cmp: Comparator, p: seq<Filter>, q: seq<Filter>)
    requires TotalPreorder(cmp)
    requires Sorted(cmp, p) && Sorted(cmp, q)
    ensures Sorted(cmp, Merge(cmp, p, q))
    decreases |p| + |q|
  {
    if p != [] && q != [] {
      if Leq(cmp, p[0], q[0]) {
        MergeSorted(cmp, p[1..], q);
        MergeMembers(cmp, p[1..], q);
        SortedHead(cmp, p[1..], p[0]);
        SortedHead(cmp, q, p[0]);
        var m := Merge(cmp, p[1..], q);
        assert forall f | f in m :: Leq(cmp, p[0], f);
        SortedCons(cmp, p[0], m);
      } else {
        MergeSorted(cmp, p, q[1..]);
        MergeMembers(cmp, p, q[1..]);
        SortedHead(cmp, p, q[0]);
        SortedHead(cmp, q[1..], q[0]);
        var m := Merge(cmp, p, q[1..]);
        assert forall f | f in m :: Leq(cmp, q[0], f);
        SortedCons(cmp, q[0], m);
      }
    }
  }

  lemma {:induction false} MergeStable(cmp: Comparator, p: seq<Filter>, q: seq<Filter>, d: Row)
    requires TotalPreorder(cmp)
    requires Sorted(cmp, p)
    ensures Tied(cmp, Merge(cmp, p, q), d) == Tied(cmp, p, d) + Tied(cmp, q, d)
    decreases |p| + |q|
  {
    if p != [] && q != [] {
      if Leq(cmp, p[0], q[0]) {
        MergeStable(cmp, p[1..], q, d);
      } else {
        MergeStable(cmp, p, q[1..], d);
        if Ties(cmp, q[0], d) {
          forall f | f in p
            ensures !Ties(cmp, f, d)
          {
            assert Leq(cmp, p[0], f);
          }
          TiedNone(cmp, p, d);
        }
      }
    }
  }

  lemma DropDrop<T>(s: seq<T>, k: nat)
    ensures Drop(Drop(s, k), k) == Drop(s, 2 * k)
  {
  }

  /** A pass doubles the length of the sorted runs and keeps ties in order. */
  lemma {:induction false} PassDoublesRuns(cmp: Comparator, s: seq<Filter>, k: nat)
    requires k > 0
    requires TotalPreorder(cmp)
    requires Runs(cmp, s, k)
    ensures Runs(cmp, Pass(cmp, s, k), 2 * k)
    ensures StablePermutation(cmp, s, Pass(cmp, s, k))
    decreases |s|
  {
    if s != [] {
      var p, q, rest := Take(s, k), Take(Drop(s, k), k), Drop(Drop(s, k), k);
      var m, t := Merge(cmp, p, q), Pass(cmp, rest, k);
      assert Runs(cmp, Drop(s, k), k);
      assert Sorted(cmp, q) && Runs(cmp, rest, k);
      PassDoublesRuns(cmp, rest, k);
      MergeSorted(cmp, p, q);
      if rest == [] {
        assert m + t == m;
        assert Take(m, 2 * k) == m && Drop(m, 2 * k) == [];
      } else {
        assert |m| == 2 * k;
        assert Take(m + t, 2 * k) == m && Drop(m + t, 2 * k) == t;
      }
      forall d: Row
        ensures Tied(cmp, s, d) == Tied(cmp, Pass(cmp, s, k), d)
      {
        assert s == (p + q) + rest;
        TiedConcat(cmp, p + q, rest, d);
        TiedConcat(cmp, p, q, d);
        MergeStable(cmp, p, q, d);
        TiedConcat(cmp, m, t, d);
        assert Tied(cmp, rest, d) == Tied(cmp, t, d);
      }
    }
  }

  lemma {:induction false} BottomUpSorts(cmp: Comparator, s: seq<Filter>, k: nat)
    requires k > 0
    requires TotalPreorder(cmp)
    requires Runs(cmp, s, k)
    ensures Sorted(cmp, BottomUp(cmp, s, k))
    ensures StablePermutation(cmp, s, BottomUp(cmp, s, k))
    decreases |s| - k
  {
    var t := Pass(cmp, s, k);
    PassDoublesRuns(cmp, s, k);
    if |s| <= 2 * k {
      assert Take(t, 2 * k) == t;
    } else {
      BottomUpSorts(cmp, t, 2 * k);
      forall d: Row
        ensures Tied(cmp, s, d) == Tied(cmp, BottomUp(cmp, s, k), d)
      {
        assert Tied(cmp, s, d) == Tied(cmp, t, d);
        assert Tied(cmp, t, d) == Tied(cmp, BottomUp(cmp, t, 2 * k), d);
      }
    }
  }

  lemma {:induction false} SingletonRuns(cmp: Comparator, s: seq<Filter>)
    ensures Runs(cmp, s, 1)
  {
    if s != [] {
      SingletonRuns(cmp, Drop(s, 1));
    }
  }

  /** The merge passes of HASH_SRT compute the stable sort that repeated in-order
      insertion computes. */
  lemma MergeSortIsInsertionSort(cmp: Comparator, s: seq<Filter>)
    requires TotalPreorder(cmp)
    ensures BottomUp(cmp, s, 1) == InsertionSort(cmp, s)
    ensures Sorted(cmp, BottomUp(cmp, s, 1))
    ensures StablePermutation(cmp, s, BottomUp(cmp, s, 1))
  {
    SingletonRuns(cmp, s);
    BottomUpSorts(cmp, s, 1);
    InsertionSortSorts(cmp, s);
    var a, b := BottomUp(cmp, s, 1), InsertionSort(cmp, s);
    forall d: Row
      ensures Tied(cmp, a, d) == Tied(cmp, b, d)
    {
      assert Tied(cmp, s, d) == Tied(cmp, a, d);
      assert Tied(cmp, s, d) == Tied(cmp, b, d);
    }
    SortedStableUnique(cmp, a, b);
  }
}
