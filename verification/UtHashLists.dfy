/** The link surgery of uthash: the application-order list, the bucket chains and
    the merge passes of HASH_SRT, on the elements' own fields. Each method is
    stated on the sequence of elements that the links spell out. */
module UtHashLists {
  import opened Collections
  import opened UtHashRow
  import opened UtHashSort

  function Head(s: seq<Filter>): Filter? {
    if s == [] then null else s[0]
  }

  function Last(s: seq<Filter>): Filter? {
    if s == [] then null else s[|s| - 1]
  }

  /** prev and next spell out s, from end to end. */
  ghost predicate AppLinked(s: seq<Filter>)
    reads s`next, s`prev
  {
    && (forall i {:trigger s[i].prev} | 0 <= i < |s| :: s[i].prev == if i == 0 then null else s[i - 1])
    && (forall i {:trigger s[i].next} | 0 <= i < |s| :: s[i].next == if i == |s| - 1 then null else s[i + 1])
  }

  /** hhPrev and hhNext spell out s, from end to end. */
  ghost predicate ChainLinked(s: seq<Filter>)
    reads s`hhNext, s`hhPrev
  {
    && (forall i {:trigger s[i].hhPrev} | 0 <= i < |s| :: s[i].hhPrev == if i == 0 then null else s[i - 1])
    && (forall i {:trigger s[i].hhNext} | 0 <= i < |s| :: s[i].hhNext == if i == |s| - 1 then null else s[i + 1])
  }

  // ----- application-order list

  /** HASH_APPEND_LIST; the caller moves its tail pointer to add. */
  method AppendList(ghost app: seq<Filter>, tail: Filter, add: Filter)
    requires app != [] && tail == Last(app)
    requires AppLinked(app) && NoDup(app) && add !in app
    modifies tail`next, add`next, add`prev
    ensures AppLinked(app + [add])
  {
    add.next := null;
    add.prev := tail;
    tail.next := add;
    ghost var s := app + [add];
    assert forall i | 0 <= i < |app| :: s[i] == app[i] && app[i] != add;
  }

  /** The relinking that HASH_ADD_INORDER does in front of the element iter. */
  method InsertBefore(ghost app: seq<Filter>, ghost k: nat, head: Filter, iter: Filter, add: Filter)
    returns (head': Filter)
    requires AppLinked(app) && NoDup(app) && add !in app
    requires k < |app| && app[k] == iter && head == app[0]
    modifies app`next, app`prev, add`next, add`prev
    ensures AppLinked(Inserted(app, k, add))
    ensures head' == Inserted(app, k, add)[0]
  {
    assert iter.prev != null ==> iter.prev == app[k - 1] && iter.prev in app;
    head' := head;
    add.next := iter;
    add.prev := iter.prev;
    if add.prev != null {
      add.prev.next := add;
    } else {
      head' := add;
    }
    iter.prev := add;
    ghost var s := Inserted(app, k, add);
    assert forall i | 0 <= i < |s| :: s[i] == if i < k then app[i] else if i == k then add else app[i - 1];
    assert forall i | 0 <= i < |app| :: app[i] != add;
  }

  /** The application-order part of HASH_DELETE_HH. */
  method Unlink(ghost app: seq<Filter>, ghost k: nat, head: Filter, tail: Filter, del: Filter)
    returns (head': Filter, tail': Filter)
    requires AppLinked(app) && NoDup(app)
    requires k < |app| && app[k] == del && |app| > 1
    requires head == app[0] && tail == Last(app)
    modifies app`next, app`prev
    ensures AppLinked(Without(app, k))
    ensures head' == Without(app, k)[0] && tail' == Last(Without(app, k))
  {
    assert del.prev != null ==> del.prev == app[k - 1] && del.prev in app;
    assert del.next != null ==> del.next == app[k + 1] && del.next in app;
    head', tail' := head, tail;
    if del == tail {
      tail' := del.prev;
    }
    if del.prev != null {
      del.prev.next := del.next;
    } else {
      head' := del.next;
    }
    if del.next != null {
      del.next.prev := del.prev;
    }
    ghost var s := Without(app, k);
    assert forall i | 0 <= i < |s| :: s[i] == if i < k then app[i] else app[i + 1];
  }

  // ----- bucket chains

  /** Link f in front of the chain whose head is hhHead. */
  method PushChain(ghost chain: seq<Filter>, hhHead: Filter?, f: Filter)
    requires ChainLinked(chain) && NoDup(chain) && f !in chain
    requires hhHead == Head(chain)
    modifies chain`hhPrev, f`hhNext, f`hhPrev
    ensures ChainLinked([f] + chain)
    ensures forall g | g in chain :: g.hhNext == old(g.hhNext)
  {
    f.hhNext := hhHead;
    f.hhPrev := null;
    if hhHead != null {
      hhHead.hhPrev := f;
    }
    ghost var s := [f] + chain;
    assert forall i | 0 <= i < |s| :: s[i] == if i == 0 then f else chain[i - 1];
    assert forall i | 0 <= i < |chain| :: chain[i] != f;
  }

  /** The link part of HASH_DEL_IN_BKT. */
  method UnlinkChain(ghost chain: seq<Filter>, ghost k: nat, hhHead: Filter, del: Filter)
    returns (hhHead': Filter?)
    requires ChainLinked(chain) && NoDup(chain)
    requires k < |chain| && chain[k] == del && hhHead == chain[0]
    modifies chain`hhNext, chain`hhPrev
    ensures ChainLinked(Without(chain, k))
    ensures hhHead' == Head(Without(chain, k))
  {
    assert del.hhPrev != null ==> del.hhPrev == chain[k - 1] && del.hhPrev in chain;
    assert del.hhNext != null ==> del.hhNext == chain[k + 1] && del.hhNext in chain;
    hhHead' := hhHead;
    if hhHead == del {
      hhHead' := del.hhNext;
    }
    if del.hhPrev != null {
      del.hhPrev.hhNext := del.hhNext;
    }
    if del.hhNext != null {
      del.hhNext.hhPrev := del.hhPrev;
    }
    ghost var s := Without(chain, k);
    assert forall i | 0 <= i < |s| :: s[i] == if i < k then chain[i] else chain[i + 1];
  }

  // ----- HASH_SRT

  /** Following next from s[0] walks s and then reaches end. */
  ghost predicate NextTo(s: seq<Filter>, end: Filter?)
    reads s`next
  {
    forall i {:trigger s[i].next} | 0 <= i < |s| :: s[i].next == if i == |s| - 1 then end else s[i + 1]
  }

  /** The merged output so far: linked both ways, except that the next field of its
      last element is still the one of the input. */
  ghost predicate Merged(out: seq<Filter>, list: Filter?, tail: Filter?)
    reads out`next, out`prev
  {
    && list == Head(out) && tail == Last(out)
    && (forall i {:trigger out[i].prev} | 0 <= i < |out| :: out[i].prev == if i == 0 then null else out[i - 1])
    && (forall i {:trigger out[i].next} | 0 <= i < |out| - 1 :: out[i].next == out[i + 1])
  }

  ghost predicate Apart(s: seq<Filter>, t: seq<Filter>) {
    forall i, j | 0 <= i < |s| && 0 <= j < |t| :: s[i] != t[j]
  }

  /** Count off the first run: step at most insize elements ahead of p. */
  method CountRun(ghost s: seq<Filter>, p: Filter, insize: nat) returns (psize: nat, q: Filter?)
    requires insize > 0
    requires s != [] && p == s[0] && NextTo(s, null)
    ensures psize == |Take(s, insize)|
    ensures q == Head(Drop(s, insize))
  {
    q, psize := p, 0;
    for i := 0 to insize
      invariant psize == i < |s|
      invariant q == s[i]
    {
      psize := psize + 1;
      q := q.next;
      if q == null {
        break;
      }
    }
  }

  /** Append e to the merged output. */
  method Emit(ghost out: seq<Filter>, list: Filter?, tail: Filter?, e: Filter) returns (list': Filter)
    requires Merged(out, list, tail) && NoDup(out) && e !in out
    modifies out`next, e`prev
    ensures Merged(out + [e], list', e)
    ensures forall f | f in out && f != tail :: f.next == old(f.next)
  {
    if tail != null {
      tail.next := e;
      list' := list;
    } else {
      list' := e;
    }
    e.prev := tail;
    ghost var s := out + [e];
    assert forall i | 0 <= i < |s| :: s[i] == if i < |out| then out[i] else e;
    assert forall i | 0 <= i < |out| :: out[i] != e;
  }

  /** What is left to merge: p leads the run P, q leads Q, whose next links run to
      the end of the list, and nothing of either has been emitted yet. */
  ghost predicate Pending(out: seq<Filter>, P: seq<Filter>, Q: seq<Filter>, p: Filter?, q: Filter?)
    reads P`next, Q`next
  {
    && (P != [] ==> p == P[0])
    && (forall i {:trigger P[i].next} | 0 <= i < |P| - 1 :: P[i].next == P[i + 1])
    && q == Head(Q) && NextTo(Q, null)
    && NoDup(P) && NoDup(Q) && Apart(out, P) && Apart(out, Q) && Apart(P, Q)
  }

  ghost predicate Within(s: seq<Filter>, S: set<Filter>) {
    forall i | 0 <= i < |s| :: s[i] in S
  }

  /** The state of one merge: out is emitted, the runs P and Q (of which the first
      qsize elements take part) are left. */
  ghost predicate Merging(out: seq<Filter>, P: seq<Filter>, Q: seq<Filter>, list: Filter?, tail: Filter?,
                          p: Filter?, q: Filter?, S: set<Filter>)
    reads out`next, out`prev, P`next, Q`next
  {
    && Merged(out, list, tail) && NoDup(out)
    && Pending(out, P, Q, p, q)
    && Within(out, S) && Within(P, S) && Within(Q, S)
  }

  /** Emit the head of P and step past it. */
  method EmitP(ghost out: seq<Filter>, ghost P: seq<Filter>, ghost Q: seq<Filter>,
               list: Filter?, tail: Filter?, p: Filter, q: Filter?, ghost S: set<Filter>)
    returns (list': Filter, p': Filter?)
    requires Merging(out, P, Q, list, tail, p, q, S) && P != []
    modifies S`next, S`prev
    ensures Merging(out + [p], P[1..], Q, list', p, p', q, S)
  {
    p' := p.next;
    list' := Emit(out, list, tail, p);
  }

  /** Emit the head of Q and step past it. */
  method EmitQ(ghost out: seq<Filter>, ghost P: seq<Filter>, ghost Q: seq<Filter>,
               list: Filter?, tail: Filter?, p: Filter?, q: Filter, ghost S: set<Filter>)
    returns (list': Filter, q': Filter?)
    requires Merging(out, P, Q, list, tail, p, q, S) && Q != []
    modifies S`next, S`prev
    ensures Merging(out + [q], P, Q[1..], list', q, p, q', S)
  {
    q' := q.next;
    list' := Emit(out, list, tail, q);
  }

  lemma MergeTakesP(cmp: Comparator, o: seq<Filter>, P: seq<Filter>, Q: seq<Filter>)
    requires P != [] && (Q == [] || Leq(cmp, P[0], Q[0]))
    ensures o + Merge(cmp, P, Q) == (o + [P[0]]) + Merge(cmp, P[1..], Q)
  {
    assert Merge(cmp, P, Q) == [P[0]] + Merge(cmp, P[1..], Q);
    Shift(o, P[0], Merge(cmp, P[1..], Q));
  }

  lemma Shift(s: seq<Filter>, f: Filter, t: seq<Filter>)
    ensures s + ([f] + t) == (s + [f]) + t
  {
  }

  lemma MergeTakesQ(cmp: Comparator, o: seq<Filter>, P: seq<Filter>, Q: seq<Filter>, n: nat)
    requires Q != [] && n > 0 && (P == [] || !Leq(cmp, P[0], Q[0]))
    ensures o + Merge(cmp, P, Take(Q, n)) == (o + [Q[0]]) + Merge(cmp, P, Take(Q[1..], n - 1))
    ensures Drop(Q[1..], n - 1) == Drop(Q, n)
  {
    assert Take(Q, n) == [Q[0]] + Take(Q[1..], n - 1);
    assert Merge(cmp, P, Take(Q, n)) == [Q[0]] + Merge(cmp, P, Take(Q[1..], n - 1));
  }

  /** One merge in progress: what is emitted and what is left still merge into
      target, with rest as the untouched remainder of the list. */
  ghost predicate MergeState(cmp: Comparator, out: seq<Filter>, P: seq<Filter>, Q: seq<Filter>,
                             list: Filter?, tail: Filter?, p: Filter?, q: Filter?, psize: nat, qsize: nat,
                             S: set<Filter>, target: seq<Filter>, rest: seq<Filter>)
    reads out`next, out`prev, P`next, Q`next
  {
    && psize == |P|
    && Merging(out, P, Q, list, tail, p, q, S)
    && out + Merge(cmp, P, Take(Q, qsize)) == target
    && Drop(Q, qsize) == rest
  }

  /** One round of the merge loop. */
  method MergeStep(cmp: Comparator, ghost out: seq<Filter>, ghost P: seq<Filter>, ghost Q: seq<Filter>,
                   list: Filter?, tail: Filter?, p: Filter?, q: Filter?, psize: nat, qsize: nat,
                   ghost S: set<Filter>, ghost target: seq<Filter>, ghost rest: seq<Filter>)
    returns (list': Filter, tail': Filter, p': Filter?, q': Filter?, psize': nat, qsize': nat,
             ghost out': seq<Filter>, ghost P': seq<Filter>, ghost Q': seq<Filter>)
    requires MergeState(cmp, out, P, Q, list, tail, p, q, psize, qsize, S, target, rest)
    requires psize != 0 || (qsize != 0 && q != null)
    modifies S`next, S`prev
    ensures MergeState(cmp, out', P', Q', list', tail', p', q', psize', qsize', S, target, rest)
    ensures |P'| + |Q'| < |P| + |Q|
  {
    p', q', psize', qsize', P', Q' := p, q, psize, qsize, P, Q;
    if psize == 0 {
      tail' := q;
      list', q' := EmitQ(out, P, Q, list, tail, p, q, S);
      MergeTakesQ(cmp, out, P, Q, qsize);
      qsize', Q' := qsize - 1, Q[1..];
    } else if qsize == 0 || q == null || cmp(p.row, q.row) <= 0 {
      tail' := p;
      list', p' := EmitP(out, P, Q, list, tail, p, q, S);
      MergeTakesP(cmp, out, P, Take(Q, qsize));
      psize', P' := psize - 1, P[1..];
    } else {
      tail' := q;
      list', q' := EmitQ(out, P, Q, list, tail, p, q, S);
      MergeTakesQ(cmp, out, P, Q, qsize);
      qsize', Q' := qsize - 1, Q[1..];
    }
    out' := out + [tail'];
  }

  /** Merge the run P, of psize elements, with the run of at most insize elements
      that leads Q. */
  method MergeRuns(cmp: Comparator, insize: nat, psize: nat, list: Filter?, tail: Filter?, p: Filter, q: Filter?,
                   ghost out: seq<Filter>, ghost P: seq<Filter>, ghost Q: seq<Filter>, ghost S: set<Filter>)
    returns (list': Filter?, tail': Filter?, q': Filter?)
    requires psize == |P| > 0
    requires Merging(out, P, Q, list, tail, p, q, S)
    modifies S`next, S`prev
    ensures Merging(out + Merge(cmp, P, Take(Q, insize)), [], Drop(Q, insize), list', tail', null, q', S)
  {
    var p', ps, qs := p as Filter?, psize, insize;
    list', tail', q' := list, tail, q;
    ghost var o, P', Q' := out, P, Q;
    ghost var target, rest := out + Merge(cmp, P, Take(Q, insize)), Drop(Q, insize);
    while ps != 0 || (qs != 0 && q' != null)
      invariant MergeState(cmp, o, P', Q', list', tail', p', q', ps, qs, S, target, rest)
      decreases |P'| + |Q'|
    {
      list', tail', p', q', ps, qs, o, P', Q' :=
        MergeStep(cmp, o, P', Q', list', tail', p', q', ps, qs, S, target, rest);
    }
  }

  /** Split the remaining list R into its first run and what follows it. */
  lemma SplitRun(out: seq<Filter>, R: seq<Filter>, list: Filter?, tail: Filter?, p: Filter, S: set<Filter>, k: nat)
    requires Merging(out, [], R, list, tail, null, p, S) && R != [] && k > 0
    ensures Merging(out, Take(R, k), Drop(R, k), list, tail, p, Head(Drop(R, k)), S)
  {
    var P, Q := Take(R, k), Drop(R, k);
    assert forall i | 0 <= i < |P| :: P[i] == R[i];
    assert forall i | 0 <= i < |Q| :: Q[i] == R[k + i];
  }

  lemma PassUnroll(cmp: Comparator, out: seq<Filter>, R: seq<Filter>, k: nat)
    requires R != [] && k > 0
    ensures out + Pass(cmp, R, k)
         == (out + Merge(cmp, Take(R, k), Take(Drop(R, k), k))) + Pass(cmp, Drop(R, 2 * k), k)
  {
    var m, t := Merge(cmp, Take(R, k), Take(Drop(R, k), k)), Pass(cmp, Drop(R, 2 * k), k);
    DropDrop(R, k);
    assert Pass(cmp, R, k) == m + t;
    assert out + (m + t) == (out + m) + t;
  }

  function Beyond(len: nat, k: nat): nat {
    if k <= len then len - k else 0
  }

  /** After nmerges merges of 2 * k elements each, left of len elements remain. */
  ghost predicate MergesSoFar(nmerges: nat, left: nat, len: nat, k: nat) {
    && (nmerges == 0 ==> left == len)
    && (nmerges == 1 ==> left == Beyond(len, 2 * k))
    && (nmerges > 1 ==> len > 2 * k)
  }

  lemma CountMerge(nmerges: nat, left: nat, len: nat, k: nat)
    requires left > 0 && MergesSoFar(nmerges, left, len, k)
    ensures MergesSoFar(nmerges + 1, Beyond(left, 2 * k), len, k)
  {
  }

  /** Between two merges of a pass: out is merged, R is still in its old order. */
  ghost predicate PassState(cmp: Comparator, insize: nat, out: seq<Filter>, R: seq<Filter>, list: Filter?,
                            tail: Filter?, p: Filter?, nmerges: nat, S: set<Filter>, target: seq<Filter>)
    requires insize > 0
    reads out`next, out`prev, R`next
  {
    && Merging(out, [], R, list, tail, null, p, S)
    && out + Pass(cmp, R, insize) == target
    && MergesSoFar(nmerges, |R|, |target|, insize)
  }

  /** One merge of a pass. */
  method MergeNext(cmp: Comparator, insize: nat, ghost out: seq<Filter>, ghost R: seq<Filter>, list: Filter?,
                   tail: Filter?, p: Filter, nmerges: nat, ghost S: set<Filter>, ghost target: seq<Filter>)
    returns (list': Filter?, tail': Filter?, p': Filter?, nmerges': nat, ghost out': seq<Filter>, ghost R': seq<Filter>)
    requires insize > 0 && R != []
    requires PassState(cmp, insize, out, R, list, tail, p, nmerges, S, target)
    modifies S`next, S`prev
    ensures PassState(cmp, insize, out', R', list', tail', p', nmerges', S, target)
    ensures |R'| < |R|
  {
    ghost var P, Q := Take(R, insize), Drop(R, insize);
    var psize, q := CountRun(R, p, insize);
    SplitRun(out, R, list, tail, p, S, insize);
    nmerges' := nmerges + 1;
    list', tail', p' := MergeRuns(cmp, insize, psize, list, tail, p, q, out, P, Q, S);
    out', R' := out + Merge(cmp, P, Take(Q, insize)), Drop(R, 2 * insize);
    PassUnroll(cmp, out, R, insize);
    DropDrop(R, insize);
    CountMerge(nmerges, |R|, |target|, insize);
  }

  /** A complete list of elements of S, led by head. */
  ghost predicate Whole(s: seq<Filter>, head: Filter, S: set<Filter>)
    reads s`next, s`prev
  {
    s != [] && head == s[0] && AppLinked(s) && NoDup(s) && Within(s, S)
  }

  lemma StartPass(cmp: Comparator, insize: nat, s: seq<Filter>, head: Filter, S: set<Filter>)
    requires insize > 0
    requires Whole(s, head, S)
    ensures PassState(cmp, insize, [], s, null, null, head, 0, S, Pass(cmp, s, insize))
  {
    assert NextTo(s, null);
  }

  /** Terminate the merged list. */
  method FinishPass(cmp: Comparator, insize: nat, ghost out: seq<Filter>, list: Filter?, tail: Filter?,
                    nmerges: nat, ghost S: set<Filter>, ghost target: seq<Filter>)
    returns (list': Filter)
    requires insize > 0 && target != []
    requires PassState(cmp, insize, out, [], list, tail, null, nmerges, S, target)
    modifies S`next
    ensures Whole(target, list', S) && list' == list && tail == Last(target)
    ensures nmerges <= 1 <==> |target| <= 2 * insize
  {
    assert out == target;
    tail.next := null;
    list' := list;
  }

  /** One pass of HASH_SRT over the list: merge neighbouring runs of insize elements. */
  method MergePass(cmp: Comparator, insize: nat, head: Filter, ghost s: seq<Filter>, ghost S: set<Filter>)
    returns (list: Filter, tail: Filter, nmerges: nat)
    requires insize > 0
    requires Whole(s, head, S)
    modifies S`next, S`prev
    ensures Whole(Pass(cmp, s, insize), list, S) && tail == Last(Pass(cmp, s, insize))
    ensures nmerges <= 1 <==> |s| <= 2 * insize
  {
    var p: Filter?, l: Filter?, t: Filter? := head, null, null;
    ghost var out, R, target := [], s, Pass(cmp, s, insize);
    nmerges := 0;
    StartPass(cmp, insize, s, head, S);
    while p != null
      invariant PassState(cmp, insize, out, R, l, t, p, nmerges, S, target)
      decreases |R|
    {
      l, t, p, nmerges, out, R := MergeNext(cmp, insize, out, R, l, t, p, nmerges, S, target);
    }
    list := FinishPass(cmp, insize, out, l, t, nmerges, S, target);
    tail := t;
  }

  /** HASH_SRT: passes with doubling insize until a single merge covers the list. */
  method SortList(cmp: Comparator, head: Filter, ghost s: seq<Filter>) returns (head': Filter, tail: Filter)
    requires s != [] && head == s[0] && AppLinked(s) && NoDup(s)
    modifies s`next, s`prev
    ensures AppLinked(BottomUp(cmp, s, 1))
    ensures head' == Head(BottomUp(cmp, s, 1)) && tail == Last(BottomUp(cmp, s, 1))
  {
    ghost var S := set f | f in s;
    var insize, looping := 1, true;
    ghost var t, target := s, BottomUp(cmp, s, 1);
    head', tail := head, head;
    while looping
      invariant 0 < insize <= 2 * |s|
      invariant looping ==> insize <= |s|
      invariant Whole(t, head', S)
      invariant looping ==> BottomUp(cmp, t, insize) == target
      invariant !looping ==> t == target && tail == Last(t)
      invariant |t| == |s|
      decreases looping, |s| - insize
    {
      var nmerges;
      head', tail, nmerges := MergePass(cmp, insize, head', t, S);
      t := Pass(cmp, t, insize);
      if nmerges <= 1 {
        looping := false;
      }
      insize := insize * 2;
    }
  }
}
