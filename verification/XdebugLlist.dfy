/** The doubly linked list of the tracing extension. */
module XdebugLlist {
  import opened Collections

  class Element<T> {
    const ptr: T
    var prev: Element?<T>
    var next: Element?<T>

    constructor (p: T)
      ensures ptr == p && prev == null && next == null
    {
      ptr := p;
      prev, next := null, null;
    }
  }

  ghost function First<T>(s: seq<Element<T>>): Element?<T> {
    if s == [] then null else s[0]
  }

  ghost function Last<T>(s: seq<Element<T>>): Element?<T> {
    if s == [] then null else s[|s| - 1]
  }

  /** prev and next spell out s, from end to end. */
  ghost predicate Linked<T>(s: seq<Element<T>>)
    reads s`prev, s`next
  {
    && (forall i {:trigger s[i].prev} | 0 <= i < |s| :: s[i].prev == if i == 0 then null else s[i - 1])
    && (forall i {:trigger s[i].next} | 0 <= i < |s| :: s[i].next == if i == |s| - 1 then null else s[i + 1])
  }

  /** The element inserted is new, so that the list still has no element twice. */
  lemma InsertNoDup<T>(s: seq<Element<T>>, k: nat, x: Element<T>)
    requires NoDup(s) && x !in s && k <= |s|
    ensures NoDup(Inserted(s, k, x))
  {
    var t := Inserted(s, k, x);
    assert forall i | 0 <= i < |t| :: t[i] == if i < k then s[i] else if i == k then x else s[i - 1];
  }

  /** Relink for a new element behind at. */
  method LinkNext<T>(ghost s: seq<Element<T>>, ghost k: nat, tail: Element<T>, at: Element<T>, ne: Element<T>)
    returns (tail': Element<T>)
    requires Linked(s) && NoDup(s) && ne !in s
    requires 0 < k <= |s| && s[k - 1] == at && tail == s[|s| - 1]
    modifies s`prev, s`next, ne`prev, ne`next
    ensures Linked(Inserted(s, k, ne))
    ensures tail' == Inserted(s, k, ne)[|s|]
  {
    assert at.next != null ==> at.next == s[k] && at.next in s;
    tail' := tail;
    ne.next := at.next;
    ne.prev := at;
    if at.next != null {
      at.next.prev := ne;
    } else {
      tail' := ne;
    }
    at.next := ne;
    ghost var t := Inserted(s, k, ne);
    assert forall i | 0 <= i < |t| :: t[i] == if i < k then s[i] else if i == k then ne else s[i - 1];
    assert forall i | 0 <= i < |s| :: s[i] != ne;
  }

  /** Relink for a new element in front of at. */
  method LinkPrev<T>(ghost s: seq<Element<T>>, ghost k: nat, head: Element<T>, at: Element<T>, ne: Element<T>)
    returns (head': Element<T>)
    requires Linked(s) && NoDup(s) && ne !in s
    requires k < |s| && s[k] == at && head == s[0]
    modifies s`prev, s`next, ne`prev, ne`next
    ensures Linked(Inserted(s, k, ne))
    ensures head' == Inserted(s, k, ne)[0]
  {
    assert at.prev != null ==> at.prev == s[k - 1] && at.prev in s;
    head' := head;
    ne.next := at;
    ne.prev := at.prev;
    if at.prev != null {
      at.prev.next := ne;
    } else {
      head' := ne;
    }
    at.prev := ne;
    ghost var t := Inserted(s, k, ne);
    assert forall i | 0 <= i < |t| :: t[i] == if i < k then s[i] else if i == k then ne else s[i - 1];
    assert forall i | 0 <= i < |s| :: s[i] != ne;
  }

  /** Relink around e; the ends are those of the list without it. */
  method Unlink<T>(ghost s: seq<Element<T>>, ghost k: nat, head: Element<T>, tail: Element<T>, e: Element<T>)
    returns (head': Element?<T>, tail': Element?<T>)
    requires Linked(s) && NoDup(s)
    requires k < |s| && s[k] == e && head == s[0] && tail == s[|s| - 1]
    modifies s`prev, s`next
    ensures Linked(Without(s, k))
    ensures head' == First(Without(s, k)) && tail' == Last(Without(s, k))
  {
    assert e.prev != null ==> k > 0 && e.prev == s[k - 1] && e.prev in s;
    assert e.next != null ==> k + 1 < |s| && e.next == s[k + 1] && e.next in s;
    assert (e == head) == (k == 0);
    head', tail' := head, tail;
    if e == head {
      head' := e.next;
      if head' == null {
        tail' := null;
      } else {
        e.next.prev := null;
      }
    } else {
      e.prev.next := e.next;
      if e.next == null {
        tail' := e.prev;
      } else {
        e.next.prev := e.prev;
      }
    }
    ghost var t := Without(s, k);
    assert forall i | 0 <= i < |t| :: t[i] == if i < k then s[i] else s[i + 1];
  }

  class Llist<T> {
    var head: Element?<T>
    var tail: Element?<T>
    var size: nat

    /** The elements, in order. */
    ghost var elems: seq<Element<T>>

    ghost predicate Valid()
      reads this, elems`prev, elems`next
    {
      && size == |elems| && NoDup(elems) && Linked(elems)
      && head == First(elems) && tail == Last(elems)
    }

    constructor ()
      ensures Valid() && elems == []
    {
      head, tail, size, elems := null, null, 0, [];
    }

    /** The branch of both insertions for an empty list. */
    method InsertFirst(ne: Element<T>)
      requires Valid() && elems == []
      modifies this, ne`prev, ne`next
      ensures Valid() && elems == [ne]
    {
      head := ne;
      head.prev := null;
      head.next := null;
      tail := ne;
      size := size + 1;
      elems := [ne];
    }

    /** The other branch of xdebug_llist_insert_next. */
    method InsertBehind(at: Element<T>, ne: Element<T>, ghost k: nat)
      requires Valid() && 0 < k <= |elems| && elems[k - 1] == at && ne !in elems
      modifies `tail, `size, `elems, elems`prev, elems`next, ne`prev, ne`next
      ensures Valid() && elems == Inserted(old(elems), k, ne)
    {
      InsertNoDup(elems, k, ne);
      tail := LinkNext(elems, k, tail, at, ne);
      size := size + 1;
      elems := Inserted(elems, k, ne);
    }

    /** The other branch of xdebug_llist_insert_prev. */
    method InsertBefore(at: Element<T>, ne: Element<T>, ghost k: nat)
      requires Valid() && k < |elems| && elems[k] == at && ne !in elems
      modifies `head, `size, `elems, elems`prev, elems`next, ne`prev, ne`next
      ensures Valid() && elems == Inserted(old(elems), k, ne)
    {
      InsertNoDup(elems, k, ne);
      head := LinkPrev(elems, k, head, at, ne);
      size := size + 1;
      elems := Inserted(elems, k, ne);
    }

    /** xdebug_llist_insert_next: behind e, or at the end for NULL. */
    method InsertNext(e: Element?<T>, p: T, ghost k: nat) returns (ne: Element<T>)
      requires Valid()
      requires if e == null then k == |elems| else 0 < k <= |elems| && elems[k - 1] == e
      modifies this, elems`prev, elems`next
      ensures Valid() && fresh(ne) && ne.ptr == p && elems == Inserted(old(elems), k, ne)
    {
      var at := e;
      if at == null {
        at := tail;
      }
      ne := new Element(p);
      if size == 0 {
        InsertFirst(ne);
      } else {
        InsertBehind(at, ne, k);
      }
    }

    /** xdebug_llist_insert_prev: in front of e, or at the start for NULL. */
    method InsertPrev(e: Element?<T>, p: T, ghost k: nat) returns (ne: Element<T>)
      requires Valid()
      requires if e == null then k == 0 else k < |elems| && elems[k] == e
      modifies this, elems`prev, elems`next
      ensures Valid() && fresh(ne) && ne.ptr == p && elems == Inserted(old(elems), k, ne)
    {
      var at := e;
      if at == null {
        at := head;
      }
      ne := new Element(p);
      if size == 0 {
        InsertFirst(ne);
      } else {
        InsertBefore(at, ne, k);
      }
    }

    /** xdebug_llist_remove */
    method Remove(e: Element?<T>, ghost k: nat)
      requires Valid()
      requires e != null && size > 0 ==> k < |elems| && elems[k] == e
      modifies this, elems`prev, elems`next
      ensures Valid()
      ensures elems == if e == null || old(elems) == [] then old(elems) else Without(old(elems), k)
    {
      if e == null || size == 0 {
        return;
      }
      head, tail := Unlink(elems, k, head, tail, e);
      size := size - 1;
      elems := Without(elems, k);
    }

    /** xdebug_llist_remove_next */
    method RemoveNext(e: Element<T>, ghost k: nat)
      requires Valid() && k < |elems| && elems[k] == e
      modifies this, elems`prev, elems`next
      ensures Valid()
      ensures elems == if k + 1 < |old(elems)| then Without(old(elems), k + 1) else old(elems)
    {
      assert e.next == if k == |elems| - 1 then null else elems[k + 1];
      Remove(e.next, k + 1);
    }

    /** xdebug_llist_remove_prev */
    method RemovePrev(e: Element<T>, ghost k: nat)
      requires Valid() && k < |elems| && elems[k] == e
      modifies this, elems`prev, elems`next
      ensures Valid()
      ensures elems == if k > 0 then Without(old(elems), k - 1) else old(elems)
    {
      assert e.prev == if k == 0 then null else elems[k - 1];
      Remove(e.prev, if k == 0 then 0 else k - 1);
    }

    /** xdebug_llist_empty: remove from the end until nothing is left. */
    method Empty()
      requires Valid()
      modifies this, elems`prev, elems`next
      ensures Valid() && elems == []
    {
      ghost var all := elems;
      while size > 0 && tail != null
        invariant Valid() && elems <= all
        decreases size
      {
        Remove(tail, |elems| - 1);
        assert Without(all[..size + 1], size) == all[..size];
      }
    }
  }
}
