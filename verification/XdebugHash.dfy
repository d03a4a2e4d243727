/** The chained hash table of the tracing extension, over its doubly linked
    lists, as a finite map on string and number keys. The hash functions and the
    number of slots are arbitrary. */
module XdebugHash {
  import opened Bytes
  import opened Collections
  import opened XdebugLlist

  /** xdebug_hash_key */
  datatype Key = Str(val: bytes) | Num(num: nat)

  /** The comparison reads the first byte of a string key, so there has to be one. */
  predicate Proper(k: Key) {
    k.Str? ==> k.val != []
  }

  /** xdebug_hash_key_compare: the tests agree with equality of keys. */
  function KeyCompare(key1: Key, key2: Key): (same: bool)
    requires Proper(key1) && Proper(key2)
    ensures same <==> key1 == key2
  {
    if key1.Num? then
      if key2.Str? then false else key1.num == key2.num
    else
      if key2.Num? then false
      else |key1.val| == |key2.val| && key1.val[0] == key2.val[0] && key1.val == key2.val
  }

  /** xdebug_hash_element */
  class Entry<V> {
    const key: Key
    var ptr: V

    constructor (key: Key, p: V)
      ensures this.key == key && ptr == p
    {
      this.key, ptr := key, p;
    }
  }

  type Cell<V> = seq<Element<Entry<V>>>

  ghost function Elements<V>(cells: seq<Cell<V>>): set<Element<Entry<V>>> {
    set i, j | 0 <= i < |cells| && 0 <= j < |cells[i]| :: cells[i][j]
  }

  ghost function Entries<V>(cells: seq<Cell<V>>): set<Entry<V>> {
    set i, j | 0 <= i < |cells| && 0 <= j < |cells[i]| :: cells[i][j].ptr
  }

  ghost predicate HasKey<V>(c: Cell<V>, k: Key) {
    exists j | 0 <= j < |c| :: c[j].ptr.key == k
  }

  /** The entries of the first n slots, in the order in which a traversal meets them. */
  ghost function EntriesTo<V>(cells: seq<Cell<V>>, n: nat): seq<Entry<V>>
    requires n <= |cells|
  {
    if n == 0 then [] else EntriesTo(cells, n - 1) + Ptrs(cells[n - 1])
  }

  ghost function Ptrs<V>(c: Cell<V>): (ps: seq<Entry<V>>)
    ensures |ps| == |c|
    ensures forall j | 0 <= j < |c| :: ps[j] == c[j].ptr
  {
    seq(|c|, j requires 0 <= j < |c| => c[j].ptr)
  }

  ghost predicate DistinctKeys<V>(es: seq<Entry<V>>) {
    forall i, j | 0 <= i < j < |es| :: es[i].key != es[j].key
  }

  lemma {:induction false} DistinctCount<V>(es: seq<Entry<V>>, keys: set<Key>)
    requires DistinctKeys(es)
    requires forall k :: k in keys <==> exists i :: 0 <= i < |es| && es[i].key == k
    ensures |es| == |keys|
  {
    if es == [] {
      assert keys == {};
    } else {
      var n := |es| - 1;
      var rest := keys - {es[n].key};
      forall k
        ensures k in rest <==> exists i :: 0 <= i < n && es[..n][i].key == k
      {
        if k in rest {
          var i :| 0 <= i < |es| && es[i].key == k;
          assert es[..n][i].key == k;
        }
      }
      DistinctCount(es[..n], rest);
      assert es[n].key in keys;
    }
  }

  class XHash<V> {
    const hashStr: bytes -> nat
    const hashNum: nat -> nat
    const slots: nat
    const table: array<Llist<Entry<V>>>
    var size: nat

    /** The finite map that the table stands for. */
    ghost var view: map<Key, V>

    /** The list elements of every slot. */
    ghost var cells: seq<Cell<V>>

    /** FIND_SLOT */
    function FindSlot(k: Key): (s: nat)
      requires slots > 0
      ensures s < slots
    {
      (match k case Str(v) => hashStr(v) case Num(n) => hashNum(n)) % slots
    }

    /** Every key once, and in its own slot. */
    ghost predicate Placed(cells: seq<Cell<V>>) {
      && |cells| == slots > 0
      && (forall i, j | 0 <= i < slots && 0 <= j < |cells[i]| ::
        Proper(cells[i][j].ptr.key) && FindSlot(cells[i][j].ptr.key) == i)
      && (forall i, j, k | 0 <= i < slots && 0 <= j < k < |cells[i]| :: cells[i][j].ptr.key != cells[i][k].ptr.key)
    }

    /** Every key of m has an entry in its slot. */
    ghost predicate Covers(cells: seq<Cell<V>>, m: map<Key, V>)
      requires |cells| == slots > 0
    {
      forall k {:trigger HasKey(cells[FindSlot(k)], k)} | k in m :: HasKey(cells[FindSlot(k)], k)
    }

    /** The lists have the elements cells. */
    ghost predicate ListsOk()
      reads `cells, table, table[..], Elements(cells)`prev, Elements(cells)`next
    {
      && table.Length == slots && Placed(cells)
      && (forall i, j | 0 <= i < j < slots :: table[i] != table[j])
      && forall i | 0 <= i < slots :: table[i].elems == cells[i] && table[i].Valid()
    }

    /** Every entry holds what the map m says about its key. */
    ghost predicate Agrees(cells: seq<Cell<V>>, m: map<Key, V>)
      reads Entries(cells)
    {
      forall i, j | 0 <= i < |cells| && 0 <= j < |cells[i]| ::
        cells[i][j].ptr.key in m && cells[i][j].ptr.ptr == m[cells[i][j].ptr.key]
    }

    ghost predicate Valid()
      reads this, table, table[..], Elements(cells)`prev, Elements(cells)`next, Entries(cells)
    {
      ListsOk() && Covers(cells, view) && Agrees(cells, view) && size == |view|
    }

    // ----- cells and maps

    /** The slot of k says all there is to say about k. */
    lemma SlotDecides(k: Key)
      requires Valid()
      ensures k in view <==> HasKey(cells[FindSlot(k)], k)
    {
    }

    lemma AppendCovers(cells: seq<Cell<V>>, m: map<Key, V>, ne: Element<Entry<V>>, p: V)
      requires Placed(cells) && Covers(cells, m) && Proper(ne.ptr.key) && !HasKey(cells[FindSlot(ne.ptr.key)], ne.ptr.key)
      ensures var k := ne.ptr.key; var r := cells[FindSlot(k) := cells[FindSlot(k)] + [ne]];
        Placed(r) && Covers(r, m[k := p])
    {
      var s := FindSlot(ne.ptr.key);
      var r := cells[s := cells[s] + [ne]];
      forall q | q in m[ne.ptr.key := p]
        ensures HasKey(r[FindSlot(q)], q)
      {
        if q == ne.ptr.key {
          assert r[s][|cells[s]|].ptr.key == q;
        } else {
          assert HasKey(cells[FindSlot(q)], q);
          var b :| 0 <= b < |cells[FindSlot(q)]| && cells[FindSlot(q)][b].ptr.key == q;
          assert r[FindSlot(q)][b].ptr.key == q;
        }
      }
    }

    lemma AppendAgrees(cells: seq<Cell<V>>, m: map<Key, V>, s: nat, ne: Element<Entry<V>>)
      requires Placed(cells) && Agrees(cells, m) && s < slots
      requires FindSlot(ne.ptr.key) == s && !HasKey(cells[s], ne.ptr.key)
      ensures Agrees(cells[s := cells[s] + [ne]], m[ne.ptr.key := ne.ptr.ptr])
    {
      var k := ne.ptr.key;
      forall i, j | 0 <= i < slots && 0 <= j < |cells[i]|
        ensures cells[i][j].ptr.key != k
      {
        assert cells[i][j].ptr.key == k ==> i == s;
      }
    }

    lemma CutCell(c: Cell<V>, j: nat)
      requires j < |c|
      ensures |Without(c, j)| == |c| - 1
      ensures forall i | 0 <= i < |c| - 1 :: Without(c, j)[i] == if i < j then c[i] else c[i + 1]
    {
    }

    lemma CutCovers(cells: seq<Cell<V>>, m: map<Key, V>, s: nat, j: nat)
      requires Placed(cells) && Covers(cells, m) && s < slots && j < |cells[s]|
      ensures Placed(cells[s := Without(cells[s], j)])
      ensures Covers(cells[s := Without(cells[s], j)], m - {cells[s][j].ptr.key})
    {
      CutCell(cells[s], j);
      var r := cells[s := Without(cells[s], j)];
      forall q | q in m - {cells[s][j].ptr.key}
        ensures HasKey(r[FindSlot(q)], q)
      {
        assert HasKey(cells[FindSlot(q)], q);
        var b :| 0 <= b < |cells[FindSlot(q)]| && cells[FindSlot(q)][b].ptr.key == q;
        assert r[FindSlot(q)][if FindSlot(q) == s && b > j then b - 1 else b].ptr.key == q;
      }
    }

    lemma CutAgrees(cells: seq<Cell<V>>, m: map<Key, V>, s: nat, j: nat)
      requires Placed(cells) && Agrees(cells, m) && s < slots && j < |cells[s]|
      ensures var k := cells[s][j].ptr.key;
        Agrees(cells[s := Without(cells[s], j)], m - {k}) && |m - {k}| == |m| - 1
    {
      CutCell(cells[s], j);
      var k := cells[s][j].ptr.key;
      assert (m - {k})[k := m[k]] == m;
    }

    /** Elements and entries of different slots are different objects. */
    lemma SlotsApart(s: nat)
      requires Placed(cells) && s < slots
      ensures forall i, a, b | 0 <= i < slots && i != s && 0 <= a < |cells[i]| && 0 <= b < |cells[s]| ::
        cells[i][a] != cells[s][b] && cells[i][a].ptr != cells[s][b].ptr
    {
    }

    // ----- the operations

    /** xdebug_hash_alloc */
    constructor (hashStr: bytes -> nat, hashNum: nat -> nat, slots: nat)
      requires slots > 0
      ensures Valid() && view == map[] && this.slots == slots
      ensures this.hashStr == hashStr && this.hashNum == hashNum
      ensures fresh(table) && fresh(table[..]) && Elements(cells) == {}
    {
      var l := new Llist<Entry<V>>();
      this.hashStr, this.hashNum, this.slots := hashStr, hashNum, slots;
      table := new Llist<Entry<V>>[slots](_ => l);
      size, view, cells := 0, map[], seq(slots, _ => []);
      new;
      var i := 0;
      while i < slots
        invariant i <= slots && size == 0 && view == map[] && cells == seq(slots, _ => [])
        invariant forall j | 0 <= j < slots :: fresh(table[j])
        invariant forall j, k | 0 <= j < k < i :: table[j] != table[k]
        invariant forall j | 0 <= j < i :: table[j].Valid() && table[j].elems == []
        modifies table
      {
        table[i] := new Llist<Entry<V>>();
        i := i + 1;
      }
    }

    /** The search loop: the element of the slot with this key, if any. */
    method Locate(l: Llist<Entry<V>>, ghost s: nat, tmp: Key) returns (le: Element?<Entry<V>>, ghost j: nat)
      requires ListsOk() && s < slots && l == table[s] && Proper(tmp)
      ensures le == null ==> !HasKey(cells[s], tmp)
      ensures le != null ==> j < |cells[s]| && cells[s][j] == le && le.ptr.key == tmp
    {
      le, j := l.head, 0;
      while le != null
        invariant j <= |cells[s]|
        invariant le == if j == |cells[s]| then null else cells[s][j]
        invariant forall k | 0 <= k < j :: cells[s][k].ptr.key != tmp
        decreases |cells[s]| - j
      {
        if KeyCompare(tmp, le.ptr.key) {
          return;
        }
        le, j := le.next, j + 1;
      }
    }

    /** xdebug_hash_extended_find: map lookup. */
    method Find(k: Key) returns (p: Option<V>)
      requires Valid() && Proper(k)
      ensures p == if k in view then Some(view[k]) else None
    {
      var slot := FindSlot(k);
      var le, j := Locate(table[slot], slot, k);
      SlotDecides(k);
      if le == null {
        return None;
      }
      p := Some(le.ptr.ptr);
    }

    /** A new entry at the end of its slot. */
    method Append(slot: nat, l: Llist<Entry<V>>, e: Entry<V>) returns (ne: Element<Entry<V>>)
      requires ListsOk() && slot < slots && l == table[slot]
      requires Proper(e.key) && FindSlot(e.key) == slot && !HasKey(cells[slot], e.key)
      modifies this`cells, l, cells[slot]`prev, cells[slot]`next
      ensures ListsOk() && fresh(ne) && ne.ptr == e && cells == old(cells)[slot := old(cells)[slot] + [ne]]
    {
      SlotsApart(slot);
      ghost var c := cells[slot];
      ne := l.InsertNext(l.tail, e, |c|);
      assert l.elems == c + [ne];
      AppendCovers(cells, map[], ne, e.ptr);
      cells := cells[slot := c + [ne]];
    }

    /** Take one element out of its slot. */
    method Drop(slot: nat, l: Llist<Entry<V>>, le: Element<Entry<V>>, ghost j: nat)
      requires ListsOk() && slot < slots && l == table[slot]
      requires j < |cells[slot]| && cells[slot][j] == le
      modifies this`cells, l, cells[slot]`prev, cells[slot]`next
      ensures ListsOk() && cells == old(cells)[slot := Without(old(cells)[slot], j)]
    {
      SlotsApart(slot);
      ghost var c := cells[slot];
      CutCovers(cells, map[], slot, j);
      l.Remove(le, j);
      cells := cells[slot := Without(c, j)];
    }

    /** The new number of entries, and the map that it counts. */
    method Count(n: nat, ghost m: map<Key, V>)
      requires ListsOk() && Covers(cells, m) && Agrees(cells, m) && n == |m|
      modifies `size, `view
      ensures Valid() && view == m
    {
      size, view := n, m;
    }

    /** Store p in the entry le of its key. */
    method Overwrite(slot: nat, le: Element<Entry<V>>, ghost j: nat, p: V)
      requires Valid() && slot < slots && j < |cells[slot]| && cells[slot][j] == le
      modifies `view, le.ptr
      ensures Valid() && view == old(view)[le.ptr.key := p]
    {
      SlotsApart(slot);
      le.ptr.ptr := p;
      view := view[le.ptr.key := p];
    }

    /** Link in the entry e of a key that has none. */
    method AddNew(slot: nat, l: Llist<Entry<V>>, e: Entry<V>)
      requires Valid() && slot < slots && l == table[slot]
      requires Proper(e.key) && FindSlot(e.key) == slot && !HasKey(cells[slot], e.key)
      modifies `size, `view, `cells, l, cells[slot]`prev, cells[slot]`next
      ensures Valid() && view == old(view)[e.key := e.ptr]
    {
      SlotDecides(e.key);
      ghost var c, v := cells, view;
      var ne := Append(slot, l, e);
      AppendCovers(c, v, ne, e.ptr);
      AppendAgrees(c, v, slot, ne);
      Count(size + 1, v[e.key := e.ptr]);
    }

    /** Unlink the entry le of its key. */
    method RemoveOld(slot: nat, l: Llist<Entry<V>>, le: Element<Entry<V>>, ghost j: nat)
      requires Valid() && slot < slots && l == table[slot]
      requires j < |cells[slot]| && cells[slot][j] == le
      modifies `size, `view, `cells, l, cells[slot]`prev, cells[slot]`next
      ensures Valid() && view == old(view) - {le.ptr.key}
    {
      ghost var v := view - {le.ptr.key};
      CutCovers(cells, view, slot, j);
      CutAgrees(cells, view, slot, j);
      Drop(slot, l, le, j);
      Count(size - 1, v);
    }

    /** xdebug_hash_add_or_update: map update. */
    method AddOrUpdate(k: Key, p: V)
      requires Valid() && Proper(k)
      modifies this, table[FindSlot(k)], Elements(cells), Entries(cells)
      ensures Valid() && view == old(view)[k := p]
    {
      var slot := FindSlot(k);
      var l := table[slot];
      var le, j := Locate(l, slot, k);
      SlotDecides(k);
      if le != null {
        Overwrite(slot, le, j, p);
        return;
      }
      AddEntry(slot, l, k, p);
    }

    /** Link a new entry for the key. */
    method AddEntry(slot: nat, l: Llist<Entry<V>>, k: Key, p: V)
      requires Valid() && slot < slots && l == table[slot]
      requires Proper(k) && FindSlot(k) == slot && !HasKey(cells[slot], k)
      modifies `size, `view, `cells, l, cells[slot]`prev, cells[slot]`next
      ensures Valid() && view == old(view)[k := p]
    {
      var e := new Entry(k, p);
      AddNew(slot, l, e);
    }

    /** xdebug_hash_extended_delete: map removal. */
    method Delete(k: Key) returns (deleted: bool)
      requires Valid() && Proper(k)
      modifies this, table[FindSlot(k)], Elements(cells)
      ensures Valid() && view == old(view) - {k}
      ensures deleted <==> k in old(view)
    {
      var slot := FindSlot(k);
      var l := table[slot];
      var le, j := Locate(l, slot, k);
      SlotDecides(k);
      if le == null {
        return false;
      }
      RemoveOld(slot, l, le, j);
      return true;
    }

    /** The traversal of n slots meets their entries and no others, each key once. */
    lemma {:induction false} EntriesOnce(n: nat)
      requires Placed(cells) && n <= slots
      ensures var es := EntriesTo(cells, n);
        && DistinctKeys(es)
        && (forall e | e in es :: FindSlot(e.key) < n && e in Ptrs(cells[FindSlot(e.key)]))
        && (forall i, e | 0 <= i < n && e in Ptrs(cells[i]) :: e in es)
    {
      if n > 0 {
        EntriesOnce(n - 1);
        var es, ps := EntriesTo(cells, n - 1), Ptrs(cells[n - 1]);
        assert forall a | 0 <= a < |es| :: es[a] in es;
        assert forall b | 0 <= b < |ps| :: FindSlot(ps[b].key) == n - 1;
      }
    }

    /** Every entry that is met holds what the map says. */
    lemma CallsAgree(calls: seq<Entry<V>>)
      requires Placed(cells) && Agrees(cells, view) && calls == EntriesTo(cells, slots)
      ensures DistinctKeys(calls)
      ensures forall e | e in calls :: e.key in view && view[e.key] == e.ptr
    {
      EntriesOnce(slots);
      forall e | e in calls
        ensures e.key in view && view[e.key] == e.ptr
      {
        var i := FindSlot(e.key);
        var j :| 0 <= j < |cells[i]| && Ptrs(cells[i])[j] == e;
        assert cells[i][j].ptr == e;
      }
    }

    /** Every key of the map is met. */
    lemma CallsCover(calls: seq<Entry<V>>)
      requires Placed(cells) && Covers(cells, view) && calls == EntriesTo(cells, slots)
      ensures forall k | k in view :: exists i :: 0 <= i < |calls| && calls[i].key == k
    {
      EntriesOnce(slots);
      forall k | k in view
        ensures exists i :: 0 <= i < |calls| && calls[i].key == k
      {
        var c := cells[FindSlot(k)];
        assert HasKey(c, k);
        var j :| 0 <= j < |c| && c[j].ptr.key == k;
        assert Ptrs(c)[j] in Ptrs(c);
        assert Ptrs(c)[j] in calls;
      }
    }

    /** The inner loop: one slot. */
    method ApplySlot(i: nat, before: seq<Entry<V>>) returns (calls: seq<Entry<V>>)
      requires ListsOk() && i < slots
      ensures calls == before + Ptrs(cells[i])
    {
      calls := before;
      var le, j := table[i].head, 0;
      while le != null
        invariant j <= |cells[i]| && calls == before + Ptrs(cells[i])[..j]
        invariant le == if j == |cells[i]| then null else cells[i][j]
        decreases |cells[i]| - j
      {
        calls := calls + [le.ptr];
        le, j := le.next, j + 1;
      }
    }

    /** xdebug_hash_apply: one call for every entry of the map, and no more. */
    method Apply() returns (calls: seq<Entry<V>>)
      requires Valid()
      ensures |calls| == size == |view|
      ensures DistinctKeys(calls)
      ensures forall e | e in calls :: e.key in view && view[e.key] == e.ptr
      ensures forall k | k in view :: exists i :: 0 <= i < |calls| && calls[i].key == k
    {
      calls := [];
      var i := 0;
      while i < slots
        invariant i <= slots && calls == EntriesTo(cells, i)
      {
        calls := ApplySlot(i, calls);
        i := i + 1;
      }
      CallsAgree(calls);
      CallsCover(calls);
      DistinctCount(calls, view.Keys);
    }
  }
}
