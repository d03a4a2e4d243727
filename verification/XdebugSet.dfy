/** The bit sets of the branch analysis: one bit per opcode in a byte array. */
module XdebugSet {

  predicate BitSet(b: bv8, k: nat)
    requires k < 8
  {
    b & (1 << k) != 0
  }

  lemma OrSetsOneBit(b: bv8, k: nat, j: nat)
    requires k < 8 && j < 8
    ensures BitSet(b | (1 << k), j) <==> j == k || BitSet(b, j)
  {
    BitDistinct(k, j);
    var m, n: bv8 := 1 << k, 1 << j;
    OrAnd(b, m, n);
  }

  lemma AndClearsOneBit(b: bv8, k: nat, j: nat)
    requires k < 8 && j < 8
    ensures BitSet(b & !(1 << k), j) <==> j != k && BitSet(b, j)
  {
    BitDistinct(k, j);
    var m, n: bv8 := 1 << k, 1 << j;
    AndAnd(b, m, n);
  }

  lemma BitDistinct(k: nat, j: nat)
    requires k < 8 && j < 8
    ensures (1 as bv8 << k) != 0
    ensures k == j <==> (1 as bv8 << k) & (1 as bv8 << j) != 0
    ensures k == j || (1 as bv8 << k) & (1 as bv8 << j) == 0
  {
    assert k in {0, 1, 2, 3, 4, 5, 6, 7} && j in {0, 1, 2, 3, 4, 5, 6, 7};
  }

  lemma OrAnd(b: bv8, m: bv8, n: bv8)
    ensures (b | m) & n == (b & n) | (m & n)
    ensures (b & n) | (m & n) == 0 <==> b & n == 0 && m & n == 0
  {
  }

  lemma AndAnd(b: bv8, m: bv8, n: bv8)
    ensures m & n == 0 ==> (b & !m) & n == b & n
    ensures (b & !m) & m == 0
  {
  }

  class Set {
    const size: nat
    const setinfo: array<bv8>

    ghost predicate Valid() {
      setinfo.Length == size / 8 + 1 + (if size % 8 != 0 then 1 else 0)
    }

    /** The member set, over every position that has a bit. */
    ghost function Members(): set<nat>
      reads setinfo
    {
      set i: nat | i < 8 * setinfo.Length && BitSet(setinfo[i / 8], i % 8)
    }

    constructor (size: nat)
      ensures Valid() && fresh(setinfo)
      ensures this.size == size && Members() == {}
    {
      this.size := size;
      setinfo := new bv8[size / 8 + 1 + (if size % 8 != 0 then 1 else 0)](_ => 0);
    }

    /** Every position up to and including size has a bit. */
    lemma InBounds(position: nat)
      requires Valid() && position <= size
      ensures position / 8 < setinfo.Length
    {
    }

    method Add(position: nat)
      requires Valid() && position <= size
      modifies setinfo
      ensures Members() == old(Members()) + {position}
    {
      InBounds(position);
      forall j: nat | j < 8 {
        OrSetsOneBit(setinfo[position / 8], position % 8, j);
      }
      setinfo[position / 8] := setinfo[position / 8] | (1 << (position % 8));
    }

    method Remove(position: nat)
      requires Valid() && position <= size
      modifies setinfo
      ensures Members() == old(Members()) - {position}
    {
      InBounds(position);
      forall j: nat | j < 8 {
        AndClearsOneBit(setinfo[position / 8], position % 8, j);
      }
      setinfo[position / 8] := setinfo[position / 8] & !(1 << (position % 8));
    }

    method In(position: nat) returns (r: bool)
      requires Valid() && position <= size
      ensures r <==> position in Members()
    {
      InBounds(position);
      r := setinfo[position / 8] & (1 << (position % 8)) != 0;
    }
  }
}
