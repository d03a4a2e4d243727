/** The user structure kept in the hash: the extension's struct filter together
    with its embedded UT_hash_handle. */
module UtHashRow {

  /** The part of a filter that the program fills in before adding it. */
  datatype Row = Row(name: string, syscalls: seq<int>)

  /** A comparison callback, used only through the sign of its result. */
  type Comparator = (Row, Row) -> int

  /** One element: its user data, the application-order links (prev, next), the
      bucket-chain links (hhPrev, hhNext) and the stored hash value. */
  class Filter {
    const row: Row
    var prev: Filter?
    var next: Filter?
    var hhPrev: Filter?
    var hhNext: Filter?
    var hashv: nat

    constructor (row: Row)
      ensures this.row == row
      ensures prev == next == hhPrev == hhNext == null
    {
      this.row := row;
      prev, next, hhPrev, hhNext := null, null, null, null;
      hashv := 0;
    }
  }

  /** "a sorts no later than b" for a comparison callback. */
  predicate Leq(cmp: Comparator, a: Filter, b: Filter) {
    cmp(a.row, b.row) <= 0
  }

  /** What a sort needs of its comparison callback: a total preorder. */
  ghost predicate TotalPreorder(cmp: Comparator) {
    && (forall a: Row, b: Row :: cmp(a, b) <= 0 || cmp(b, a) <= 0)
    && (forall a: Row, b: Row, c: Row :: cmp(a, b) <= 0 && cmp(b, c) <= 0 ==> cmp(a, c) <= 0)
  }
}
