/** The hash table as a value: the application-order list, the bucket chains and
    the expansion bookkeeping, with the effect of every table operation on them. */
module UtHashSpec {
  import opened Collections
  import opened BitArithmetic
  import opened UtHashRow
  import opened UtHashSort

  type Word = x: nat | x < 0x1_0000_0000

  /** HASH_FCN: an arbitrary deterministic function from key bytes to 32 bits. */
  type HashFcn = string -> Word

  const INITIAL_LOG2 := 5
  const BKT_CAPACITY_THRESH := 10

  /** app is empty exactly when the head pointer is NULL; then there is no table. */
  datatype Table = Table(
    app: seq<Filter>,
    chains: seq<seq<Filter>>,
    mults: seq<nat>,
    log2: nat,
    ideal: nat,
    nonideal: nat,
    ineff: nat,
    noexpand: bool)

  const NO_TABLE := Table([], [], [], 0, 0, 0, 0, false)

  /** HASH_MAKE_TABLE, before the first element is linked in. */
  function MadeTable(): Table {
    var n := Pow2(INITIAL_LOG2);
    Table([], seq(n, _ => []), seq(n, _ => 0), INITIAL_LOG2, 0, 0, 0, false)
  }

  /** HASH_TO_BKT */
  function Bucket(hashv: nat, log2: nat): (b: nat)
    ensures b < Pow2(log2)
  {
    MaskIsRemainder(hashv, log2);
    BitAnd(hashv, Pow2(log2) - 1)
  }

  lemma BucketIsRemainder(hashv: nat, log2: nat)
    ensures Bucket(hashv, log2) == hashv % Pow2(log2)
  {
    MaskIsRemainder(hashv, log2);
  }

  function BucketOf(h: HashFcn, f: Filter, log2: nat): (b: nat)
    ensures b < Pow2(log2)
  {
    Bucket(h(f.row.name), log2)
  }

  function Flatten(chains: seq<seq<Filter>>): seq<Filter> {
    if chains == [] then [] else chains[0] + Flatten(chains[1..])
  }

  // ----- the invariant

  /** Every element of chain b hashes to bucket b. */
  ghost predicate InPlace(h: HashFcn, chains: seq<seq<Filter>>, log2: nat) {
    forall b, i | 0 <= b < |chains| && 0 <= i < |chains[b]| :: BucketOf(h, chains[b][i], log2) == b
  }

  /** The table invariant: 2^log2 buckets, every element in its bucket, and the
      chains together hold exactly the elements of the application-order list. */
  ghost predicate Consistent(h: HashFcn, t: Table) {
    && |t.chains| == |t.mults| == Pow2(t.log2)
    && InPlace(h, t.chains, t.log2)
    && multiset(Flatten(t.chains)) == multiset(t.app)
    && NoDup(t.app)
  }

  ghost predicate Valid(h: HashFcn, t: Table) {
    if t.app == [] then t == NO_TABLE else Consistent(h, t)
  }

  // ----- expansion

  /** A table under construction during HASH_EXPAND_BUCKETS. */
  datatype Spread = Spread(chains: seq<seq<Filter>>, mults: seq<nat>, nonideal: nat)

  ghost predicate Wide(s: Spread, log2: nat) {
    |s.chains| == |s.mults| == Pow2(log2)
  }

  /** Move one element to the head of its new chain. */
  function Place(h: HashFcn, log2: nat, ideal: nat, s: Spread, f: Filter): (r: Spread)
    requires ideal > 0
    requires Wide(s, log2)
    ensures Wide(r, log2)
  {
    var b := BucketOf(h, f, log2);
    var chain := [f] + s.chains[b];
    if |chain| > ideal then
      Spread(s.chains[b := chain], s.mults[b := |chain| / ideal], s.nonideal + 1)
    else
      Spread(s.chains[b := chain], s.mults, s.nonideal)
  }

  function PlaceAll(h: HashFcn, log2: nat, ideal: nat, s: Spread, fs: seq<Filter>): (r: Spread)
    requires ideal > 0
    requires Wide(s, log2)
    ensures Wide(r, log2)
    decreases |fs|
  {
    if fs == [] then s else PlaceAll(h, log2, ideal, Place(h, log2, ideal, s, fs[0]), fs[1..])
  }

  function EmptySpread(log2: nat): (s: Spread)
    ensures Wide(s, log2)
  {
    Spread(seq(Pow2(log2), _ => []), seq(Pow2(log2), _ => 0), 0)
  }

  /** The ideal chain length as the macro computes it, by shift and mask. */
  function IdealChain(items: nat, log2: nat): (c: nat)
    ensures items > 0 ==> c > 0
  {
    ShiftMaskIsCeiling(items, log2);
    CeilDivIsLeast(items, Pow2(log2), 0);
    ShiftRight(items, log2) + (if BitAnd(items, Pow2(log2) - 1) != 0 then 1 else 0)
  }

  lemma IdealChainIsCeiling(items: nat, log2: nat)
    ensures IdealChain(items, log2) == CeilDiv(items, Pow2(log2))
  {
    ShiftMaskIsCeiling(items, log2);
  }

  /** The new buckets: every element moved, chain by chain, front to back. */
  function Redistribute(h: HashFcn, t: Table): (s: Spread)
    requires t.app != []
    ensures Wide(s, t.log2 + 1)
  {
    var log2 := t.log2 + 1;
    PlaceAll(h, log2, IdealChain(|t.app|, log2), EmptySpread(log2), Flatten(t.chains))
  }

  /** HASH_EXPAND_BUCKETS */
  function Expand(h: HashFcn, t: Table): Table
    requires t.app != []
  {
    var log2 := t.log2 + 1;
    var ideal := IdealChain(|t.app|, log2);
    var s := Redistribute(h, t);
    var ineff := if s.nonideal > ShiftRight(|t.app|, 1) then t.ineff + 1 else 0;
    Table(t.app, s.chains, s.mults, log2, ideal, s.nonideal, ineff, t.noexpand || ineff > 1)
  }

  // ----- operations

  /** The table with f at the head of its chain. */
  function Pushed(h: HashFcn, t: Table, f: Filter): Table
    requires |t.chains| == Pow2(t.log2)
  {
    var b := BucketOf(h, f, t.log2);
    t.(chains := t.chains[b := [f] + t.chains[b]])
  }

  /** Whether the chain of f has reached its expansion threshold. */
  predicate Crowded(h: HashFcn, t: Table, f: Filter)
    requires |t.chains| == |t.mults| == Pow2(t.log2)
  {
    var b := BucketOf(h, f, t.log2);
    |t.chains[b]| >= (t.mults[b] + 1) * BKT_CAPACITY_THRESH && !t.noexpand
  }

  /** HASH_ADD_TO_BKT: push f on its chain, then expand if the chain is too long.
      The element is already in the application-order list. */
  function AddToBucket(h: HashFcn, t: Table, f: Filter): Table
    requires t.app != []
    requires |t.chains| == |t.mults| == Pow2(t.log2)
  {
    var pushed := Pushed(h, t, f);
    if Crowded(h, pushed, f) then Expand(h, pushed) else pushed
  }

  ghost predicate Sized(t: Table) {
    t.app != [] ==> |t.chains| == |t.mults| == Pow2(t.log2)
  }

  /** Put f at position k of the application-order list and in its bucket. */
  function AddAt(h: HashFcn, t: Table, k: nat, f: Filter): Table
    requires k <= |t.app|
    requires Sized(t)
  {
    var base := if t.app == [] then MadeTable() else t;
    AddToBucket(h, base.(app := Inserted(t.app, k, f)), f)
  }

  /** HASH_ADD */
  function Add(h: HashFcn, t: Table, f: Filter): Table
    requires Sized(t)
  {
    AddAt(h, t, |t.app|, f)
  }

  /** HASH_ADD_INORDER */
  function AddInOrder(h: HashFcn, cmp: Comparator, t: Table, f: Filter): Table
    requires Sized(t)
  {
    AddAt(h, t, InsertAt(cmp, t.app, f), f)
  }

  function RemoveFrom(s: seq<Filter>, f: Filter): seq<Filter> {
    if s == [] then [] else if s[0] == f then s[1..] else [s[0]] + RemoveFrom(s[1..], f)
  }

  /** HASH_DELETE: deleting the last element frees the whole table. */
  function Delete(h: HashFcn, t: Table, f: Filter): Table
    requires Sized(t)
    requires f in t.app
  {
    if |t.app| == 1 then NO_TABLE
    else
      var b := BucketOf(h, f, t.log2);
      t.(app := RemoveFrom(t.app, f), chains := t.chains[b := RemoveFrom(t.chains[b], f)])
  }

  /** HASH_SRT */
  function Sort(cmp: Comparator, t: Table): Table {
    t.(app := BottomUp(cmp, t.app, 1))
  }

  /** HASH_FIND_IN_BKT: the first element of the chain with this key. */
  function FindInChain(h: HashFcn, chain: seq<Filter>, key: string): Filter? {
    if chain == [] then null
    else if h(chain[0].row.name) == h(key) && chain[0].row.name == key then chain[0]
    else FindInChain(h, chain[1..], key)
  }

  function Find(h: HashFcn, t: Table, key: string): Filter?
    requires Sized(t)
  {
    if t.app == [] then null else FindInChain(h, t.chains[Bucket(h(key), t.log2)], key)
  }
}
