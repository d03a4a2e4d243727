/** HASH_EXPAND_BUCKETS on the elements' chain links and the bucket array. */
module UtHashBuckets {
  import opened Collections
  import opened BitArithmetic
  import opened UtHashRow
  import opened UtHashLists
  import opened UtHashSpec
  import opened UtHashInvariant

  /** UT_hash_bucket */
  datatype BucketCell = BucketCell(hhHead: Filter?, count: nat, expandMult: nat)

  ghost function Members(chains: seq<seq<Filter>>): set<Filter> {
    set b, i | 0 <= b < |chains| && 0 <= i < |chains[b]| :: chains[b][i]
  }

  ghost predicate CellOk(c: BucketCell, chain: seq<Filter>, mult: nat)
    reads chain`hhNext, chain`hhPrev
  {
    c == BucketCell(Head(chain), |chain|, mult) && ChainLinked(chain)
  }

  /** The bucket array and the chain links spell out chains. */
  ghost predicate CellsOk(cells: array<BucketCell>, chains: seq<seq<Filter>>, mults: seq<nat>)
    reads cells, Members(chains)`hhNext, Members(chains)`hhPrev
  {
    && cells.Length == |chains| == |mults|
    && forall b | 0 <= b < cells.Length :: CellOk(cells[b], chains[b], mults[b])
  }

  /** s holds elements of moved only, each in its own bucket and once in its chain. */
  ghost predicate Placed(h: HashFcn, s: Spread, log2: nat, moved: set<Filter>) {
    && Wide(s, log2) && InPlace(h, s.chains, log2)
    && (forall b | 0 <= b < |s.chains| :: NoDup(s.chains[b]))
    && (forall b, i | 0 <= b < |s.chains| && 0 <= i < |s.chains[b]| :: s.chains[b][i] in moved)
  }

  lemma PlaceKeepsPlaced(h: HashFcn, s: Spread, log2: nat, ideal: nat, f: Filter, moved: set<Filter>)
    requires ideal > 0 && Placed(h, s, log2, moved) && f !in moved
    ensures Placed(h, Place(h, log2, ideal, s, f), log2, moved + {f})
  {
    var r := Place(h, log2, ideal, s, f);
    PushInPlace(h, s.chains, log2, f);
    forall b | 0 <= b < |r.chains|
      ensures NoDup(r.chains[b])
      ensures forall i | 0 <= i < |r.chains[b]| :: r.chains[b][i] in moved + {f}
    {
      if b == BucketOf(h, f, log2) {
        var c := r.chains[b];
        assert forall i | 0 < i < |c| :: c[i] == s.chains[b][i - 1] && c[i] in moved;
      }
    }
  }

  /** The new bucket array spells out s. */
  ghost predicate Moving(h: HashFcn, cells: array<BucketCell>, s: Spread, log2: nat, moved: set<Filter>)
    reads cells, Members(s.chains)`hhNext, Members(s.chains)`hhPrev
  {
    Placed(h, s, log2, moved) && CellsOk(cells, s.chains, s.mults)
  }

  lemma OtherChains(h: HashFcn, s: Spread, log2: nat, f: Filter, moved: set<Filter>)
    requires Placed(h, s, log2, moved) && f !in moved
    ensures forall b, g | 0 <= b < |s.chains| && g in s.chains[b] ::
      g != f && (b != BucketOf(h, f, log2) ==> g !in s.chains[BucketOf(h, f, log2)])
  {
  }

  /** Put f at the head of chain b, with mult as the chain's multiplier. */
  method PushCell(cells: array<BucketCell>, ghost chains: seq<seq<Filter>>, ghost mults: seq<nat>,
                  b: nat, f: Filter, mult: nat)
    requires CellsOk(cells, chains, mults) && b < |chains| && NoDup(chains[b])
    requires forall d, i | 0 <= d < |chains| && 0 <= i < |chains[d]| ::
      chains[d][i] != f && (d != b ==> chains[d][i] !in chains[b])
    modifies cells, chains[b]`hhPrev, f`hhNext, f`hhPrev
    ensures CellsOk(cells, chains[b := [f] + chains[b]], mults[b := mult])
  {
    var c := cells[b];
    assert CellOk(c, chains[b], mults[b]);
    PushChain(chains[b], c.hhHead, f);
    cells[b] := BucketCell(f, c.count + 1, mult);
  }

  /** Move the element f to the head of its new chain. */
  method PlaceOne(h: HashFcn, cells: array<BucketCell>, ghost log2: nat, numBuckets: nat, ideal: nat, nonideal: nat,
                  f: Filter, ghost s: Spread, ghost moved: set<Filter>)
    returns (nonideal': nat)
    requires ideal > 0 && numBuckets == Pow2(log2)
    requires Moving(h, cells, s, log2, moved) && f !in moved
    requires f.hashv == h(f.row.name) && nonideal == s.nonideal
    modifies cells, Members(s.chains)`hhPrev, f`hhNext, f`hhPrev
    ensures Moving(h, cells, Place(h, log2, ideal, s, f), log2, moved + {f})
    ensures nonideal' == Place(h, log2, ideal, s, f).nonideal
    ensures forall g | g in moved :: g.hhNext == old(g.hhNext)
  {
    var b := BitAnd(f.hashv, numBuckets - 1);
    assert b == BucketOf(h, f, log2);
    var count, mult := cells[b].count + 1, cells[b].expandMult;
    PlaceKeepsPlaced(h, s, log2, ideal, f, moved);
    OtherChains(h, s, log2, f, moved);
    nonideal' := nonideal;
    if count > ideal {
      nonideal' := nonideal + 1;
      mult := count / ideal;
    }
    PushCell(cells, s.chains, s.mults, b, f, mult);
  }

  /** Following hhNext from s[0] walks s. */
  ghost predicate ChainNext(s: seq<Filter>)
    reads s`hhNext
  {
    forall i {:trigger s[i].hhNext} | 0 <= i < |s| :: s[i].hhNext == if i == |s| - 1 then null else s[i + 1]
  }

  /** The chains, or ends of chains, that are still to be moved. */
  ghost predicate Remaining(h: HashFcn, rests: seq<seq<Filter>>, moved: set<Filter>)
    reads Members(rests)`hhNext, Members(rests)`hashv
  {
    && NoDup(Flatten(rests))
    && (forall c | 0 <= c < |rests| :: ChainNext(rests[c]))
    && (forall c, i | 0 <= c < |rests| && 0 <= i < |rests[c]| ::
      rests[c][i] !in moved && rests[c][i].hashv == h(rests[c][i].row.name))
  }

  function TailOff(rests: seq<seq<Filter>>): seq<seq<Filter>>
    requires rests != [] && rests[0] != []
  {
    [rests[0][1..]] + rests[1..]
  }

  lemma {:induction false} FlattenHas(chains: seq<seq<Filter>>, b: nat, i: nat)
    requires b < |chains| && i < |chains[b]|
    ensures chains[b][i] in Flatten(chains)
  {
    if b > 0 {
      FlattenHas(chains[1..], b - 1, i);
    }
  }

  lemma TailOffFlat(rests: seq<seq<Filter>>)
    requires rests != [] && rests[0] != []
    ensures Flatten(rests) == [rests[0][0]] + Flatten(TailOff(rests))
  {
    var later := TailOff(rests);
    assert later[1..] == rests[1..];
    assert rests[0] + Flatten(rests[1..]) == [rests[0][0]] + (rests[0][1..] + Flatten(rests[1..]));
  }

  lemma TailOffElement(rests: seq<seq<Filter>>, c: nat, i: nat)
    requires rests != [] && rests[0] != [] && NoDup(Flatten(rests))
    requires c < |rests| && i < |TailOff(rests)[c]|
    ensures TailOff(rests)[c][i] == rests[c][if c == 0 then i + 1 else i]
    ensures TailOff(rests)[c][i] != rests[0][0]
  {
    TailOffFlat(rests);
    FlattenHas(TailOff(rests), c, i);
    var flat := Flatten(TailOff(rests));
    var k :| 0 <= k < |flat| && flat[k] == TailOff(rests)[c][i];
    assert Flatten(rests)[k + 1] == flat[k] && Flatten(rests)[0] == rests[0][0];
  }

  lemma TailOffNoDup(rests: seq<seq<Filter>>)
    requires rests != [] && rests[0] != [] && NoDup(Flatten(rests))
    ensures NoDup(Flatten(TailOff(rests)))
  {
    TailOffFlat(rests);
    var flat := Flatten(TailOff(rests));
    assert forall k | 0 <= k < |flat| :: flat[k] == Flatten(rests)[k + 1];
  }

  lemma TailOffLinks(rests: seq<seq<Filter>>)
    requires rests != [] && rests[0] != [] && ChainNext(rests[0])
    ensures ChainNext(rests[0][1..]) && rests[0][0].hhNext == Head(rests[0][1..])
  {
    var s := rests[0][1..];
    assert forall i | 0 <= i < |s| :: s[i] == rests[0][i + 1];
  }

  lemma TailOffRemains(h: HashFcn, rests: seq<seq<Filter>>, moved: set<Filter>)
    requires rests != [] && rests[0] != []
    requires Remaining(h, rests, moved)
    ensures Remaining(h, TailOff(rests), moved + {rests[0][0]})
    ensures rests[0][0] !in Members(TailOff(rests))
    ensures rests[0][0].hhNext == Head(rests[0][1..])
  {
    var later := TailOff(rests);
    TailOffNoDup(rests);
    TailOffLinks(rests);
    forall c, i | 0 <= c < |later| && 0 <= i < |later[c]|
      ensures later[c][i] == rests[c][if c == 0 then i + 1 else i] && later[c][i] != rests[0][0]
    {
      TailOffElement(rests, c, i);
    }
  }

  /** A doubling in progress: s is built from the elements of moved, and the chains
      of rests are untouched. */
  ghost predicate Expanding(h: HashFcn, cells: array<BucketCell>, s: Spread, log2: nat,
                            moved: set<Filter>, rests: seq<seq<Filter>>)
    reads cells, Members(s.chains)`hhNext, Members(s.chains)`hhPrev, Members(rests)`hhNext, Members(rests)`hashv
  {
    && Moving(h, cells, s, log2, moved)
    && Remaining(h, rests, moved)
  }

  /** What is left to place completes s to target. */
  ghost predicate Completes(h: HashFcn, log2: nat, ideal: nat, s: Spread, rests: seq<seq<Filter>>, target: Spread) {
    ideal > 0 && Wide(s, log2) && PlaceAll(h, log2, ideal, s, Flatten(rests)) == target
  }

  lemma PlaceNext(h: HashFcn, log2: nat, ideal: nat, s: Spread, rests: seq<seq<Filter>>, target: Spread)
    requires rests != [] && rests[0] != []
    requires Completes(h, log2, ideal, s, rests, target)
    ensures Completes(h, log2, ideal, Place(h, log2, ideal, s, rests[0][0]), TailOff(rests), target)
  {
    TailOffFlat(rests);
    assert Flatten(rests)[1..] == Flatten(TailOff(rests));
  }

  lemma MembersOfTail(rests: seq<seq<Filter>>)
    requires rests != [] && rests[0] != []
    ensures Members(TailOff(rests)) <= Members(rests) && rests[0][0] in Members(rests)
  {
    var later := TailOff(rests);
    assert forall i | 0 <= i < |later[0]| :: later[0][i] == rests[0][i + 1];
  }

  /** Move the first element of the current chain. */
  method MoveOne(h: HashFcn, cells: array<BucketCell>, ghost log2: nat, numBuckets: nat, ideal: nat, nonideal: nat,
                 thh: Filter, ghost s: Spread, ghost moved: set<Filter>, ghost rests: seq<seq<Filter>>)
    returns (nonideal': nat, thh': Filter?)
    requires rests != [] && rests[0] != [] && thh == rests[0][0]
    requires Expanding(h, cells, s, log2, moved, rests)
    requires ideal > 0 && numBuckets == Pow2(log2) && nonideal == s.nonideal
    modifies cells, moved`hhPrev, thh`hhNext, thh`hhPrev
    ensures Expanding(h, cells, Place(h, log2, ideal, s, thh), log2, moved + {thh}, TailOff(rests))
    ensures thh' == Head(TailOff(rests)[0])
    ensures nonideal' == Place(h, log2, ideal, s, thh).nonideal
  {
    TailOffRemains(h, rests, moved);
    thh' := thh.hhNext;
    nonideal' := PlaceBefore(h, cells, log2, numBuckets, ideal, nonideal, thh, s, moved, TailOff(rests));
  }

  /** The same move, before later, which it leaves alone. */
  method PlaceBefore(h: HashFcn, cells: array<BucketCell>, ghost log2: nat, numBuckets: nat, ideal: nat, nonideal: nat,
                     f: Filter, ghost s: Spread, ghost moved: set<Filter>, ghost later: seq<seq<Filter>>)
    returns (nonideal': nat)
    requires ideal > 0 && numBuckets == Pow2(log2)
    requires Moving(h, cells, s, log2, moved) && f !in moved
    requires f.hashv == h(f.row.name) && nonideal == s.nonideal
    requires Remaining(h, later, moved + {f}) && f !in Members(later)
    modifies cells, Members(s.chains)`hhPrev, f`hhNext, f`hhPrev
    ensures Expanding(h, cells, Place(h, log2, ideal, s, f), log2, moved + {f}, later)
    ensures nonideal' == Place(h, log2, ideal, s, f).nonideal
  {
    assert forall c, i | 0 <= c < |later| && 0 <= i < |later[c]| :: later[c][i] in Members(later);
    nonideal' := PlaceOne(h, cells, log2, numBuckets, ideal, nonideal, f, s, moved);
  }

  /** The state between two moves, all of it within the elements S. */
  ghost predicate ChainState(h: HashFcn, cells: array<BucketCell>, s: Spread, log2: nat, ideal: nat, nonideal: nat,
                             moved: set<Filter>, rests: seq<seq<Filter>>, S: set<Filter>, target: Spread)
    reads cells, Members(s.chains)`hhNext, Members(s.chains)`hhPrev, Members(rests)`hhNext, Members(rests)`hashv
  {
    && Expanding(h, cells, s, log2, moved, rests)
    && Completes(h, log2, ideal, s, rests, target)
    && nonideal == s.nonideal
    && moved <= S && Members(rests) <= S
  }

  /** One round of the inner loop. */
  method MoveStep(h: HashFcn, cells: array<BucketCell>, ghost log2: nat, numBuckets: nat, ideal: nat, nonideal: nat,
                  thh: Filter, ghost s: Spread, ghost moved: set<Filter>, ghost rests: seq<seq<Filter>>,
                  ghost S: set<Filter>, ghost target: Spread)
    returns (nonideal': nat, thh': Filter?, ghost s': Spread, ghost moved': set<Filter>)
    requires rests != [] && rests[0] != [] && thh == rests[0][0]
    requires ChainState(h, cells, s, log2, ideal, nonideal, moved, rests, S, target)
    requires numBuckets == Pow2(log2)
    modifies cells, S`hhNext, S`hhPrev
    ensures ChainState(h, cells, s', log2, ideal, nonideal', moved', TailOff(rests), S, target)
    ensures thh' == Head(TailOff(rests)[0])
  {
    PlaceNext(h, log2, ideal, s, rests, target);
    MembersOfTail(rests);
    s', moved' := Place(h, log2, ideal, s, thh), moved + {thh};
    nonideal', thh' := MoveOne(h, cells, log2, numBuckets, ideal, nonideal, thh, s, moved, rests);
  }

  /** An old bucket that is empty holds nothing that is still to be moved. */
  lemma SkipEmpty(h: HashFcn, rests: seq<seq<Filter>>, moved: set<Filter>)
    requires rests != [] && rests[0] == [] && Remaining(h, rests, moved)
    ensures Flatten(rests) == Flatten(rests[1..]) && Members(rests[1..]) <= Members(rests)
    ensures Remaining(h, rests[1..], moved)
  {
    assert Flatten(rests) == [] + Flatten(rests[1..]) == Flatten(rests[1..]);
    assert forall c | 0 <= c < |rests| - 1 :: rests[1..][c] == rests[c + 1];
  }

  lemma ChainDone(h: HashFcn, cells: array<BucketCell>, s: Spread, log2: nat, ideal: nat, nonideal: nat,
                  moved: set<Filter>, rests: seq<seq<Filter>>, S: set<Filter>, target: Spread)
    requires rests != [] && rests[0] == []
    requires ChainState(h, cells, s, log2, ideal, nonideal, moved, rests, S, target)
    ensures ChainState(h, cells, s, log2, ideal, nonideal, moved, rests[1..], S, target)
  {
    SkipEmpty(h, rests, moved);
  }

  /** Move the elements of one old bucket, front to back. */
  method MoveChain(h: HashFcn, cells: array<BucketCell>, ghost log2: nat, numBuckets: nat, ideal: nat, nonideal: nat,
                   hhHead: Filter?, ghost s: Spread, ghost moved: set<Filter>, ghost rests: seq<seq<Filter>>,
                   ghost S: set<Filter>, ghost target: Spread)
    returns (nonideal': nat, ghost s': Spread, ghost moved': set<Filter>)
    requires rests != [] && hhHead == Head(rests[0])
    requires ChainState(h, cells, s, log2, ideal, nonideal, moved, rests, S, target)
    requires numBuckets == Pow2(log2)
    modifies cells, S`hhNext, S`hhPrev
    ensures ChainState(h, cells, s', log2, ideal, nonideal', moved', rests[1..], S, target)
  {
    var thh := hhHead;
    ghost var rs := rests;
    nonideal', s', moved' := nonideal, s, moved;
    while thh != null
      invariant rs != [] && rs[1..] == rests[1..] && thh == Head(rs[0])
      invariant ChainState(h, cells, s', log2, ideal, nonideal', moved', rs, S, target)
      decreases |rs[0]|
    {
      nonideal', thh, s', moved' := MoveStep(h, cells, log2, numBuckets, ideal, nonideal', thh, s', moved', rs, S, target);
      rs := TailOff(rs);
    }
    ChainDone(h, cells, s', log2, ideal, nonideal', moved', rs, S, target);
  }

  /** HASH_EXPAND_BUCKETS, the loop over the old buckets. */
  method MoveAll(h: HashFcn, oldCells: array<BucketCell>, cells: array<BucketCell>, ghost log2: nat, numBuckets: nat,
                 ideal: nat, ghost chains: seq<seq<Filter>>, ghost S: set<Filter>, ghost target: Spread)
    returns (nonideal: nat)
    requires oldCells != cells
    requires oldCells.Length == |chains| && forall b | 0 <= b < oldCells.Length :: oldCells[b].hhHead == Head(chains[b])
    requires ChainState(h, cells, EmptySpread(log2), log2, ideal, 0, {}, chains, S, target)
    requires numBuckets == Pow2(log2)
    modifies cells, S`hhNext, S`hhPrev
    ensures CellsOk(cells, target.chains, target.mults)
    ensures nonideal == target.nonideal
  {
    nonideal := 0;
    ghost var s, moved := EmptySpread(log2), {};
    for i := 0 to oldCells.Length
      invariant ChainState(h, cells, s, log2, ideal, nonideal, moved, chains[i..], S, target)
    {
      nonideal, s, moved :=
        MoveChain(h, cells, log2, numBuckets, ideal, nonideal, oldCells[i].hhHead, s, moved, chains[i..], S, target);
      assert chains[i..][1..] == chains[i + 1..];
    }
    assert chains[oldCells.Length..] == [];
  }
}
