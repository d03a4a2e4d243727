/** What one bucket doubling does to the chains and to the bookkeeping. */
module UtHashExpansion {
  import opened BitArithmetic
  import opened UtHashRow
  import opened UtHashSpec

  // ----- where the elements go

  /** The elements of fs that hash to bucket b of 2^log2, in reverse order. */
  function Sift(h: HashFcn, fs: seq<Filter>, log2: nat, b: nat): seq<Filter> {
    if fs == [] then []
    else Sift(h, fs[1..], log2, b) + (if BucketOf(h, fs[0], log2) == b then [fs[0]] else [])
  }

  lemma {:induction false} SiftConcat(h: HashFcn, fs: seq<Filter>, gs: seq<Filter>, log2: nat, b: nat)
    ensures Sift(h, fs + gs, log2, b) == Sift(h, gs, log2, b) + Sift(h, fs, log2, b)
  {
    if fs == [] {
      assert fs + gs == gs;
    } else {
      assert (fs + gs)[1..] == fs[1..] + gs;
      SiftConcat(h, fs[1..], gs, log2, b);
    }
  }

  lemma {:induction false} SiftNone(h: HashFcn, fs: seq<Filter>, log2: nat, b: nat)
    requires forall i | 0 <= i < |fs| :: BucketOf(h, fs[i], log2) != b
    ensures Sift(h, fs, log2, b) == []
  {
    if fs != [] {
      SiftNone(h, fs[1..], log2, b);
    }
  }

  lemma {:induction false} PlaceAllSifts(h: HashFcn, log2: nat, ideal: nat, s: Spread, fs: seq<Filter>, b: nat)
    requires ideal > 0 && Wide(s, log2) && b < Pow2(log2)
    ensures PlaceAll(h, log2, ideal, s, fs).chains[b] == Sift(h, fs, log2, b) + s.chains[b]
    decreases |fs|
  {
    if fs != [] {
      var r := Place(h, log2, ideal, s, fs[0]);
      var here := if BucketOf(h, fs[0], log2) == b then [fs[0]] else [];
      var rest := Sift(h, fs[1..], log2, b);
      PlaceAllSifts(h, log2, ideal, r, fs[1..], b);
      assert r.chains[b] == here + s.chains[b];
      assert Sift(h, fs, log2, b) == rest + here;
      assert rest + (here + s.chains[b]) == (rest + here) + s.chains[b];
    }
  }

  /** Doubling sends bucket b to b or to b + 2^log2. */
  lemma BucketSplits(h: HashFcn, f: Filter, log2: nat)
    ensures var b, b' := BucketOf(h, f, log2), BucketOf(h, f, log2 + 1);
      (b' == b || b' == b + Pow2(log2)) && Bucket(b', log2) == b
  {
    BucketIsRemainder(h(f.row.name), log2);
    BucketIsRemainder(h(f.row.name), log2 + 1);
    BucketIsRemainder(BucketOf(h, f, log2 + 1), log2);
    HalvesOfResidue(h(f.row.name), Pow2(log2));
  }

  lemma OneChainFeeds(h: HashFcn, chain: seq<Filter>, c: nat, log2: nat, b: nat)
    requires forall i | 0 <= i < |chain| :: BucketOf(h, chain[i], log2) == c
    requires b < Pow2(log2 + 1) && c != Bucket(b, log2)
    ensures Sift(h, chain, log2 + 1, b) == []
  {
    forall i | 0 <= i < |chain|
      ensures BucketOf(h, chain[i], log2 + 1) != b
    {
      BucketSplits(h, chain[i], log2);
    }
    SiftNone(h, chain, log2 + 1, b);
  }

  /** Of the chains from number c on, only the one of bucket b & (2^log2 - 1) feeds the
      new bucket b. */
  lemma {:induction false} FlattenSifts(h: HashFcn, chains: seq<seq<Filter>>, c: nat, log2: nat, b: nat)
    requires forall d, i | 0 <= d < |chains| && 0 <= i < |chains[d]| :: BucketOf(h, chains[d][i], log2) == c + d
    requires b < Pow2(log2 + 1)
    ensures var home := Bucket(b, log2);
      Sift(h, Flatten(chains), log2 + 1, b)
        == if c <= home < c + |chains| then Sift(h, chains[home - c], log2 + 1, b) else []
    decreases |chains|
  {
    if chains != [] {
      var home := Bucket(b, log2);
      SiftConcat(h, chains[0], Flatten(chains[1..]), log2 + 1, b);
      FlattenSifts(h, chains[1..], c + 1, log2, b);
      if c != home {
        OneChainFeeds(h, chains[0], c, log2, b);
      }
    }
  }

  /** A doubling splits every chain: the elements of bucket b go, in reverse order,
      to bucket b or to bucket b + 2^log2, and nothing else goes there. */
  lemma ExpandSplitsChains(h: HashFcn, t: Table, b: nat)
    requires t.app != [] && Consistent(h, t) && b < Pow2(t.log2)
    ensures var n := Pow2(t.log2);
      |Expand(h, t).chains| == 2 * n &&
      Expand(h, t).chains[b] == Sift(h, t.chains[b], t.log2 + 1, b) &&
      Expand(h, t).chains[b + n] == Sift(h, t.chains[b], t.log2 + 1, b + n)
    ensures forall i | 0 <= i < |t.chains[b]| ::
      BucketOf(h, t.chains[b][i], t.log2 + 1) in {b, b + Pow2(t.log2)}
  {
    var n, log2 := Pow2(t.log2), t.log2 + 1;
    var ideal := IdealChain(|t.app|, log2);
    forall i | 0 <= i < |t.chains[b]|
      ensures BucketOf(h, t.chains[b][i], log2) in {b, b + n}
    {
      BucketSplits(h, t.chains[b][i], t.log2);
    }
    HomeBucket(b, t.log2);
    NewChain(h, t, b);
    NewChain(h, t, b + n);
  }

  lemma HomeBucket(b: nat, log2: nat)
    requires b < Pow2(log2)
    ensures b + Pow2(log2) < Pow2(log2 + 1)
    ensures Bucket(b, log2) == Bucket(b + Pow2(log2), log2) == b
  {
    BucketIsRemainder(b, log2);
    BucketIsRemainder(b + Pow2(log2), log2);
    DivisionUnique(b + Pow2(log2), Pow2(log2), 1, b);
    DivisionUnique(b, Pow2(log2), 0, b);
  }

  lemma NewChain(h: HashFcn, t: Table, b: nat)
    requires t.app != [] && Consistent(h, t) && b < Pow2(t.log2 + 1)
    ensures Expand(h, t).chains[b] == Sift(h, t.chains[Bucket(b, t.log2)], t.log2 + 1, b)
  {
    RedistributeSifts(h, t, b);
    HomeSifts(h, t, b);
  }

  lemma HomeSifts(h: HashFcn, t: Table, b: nat)
    requires Consistent(h, t) && b < Pow2(t.log2 + 1)
    ensures Bucket(b, t.log2) < |t.chains|
    ensures Sift(h, Flatten(t.chains), t.log2 + 1, b) == Sift(h, t.chains[Bucket(b, t.log2)], t.log2 + 1, b)
  {
    FlattenSifts(h, t.chains, 0, t.log2, b);
  }

  lemma RedistributeSifts(h: HashFcn, t: Table, b: nat)
    requires t.app != [] && b < Pow2(t.log2 + 1)
    ensures Redistribute(h, t).chains[b] == Sift(h, Flatten(t.chains), t.log2 + 1, b)
  {
    var log2 := t.log2 + 1;
    PlaceAllSifts(h, log2, IdealChain(|t.app|, log2), EmptySpread(log2), Flatten(t.chains), b);
  }

  // ----- the bookkeeping

  function Excess(len: nat, ideal: nat): nat {
    if len > ideal then len - ideal else 0
  }

  /** The items whose chain position exceeds the ideal length, bucket by bucket. */
  function TotalExcess(chains: seq<seq<Filter>>, ideal: nat): nat {
    if chains == [] then 0 else Excess(|chains[0]|, ideal) + TotalExcess(chains[1..], ideal)
  }

  lemma {:induction false} ExcessUpdate(chains: seq<seq<Filter>>, b: nat, c: seq<Filter>, ideal: nat)
    requires b < |chains|
    ensures TotalExcess(chains[b := c], ideal) + Excess(|chains[b]|, ideal)
         == TotalExcess(chains, ideal) + Excess(|c|, ideal)
  {
    if b == 0 {
      assert chains[0 := c][1..] == chains[1..];
    } else {
      assert chains[b := c][1..] == chains[1..][b - 1 := c];
      ExcessUpdate(chains[1..], b - 1, c, ideal);
    }
  }

  lemma {:induction false} ExcessOfEmpty(n: nat, ideal: nat)
    ensures TotalExcess(seq(n, _ => []), ideal) == 0
  {
    if n > 0 {
      assert seq<seq<Filter>>(n, _ => [])[1..] == seq(n - 1, _ => []);
      ExcessOfEmpty(n - 1, ideal);
    }
  }

  /** The counters of a spread are what its chains say. */
  ghost predicate Tallied(s: Spread, ideal: nat)
    requires ideal > 0
  {
    && |s.chains| == |s.mults|
    && s.nonideal == TotalExcess(s.chains, ideal)
    && forall b | 0 <= b < |s.chains| ::
      s.mults[b] == if |s.chains[b]| > ideal then |s.chains[b]| / ideal else 0
  }

  lemma {:induction false} PlaceAllTallies(h: HashFcn, log2: nat, ideal: nat, s: Spread, fs: seq<Filter>)
    requires ideal > 0 && Wide(s, log2) && Tallied(s, ideal)
    ensures Tallied(PlaceAll(h, log2, ideal, s, fs), ideal)
    decreases |fs|
  {
    if fs != [] {
      var b := BucketOf(h, fs[0], log2);
      ExcessUpdate(s.chains, b, [fs[0]] + s.chains[b], ideal);
      PlaceAllTallies(h, log2, ideal, Place(h, log2, ideal, s, fs[0]), fs[1..]);
    }
  }

  /** The counters a doubling leaves behind: the ideal length is the ceiling of items
      over buckets, nonideal_items counts the items beyond it, and each bucket's
      multiplier is its overload factor. */
  lemma ExpandCounts(h: HashFcn, t: Table)
    requires t.app != [] && Consistent(h, t)
    ensures var r := Expand(h, t);
      && r.ideal >= 1
      && (forall c: nat :: r.ideal <= c <==> |t.app| <= c * Pow2(r.log2))
      && r.nonideal == TotalExcess(r.chains, r.ideal)
      && (forall b | 0 <= b < |r.chains| ::
        r.mults[b] == if |r.chains[b]| > r.ideal then |r.chains[b]| / r.ideal else 0)
  {
    var log2 := t.log2 + 1;
    var ideal := IdealChain(|t.app|, log2);
    IdealChainIsCeiling(|t.app|, log2);
    ExcessOfEmpty(Pow2(log2), ideal);
    PlaceAllTallies(h, log2, ideal, EmptySpread(log2), Flatten(t.chains));
    forall c: nat
      ensures ideal <= c <==> |t.app| <= c * Pow2(log2)
    {
      CeilDivIsLeast(|t.app|, Pow2(log2), c);
    }
  }
}
