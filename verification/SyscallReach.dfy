/** What the memoised search finds, and when that is everything. */
module SyscallReach {
  import opened SyscallDfs

  // ----- soundness, on any graph

  ghost predicate Walk(g: Graph, s: seq<Node>) {
    s != [] && forall i {:trigger s[i]} | 0 <= i < |s| - 1 :: (s[i], s[i + 1]) in g.Edges()
  }

  /** n can reach a function that makes the system call k, and k is not execve. */
  ghost predicate MayCall(g: Graph, n: Node, k: int) {
    k != 59 && exists s :: Walk(g, s) && s[0] == n && k in g.Calls(SyscallDfs.Last(s))
  }

  lemma MayCallOwn(g: Graph, n: Node, k: int)
    requires k != EXECVE && k in g.Calls(n)
    ensures MayCall(g, n, k)
  {
    assert Walk(g, [n]) && k in g.Calls(SyscallDfs.Last([n]));
  }

  lemma MayCallStep(g: Graph, n: Node, t: Node, k: int)
    requires (n, t) in g.Edges() && MayCall(g, t, k)
    ensures MayCall(g, n, k)
  {
    var s :| Walk(g, s) && s[0] == t && k in g.Calls(SyscallDfs.Last(s));
    var r := [n] + s;
    forall i {:trigger r[i]} | 0 <= i < |r| - 1
      ensures (r[i], r[i + 1]) in g.Edges()
    {
      if i > 0 {
        assert (s[i - 1], s[i - 1 + 1]) in g.Edges();
      }
    }
    assert Walk(g, r) && SyscallDfs.Last(r) == SyscallDfs.Last(s);
  }

  ghost predicate SoundAt(g: Graph, n: Node, ks: set<int>) {
    forall k | k in ks :: MayCall(g, n, k)
  }

  ghost predicate SoundMemory(g: Graph, m: Memory) {
    forall n | n in m.cached :: SoundAt(g, n, m.cached[n])
  }

  /** Whatever the graph, the path and the order of the edges: every set that is cached
      or returned holds only calls of functions the node reaches, and never execve. */
  lemma {:induction false} SearchIsSound(g: Graph, path: seq<Node>, m: Memory)
    requires path != [] && SoundMemory(g, m)
    ensures SoundMemory(g, Dfs(g, path, m).0) && SoundAt(g, SyscallDfs.Last(path), Dfs(g, path, m).1)
    decreases Left(g, m), 1, 0
  {
    var n := SyscallDfs.Last(path);
    if n !in m.cached {
      LocalsAreTargets(g, n);
      FollowIsSound(g, path, m, g.Locals(n), {}, 0);
      var l := Follow(g, path, m, g.Locals(n), {}, 0);
      LeftShrinks(g, m, l.0);
      if l.2 == 0 {
        FollowIsSound(g, path, l.0, g.Binds(n), l.1, 0);
      }
      var all := if l.2 == 0 then Follow(g, path, l.0, g.Binds(n), l.1, 0) else l;
      SoundStore(g, n, all.0, all.1);
    }
  }

  lemma SoundStore(g: Graph, n: Node, m: Memory, found: set<int>)
    requires SoundMemory(g, m) && SoundAt(g, n, found)
    ensures var ks := found + g.Calls(n) - {EXECVE};
      SoundAt(g, n, ks) && SoundMemory(g, Memory(m.cached[n := ks], m.done))
  {
    var ks := found + g.Calls(n) - {EXECVE};
    forall k | k in ks
      ensures MayCall(g, n, k)
    {
      if k in g.Calls(n) {
        MayCallOwn(g, n, k);
      }
    }
  }

  lemma {:induction false} FollowIsSound(g: Graph, path: seq<Node>, m: Memory, ts: seq<Node>, found: set<int>, count: nat)
    requires path != [] && Targets(g, SyscallDfs.Last(path), ts)
    requires SoundMemory(g, m) && SoundAt(g, SyscallDfs.Last(path), found)
    ensures var r := Follow(g, path, m, ts, found, count);
      SoundMemory(g, r.0) && SoundAt(g, SyscallDfs.Last(path), r.1)
    decreases Left(g, m), 0, |ts|
  {
    if ts != [] {
      var n := SyscallDfs.Last(path);
      var e := (n, ts[0]);
      if ts[0] in path || e in m.done {
        FollowIsSound(g, path, m, ts[1..], found, count);
      } else {
        var m1 := Memory(m.cached, m.done + {e});
        LeftShrinks(g, m, m1);
        SearchIsSound(g, path + [ts[0]], m1);
        var r := Dfs(g, path + [ts[0]], m1);
        LeftShrinks(g, m1, r.0);
        forall k | k in r.1 {
          MayCallStep(g, n, ts[0], k);
        }
        FollowIsSound(g, path, r.0, ts[1..], found + r.1, count + 1);
      }
    }
  }

  // ----- exactness

  /** The functions the search is meant to go on to: the callees in the same binary if
      there are any, else the bound symbols. */
  function Next(g: Graph, n: Node): seq<Node> {
    if g.Locals(n) != [] then g.Locals(n) else g.Binds(n)
  }

  ghost predicate Hop(g: Graph, s: seq<Node>, i: nat)
    requires i + 1 < |s|
  {
    s[i + 1] in Next(g, s[i])
  }

  ghost predicate NextWalk(g: Graph, s: seq<Node>) {
    s != [] && forall i | 0 <= i < |s| - 1 :: Hop(g, s, i)
  }

  ghost predicate Leads(g: Graph, n: Node, t: Node) {
    exists s :: NextWalk(g, s) && s[0] == n && SyscallDfs.Last(s) == t
  }

  /** k is a call, other than execve, of n or of a function that n leads to. */
  ghost predicate Calls(g: Graph, n: Node, k: int) {
    k != 59 && exists t :: Leads(g, n, t) && k in g.Calls(t)
  }

  ghost predicate ExactAt(g: Graph, n: Node, ks: set<int>) {
    forall k :: k in ks <==> Calls(g, n, k)
  }

  ghost predicate ExactMemory(g: Graph, m: Memory) {
    forall n | n in m.cached :: ExactAt(g, n, m.cached[n])
  }

  lemma LeadsSelf(g: Graph, n: Node)
    ensures Leads(g, n, n)
  {
    assert NextWalk(g, [n]) && SyscallDfs.Last([n]) == n;
  }

  lemma LeadsStep(g: Graph, n: Node, t: Node, u: Node)
    requires t in Next(g, n) && Leads(g, t, u)
    ensures Leads(g, n, u)
  {
    var s :| NextWalk(g, s) && s[0] == t && SyscallDfs.Last(s) == u;
    var r := [n] + s;
    forall i | 0 <= i < |r| - 1
      ensures Hop(g, r, i)
    {
      if i > 0 {
        assert Hop(g, s, i - 1) && r[i] == s[i - 1] && r[i + 1] == s[i];
      }
    }
    assert NextWalk(g, r) && SyscallDfs.Last(r) == u;
  }

  lemma NextWalkTail(g: Graph, s: seq<Node>)
    requires NextWalk(g, s) && |s| > 1
    ensures NextWalk(g, s[1..])
  {
    var r := s[1..];
    forall i | 0 <= i < |r| - 1
      ensures Hop(g, r, i)
    {
      assert Hop(g, s, i + 1);
    }
  }

  /** A walk away from its start leaves it once and for all by some next function. */
  lemma {:induction false} WalkLeaves(g: Graph, s: seq<Node>)
    requires NextWalk(g, s) && SyscallDfs.Last(s) != s[0]
    ensures exists t | t in Next(g, s[0]) && t != s[0] :: Leads(g, t, SyscallDfs.Last(s))
    decreases |s|
  {
    assert |s| > 1 && Hop(g, s, 0);
    NextWalkTail(g, s);
    if s[1] == s[0] {
      WalkLeaves(g, s[1..]);
    }
  }

  lemma LeadsSplits(g: Graph, n: Node, u: Node)
    requires Leads(g, n, u)
    ensures u == n || exists t | t in Next(g, n) && t != n :: Leads(g, t, u)
  {
    var s :| NextWalk(g, s) && s[0] == n && SyscallDfs.Last(s) == u;
    if u != n {
      WalkLeaves(g, s);
    }
  }

  lemma {:induction false} WalkOn(g: Graph, s: seq<Node>, u: Node)
    requires NextWalk(g, s) && Leads(g, SyscallDfs.Last(s), u)
    ensures Leads(g, s[0], u)
    decreases |s|
  {
    if |s| > 1 {
      assert Hop(g, s, 0);
      NextWalkTail(g, s);
      WalkOn(g, s[1..], u);
      LeadsStep(g, s[0], s[1], u);
    }
  }

  lemma LeadsOn(g: Graph, n: Node, t: Node, u: Node)
    requires Leads(g, n, t) && Leads(g, t, u)
    ensures Leads(g, n, u)
  {
    var s :| NextWalk(g, s) && s[0] == n && SyscallDfs.Last(s) == t;
    WalkOn(g, s, u);
  }

  lemma CallsUnfold(g: Graph, n: Node, k: int)
    ensures Calls(g, n, k) <==>
      k != EXECVE && (k in g.Calls(n) || exists t | t in Next(g, n) && t != n :: Calls(g, t, k))
  {
    LeadsSelf(g, n);
    if Calls(g, n, k) {
      var u :| Leads(g, n, u) && k in g.Calls(u);
      LeadsSplits(g, n, u);
    }
    if t :| t in Next(g, n) && t != n && Calls(g, t, k) {
      var u :| Leads(g, t, u) && k in g.Calls(u);
      LeadsStep(g, n, t, u);
    }
  }

  /** No next function of x other than itself leads back to x. */
  ghost predicate NoReturn(g: Graph, x: Node) {
    forall t | t in Next(g, x) && t != x :: !Leads(g, t, x)
  }

  ghost predicate OnlyItself(ts: seq<Node>, x: Node) {
    forall t | t in ts :: t == x
  }

  /** The search takes no local edge out of x when all of them lead to x itself; then x
      must not be bound to another function either. */
  ghost predicate NoFall(g: Graph, x: Node) {
    g.Locals(x) != [] && OnlyItself(g.Locals(x), x) ==> OnlyItself(g.Binds(x), x)
  }

  /** From n on there is no cycle, edges from a function to itself apart, and a function
      with such local edges alone is not bound to another one. */
  ghost predicate Orderly(g: Graph, n: Node) {
    forall x | Leads(g, n, x) :: NoReturn(g, x) && NoFall(g, x)
  }

  lemma OrderlyNext(g: Graph, n: Node, t: Node)
    requires Orderly(g, n) && t in Next(g, n)
    ensures Orderly(g, t)
  {
    forall x | Leads(g, t, x)
      ensures Leads(g, n, x)
    {
      LeadsStep(g, n, t, x);
    }
  }

  /** None of the other nodes of the path can be reached from its last one. */
  ghost predicate Clear(g: Graph, path: seq<Node>)
    requires path != []
  {
    forall i | 0 <= i < |path| - 1 :: !Leads(g, SyscallDfs.Last(path), path[i])
  }

  /** Going on to a next function keeps the path clear. */
  lemma ClearExtends(g: Graph, path: seq<Node>, t: Node)
    requires path != [] && Orderly(g, SyscallDfs.Last(path)) && Clear(g, path)
    requires t in Next(g, SyscallDfs.Last(path)) && t != SyscallDfs.Last(path)
    ensures Clear(g, path + [t]) && t !in path
  {
    var n := SyscallDfs.Last(path);
    LeadsSelf(g, n);
    assert NoReturn(g, n);
    forall i | 0 <= i < |path|
      ensures !Leads(g, t, path[i])
    {
      NoWayBack(g, n, t, path[i]);
    }
    ClearFrom(g, path, t);
  }

  lemma NoWayBack(g: Graph, n: Node, t: Node, x: Node)
    requires NoReturn(g, n) && t in Next(g, n) && t != n
    requires x == n || !Leads(g, n, x)
    ensures !Leads(g, t, x)
  {
    if Leads(g, t, x) {
      LeadsStep(g, n, t, x);
    }
  }

  lemma ClearFrom(g: Graph, path: seq<Node>, t: Node)
    requires path != [] && forall i | 0 <= i < |path| :: !Leads(g, t, path[i])
    ensures Clear(g, path + [t]) && t !in path
  {
    LeadsSelf(g, t);
  }

  /** The followed edges start at functions that are cached or on the path before n. */
  ghost predicate Settled(m: Memory, path: seq<Node>)
    requires path != []
  {
    forall e | e in m.done :: e.0 in m.cached || e.0 in path[..|path| - 1]
  }

  /** What the calls made for the targets ts, n itself apart, have added to found. */
  ghost predicate Covers(g: Graph, n: Node, ts: seq<Node>, found: set<int>, result: set<int>) {
    && found <= result
    && (forall k | k in result :: k in found || exists t | t in ts && t != n :: Calls(g, t, k))
    && (forall t, k | t in ts && t != n && Calls(g, t, k) :: k in result)
  }

  /** The edges of n that are done have their calls in found, the others are settled. */
  ghost predicate HalfSettled(g: Graph, m: Memory, path: seq<Node>, found: set<int>)
    requires path != []
  {
    forall e | e in m.done ::
      if e.0 == SyscallDfs.Last(path) then forall k | Calls(g, e.1, k) :: k in found
      else e.0 in m.cached || e.0 in path[..|path| - 1]
  }

  /** From m to m', only functions that n leads to were cached, and only edges out of
      such functions were followed. */
  ghost predicate NewFrom(g: Graph, n: Node, m: Memory, m': Memory) {
    && (forall x | x in m'.cached && x !in m.cached :: Leads(g, n, x))
    && (forall e | e in m'.done && e !in m.done :: Leads(g, n, e.0))
  }

  /** From an orderly function, a clear path and an exact memo table, the search caches
      and returns exact sets, whatever was cached before and in whatever order the
      edges are iterated. */
  lemma {:induction false} SearchIsExact(g: Graph, path: seq<Node>, m: Memory)
    requires path != [] && Orderly(g, SyscallDfs.Last(path)) && Clear(g, path)
    requires SyscallDfs.Last(path) !in path[..|path| - 1]
    requires ExactMemory(g, m) && Settled(m, path)
    ensures var r := Dfs(g, path, m);
      && ExactMemory(g, r.0) && ExactAt(g, SyscallDfs.Last(path), r.1)
      && SyscallDfs.Last(path) in r.0.cached
      && Settled(r.0, path) && NewFrom(g, SyscallDfs.Last(path), m, r.0)
    decreases Left(g, m), 1, 0
  {
    var n := SyscallDfs.Last(path);
    if n !in m.cached {
      LocalsAreTargets(g, n);
      LeadsSelf(g, n);
      assert NoFall(g, n);
      if OnlyItself(g.Locals(n), n) {
        SkipsItself(g, path, m, g.Locals(n), {}, 0);
        if g.Locals(n) == [] {
          FollowIsExact(g, path, m, g.Binds(n), {}, 0);
        } else {
          SkipsItself(g, path, m, g.Binds(n), {}, 0);
        }
        var b := Follow(g, path, m, g.Binds(n), {}, 0);
        StoreIsExact(g, path, b.0, b.1);
      } else {
        var l := Follow(g, path, m, g.Locals(n), {}, 0);
        FollowIsExact(g, path, m, g.Locals(n), {}, 0);
        SomeFollowed(g, path, m, g.Locals(n), {}, 0);
        StoreIsExact(g, path, l.0, l.1);
      }
    }
  }

  /** Edges back to the last function of the path are never followed. */
  lemma {:induction false} SkipsItself(g: Graph, path: seq<Node>, m: Memory, ts: seq<Node>, found: set<int>, count: nat)
    requires path != [] && Targets(g, SyscallDfs.Last(path), ts) && OnlyItself(ts, SyscallDfs.Last(path))
    ensures Follow(g, path, m, ts, found, count) == (m, found, count)
    decreases |ts|
  {
    if ts != [] {
      assert ts[0] in ts && forall t | t in ts[1..] :: t in ts;
      SkipsItself(g, path, m, ts[1..], found, count);
    }
  }

  /** The state of a loop of dfs at the last node of the path, with found collected. */
  ghost predicate Ready(g: Graph, path: seq<Node>, m: Memory, found: set<int>)
    requires path != []
  {
    && Orderly(g, SyscallDfs.Last(path)) && Clear(g, path)
    && SyscallDfs.Last(path) !in path[..|path| - 1] && SyscallDfs.Last(path) !in m.cached
    && ExactMemory(g, m) && HalfSettled(g, m, path, found)
  }

  ghost predicate Among(ts: seq<Node>, us: seq<Node>) {
    forall i | 0 <= i < |ts| :: ts[i] in us
  }

  /** One loop of dfs, over functions that come next. */
  lemma {:induction false} FollowIsExact(g: Graph, path: seq<Node>, m: Memory, ts: seq<Node>, found: set<int>, count: nat)
    requires path != [] && Ready(g, path, m, found)
    requires Targets(g, SyscallDfs.Last(path), ts)
    requires Among(ts, Next(g, SyscallDfs.Last(path)))
    ensures var r := Follow(g, path, m, ts, found, count);
      && Ready(g, path, r.0, r.1) && Covers(g, SyscallDfs.Last(path), ts, found, r.1)
      && NewFrom(g, SyscallDfs.Last(path), m, r.0)
    decreases Left(g, m), 0, 2 * |ts| + 1
  {
    if ts != [] {
      var n := SyscallDfs.Last(path);
      if ts[0] == n || (n, ts[0]) in m.done {
        if ts[0] != n {
          ClearExtends(g, path, ts[0]);
        }
        FollowIsExact(g, path, m, ts[1..], found, count);
        CoversSkip(g, n, ts, found, Follow(g, path, m, ts[1..], found, count).1);
      } else {
        FollowNewIsExact(g, path, m, ts, found, count);
      }
    }
  }

  lemma FollowUnfolds(g: Graph, path: seq<Node>, m: Memory, ts: seq<Node>, found: set<int>, count: nat)
    requires path != [] && Targets(g, SyscallDfs.Last(path), ts)
    requires ts != [] && ts[0] !in path && (SyscallDfs.Last(path), ts[0]) !in m.done
    ensures var r := Dfs(g, path + [ts[0]], Memory(m.cached, m.done + {(SyscallDfs.Last(path), ts[0])}));
      Follow(g, path, m, ts, found, count) == Follow(g, path, r.0, ts[1..], found + r.1, count + 1)
  {
  }

  /** The same, when the first edge is new. */
  lemma {:induction false} FollowNewIsExact(g: Graph, path: seq<Node>, m: Memory, ts: seq<Node>,
                                            found: set<int>, count: nat)
    requires path != [] && Ready(g, path, m, found)
    requires Targets(g, SyscallDfs.Last(path), ts)
    requires Among(ts, Next(g, SyscallDfs.Last(path)))
    requires ts != [] && ts[0] != SyscallDfs.Last(path) && (SyscallDfs.Last(path), ts[0]) !in m.done
    ensures var r := Follow(g, path, m, ts, found, count);
      && Ready(g, path, r.0, r.1) && Covers(g, SyscallDfs.Last(path), ts, found, r.1)
      && NewFrom(g, SyscallDfs.Last(path), m, r.0)
    decreases Left(g, m), 0, 2 * |ts|
  {
    var t := ts[0];
    var m1 := Memory(m.cached, m.done + {(SyscallDfs.Last(path), t)});
    ClearExtends(g, path, t);
    LeftShrinks(g, m, m1);
    FollowOneIsExact(g, path, m, t, found);
    var r := Dfs(g, path + [t], m1);
    LeftShrinks(g, m1, r.0);
    FollowRestIsExact(g, path, m, r.0, ts, found, r.1, count);
    FollowUnfolds(g, path, m, ts, found, count);
  }

  /** The rest of the loop, once the first edge has brought the memory to m'. */
  lemma {:induction false} FollowRestIsExact(g: Graph, path: seq<Node>, m: Memory, m': Memory, ts: seq<Node>,
                                             found: set<int>, first: set<int>, count: nat)
    requires path != [] && Ready(g, path, m', found + first) && ts != [] && ExactAt(g, ts[0], first)
    requires ts[0] != SyscallDfs.Last(path)
    requires Targets(g, SyscallDfs.Last(path), ts)
    requires Among(ts, Next(g, SyscallDfs.Last(path)))
    requires NewFrom(g, SyscallDfs.Last(path), m, m')
    ensures var r := Follow(g, path, m', ts[1..], found + first, count + 1);
      && Ready(g, path, r.0, r.1) && Covers(g, SyscallDfs.Last(path), ts, found, r.1)
      && NewFrom(g, SyscallDfs.Last(path), m, r.0)
    decreases Left(g, m'), 0, 2 * |ts|
  {
    var rest := Follow(g, path, m', ts[1..], found + first, count + 1);
    FollowIsExact(g, path, m', ts[1..], found + first, count + 1);
    CoversFirst(g, SyscallDfs.Last(path), ts, found, first, rest.1);
    NewFromJoins(g, SyscallDfs.Last(path), m, m', rest.0);
  }

  lemma NewFromJoins(g: Graph, n: Node, m: Memory, m': Memory, m'': Memory)
    requires NewFrom(g, n, m, m') && NewFrom(g, n, m', m'')
    ensures NewFrom(g, n, m, m'')
  {
  }

  lemma SettledBefore(g: Graph, path: seq<Node>, m: Memory, t: Node, found: set<int>)
    requires path != [] && HalfSettled(g, m, path, found)
    ensures Settled(Memory(m.cached, m.done + {(SyscallDfs.Last(path), t)}), path + [t])
    ensures (path + [t])[..|path + [t]| - 1] == path
  {
  }

  /** One round of a loop of dfs. */
  lemma {:induction false} FollowOneIsExact(g: Graph, path: seq<Node>, m: Memory, t: Node, found: set<int>)
    requires path != [] && Ready(g, path, m, found)
    requires t in Next(g, SyscallDfs.Last(path)) && (SyscallDfs.Last(path), t) in g.Edges()
    requires t != SyscallDfs.Last(path) && (SyscallDfs.Last(path), t) !in m.done
    ensures var n := SyscallDfs.Last(path);
      var r := Dfs(g, path + [t], Memory(m.cached, m.done + {(n, t)}));
      && Ready(g, path, r.0, found + r.1) && ExactAt(g, t, r.1)
      && NewFrom(g, n, m, r.0)
    decreases Left(g, Memory(m.cached, m.done + {(SyscallDfs.Last(path), t)})), 2, 0
  {
    var n := SyscallDfs.Last(path);
    var m1 := Memory(m.cached, m.done + {(n, t)});
    ClearExtends(g, path, t);
    OrderlyNext(g, n, t);
    SettledBefore(g, path, m, t, found);
    SearchIsExact(g, path + [t], m1);
    HalfSettledAfter(g, path, m, t, Dfs(g, path + [t], m1).0, found, Dfs(g, path + [t], m1).1);
  }

  lemma CoversSkip(g: Graph, n: Node, ts: seq<Node>, found: set<int>, result: set<int>)
    requires ts != [] && Covers(g, n, ts[1..], found, result)
    requires ts[0] == n || forall k | Calls(g, ts[0], k) :: k in found
    ensures Covers(g, n, ts, found, result)
  {
  }

  lemma CoversFirst(g: Graph, n: Node, ts: seq<Node>, found: set<int>, first: set<int>, result: set<int>)
    requires ts != [] && Covers(g, n, ts[1..], found + first, result)
    requires ts[0] != n && ExactAt(g, ts[0], first)
    ensures Covers(g, n, ts, found, result)
  {
  }

  /** What the search of t left behind concerns n only through the edge to t. */
  lemma HalfSettledAfter(g: Graph, path: seq<Node>, m: Memory, t: Node, m': Memory, found: set<int>, first: set<int>)
    requires path != [] && HalfSettled(g, m, path, found) && ExactAt(g, t, first)
    requires Orderly(g, SyscallDfs.Last(path)) && t in Next(g, SyscallDfs.Last(path)) && t != SyscallDfs.Last(path)
    requires SyscallDfs.Last(path) !in m.cached
    requires Settled(m', path + [t])
    requires NewFrom(g, t, Memory(m.cached, m.done + {(SyscallDfs.Last(path), t)}), m')
    ensures HalfSettled(g, m', path, found + first)
    ensures SyscallDfs.Last(path) !in m'.cached
    ensures NewFrom(g, SyscallDfs.Last(path), m, m')
  {
    var n := SyscallDfs.Last(path);
    NewFromNext(g, n, t, m, m');
    assert (path + [t])[..|path|] == path;
    forall e | e in m'.done && e.0 != n
      ensures e.0 in m'.cached || e.0 in path[..|path| - 1]
    {
      assert e.0 in m'.cached || e.0 in path;
    }
  }

  lemma NewFromNext(g: Graph, n: Node, t: Node, m: Memory, m': Memory)
    requires Orderly(g, n) && t in Next(g, n) && t != n && n !in m.cached
    requires NewFrom(g, t, Memory(m.cached, m.done + {(n, t)}), m')
    ensures NewFrom(g, n, m, m') && n !in m'.cached
    ensures forall e | e in m'.done && e.0 == n :: e in m.done || e == (n, t)
  {
    LeadsSelf(g, n);
    assert NoReturn(g, n);
    forall x | Leads(g, t, x)
      ensures Leads(g, n, x)
    {
      LeadsStep(g, n, t, x);
    }
  }

  /** Storing what the next functions gave, with the own calls, is exact. */
  lemma StoreIsExact(g: Graph, path: seq<Node>, m: Memory, found: set<int>)
    requires path != [] && ExactMemory(g, m)
    requires Covers(g, SyscallDfs.Last(path), Next(g, SyscallDfs.Last(path)), {}, found)
    requires HalfSettled(g, m, path, found)
    ensures var n := SyscallDfs.Last(path);
      var ks := found + g.Calls(n) - {EXECVE};
      ExactAt(g, n, ks) && ExactMemory(g, Memory(m.cached[n := ks], m.done)) &&
      Settled(Memory(m.cached[n := ks], m.done), path)
  {
    var n := SyscallDfs.Last(path);
    var ks := found + g.Calls(n) - {EXECVE};
    forall k
      ensures k in ks <==> Calls(g, n, k)
    {
      CallsUnfold(g, n, k);
    }
  }

  /** With a target other than itself, an unsearched function has an edge followed. */
  lemma {:induction false} SomeFollowed(g: Graph, path: seq<Node>, m: Memory, ts: seq<Node>, found: set<int>, count: nat)
    requires path != [] && Orderly(g, SyscallDfs.Last(path)) && Clear(g, path)
    requires Targets(g, SyscallDfs.Last(path), ts) && Among(ts, Next(g, SyscallDfs.Last(path)))
    requires forall e | e in m.done :: e.0 != SyscallDfs.Last(path)
    requires !OnlyItself(ts, SyscallDfs.Last(path))
    ensures Follow(g, path, m, ts, found, count).2 > count
    decreases |ts|
  {
    var n := SyscallDfs.Last(path);
    if ts[0] == n {
      var t :| t in ts && t != n;
      assert t in ts[1..];
      SomeFollowed(g, path, m, ts[1..], found, count);
    } else {
      ClearExtends(g, path, ts[0]);
      FollowUnfolds(g, path, m, ts, found, count);
      var r := Dfs(g, path + [ts[0]], Memory(m.cached, m.done + {(n, ts[0])}));
      CountGrows(g, path, r.0, ts[1..], found + r.1, count + 1);
    }
  }

  lemma {:induction false} CountGrows(g: Graph, path: seq<Node>, m: Memory, ts: seq<Node>, found: set<int>, count: nat)
    requires path != [] && Targets(g, SyscallDfs.Last(path), ts)
    ensures Follow(g, path, m, ts, found, count).2 >= count
    decreases |ts|
  {
    if ts != [] {
      var n := SyscallDfs.Last(path);
      var e := (n, ts[0]);
      if ts[0] in path || e in m.done {
        CountGrows(g, path, m, ts[1..], found, count);
      } else {
        var m1 := Memory(m.cached, m.done + {e});
        var r := Dfs(g, path + [ts[0]], m1);
        CountGrows(g, path, r.0, ts[1..], found + r.1, count + 1);
      }
    }
  }

  // ----- runs

  /** One entry of the main loop: search from the origins of a PHP function, with a
      fresh edge record and whatever earlier searches cached. */
  method Analyse(a: Analyzer, origins: seq<Node>) returns (scs: set<int>)
    requires origins != []
    modifies a
    ensures (a.Remembered(), scs) == Dfs(a.g, origins, Memory(old(a.cached), {}))
  {
    a.done := {};
    scs := a.Search(origins);
  }

  /** The last origin is orderly and leads to none of the others. */
  ghost predicate ClearStart(g: Graph, origins: seq<Node>) {
    && origins != [] && Orderly(g, SyscallDfs.Last(origins)) && Clear(g, origins)
    && SyscallDfs.Last(origins) !in origins[..|origins| - 1]
  }

  /** Search after search from such origins, every answer and every cached set is exact,
      whatever the searches before have cached. */
  method AnalyseAll(a: Analyzer, starts: seq<seq<Node>>) returns (results: seq<set<int>>)
    requires a.cached == map[] && forall i | 0 <= i < |starts| :: ClearStart(a.g, starts[i])
    modifies a
    ensures |results| == |starts|
    ensures forall i | 0 <= i < |starts| :: starts[i] != [] && ExactAt(a.g, SyscallDfs.Last(starts[i]), results[i])
    ensures ExactMemory(a.g, a.Remembered())
  {
    results := [];
    for i := 0 to |starts|
      invariant ExactMemory(a.g, a.Remembered())
      invariant |results| == i && forall k | 0 <= k < i :: ExactAt(a.g, SyscallDfs.Last(starts[k]), results[k])
    {
      SearchIsExact(a.g, starts[i], Memory(a.cached, {}));
      var scs := Analyse(a, starts[i]);
      results := results + [scs];
    }
  }

  // ----- several origins

  /** Every cached call is made by a function outside away. */
  ghost predicate AvoidsAt(g: Graph, away: set<Node>, ks: set<int>) {
    forall k | k in ks :: exists y | y !in away :: k in g.Calls(y)
  }

  ghost predicate AvoidsMemory(g: Graph, away: set<Node>, m: Memory) {
    forall x | x in m.cached :: AvoidsAt(g, away, m.cached[x])
  }

  /** The functions a path starts with, other than its last, are never searched. */
  lemma {:induction false} SearchAvoids(g: Graph, path: seq<Node>, m: Memory, away: set<Node>)
    requires path != [] && SyscallDfs.Last(path) !in away && AvoidsMemory(g, away, m)
    requires forall x | x in away :: x in path
    ensures AvoidsMemory(g, away, Dfs(g, path, m).0) && AvoidsAt(g, away, Dfs(g, path, m).1)
    decreases Left(g, m), 1, 0
  {
    var n := SyscallDfs.Last(path);
    if n !in m.cached {
      LocalsAreTargets(g, n);
      FollowAvoids(g, path, m, g.Locals(n), {}, 0, away);
      var l := Follow(g, path, m, g.Locals(n), {}, 0);
      LeftShrinks(g, m, l.0);
      if l.2 == 0 {
        FollowAvoids(g, path, l.0, g.Binds(n), l.1, 0, away);
      }
      var all := if l.2 == 0 then Follow(g, path, l.0, g.Binds(n), l.1, 0) else l;
      StoreAvoids(g, n, all.0, all.1, away);
    }
  }

  lemma StoreAvoids(g: Graph, n: Node, m: Memory, found: set<int>, away: set<Node>)
    requires n !in away && AvoidsMemory(g, away, m) && AvoidsAt(g, away, found)
    ensures var ks := found + g.Calls(n) - {EXECVE};
      AvoidsAt(g, away, ks) && AvoidsMemory(g, away, Memory(m.cached[n := ks], m.done))
  {
  }

  lemma {:induction false} FollowAvoids(g: Graph, path: seq<Node>, m: Memory, ts: seq<Node>, found: set<int>,
                                        count: nat, away: set<Node>)
    requires path != [] && Targets(g, SyscallDfs.Last(path), ts)
    requires AvoidsMemory(g, away, m) && AvoidsAt(g, away, found)
    requires forall x | x in away :: x in path
    ensures var r := Follow(g, path, m, ts, found, count);
      AvoidsMemory(g, away, r.0) && AvoidsAt(g, away, r.1)
    decreases Left(g, m), 0, |ts|
  {
    if ts != [] {
      var e := (SyscallDfs.Last(path), ts[0]);
      if ts[0] in path || e in m.done {
        FollowAvoids(g, path, m, ts[1..], found, count, away);
      } else {
        var m1 := Memory(m.cached, m.done + {e});
        LeftShrinks(g, m, m1);
        SearchAvoids(g, path + [ts[0]], m1, away);
        var r := Dfs(g, path + [ts[0]], m1);
        LeftShrinks(g, m1, r.0);
        FollowAvoids(g, path, r.0, ts[1..], found + r.1, count + 1, away);
      }
    }
  }

  const NOTHING := Memory(map[], {})

  ghost predicate ExactWith(g: Graph, path: seq<Node>, calls: map<Node, set<int>>)
    requires path != []
  {
    var h := Graph(g.locals, g.binds, calls);
    ExactAt(h, SyscallDfs.Last(path), Dfs(h, path, NOTHING).1)
  }

  lemma LeadsIgnoresCalls(g: Graph, h: Graph, n: Node, t: Node)
    requires g.locals == h.locals && g.binds == h.binds && Leads(g, n, t)
    ensures Leads(h, n, t)
  {
    var s :| NextWalk(g, s) && s[0] == n && SyscallDfs.Last(s) == t;
    forall i | 0 <= i < |s| - 1
      ensures Hop(h, s, i)
    {
      assert Hop(g, s, i);
    }
    assert NextWalk(h, s);
  }

  /** Orderliness does not depend on who makes calls. */
  lemma OrderlyIgnoresCalls(g: Graph, h: Graph, n: Node)
    requires g.locals == h.locals && g.binds == h.binds && Orderly(g, n)
    ensures Orderly(h, n)
  {
    forall x | Leads(h, n, x)
      ensures NoReturn(h, x) && NoFall(h, x)
    {
      LeadsIgnoresCalls(h, g, n, x);
      assert NoReturn(g, x) && NoFall(g, x);
      forall t | t in Next(h, x) && t != x
        ensures !Leads(h, t, x)
      {
        if Leads(h, t, x) {
          LeadsIgnoresCalls(h, g, t, x);
          assert false;
        }
      }
    }
  }

  /** Started from several origins, the last of them orderly, the search finds all calls
      of the last one, whichever functions make calls, exactly when no other origin can
      be reached from it. */
  lemma OriginsExact(g: Graph, origins: seq<Node>)
    requires origins != [] && Orderly(g, SyscallDfs.Last(origins))
    requires SyscallDfs.Last(origins) !in origins[..|origins| - 1]
    ensures Clear(g, origins) <==> forall calls :: ExactWith(g, origins, calls)
  {
    var n := SyscallDfs.Last(origins);
    if Clear(g, origins) {
      forall calls
        ensures ExactWith(g, origins, calls)
      {
        var h := Graph(g.locals, g.binds, calls);
        forall i | 0 <= i < |origins| - 1
          ensures !Leads(h, n, origins[i])
        {
          if Leads(h, n, origins[i]) {
            LeadsIgnoresCalls(h, g, n, origins[i]);
          }
        }
        OrderlyIgnoresCalls(g, h, n);
        SearchIsExact(h, origins, NOTHING);
      }
    } else {
      OriginLost(g, origins);
    }
  }

  lemma OriginLost(g: Graph, origins: seq<Node>)
    requires origins != [] && !Clear(g, origins)
    requires SyscallDfs.Last(origins) !in origins[..|origins| - 1]
    ensures exists calls :: !ExactWith(g, origins, calls)
  {
    var n := SyscallDfs.Last(origins);
    var i :| 0 <= i < |origins| - 1 && Leads(g, n, origins[i]);
    var calls := map[origins[i] := {0}];
    var h := Graph(g.locals, g.binds, calls);
    LeadsIgnoresCalls(g, h, n, origins[i]);
    assert Calls(h, n, 0);
    var away := set k | 0 <= k < |origins| - 1 :: origins[k];
    assert forall x | x in away :: x in origins[..|origins| - 1];
    SearchAvoids(h, origins, NOTHING, away);
    assert origins[i] in away;
    assert 0 !in Dfs(h, origins, NOTHING).1;
    assert !ExactWith(g, origins, calls);
  }

  // ----- where the search is not exact

  ghost predicate OwnAt(g: Graph, n: Node, ks: set<int>) {
    g.Calls(n) - {EXECVE} <= ks
  }

  ghost predicate OwnMemory(g: Graph, m: Memory) {
    forall n | n in m.cached :: OwnAt(g, n, m.cached[n])
  }

  /** From m to m', no edge out of a function of path was followed. */
  ghost predicate SparesEdges(path: seq<Node>, m: Memory, m': Memory) {
    forall e | e in m'.done && e !in m.done :: e.0 !in path
  }

  /** On any graph the search caches the function it is called for, with its own calls,
      and leaves alone the edges of the functions before it on the path. */
  lemma {:induction false} SearchOwn(g: Graph, path: seq<Node>, m: Memory)
    requires path != [] && OwnMemory(g, m) && SyscallDfs.Last(path) !in path[..|path| - 1]
    ensures var r := Dfs(g, path, m);
      && OwnMemory(g, r.0) && SyscallDfs.Last(path) in r.0.cached && OwnAt(g, SyscallDfs.Last(path), r.1)
      && SparesEdges(path[..|path| - 1], m, r.0)
    decreases Left(g, m), 1, 0
  {
    var n := SyscallDfs.Last(path);
    if n !in m.cached {
      LocalsAreTargets(g, n);
      FollowOwn(g, path, m, g.Locals(n), {}, 0);
      var l := Follow(g, path, m, g.Locals(n), {}, 0);
      LeftShrinks(g, m, l.0);
      if l.2 == 0 {
        FollowOwn(g, path, l.0, g.Binds(n), l.1, 0);
        SparesJoins(path[..|path| - 1], m, l.0, Follow(g, path, l.0, g.Binds(n), l.1, 0).0);
      }
      var all := if l.2 == 0 then Follow(g, path, l.0, g.Binds(n), l.1, 0) else l;
      StoreOwn(g, n, all.0, all.1);
    }
  }

  lemma StoreOwn(g: Graph, n: Node, m: Memory, found: set<int>)
    requires OwnMemory(g, m)
    ensures var ks := found + g.Calls(n) - {EXECVE};
      OwnAt(g, n, ks) && OwnMemory(g, Memory(m.cached[n := ks], m.done))
  {
  }

  lemma SparesJoins(path: seq<Node>, m: Memory, m': Memory, m'': Memory)
    requires SparesEdges(path, m, m') && SparesEdges(path, m', m'')
    ensures SparesEdges(path, m, m'')
  {
  }

  lemma {:induction false} FollowOwn(g: Graph, path: seq<Node>, m: Memory, ts: seq<Node>, found: set<int>, count: nat)
    requires path != [] && OwnMemory(g, m) && SyscallDfs.Last(path) !in path[..|path| - 1]
    requires Targets(g, SyscallDfs.Last(path), ts)
    ensures var r := Follow(g, path, m, ts, found, count);
      OwnMemory(g, r.0) && found <= r.1 && SparesEdges(path[..|path| - 1], m, r.0)
    decreases Left(g, m), 0, |ts|
  {
    if ts != [] {
      var e := (SyscallDfs.Last(path), ts[0]);
      if ts[0] in path || e in m.done {
        FollowOwn(g, path, m, ts[1..], found, count);
      } else {
        var m1 := Memory(m.cached, m.done + {e});
        LeftShrinks(g, m, m1);
        assert (path + [ts[0]])[..|path|] == path;
        SearchOwn(g, path + [ts[0]], m1);
        var r := Dfs(g, path + [ts[0]], m1);
        LeftShrinks(g, m1, r.0);
        FollowOwn(g, path, r.0, ts[1..], found + r.1, count + 1);
        SparesFirst(path, m, e, r.0, Follow(g, path, r.0, ts[1..], found + r.1, count + 1).0);
      }
    }
  }

  lemma SparesFirst(path: seq<Node>, m: Memory, e: (Node, Node), m': Memory, m'': Memory)
    requires path != [] && e.0 == SyscallDfs.Last(path) && e.0 !in path[..|path| - 1]
    requires SparesEdges(path, Memory(m.cached, m.done + {e}), m') && SparesEdges(path[..|path| - 1], m', m'')
    ensures SparesEdges(path[..|path| - 1], m, m'')
  {
    forall f | f in m''.done && f !in m.done
      ensures f.0 !in path[..|path| - 1]
    {
      if f in m'.done && f != e {
        assert f.0 !in path;
      }
    }
  }

  /** t has been searched, and its own calls were found. */
  ghost predicate Taken(g: Graph, m: Memory, t: Node, found: set<int>) {
    t in m.cached && OwnAt(g, t, found)
  }

  ghost predicate DoneTaken(g: Graph, n: Node, m: Memory, found: set<int>) {
    forall e | e in m.done && e.0 == n :: Taken(g, m, e.1, found)
  }

  /** A loop of dfs at n searches every target other than n, on any graph. */
  lemma {:induction false} FollowTakes(g: Graph, n: Node, m: Memory, ts: seq<Node>, found: set<int>, count: nat)
    requires OwnMemory(g, m) && Targets(g, n, ts) && DoneTaken(g, n, m, found)
    ensures var r := Follow(g, [n], m, ts, found, count);
      && found <= r.1
      && forall t | t in ts && t != n :: Taken(g, r.0, t, r.1)
    decreases |ts|
  {
    if ts != [] {
      var e := (n, ts[0]);
      if ts[0] == n || e in m.done {
        FollowTakes(g, n, m, ts[1..], found, count);
        FollowOwn(g, [n], m, ts[1..], found, count);
      } else {
        var m1 := Memory(m.cached, m.done + {e});
        assert ([n] + [ts[0]])[..1] == [n];
        SearchOwn(g, [n] + [ts[0]], m1);
        var r := Dfs(g, [n] + [ts[0]], m1);
        FollowTakes(g, n, r.0, ts[1..], found + r.1, count + 1);
        FollowOwn(g, [n], r.0, ts[1..], found + r.1, count + 1);
      }
    }
  }

  /** Every set cached by a search from n is exact when calls says who makes calls. */
  ghost predicate ExactSearch(g: Graph, n: Node, calls: map<Node, set<int>>) {
    var h := Graph(g.locals, g.binds, calls);
    ExactMemory(h, Dfs(h, [n], NOTHING).0)
  }

  /** On a cycle through n the memo table keeps a set that was cut short: a next
      function that leads back is cached while n is on the path, without n's call. */
  lemma CycleCutsShort(g: Graph, n: Node, t: Node)
    requires t in Next(g, n) && t != n && Leads(g, t, n)
    ensures exists calls :: !ExactSearch(g, n, calls)
  {
    var calls := map[n := {0}];
    var h := Graph(g.locals, g.binds, calls);
    LeadsIgnoresCalls(g, h, t, n);
    assert Calls(h, t, 0);
    LocalsAreTargets(h, n);
    var l := Follow(h, [n], NOTHING, h.Locals(n), {}, 0);
    FollowTakes(h, n, NOTHING, h.Locals(n), {}, 0);
    FollowAvoids(h, [n], NOTHING, h.Locals(n), {}, 0, {n});
    if h.Locals(n) == [] {
      FollowTakes(h, n, NOTHING, h.Binds(n), {}, 0);
    }
    if l.2 == 0 {
      FollowAvoids(h, [n], l.0, h.Binds(n), l.1, 0, {n});
    }
    var m := Dfs(h, [n], NOTHING).0;
    assert t in m.cached && AvoidsAt(h, {n}, m.cached[t]);
    assert 0 !in m.cached[t] && !ExactAt(h, t, m.cached[t]);
    assert !ExactSearch(g, n, calls);
  }

  lemma {:induction false} OnlyItselfLeads(g: Graph, s: seq<Node>)
    requires NextWalk(g, s) && OnlyItself(Next(g, s[0]), s[0])
    ensures SyscallDfs.Last(s) == s[0]
    decreases |s|
  {
    if |s| > 1 {
      assert Hop(g, s, 0);
      NextWalkTail(g, s);
      OnlyItselfLeads(g, s[1..]);
    }
  }

  /** A function whose local edges all lead to itself gets the calls of the functions it
      is bound to, though its binary has callees. */
  lemma SelfEdgeFallsThrough(g: Graph, n: Node)
    requires !NoFall(g, n)
    ensures exists calls :: !ExactSearch(g, n, calls)
  {
    var b :| b in g.Binds(n) && b != n;
    var calls := map[b := {0}];
    var h := Graph(g.locals, g.binds, calls);
    LocalsAreTargets(h, n);
    SkipsItself(h, [n], NOTHING, h.Locals(n), {}, 0);
    FollowTakes(h, n, NOTHING, h.Binds(n), {}, 0);
    var m := Dfs(h, [n], NOTHING).0;
    assert h.Calls(b) == {0} && 0 in m.cached[n];
    if Calls(h, n, 0) {
      var u :| Leads(h, n, u) && 0 in h.Calls(u);
      var s :| NextWalk(h, s) && s[0] == n && SyscallDfs.Last(s) == u;
      OnlyItselfLeads(h, s);
      assert false;
    }
    assert !ExactSearch(g, n, calls);
  }

  /** The searches from n and from all it leads to cache exact sets, whichever functions
      make calls, exactly when n is orderly. */
  lemma AlwaysExact(g: Graph, n: Node)
    ensures Orderly(g, n) <==> forall x, calls | Leads(g, n, x) :: ExactSearch(g, x, calls)
  {
    if Orderly(g, n) {
      forall x, calls | Leads(g, n, x)
        ensures ExactSearch(g, x, calls)
      {
        OrderlyFrom(g, n, x);
        OrderlyIgnoresCalls(g, Graph(g.locals, g.binds, calls), x);
        SearchIsExact(Graph(g.locals, g.binds, calls), [x], NOTHING);
      }
    } else {
      var x :| Leads(g, n, x) && !(NoReturn(g, x) && NoFall(g, x));
      if !NoFall(g, x) {
        SelfEdgeFallsThrough(g, x);
      } else {
        var t :| t in Next(g, x) && t != x && Leads(g, t, x);
        CycleCutsShort(g, x, t);
      }
    }
  }

  lemma OrderlyFrom(g: Graph, n: Node, x: Node)
    requires Orderly(g, n) && Leads(g, n, x)
    ensures Orderly(g, x)
  {
    forall y | Leads(g, x, y)
      ensures Leads(g, n, y)
    {
      LeadsOn(g, n, x, y);
    }
  }

  /** Over all starts: exact exactly when edges from a function to itself are the only
      cycles and no function falls through to its bindings from such edges alone. */
  lemma AcyclicIsExact(g: Graph)
    ensures (forall x :: NoReturn(g, x) && NoFall(g, x)) <==> forall x, calls :: ExactSearch(g, x, calls)
  {
    if forall x :: NoReturn(g, x) && NoFall(g, x) {
      forall x, calls
        ensures ExactSearch(g, x, calls)
      {
        AlwaysExact(g, x);
        LeadsSelf(g, x);
      }
    } else {
      var x :| !(NoReturn(g, x) && NoFall(g, x));
      LeadsSelf(g, x);
      AlwaysExact(g, x);
    }
  }
}
