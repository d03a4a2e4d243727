/** What a fresh search from one function returns, as opposed to what it caches. */
module SyscallAnswer {
  import opened Collections
  import opened SyscallDfs
  import opened SyscallReach

  // ----- no call is lost

  /** x has its own calls in found, and each function that comes next is cached or on
      the path. */
  ghost predicate Gathered(g: Graph, x: Node, path: seq<Node>, m: Memory, found: set<int>) {
    OwnAt(g, x, found) && forall t | t in Next(g, x) :: t in m.cached || t in path
  }

  ghost predicate Gathers(g: Graph, path: seq<Node>, m: Memory, m': Memory, found: set<int>) {
    forall x | x in m'.cached && x !in m.cached :: Gathered(g, x, path, m', found)
  }

  /** The edges that were followed lead on from cached functions, from those of the path
      before n, or from n to cached functions. */
  ghost predicate Tracks(m: Memory, path: seq<Node>)
    requires path != []
  {
    forall e | e in m.done ::
      if e.0 == SyscallDfs.Last(path) then e.1 in m.cached
      else e.0 in m.cached || e.0 in path[..|path| - 1]
  }

  /** Every function that a search caches is gathered: on any graph, in any order. */
  lemma {:induction false} SearchGathers(g: Graph, path: seq<Node>, m: Memory)
    requires path != [] && OwnMemory(g, m) && Settled(m, path)
    requires SyscallDfs.Last(path) !in path[..|path| - 1]
    ensures var r := Dfs(g, path, m);
      Settled(r.0, path) && Gathers(g, path[..|path| - 1], m, r.0, r.1)
    decreases Left(g, m), 1, 0
  {
    var n := SyscallDfs.Last(path);
    if n !in m.cached {
      LocalsAreTargets(g, n);
      var l := Follow(g, path, m, g.Locals(n), {}, 0);
      FollowGathers(g, path, m, g.Locals(n), {}, 0);
      FollowOwn(g, path, m, g.Locals(n), {}, 0);
      LeftShrinks(g, m, l.0);
      if l.2 == 0 {
        var b := Follow(g, path, l.0, g.Binds(n), l.1, 0);
        FollowGathers(g, path, l.0, g.Binds(n), l.1, 0);
        FollowOwn(g, path, l.0, g.Binds(n), l.1, 0);
        GathersJoins(g, path, m, l.0, b.0, l.1, b.1);
        StoreGathers(g, path, m, b.0, b.1);
      } else {
        StoreGathers(g, path, m, l.0, l.1);
      }
    }
  }

  lemma GathersJoins(g: Graph, path: seq<Node>, m: Memory, m': Memory, m'': Memory, found: set<int>, found': set<int>)
    requires Gathers(g, path, m, m', found) && Gathers(g, path, m', m'', found')
    requires found <= found' && m'.cached.Keys <= m''.cached.Keys
    ensures Gathers(g, path, m, m'', found')
  {
  }

  /** Caching the last function of the path itself. */
  lemma StoreGathers(g: Graph, path: seq<Node>, m: Memory, m': Memory, found: set<int>)
    requires path != [] && Gathers(g, path, m, m', found) && Tracks(m', path)
    requires forall t | t in Next(g, SyscallDfs.Last(path)) :: t in path || t in m'.cached
    ensures var n := SyscallDfs.Last(path);
      var ks := found + g.Calls(n) - {EXECVE};
      var s := Memory(m'.cached[n := ks], m'.done);
      Settled(s, path) && Gathers(g, path[..|path| - 1], m, s, ks)
  {
    var n := SyscallDfs.Last(path);
    assert forall t | t in path :: t in path[..|path| - 1] || t == n;
  }

  /** One loop of dfs. */
  lemma {:induction false} FollowGathers(g: Graph, path: seq<Node>, m: Memory, ts: seq<Node>, found: set<int>, count: nat)
    requires path != [] && OwnMemory(g, m) && Tracks(m, path) && Targets(g, SyscallDfs.Last(path), ts)
    requires SyscallDfs.Last(path) !in path[..|path| - 1]
    ensures var r := Follow(g, path, m, ts, found, count);
      && Tracks(r.0, path) && Gathers(g, path, m, r.0, r.1)
      && forall t | t in ts :: t in path || t in r.0.cached
    decreases Left(g, m), 0, |ts|
  {
    if ts != [] {
      var e := (SyscallDfs.Last(path), ts[0]);
      if ts[0] in path || e in m.done {
        FollowGathers(g, path, m, ts[1..], found, count);
      } else {
        var m1 := Memory(m.cached, m.done + {e});
        LeftShrinks(g, m, m1);
        var r := Dfs(g, path + [ts[0]], m1);
        SearchTracks(g, path, m, ts[0]);
        LeftShrinks(g, m1, r.0);
        FollowGathers(g, path, r.0, ts[1..], found + r.1, count + 1);
        FollowOwn(g, path, r.0, ts[1..], found + r.1, count + 1);
        var last := Follow(g, path, r.0, ts[1..], found + r.1, count + 1);
        GathersJoins(g, path, m, r.0, last.0, r.1, last.1);
      }
    }
  }

  /** One round of a loop of dfs. */
  lemma {:induction false} SearchTracks(g: Graph, path: seq<Node>, m: Memory, t: Node)
    requires path != [] && OwnMemory(g, m) && Tracks(m, path) && t !in path
    requires SyscallDfs.Last(path) !in path[..|path| - 1]
    ensures var r := Dfs(g, path + [t], Memory(m.cached, m.done + {(SyscallDfs.Last(path), t)}));
      && Tracks(r.0, path) && OwnMemory(g, r.0) && Gathers(g, path, m, r.0, r.1) && t in r.0.cached
    decreases Left(g, Memory(m.cached, m.done + {(SyscallDfs.Last(path), t)})), 2, 0
  {
    var n := SyscallDfs.Last(path);
    var m1 := Memory(m.cached, m.done + {(n, t)});
    assert (path + [t])[..|path|] == path;
    SearchGathers(g, path + [t], m1);
    SearchOwn(g, path + [t], m1);
    var r := Dfs(g, path + [t], m1);
    forall e | e in r.0.done
      ensures if e.0 == n then e.1 in r.0.cached else e.0 in r.0.cached || e.0 in path[..|path| - 1]
    {
      if e.0 == n {
        assert e in m1.done;
      } else {
        assert e.0 in r.0.cached || e.0 in path;
      }
    }
  }

  lemma {:induction false} WalkCached(g: Graph, m: Memory, found: set<int>, s: seq<Node>)
    requires NextWalk(g, s) && s[0] in m.cached && Gathers(g, [], NOTHING, m, found)
    ensures SyscallDfs.Last(s) in m.cached
    decreases |s|
  {
    if |s| > 1 {
      assert Hop(g, s, 0);
      NextWalkTail(g, s);
      WalkCached(g, m, found, s[1..]);
    }
  }

  /** On every graph, cyclic or not, a fresh search from one function returns all calls of
      the functions it leads to. */
  lemma NoCallLost(g: Graph, n: Node, k: int)
    requires Calls(g, n, k)
    ensures k in Dfs(g, [n], NOTHING).1
  {
    SearchGathers(g, [n], NOTHING);
    SearchOwn(g, [n], NOTHING);
    var r := Dfs(g, [n], NOTHING);
    var t :| Leads(g, n, t) && k in g.Calls(t);
    var s :| NextWalk(g, s) && s[0] == n && SyscallDfs.Last(s) == t;
    WalkCached(g, r.0, r.1, s);
    assert Gathered(g, t, [], r.0, r.1);
  }

  // ----- what is visited besides

  ghost predicate AllOn(ts: seq<Node>, path: seq<Node>) {
    forall t | t in ts :: t in path
  }

  /** From the end of the path the search can go on to t: by a local edge, or, when all of
      those lead back to the path, by a binding. */
  ghost predicate GoesOn(g: Graph, path: seq<Node>, t: Node)
    requires path != []
  {
    var n := SyscallDfs.Last(path);
    t !in path && (t in g.Locals(n) || (AllOn(g.Locals(n), path) && t in g.Binds(n)))
  }

  ghost predicate GoesOnAt(g: Graph, path: seq<Node>, i: nat)
    requires 0 < i < |path|
  {
    GoesOn(g, path[..i], path[i])
  }

  ghost predicate SearchPath(g: Graph, path: seq<Node>) {
    path != [] && forall i | 0 < i < |path| :: GoesOnAt(g, path, i)
  }

  /** A search from n can come to x. */
  ghost predicate MaySearch(g: Graph, n: Node, x: Node) {
    exists path :: SearchPath(g, path) && path[0] == n && SyscallDfs.Last(path) == x
  }

  lemma SearchPathExtends(g: Graph, path: seq<Node>, t: Node)
    requires SearchPath(g, path) && GoesOn(g, path, t)
    ensures SearchPath(g, path + [t])
  {
    var p := path + [t];
    forall i | 0 < i < |p|
      ensures GoesOnAt(g, p, i)
    {
      if i < |path| {
        assert GoesOnAt(g, path, i) && p[..i] == path[..i];
      } else {
        assert p[..i] == path;
      }
    }
  }

  lemma SearchPathDistinct(g: Graph, path: seq<Node>, i: nat)
    requires SearchPath(g, path) && i < |path|
    ensures path[i] !in path[..i]
  {
    if i > 0 {
      assert GoesOnAt(g, path, i);
    }
  }

  ghost predicate VisitedAt(g: Graph, n: Node, ks: set<int>) {
    forall k | k in ks :: k != 59 && exists x | MaySearch(g, n, x) :: k in g.Calls(x)
  }

  ghost predicate VisitedMemory(g: Graph, n: Node, m: Memory) {
    forall x | x in m.cached :: VisitedAt(g, n, m.cached[x])
  }

  /** Everything cached or returned is a call of a function that the search comes to. */
  lemma {:induction false} SearchVisits(g: Graph, path: seq<Node>, m: Memory)
    requires SearchPath(g, path) && OwnMemory(g, m) && Settled(m, path) && VisitedMemory(g, path[0], m)
    ensures var r := Dfs(g, path, m);
      VisitedMemory(g, path[0], r.0) && VisitedAt(g, path[0], r.1)
    decreases Left(g, m), 1, 0
  {
    var n := SyscallDfs.Last(path);
    if n !in m.cached {
      LocalsAreTargets(g, n);
      SearchPathDistinct(g, path, |path| - 1);
      var l := Follow(g, path, m, g.Locals(n), {}, 0);
      FollowVisits(g, path, m, g.Locals(n), {}, 0);
      FollowGathers(g, path, m, g.Locals(n), {}, 0);
      FollowOwn(g, path, m, g.Locals(n), {}, 0);
      LeftShrinks(g, m, l.0);
      if l.2 == 0 {
        NoneFollowed(g, path, m, g.Locals(n), {}, 0);
        FollowVisits(g, path, l.0, g.Binds(n), l.1, 0);
      }
      var all := if l.2 == 0 then Follow(g, path, l.0, g.Binds(n), l.1, 0) else l;
      StoreVisits(g, path, all.0, all.1);
    }
  }

  lemma StoreVisits(g: Graph, path: seq<Node>, m: Memory, found: set<int>)
    requires SearchPath(g, path) && VisitedMemory(g, path[0], m) && VisitedAt(g, path[0], found)
    ensures var n := SyscallDfs.Last(path);
      var ks := found + g.Calls(n) - {EXECVE};
      VisitedAt(g, path[0], ks) && VisitedMemory(g, path[0], Memory(m.cached[n := ks], m.done))
  {
    assert MaySearch(g, path[0], SyscallDfs.Last(path));
  }

  lemma {:induction false} FollowVisits(g: Graph, path: seq<Node>, m: Memory, ts: seq<Node>, found: set<int>, count: nat)
    requires SearchPath(g, path) && OwnMemory(g, m) && Tracks(m, path) && Targets(g, SyscallDfs.Last(path), ts)
    requires VisitedMemory(g, path[0], m) && VisitedAt(g, path[0], found)
    requires forall t | t in ts && t !in path :: GoesOn(g, path, t)
    ensures var r := Follow(g, path, m, ts, found, count);
      VisitedMemory(g, path[0], r.0) && VisitedAt(g, path[0], r.1)
    decreases Left(g, m), 0, |ts|
  {
    if ts != [] {
      var t := ts[0];
      var e := (SyscallDfs.Last(path), t);
      if t in path || e in m.done {
        FollowVisits(g, path, m, ts[1..], found, count);
      } else {
        var m1 := Memory(m.cached, m.done + {e});
        LeftShrinks(g, m, m1);
        VisitOne(g, path, m, t);
        var r := Dfs(g, path + [t], m1);
        LeftShrinks(g, m1, r.0);
        FollowVisits(g, path, r.0, ts[1..], found + r.1, count + 1);
      }
    }
  }

  /** One round of a loop of dfs. */
  lemma {:induction false} VisitOne(g: Graph, path: seq<Node>, m: Memory, t: Node)
    requires SearchPath(g, path) && OwnMemory(g, m) && Tracks(m, path) && VisitedMemory(g, path[0], m)
    requires GoesOn(g, path, t)
    ensures var r := Dfs(g, path + [t], Memory(m.cached, m.done + {(SyscallDfs.Last(path), t)}));
      && Tracks(r.0, path) && OwnMemory(g, r.0) && VisitedMemory(g, path[0], r.0) && VisitedAt(g, path[0], r.1)
    decreases Left(g, Memory(m.cached, m.done + {(SyscallDfs.Last(path), t)})), 2, 0
  {
    SearchPathDistinct(g, path, |path| - 1);
    SearchPathExtends(g, path, t);
    SearchTracks(g, path, m, t);
    assert (path + [t])[..|path|] == path && (path + [t])[0] == path[0];
    SearchVisits(g, path + [t], Memory(m.cached, m.done + {(SyscallDfs.Last(path), t)}));
  }

  /** A loop that follows no edge finds each target on the path or its edge done. */
  lemma {:induction false} NoneFollowed(g: Graph, path: seq<Node>, m: Memory, ts: seq<Node>, found: set<int>, count: nat)
    requires path != [] && Targets(g, SyscallDfs.Last(path), ts) && Follow(g, path, m, ts, found, count).2 == count
    ensures Follow(g, path, m, ts, found, count) == (m, found, count)
    ensures forall t | t in ts :: t in path || (SyscallDfs.Last(path), t) in m.done
    decreases |ts|
  {
    if ts != [] {
      var e := (SyscallDfs.Last(path), ts[0]);
      if ts[0] in path || e in m.done {
        NoneFollowed(g, path, m, ts[1..], found, count);
      } else {
        var r := Dfs(g, path + [ts[0]], Memory(m.cached, m.done + {e}));
        CountGrows(g, path, r.0, ts[1..], found + r.1, count + 1);
      }
    }
  }

  lemma OnlyVisited(g: Graph, n: Node, k: int)
    requires k in Dfs(g, [n], NOTHING).1
    ensures k != 59 && exists x | MaySearch(g, n, x) :: k in g.Calls(x)
  {
    assert SearchPath(g, [n]);
    SearchVisits(g, [n], NOTHING);
  }

  // ----- the order of the edges

  /** h has the edges of g, in some order; anyone may make calls. */
  ghost predicate Reorders(g: Graph, h: Graph) {
    forall x :: multiset(h.Locals(x)) == multiset(g.Locals(x)) && multiset(h.Binds(x)) == multiset(g.Binds(x))
  }

  lemma SameEdges(g: Graph, h: Graph, x: Node)
    requires Reorders(g, h)
    ensures forall t :: t in h.Locals(x) <==> t in g.Locals(x)
    ensures forall t :: t in h.Binds(x) <==> t in g.Binds(x)
    ensures forall t :: t in Next(h, x) <==> t in Next(g, x)
  {
    assert forall t :: t in h.Locals(x) <==> t in multiset(h.Locals(x));
    assert forall t :: t in h.Binds(x) <==> t in multiset(h.Binds(x));
    assert h.Locals(x) == [] <==> g.Locals(x) == [] by {
      assert |multiset(h.Locals(x))| == |h.Locals(x)| && |multiset(g.Locals(x))| == |g.Locals(x)|;
    }
  }

  lemma LeadsReordered(g: Graph, h: Graph, n: Node, t: Node)
    requires Reorders(g, h) && Leads(g, n, t)
    ensures Leads(h, n, t)
  {
    var s :| NextWalk(g, s) && s[0] == n && SyscallDfs.Last(s) == t;
    forall i | 0 <= i < |s| - 1
      ensures Hop(h, s, i)
    {
      assert Hop(g, s, i);
      SameEdges(g, h, s[i]);
    }
    assert NextWalk(h, s);
  }

  lemma SearchPathReordered(g: Graph, h: Graph, path: seq<Node>)
    requires Reorders(g, h) && SearchPath(g, path)
    ensures SearchPath(h, path)
  {
    forall i | 0 < i < |path|
      ensures GoesOnAt(h, path, i)
    {
      assert GoesOnAt(g, path, i);
      SameEdges(g, h, SyscallDfs.Last(path[..i]));
    }
  }

  // ----- an order that follows a given path

  /** ts with the first t in front. */
  function Fronted(ts: seq<Node>, t: Node): (r: seq<Node>)
    ensures t in r ==> r[0] == t
  {
    var k := IndexOf(ts, t);
    if k == |ts| then IndexOfFirst(ts, t); ts else [t] + Without(ts, k)
  }

  lemma FrontedPermutes(ts: seq<Node>, t: Node)
    ensures multiset(Fronted(ts, t)) == multiset(ts)
  {
    var k := IndexOf(ts, t);
    IndexOfFirst(ts, t);
    if k < |ts| {
      assert ts == ts[..k] + [t] + ts[k + 1..];
    }
  }

  /** The edges of the i-th function with that along path in front. */
  function Guided(path: seq<Node>, i: nat, ts: seq<Node>): seq<Node> {
    if i + 1 < |path| then Fronted(ts, path[i + 1]) else ts
  }

  function GuidedEdges(path: seq<Node>, edges: map<Node, seq<Node>>): map<Node, seq<Node>> {
    map x | x in edges :: Guided(path, IndexOf(path, x), edges[x])
  }

  function GuidedGraph(g: Graph, path: seq<Node>, calls: map<Node, set<int>>): Graph {
    Graph(GuidedEdges(path, g.locals), GuidedEdges(path, g.binds), calls)
  }

  /** The next node of the path is the first to be tried. */
  ghost predicate FirstOn(path: seq<Node>, i: nat, ts: seq<Node>)
    requires i + 1 < |path|
  {
    path[i + 1] in ts ==> ts[0] == path[i + 1]
  }

  lemma GuidedFollows(g: Graph, path: seq<Node>, calls: map<Node, set<int>>)
    requires SearchPath(g, path)
    ensures var h := GuidedGraph(g, path, calls);
      && Reorders(g, h)
      && forall i | 0 <= i < |path| - 1 :: FirstOn(path, i, h.Locals(path[i])) && FirstOn(path, i, h.Binds(path[i]))
  {
    var h := GuidedGraph(g, path, calls);
    forall x
      ensures multiset(h.Locals(x)) == multiset(g.Locals(x)) && multiset(h.Binds(x)) == multiset(g.Binds(x))
    {
      GuidedPermutes(path, IndexOf(path, x), g.Locals(x));
      GuidedPermutes(path, IndexOf(path, x), g.Binds(x));
    }
    forall i | 0 <= i < |path| - 1
      ensures FirstOn(path, i, h.Locals(path[i])) && FirstOn(path, i, h.Binds(path[i]))
    {
      SearchPathDistinct(g, path, i);
      IndexOfUnique(path, path[i], i);
      GuidedFirst(path, i, g.Locals(path[i]));
      GuidedFirst(path, i, g.Binds(path[i]));
    }
  }

  lemma GuidedPermutes(path: seq<Node>, i: nat, ts: seq<Node>)
    ensures multiset(Guided(path, i, ts)) == multiset(ts)
  {
    if i + 1 < |path| {
      FrontedPermutes(ts, path[i + 1]);
    }
  }

  lemma GuidedFirst(path: seq<Node>, i: nat, ts: seq<Node>)
    requires i + 1 < |path|
    ensures FirstOn(path, i, Guided(path, i, ts))
  {
  }

  /** Only edges out of functions on the path before i were followed, and none is cached. */
  ghost predicate Straight(path: seq<Node>, i: nat, m: Memory)
    requires i <= |path|
  {
    m.cached == map[] && forall e | e in m.done :: e.0 in path[..i]
  }

  /** With the edges along the path first, the search goes straight to its end. */
  lemma {:induction false} SearchReaches(h: Graph, path: seq<Node>, i: nat, m: Memory)
    requires SearchPath(h, path) && i < |path| && Straight(path, i, m)
    requires forall k | 0 <= k < |path| - 1 :: FirstOn(path, k, h.Locals(path[k])) && FirstOn(path, k, h.Binds(path[k]))
    ensures OwnAt(h, SyscallDfs.Last(path), Dfs(h, path[..i + 1], m).1)
    decreases |path| - i, 1
  {
    var n, here := path[i], path[..i + 1];
    assert here[..i] == path[..i];
    SearchPathDistinct(h, path, i);
    if i == |path| - 1 {
      assert here == path;
      SearchOwn(h, path, m);
    } else {
      LocalsAreTargets(h, n);
      assert GoesOnAt(h, path, i + 1) && FirstOn(path, i, h.Locals(n)) && FirstOn(path, i, h.Binds(n));
      FollowOwn(h, here, m, h.Locals(n), {}, 0);
      var l := Follow(h, here, m, h.Locals(n), {}, 0);
      if path[i + 1] in h.Locals(n) {
        FollowReaches(h, path, i, m, h.Locals(n));
      } else {
        AllSkipped(h, here, m, h.Locals(n), {}, 0);
        FollowReaches(h, path, i, m, h.Binds(n));
      }
      LeftShrinks(h, m, l.0);
      if l.2 == 0 {
        FollowOwn(h, here, l.0, h.Binds(n), l.1, 0);
      }
    }
  }

  lemma {:induction false} FollowReaches(h: Graph, path: seq<Node>, i: nat, m: Memory, ts: seq<Node>)
    requires SearchPath(h, path) && i + 1 < |path| && Straight(path, i, m)
    requires forall k | 0 <= k < |path| - 1 :: FirstOn(path, k, h.Locals(path[k])) && FirstOn(path, k, h.Binds(path[k]))
    requires Targets(h, path[i], ts) && ts != [] && ts[0] == path[i + 1]
    ensures OwnAt(h, SyscallDfs.Last(path), Follow(h, path[..i + 1], m, ts, {}, 0).1)
    decreases |path| - i, 0
  {
    var here, t := path[..i + 1], path[i + 1];
    SearchPathDistinct(h, path, i);
    SearchPathDistinct(h, path, i + 1);
    var m1 := Memory(m.cached, m.done + {(path[i], t)});
    assert here[..i] == path[..i] && here + [t] == path[..i + 2] && (here + [t])[..i + 1] == here;
    SearchReaches(h, path, i + 1, m1);
    SearchOwn(h, here + [t], m1);
    var r := Dfs(h, here + [t], m1);
    FollowOwn(h, here, r.0, ts[1..], {} + r.1, 1);
  }

  /** Edges back to the path are not followed. */
  lemma {:induction false} AllSkipped(g: Graph, path: seq<Node>, m: Memory, ts: seq<Node>, found: set<int>, count: nat)
    requires path != [] && Targets(g, SyscallDfs.Last(path), ts) && AllOn(ts, path)
    ensures Follow(g, path, m, ts, found, count) == (m, found, count)
    decreases |ts|
  {
    if ts != [] {
      assert ts[0] in ts && forall t | t in ts[1..] :: t in ts;
      AllSkipped(g, path, m, ts[1..], found, count);
    }
  }

  // ----- when the answer is exact

  ghost predicate ExactAnswer(h: Graph, n: Node) {
    ExactAt(h, n, Dfs(h, [n], NOTHING).1)
  }

  /** The answer for n is exact in every order of the edges, whichever functions make
      calls, exactly when the search cannot come to a function that n does not lead to. */
  lemma AnswerIsExact(g: Graph, n: Node)
    ensures (forall h | Reorders(g, h) :: ExactAnswer(h, n)) <==> forall x | MaySearch(g, n, x) :: Leads(g, n, x)
  {
    if forall x | MaySearch(g, n, x) :: Leads(g, n, x) {
      forall h | Reorders(g, h)
        ensures ExactAnswer(h, n)
      {
        AnswerExactIn(g, h, n);
      }
    } else {
      var x :| MaySearch(g, n, x) && !Leads(g, n, x);
      var h := AnswerTooLarge(g, n, x);
    }
  }

  lemma AnswerExactIn(g: Graph, h: Graph, n: Node)
    requires Reorders(g, h) && forall x | MaySearch(g, n, x) :: Leads(g, n, x)
    ensures ExactAnswer(h, n)
  {
    var ks := Dfs(h, [n], NOTHING).1;
    forall k
      ensures k in ks <==> Calls(h, n, k)
    {
      if Calls(h, n, k) {
        NoCallLost(h, n, k);
      }
      if k in ks {
        OnlyVisited(h, n, k);
        var x :| MaySearch(h, n, x) && k in h.Calls(x);
        var path :| SearchPath(h, path) && path[0] == n && SyscallDfs.Last(path) == x;
        SearchPathReordered(h, g, path);
        assert MaySearch(g, n, x);
        LeadsReordered(g, h, n, x);
      }
    }
  }

  /** A function that the search can come to, but that n does not lead to, spoils the
      answer in some order, when it alone makes a call. */
  lemma AnswerTooLarge(g: Graph, n: Node, x: Node) returns (h: Graph)
    requires MaySearch(g, n, x) && !Leads(g, n, x)
    ensures Reorders(g, h) && !ExactAnswer(h, n)
  {
    var path :| SearchPath(g, path) && path[0] == n && SyscallDfs.Last(path) == x;
    h := GuidedGraph(g, path, map[x := {0}]);
    GuidedAnswer(g, path);
    if Calls(h, n, 0) {
      CalledOnlyBy(h, n, x);
      LeadsReordered(h, g, n, x);
    }
  }

  lemma GuidedAnswer(g: Graph, path: seq<Node>)
    requires SearchPath(g, path)
    ensures var h := GuidedGraph(g, path, map[SyscallDfs.Last(path) := {0}]);
      Reorders(g, h) && 0 in Dfs(h, [path[0]], NOTHING).1
  {
    var x := SyscallDfs.Last(path);
    var h := GuidedGraph(g, path, map[x := {0}]);
    GuidedFollows(g, path, map[x := {0}]);
    SearchPathReordered(g, h, path);
    assert path[..1] == [path[0]];
    SearchReaches(h, path, 0, NOTHING);
    assert h.Calls(x) == {0};
  }

  lemma CalledOnlyBy(h: Graph, n: Node, x: Node)
    requires h.calls == map[x := {0}] && Calls(h, n, 0)
    ensures Leads(h, n, x)
  {
    var t :| Leads(h, n, t) && 0 in h.Calls(t);
    assert t == x;
  }

  /** It cannot when every function on the way that has local callees is bound only to
      functions that n leads to; in particular without bindings. */
  lemma BoundWithin(g: Graph, n: Node)
    requires forall x, b | Leads(g, n, x) && g.Locals(x) != [] && b in g.Binds(x) :: Leads(g, n, b)
    ensures forall h | Reorders(g, h) :: ExactAnswer(h, n)
  {
    forall x | MaySearch(g, n, x)
      ensures Leads(g, n, x)
    {
      var path :| SearchPath(g, path) && path[0] == n && SyscallDfs.Last(path) == x;
      PathLeads(g, path, |path| - 1);
    }
    AnswerIsExact(g, n);
  }

  lemma {:induction false} PathLeads(g: Graph, path: seq<Node>, i: nat)
    requires SearchPath(g, path) && i < |path|
    requires forall x, b | Leads(g, path[0], x) && g.Locals(x) != [] && b in g.Binds(x) :: Leads(g, path[0], b)
    ensures Leads(g, path[0], path[i])
  {
    LeadsSelf(g, path[0]);
    if i > 0 {
      PathLeads(g, path, i - 1);
      assert GoesOnAt(g, path, i) && SyscallDfs.Last(path[..i]) == path[i - 1];
      if path[i] in Next(g, path[i - 1]) {
        LeadsSelf(g, path[i]);
        LeadsStep(g, path[i - 1], path[i], path[i]);
        LeadsOn(g, path[0], path[i - 1], path[i]);
      }
    }
  }
}
