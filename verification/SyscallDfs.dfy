/** The memoised depth-first search that collects, for a function of a binary, the
    system calls its callees make. */
module SyscallDfs {

  /** A function: its address and the binary it is in. */
  datatype Node = Node(addr: int, file: string)

  /** The call edges within a binary and the symbol bindings across binaries, each in
      the order they are iterated, and the system calls made by a function itself. */
  datatype Graph = Graph(locals: map<Node, seq<Node>>, binds: map<Node, seq<Node>>, calls: map<Node, set<int>>)
  {
    function Locals(n: Node): seq<Node> {
      if n in locals then locals[n] else []
    }

    function Binds(n: Node): seq<Node> {
      if n in binds then binds[n] else []
    }

    function Calls(n: Node): set<int> {
      if n in calls then calls[n] else {}
    }

    ghost function Edges(): set<(Node, Node)> {
      (set n, i | n in locals && 0 <= i < |locals[n]| :: (n, locals[n][i])) +
      (set n, i | n in binds && 0 <= i < |binds[n]| :: (n, binds[n][i]))
    }
  }

  const EXECVE := 59

  /** What the search remembers: the memo table and the edges it has followed. */
  datatype Memory = Memory(cached: map<Node, set<int>>, done: set<(Node, Node)>)

  ghost function Left(g: Graph, m: Memory): nat {
    |g.Edges() - m.done|
  }

  lemma LeftShrinks(g: Graph, m: Memory, m': Memory)
    requires m.done <= m'.done
    ensures Left(g, m') <= Left(g, m)
    ensures (exists e :: e in g.Edges() && e in m'.done && e !in m.done) ==> Left(g, m') < Left(g, m)
  {
    var s, t := g.Edges() - m'.done, g.Edges() - m.done;
    assert t == s + (t - s);
    if e :| e in g.Edges() && e in m'.done && e !in m.done {
      assert e in t - s;
    }
  }

  function Last(path: seq<Node>): Node
    requires path != []
  {
    path[|path| - 1]
  }

  ghost predicate Targets(g: Graph, n: Node, ts: seq<Node>) {
    forall i | 0 <= i < |ts| :: (n, ts[i]) in g.Edges()
  }

  lemma LocalsAreTargets(g: Graph, n: Node)
    ensures Targets(g, n, g.Locals(n)) && Targets(g, n, g.Binds(n))
  {
  }

  /** dfs, as a function of the path and of what is remembered. */
  ghost function Dfs(g: Graph, path: seq<Node>, m: Memory): (r: (Memory, set<int>))
    requires path != []
    ensures m.done <= r.0.done && m.cached.Keys <= r.0.cached.Keys
    decreases Left(g, m), 1, 0
  {
    var n := Last(path);
    if n in m.cached then (m, m.cached[n])
    else
      LocalsAreTargets(g, n);
      var local_ := Follow(g, path, m, g.Locals(n), {}, 0);
      LeftShrinks(g, m, local_.0);
      var all := if local_.2 == 0 then Follow(g, path, local_.0, g.Binds(n), local_.1, 0) else local_;
      var syscalls := all.1 + g.Calls(n) - {EXECVE};
      (Memory(all.0.cached[n := syscalls], all.0.done), syscalls)
  }

  /** The loops of dfs: follow the targets that are neither on the path nor done. */
  ghost function Follow(g: Graph, path: seq<Node>, m: Memory, ts: seq<Node>, syscalls: set<int>, count: nat)
    : (r: (Memory, set<int>, nat))
    requires path != [] && Targets(g, Last(path), ts)
    ensures m.done <= r.0.done && m.cached.Keys <= r.0.cached.Keys
    decreases Left(g, m), 0, |ts|
  {
    if ts == [] then (m, syscalls, count)
    else
      var e := (Last(path), ts[0]);
      if ts[0] in path || e in m.done then Follow(g, path, m, ts[1..], syscalls, count)
      else
        var m1 := Memory(m.cached, m.done + {e});
        LeftShrinks(g, m, m1);
        var r := Dfs(g, path + [ts[0]], m1);
        LeftShrinks(g, m1, r.0);
        Follow(g, path, r.0, ts[1..], syscalls + r.1, count + 1)
  }

  // ----- the search itself

  class Analyzer {
    const g: Graph
    var cached: map<Node, set<int>>
    var done: set<(Node, Node)>

    constructor (g: Graph)
      ensures this.g == g && cached == map[] && done == {}
    {
      this.g := g;
      cached, done := map[], {};
    }

    ghost function Remembered(): Memory
      reads this
    {
      Memory(cached, done)
    }

    /** dfs */
    method Search(path: seq<Node>) returns (syscalls: set<int>)
      requires path != []
      modifies this
      ensures (Remembered(), syscalls) == Dfs(g, path, old(Remembered()))
      decreases Left(g, Remembered()), 1, 0
    {
      var n := path[|path| - 1];
      if n in cached {
        return cached[n];
      }
      LocalsAreTargets(g, n);
      ghost var m := Remembered();
      var count;
      syscalls, count := SearchTargets(path, g.Locals(n), {});
      LeftShrinks(g, m, Remembered());
      if count == 0 {
        syscalls, count := SearchTargets(path, g.Binds(n), syscalls);
      }
      syscalls := syscalls + g.Calls(n);
      syscalls := syscalls - {EXECVE};
      cached := cached[n := syscalls];
    }

    /** One of the two loops of dfs. */
    method SearchTargets(path: seq<Node>, ts: seq<Node>, found: set<int>) returns (syscalls: set<int>, count: nat)
      requires path != [] && Targets(g, Last(path), ts)
      modifies this
      ensures (Remembered(), syscalls, count) == Follow(g, path, old(Remembered()), ts, found, 0)
      decreases Left(g, Remembered()), 0, |ts|
    {
      ghost var m0 := Remembered();
      syscalls, count := found, 0;
      for i := 0 to |ts|
        invariant m0.done <= done
        invariant Follow(g, path, Remembered(), ts[i..], syscalls, count) == Follow(g, path, m0, ts, found, 0)
      {
        assert ts[i..][1..] == ts[i + 1..];
        var e := (path[|path| - 1], ts[i]);
        if ts[i] !in path && e !in done {
          ghost var m := Remembered();
          LeftShrinks(g, m0, m);
          count := count + 1;
          done := done + {e};
          LeftShrinks(g, m, Remembered());
          var ss := Search(path + [ts[i]]);
          syscalls := syscalls + ss;
        }
      }
    }
  }
}
