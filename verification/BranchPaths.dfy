/** The path enumerator of the branch analysis and the trails it is meant to list. */
module BranchPaths {
  import opened XdebugSet

  const JMP_NOT_SET: int := 0x7fff_fffe
  const JMP_EXIT: int := 0x7fff_fffd
  const MAX_PATHS := 4096

  /** The outs of every block, as far as outs_count. */
  type Cfg = seq<seq<int>>

  /** Every out is a block or the exit marker. */
  ghost predicate WellFormed(outs: Cfg) {
    forall nr, i | 0 <= nr < |outs| && 0 <= i < |outs[nr]| ::
      outs[nr][i] == JMP_EXIT || 0 <= outs[nr][i] < |outs|
  }

  predicate Followed(out: int) {
    out != 0 && out != JMP_EXIT
  }

  /** xdebug_path_exists: the edge from a to b is already on the path. */
  ghost predicate HasEdge(path: seq<int>, a: int, b: int) {
    exists i {:trigger path[i]} | 0 <= i < |path| - 1 :: path[i] == a && path[i + 1] == b
  }

  ghost predicate InCfg(outs: Cfg, path: seq<int>) {
    path != [] && forall i | 0 <= i < |path| :: 0 <= path[i] < |outs|
  }

  function Last(path: seq<int>): int
    requires path != []
  {
    path[|path| - 1]
  }

  /** The enumerator would follow this out from the end of the path. */
  ghost predicate Usable(path: seq<int>, out: int)
    requires path != []
  {
    Followed(out) && !HasEdge(path, Last(path), out)
  }

  // ----- termination

  ghost function CfgEdges(outs: Cfg): set<(int, int)> {
    set nr, i | 0 <= nr < |outs| && 0 <= i < |outs[nr]| :: (nr, outs[nr][i])
  }

  ghost function PathEdges(path: seq<int>): set<(int, int)> {
    set i {:trigger path[i]} | 0 <= i < |path| - 1 :: (path[i], path[i + 1])
  }

  /** The edges of the graph that are not on the path yet. */
  ghost function Unused(outs: Cfg, path: seq<int>): nat {
    |CfgEdges(outs) - PathEdges(path)|
  }

  lemma UnusedShrinks(outs: Cfg, path: seq<int>, i: nat)
    requires InCfg(outs, path) && i < |outs[Last(path)]|
    requires Usable(path, outs[Last(path)][i])
    ensures Unused(outs, path + [outs[Last(path)][i]]) < Unused(outs, path)
  {
    var a, b := Last(path), outs[Last(path)][i];
    var longer := path + [b];
    assert (longer[|path| - 1], longer[|path|]) == (a, b);
    assert forall k {:trigger path[k]} | 0 <= k < |path| - 1 :: longer[k] == path[k] && longer[k + 1] == path[k + 1];
    assert PathEdges(path) <= PathEdges(longer) && (a, b) in PathEdges(longer);
    assert (a, b) in CfgEdges(outs) - PathEdges(path);
    StrictlySmaller(CfgEdges(outs) - PathEdges(longer), CfgEdges(outs) - PathEdges(path), (a, b));
  }

  lemma StrictlySmaller(s: set<(int, int)>, t: set<(int, int)>, e: (int, int))
    requires s <= t && e in t && e !in s
    ensures |s| < |t|
  {
    var rest := t - s;
    assert e in rest;
    assert t == s + rest;
  }

  // ----- the listing without the cap

  /** All that the enumerator lists from this path on, in its order. */
  ghost function ListFrom(outs: Cfg, path: seq<int>): seq<seq<int>>
    requires WellFormed(outs) && InCfg(outs, path)
    decreases Unused(outs, path), |outs[Last(path)]| + 1
  {
    if exists i | 0 <= i < |outs[Last(path)]| :: Usable(path, outs[Last(path)][i])
    then ListVia(outs, path, 0)
    else [path]
  }

  /** The part of the listing that comes from the outs from number i on. */
  ghost function ListVia(outs: Cfg, path: seq<int>, i: nat): seq<seq<int>>
    requires WellFormed(outs) && InCfg(outs, path)
    requires i <= |outs[Last(path)]|
    decreases Unused(outs, path), |outs[Last(path)]| - i
  {
    var nexts := outs[Last(path)];
    if i == |nexts| then []
    else
      (if Usable(path, nexts[i]) then UnusedShrinks(outs, path, i); ListFrom(outs, path + [nexts[i]]) else [])
      + ListVia(outs, path, i + 1)
  }

  ghost function ListEntries(outs: Cfg, entries: set<nat>, e: nat): seq<seq<int>>
    requires WellFormed(outs) && e <= |outs|
    decreases |outs| - e
  {
    if e == |outs| then []
    else (if e in entries then ListFrom(outs, [e]) else []) + ListEntries(outs, entries, e + 1)
  }

  function Capped(paths: seq<seq<int>>): (r: seq<seq<int>>)
    ensures |r| <= MAX_PATHS
  {
    if |paths| <= MAX_PATHS then paths else paths[..MAX_PATHS]
  }

  lemma CappedTwice(a: seq<seq<int>>, b: seq<seq<int>>, c: seq<seq<int>>)
    ensures Capped(Capped(a + b) + c) == Capped(a + (b + c))
  {
    assert a + (b + c) == (a + b) + c;
  }

  /** The list paths, with more still to be appended to it, will be all. */
  ghost predicate Owing(paths: seq<seq<int>>, more: seq<seq<int>>, all: seq<seq<int>>) {
    |paths| <= MAX_PATHS && Capped(paths + more) == all
  }

  lemma OwingLess(paths: seq<seq<int>>, one: seq<seq<int>>, more: seq<seq<int>>, all: seq<seq<int>>)
    requires Owing(paths, one + more, all)
    ensures Owing(Capped(paths + one), more, all)
  {
    CappedTwice(paths, one, more);
  }

  lemma ViaUnfolds(outs: Cfg, path: seq<int>, i: nat)
    requires WellFormed(outs) && InCfg(outs, path) && i < |outs[Last(path)]|
    ensures !Usable(path, outs[Last(path)][i]) ==> ListVia(outs, path, i) == ListVia(outs, path, i + 1)
    ensures Usable(path, outs[Last(path)][i]) ==>
      InCfg(outs, path + [outs[Last(path)][i]]) && Unused(outs, path + [outs[Last(path)][i]]) < Unused(outs, path) &&
      ListVia(outs, path, i) == ListFrom(outs, path + [outs[Last(path)][i]]) + ListVia(outs, path, i + 1)
  {
    if Usable(path, outs[Last(path)][i]) {
      UnusedShrinks(outs, path, i);
    } else {
      var rest := ListVia(outs, path, i + 1);
      assert [] + rest == rest;
    }
  }

  lemma EntriesUnfold(outs: Cfg, entries: set<nat>, e: nat)
    requires WellFormed(outs) && e < |outs|
    ensures ListEntries(outs, entries, e) ==
      (if e in entries then ListFrom(outs, [e]) + ListEntries(outs, entries, e + 1) else ListEntries(outs, entries, e + 1))
  {
    var rest := ListEntries(outs, entries, e + 1);
    assert [] + rest == rest;
  }

  // ----- the enumerator

  class Finder {
    const outs: Cfg
    var paths: seq<seq<int>>

    constructor (outs: Cfg)
      ensures this.outs == outs && paths == []
    {
      this.outs := outs;
      paths := [];
    }

    /** xdebug_path_exists */
    static method PathExists(path: seq<int>, elem1: int, elem2: int) returns (r: bool)
      requires path != []
      ensures r <==> HasEdge(path, elem1, elem2)
    {
      for i := 0 to |path| - 1
        invariant forall k {:trigger path[k]} | 0 <= k < i :: !(path[k] == elem1 && path[k + 1] == elem2)
      {
        if path[i] == elem1 && path[i + 1] == elem2 {
          return true;
        }
      }
      return false;
    }

    /** xdebug_branch_find_path */
    method FindPath(nr: int, prevPath: seq<int>)
      requires WellFormed(outs) && InCfg(outs, prevPath + [nr])
      requires |paths| <= MAX_PATHS
      modifies `paths
      ensures paths == Capped(old(paths) + ListFrom(outs, prevPath + [nr]))
      decreases Unused(outs, prevPath + [nr])
    {
      if |paths| > 4095 {
        return;
      }
      var newPath := prevPath + [nr];
      var last := newPath[|newPath| - 1];
      var found := false;
      ghost var start := paths;
      ghost var all := Capped(start + ListVia(outs, newPath, 0));
      for i := 0 to |outs[nr]|
        invariant Owing(paths, ListVia(outs, newPath, i), all)
        invariant found <==> exists k | 0 <= k < i :: Usable(newPath, outs[nr][k])
        invariant !found ==> paths == start
      {
        var out := outs[nr][i];
        var exists_ := PathExists(newPath, last, out);
        ViaUnfolds(outs, newPath, i);
        if out != 0 && out != JMP_EXIT && !exists_ {
          OwingLess(paths, ListFrom(outs, newPath + [out]), ListVia(outs, newPath, i + 1), all);
          FindPath(out, newPath);
          found := true;
        }
      }
      if !found {
        paths := paths + [newPath];
      }
    }

    /** The first part of xdebug_branch_find_paths. */
    method FindPaths(entryPoints: Set)
      requires WellFormed(outs) && paths == []
      requires entryPoints.Valid() && entryPoints.size == |outs|
      modifies `paths
      ensures paths == Capped(ListEntries(outs, entryPoints.Members(), 0))
    {
      ghost var S := entryPoints.Members();
      ghost var all := Capped(ListEntries(outs, S, 0));
      assert [] + ListEntries(outs, S, 0) == ListEntries(outs, S, 0);
      for i := 0 to entryPoints.size
        invariant Owing(paths, ListEntries(outs, S, i), all)
      {
        var entry := entryPoints.In(i);
        EntriesUnfold(outs, S, i);
        if entry {
          OwingLess(paths, ListFrom(outs, [i]), ListEntries(outs, S, i + 1), all);
          assert [] + [i] == [i];
          FindPath(i, []);
        }
      }
      assert ListEntries(outs, S, |outs|) == [] && paths + [] == paths;
    }
  }
}
