/** The keys under which recorded paths are found again at the end of a function. */
module BranchPathKeys {
  import opened Collections
  import opened Decimal

  /** What snprintf leaves of s in a buffer that takes size bytes with the NUL. */
  function Snprintf(size: nat, s: string): string
    requires size > 0
  {
    if |s| < size then s else s[..size - 1]
  }

  function ElementKey(e: nat): string {
    Snprintf(15, Digits(e) + ":")
  }

  /** xdebug_create_key_for_path */
  function KeyOf(path: seq<nat>): string {
    if path == [] then "" else KeyOf(path[..|path| - 1]) + ElementKey(path[|path| - 1])
  }

  /** Path elements are unsigned int. */
  ghost predicate Unsigned(path: seq<nat>) {
    forall i | 0 <= i < |path| :: path[i] < 0x1_0000_0000
  }

  /** The 15-byte buffer never cuts the text of an unsigned int. */
  lemma ElementKeyWhole(e: nat)
    requires e < 0x1_0000_0000
    ensures ElementKey(e) == Digits(e) + ":"
  {
    assert Pow10(5) == 100000;
    assert Pow10(10) == 10000000000;
    DigitsLength(e, 10);
  }

  /** A separator of s == a + x lies in a when x has none. */
  lemma SeparatorIn(a: string, x: string, b: string, y: string)
    requires a + x == b + y
    requires forall i | 0 <= i < |x| :: x[i] != ':'
    requires b == [] || b[|b| - 1] == ':'
    ensures |b| <= |a|
  {
    var s := a + x;
    assert b != [] ==> s[|b| - 1] == ':' by {
      assert s == b + y;
    }
    assert forall i | |a| <= i < |s| :: s[i] == x[i - |a|];
  }

  lemma LastSeparator(a: string, b: string, x: string, y: string)
    requires a + x + ":" == b + y + ":"
    requires forall i | 0 <= i < |x| :: x[i] != ':'
    requires forall i | 0 <= i < |y| :: y[i] != ':'
    requires a == [] || a[|a| - 1] == ':'
    requires b == [] || b[|b| - 1] == ':'
    ensures a == b && x == y
  {
    var s, t := a + x, b + y;
    assert s == (s + ":")[..|s|] && t == (t + ":")[..|t|];
    assert |s| == |t| && s == t;
    SeparatorIn(a, x, b, y);
    SeparatorIn(b, y, a, x);
    assert a == s[..|a|] && b == t[..|b|];
    assert x == s[|a|..] && y == t[|b|..];
  }

  lemma KeyEnds(path: seq<nat>)
    requires Unsigned(path)
    ensures path == [] || (KeyOf(path) != [] && KeyOf(path)[|KeyOf(path)| - 1] == ':')
  {
    if path != [] {
      ElementKeyWhole(path[|path| - 1]);
    }
  }

  /** Distinct element sequences have distinct keys. */
  lemma {:induction false} KeyInjective(p: seq<nat>, q: seq<nat>)
    requires Unsigned(p) && Unsigned(q)
    requires KeyOf(p) == KeyOf(q)
    ensures p == q
    decreases |p|
  {
    KeyEnds(p);
    KeyEnds(q);
    if p != [] && q != [] {
      var p', x, q', y := p[..|p| - 1], p[|p| - 1], q[..|q| - 1], q[|q| - 1];
      ElementKeyWhole(x);
      ElementKeyWhole(y);
      KeyEnds(p');
      KeyEnds(q');
      assert KeyOf(p') + (Digits(x) + ":") == KeyOf(p') + Digits(x) + ":";
      assert KeyOf(q') + (Digits(y) + ":") == KeyOf(q') + Digits(y) + ":";
      LastSeparator(KeyOf(p'), KeyOf(q'), Digits(x), Digits(y));
      DigitsInjective(x, y);
      KeyInjective(p', q');
      assert p == p' + [x] && q == q' + [y];
    }
  }

  /** The hash leads every key of the first n paths to the last path that has it. */
  ghost predicate Indexed(paths: seq<seq<nat>>, pathHash: map<string, nat>, n: nat)
    requires n <= |paths|
  {
    && (forall k | k in pathHash ::
      pathHash[k] < n && KeyOf(paths[pathHash[k]]) == k && forall j | pathHash[k] < j < n :: KeyOf(paths[j]) != k)
    && (forall j | 0 <= j < n :: KeyOf(paths[j]) in pathHash)
  }

  lemma IndexedStep(paths: seq<seq<nat>>, pathHash: map<string, nat>, n: nat)
    requires n < |paths| && Indexed(paths, pathHash, n)
    ensures Indexed(paths, pathHash[KeyOf(paths[n]) := n], n + 1)
  {
  }

  /** The recorded paths of a function with their hit flags, and the hash from keys
      to paths; a path is known by its position in the list. */
  class PathInfo {
    const paths: seq<seq<nat>>
    var hit: seq<bool>
    var pathHash: map<string, nat>

    ghost predicate Valid()
      reads this
    {
      |hit| == |paths| && (forall j | 0 <= j < |paths| :: Unsigned(paths[j])) && Indexed(paths, pathHash, |paths|)
    }

    /** xdebug_create_key_for_path */
    static method CreateKey(path: seq<nat>) returns (str: string)
      ensures str == KeyOf(path)
    {
      str := "";
      for i := 0 to |path|
        invariant str == KeyOf(path[..i])
      {
        assert path[..i + 1][..i] == path[..i];
        str := str + Snprintf(15, Digits(path[i]) + ":");
      }
      assert path[..|path|] == path;
    }

    /** The second part of xdebug_branch_find_paths: later paths replace earlier ones
        under the same key. */
    constructor (paths: seq<seq<nat>>)
      requires forall j | 0 <= j < |paths| :: Unsigned(paths[j])
      ensures this.paths == paths && Valid()
      ensures hit == seq(|paths|, _ => false)
    {
      this.paths := paths;
      hit := seq(|paths|, _ => false);
      pathHash := map[];
      new;
      for i := 0 to |paths|
        invariant Indexed(paths, pathHash, i)
        invariant hit == seq(|paths|, _ => false)
      {
        var key := CreateKey(paths[i]);
        IndexedStep(paths, pathHash, i);
        pathHash := pathHash[key := i];
      }
    }

    /** xdebug_code_coverage_end_of_function, with the lookup and marking of
        xdebug_branch_info_mark_end_of_function_reached: the last recorded path with
        the executed sequence is marked, if there is one, and no other path is. */
    method EndOfFunction(executed: seq<nat>)
      requires Valid() && Unsigned(executed)
      modifies `hit
      ensures Valid()
      ensures forall j | 0 <= j < |paths| ::
        hit[j] == (old(hit)[j] || (paths[j] == executed && executed !in paths[j + 1..]))
    {
      var key := CreateKey(executed);
      forall j | 0 <= j < |paths| && KeyOf(paths[j]) == key
        ensures paths[j] == executed
      {
        KeyInjective(paths[j], executed);
      }
      if key !in pathHash {
        return;
      }
      var i := pathHash[key];
      hit := hit[i := true];
    }
  }

  /** The text of a key: each element in decimal with a colon behind it, in order. */
  lemma {:induction false} KeyText(e: nat, path: seq<nat>)
    requires e < 0x1_0000_0000 && Unsigned(path)
    ensures KeyOf([e] + path) == Digits(e) + ":" + KeyOf(path)
  {
    var p := [e] + path;
    if path == [] {
      ElementKeyWhole(e);
      assert p[..0] == [];
    } else {
      var n := |path| - 1;
      assert p[..|p| - 1] == [e] + path[..n] && p[|p| - 1] == path[n];
      KeyText(e, path[..n]);
      Regroup(Digits(e) + ":", KeyOf(path[..n]), ElementKey(path[n]));
    }
  }
}
