/** The recursive queries that collect, file by file, the system calls a script may
    reach through its includes and the classes it instantiates. */
module FilterClosure {
  import opened Collections

  /** A text column, which may be NULL. */
  datatype Cell = Null | Text(s: string)

  /** SQL comparisons are not true of NULL. */
  predicate SqlEq(a: Cell, b: Cell) {
    a.Text? && a == b
  }

  predicate SqlNe(a: Cell, b: Cell) {
    a.Text? && b.Text? && a != b
  }

  datatype Call = Call(file: Cell, name: string)
  datatype Function = Function(id: int, name: string)
  datatype Requirement = Requirement(syscallId: int, functionId: int)
  datatype Syscall = Syscall(id: int, name: string, number: int)

  /** The tables the queries read, as relations. */
  datatype Db = Db(
    include_: set<(Cell, Cell)>,                 // file, resolved_include
    resolvedClassInstance: set<(Cell, Cell)>,    // file, resolved_class_file
    functionCall: set<Call>,
    function_: set<Function>,
    syscallRequirement: set<Requirement>,
    syscall: set<Syscall>)

  // ----- WITH RECURSIVE ... UNION

  /** c has the initial rows and every row that the recursive part makes of its rows. */
  ghost predicate ClosedUnder<T(!new)>(initial: set<T>, step: T -> set<T>, c: set<T>) {
    initial <= c && forall r | r in c :: step(r) <= c
  }

  /** A recursive table expression: rows wait in a queue, each is taken once, and what
      the recursive part makes of it is queued unless it was queued before. */
  method Recursive<T(!new, ==)>(initial: set<T>, step: T -> set<T>, ghost universe: set<T>) returns (rows: set<T>)
    requires ClosedUnder(initial, step, universe)
    ensures ClosedUnder(initial, step, rows)
    ensures forall c | ClosedUnder(initial, step, c) :: rows <= c
  {
    var queue := initial;
    ghost var queued := initial;
    rows := {};
    while queue != {}
      invariant queued == rows + queue && rows !! queue
      invariant initial <= queued <= universe
      invariant forall r | r in rows :: step(r) <= queued
      invariant forall c | ClosedUnder(initial, step, c) :: queued <= c
      decreases universe - rows
    {
      var r :| r in queue;
      queue := queue - {r};
      rows := rows + {r};
      queue := queue + (step(r) - rows);
      queued := rows + queue;
    }
  }

  // ----- the two closures

  function Includes(db: Db): set<(Cell, Cell)> {
    db.include_ + db.resolvedClassInstance
  }

  /** GetSyscallsForFile: the recursive part of includes(x). */
  function StepFrom(inc: set<(Cell, Cell)>, x: Cell): set<Cell> {
    set p | p in inc && SqlEq(p.0, x) && SqlNe(p.1, x) && p.1 != Null :: p.1
  }

  /** GetSyscallIdsForFile: the recursive part of includes(x, y). */
  function StepPair(inc: set<(Cell, Cell)>, row: (Cell, Cell)): set<(Cell, Cell)> {
    set p | p in inc && SqlEq(p.0, row.1) && SqlNe(p.0, row.0) :: (row.0, p.1)
  }

  ghost predicate SingleClosed(inc: set<(Cell, Cell)>, x: Cell, c: set<Cell>) {
    x in c && forall y | y in c :: StepFrom(inc, y) <= c
  }

  ghost predicate IsSingle(inc: set<(Cell, Cell)>, x: Cell, rows: set<Cell>) {
    SingleClosed(inc, x, rows) && forall c | SingleClosed(inc, x, c) :: rows <= c
  }

  ghost predicate PairsClosed(inc: set<(Cell, Cell)>, c: set<(Cell, Cell)>) {
    inc <= c && forall r | r in c :: StepPair(inc, r) <= c
  }

  ghost predicate IsPairs(inc: set<(Cell, Cell)>, rows: set<(Cell, Cell)>) {
    PairsClosed(inc, rows) && forall c | PairsClosed(inc, c) :: rows <= c
  }

  method SingleSource(inc: set<(Cell, Cell)>, x: Cell) returns (rows: set<Cell>)
    ensures IsSingle(inc, x, rows)
  {
    var step := (y: Cell) => StepFrom(inc, y);
    ghost var universe := {x} + set p | p in inc :: p.1;
    rows := Recursive({x}, step, universe);
    forall c | SingleClosed(inc, x, c)
      ensures rows <= c
    {
      assert ClosedUnder({x}, step, c);
    }
  }

  method AllPairs(inc: set<(Cell, Cell)>) returns (rows: set<(Cell, Cell)>)
    ensures IsPairs(inc, rows)
  {
    var step := (r: (Cell, Cell)) => StepPair(inc, r);
    ghost var universe := PairUniverse(inc);
    PairUniverseClosed(inc);
    assert ClosedUnder(inc, step, universe);
    rows := Recursive(inc, step, universe);
    forall c | PairsClosed(inc, c)
      ensures rows <= c
    {
      assert ClosedUnder(inc, step, c);
    }
  }

  ghost function PairUniverse(inc: set<(Cell, Cell)>): set<(Cell, Cell)> {
    var files, resolved := set p | p in inc :: p.0, set p | p in inc :: p.1;
    set x, y | x in files && y in resolved :: (x, y)
  }

  lemma PairUniverseClosed(inc: set<(Cell, Cell)>)
    ensures PairsClosed(inc, PairUniverse(inc))
  {
    forall r | r in PairUniverse(inc)
      ensures StepPair(inc, r) <= PairUniverse(inc)
    {
      forall q | q in StepPair(inc, r)
        ensures q in PairUniverse(inc)
      {
        var p :| p in inc && q == (r.0, p.1);
      }
    }
    forall p | p in inc
      ensures p in PairUniverse(inc)
    {
      assert p == (p.0, p.1);
    }
  }

  // ----- reachability

  /** s follows rows of inc from file to file; only its last cell may be NULL. */
  ghost predicate Walk(inc: set<(Cell, Cell)>, s: seq<Cell>) {
    && |s| >= 2
    && forall i {:trigger s[i]} | 0 <= i < |s| - 1 :: s[i].Text? && (s[i], s[i + 1]) in inc
  }

  /** y can be reached from x in at least one step. */
  ghost predicate Reaches(inc: set<(Cell, Cell)>, x: Cell, y: Cell) {
    exists s :: Walk(inc, s) && s[0] == x && s[|s| - 1] == y
  }

  lemma ReachesEdge(inc: set<(Cell, Cell)>, x: Cell, y: Cell)
    requires x.Text? && (x, y) in inc
    ensures Reaches(inc, x, y)
  {
    assert Walk(inc, [x, y]) && [x, y][|[x, y]| - 1] == y;
  }

  lemma ReachesStep(inc: set<(Cell, Cell)>, x: Cell, y: Cell, z: Cell)
    requires Reaches(inc, x, y) && y.Text? && (y, z) in inc
    ensures Reaches(inc, x, z)
  {
    var s :| Walk(inc, s) && s[0] == x && s[|s| - 1] == y;
    var t := s + [z];
    assert Walk(inc, t) && t[|t| - 1] == z;
  }

  /** The guard that skips rows of the starting file loses nothing: whenever a walk
      comes back to x, what follows is a row of x itself. */
  lemma {:induction false} WalkInPairs(inc: set<(Cell, Cell)>, rows: set<(Cell, Cell)>, s: seq<Cell>, k: nat)
    requires IsPairs(inc, rows) && Walk(inc, s) && 0 < k < |s|
    ensures (s[0], s[k]) in rows
  {
    assert (s[k - 1], s[k - 1 + 1]) in inc;
    if k > 1 && s[k - 1] != s[0] {
      WalkInPairs(inc, rows, s, k - 1);
      assert (s[0], s[k]) in StepPair(inc, (s[0], s[k - 1]));
    }
  }

  lemma PairsOnlyReachable(inc: set<(Cell, Cell)>, rows: set<(Cell, Cell)>, x: Cell, y: Cell)
    requires IsPairs(inc, rows) && x.Text? && (x, y) in rows
    ensures Reaches(inc, x, y)
  {
    var c := set r | r in rows && (r.0.Text? ==> Reaches(inc, r.0, r.1));
    forall r | r in inc
      ensures r in c
    {
      if r.0.Text? {
        ReachesEdge(inc, r.0, r.1);
      }
    }
    forall r | r in c
      ensures StepPair(inc, r) <= c
    {
      forall q | q in StepPair(inc, r)
        ensures q in c
      {
        assert r in rows && StepPair(inc, r) <= rows;
        if r.0.Text? {
          ReachesStep(inc, r.0, r.1, q.1);
        }
      }
    }
    assert PairsClosed(inc, c);
    assert (x, y) in c;
  }

  /** The all-pairs recursion computes the transitive closure. */
  lemma PairsAreReachable(inc: set<(Cell, Cell)>, rows: set<(Cell, Cell)>, x: Cell, y: Cell)
    requires IsPairs(inc, rows) && x.Text?
    ensures (x, y) in rows <==> Reaches(inc, x, y)
  {
    if Reaches(inc, x, y) {
      var s :| Walk(inc, s) && s[0] == x && s[|s| - 1] == y;
      WalkInPairs(inc, rows, s, |s| - 1);
    }
    if (x, y) in rows {
      PairsOnlyReachable(inc, rows, x, y);
    }
  }

  lemma {:induction false} WalkInSingle(inc: set<(Cell, Cell)>, rows: set<Cell>, x: Cell, s: seq<Cell>, k: nat)
    requires IsSingle(inc, x, rows) && Walk(inc, s) && s[0] == x && k < |s|
    requires s[k].Text?
    ensures s[k] in rows
  {
    if k > 0 {
      assert s[k - 1].Text? && (s[k - 1], s[k - 1 + 1]) in inc;
      WalkInSingle(inc, rows, x, s, k - 1);
      if s[k] != s[k - 1] {
        assert s[k] in StepFrom(inc, s[k - 1]);
      }
    }
  }

  lemma SingleOnlyReachable(inc: set<(Cell, Cell)>, x: Cell, rows: set<Cell>, y: Cell)
    requires IsSingle(inc, x, rows) && x.Text? && y in rows
    ensures y == x || (y.Text? && Reaches(inc, x, y))
  {
    var c := set z | z in rows && (z == x || (z.Text? && Reaches(inc, x, z)));
    forall z | z in c
      ensures StepFrom(inc, z) <= c
    {
      forall w | w in StepFrom(inc, z)
        ensures w in c
      {
        assert z in rows && StepFrom(inc, z) <= rows;
        if z == x {
          ReachesEdge(inc, x, w);
        } else {
          ReachesStep(inc, x, z, w);
        }
      }
    }
    assert SingleClosed(inc, x, c);
    assert y in c;
  }

  /** The single-source recursion computes the reflexive-transitive closure from x. */
  lemma SingleIsReachable(inc: set<(Cell, Cell)>, x: Cell, rows: set<Cell>, y: Cell)
    requires IsSingle(inc, x, rows) && x.Text?
    ensures y in rows <==> y == x || (y.Text? && Reaches(inc, x, y))
  {
    if y.Text? && Reaches(inc, x, y) {
      var s :| Walk(inc, s) && s[0] == x && s[|s| - 1] == y;
      WalkInSingle(inc, rows, x, s, |s| - 1);
    }
    if y in rows {
      SingleOnlyReachable(inc, x, rows, y);
    }
  }

  // ----- the joins

  /** The call l needs the system call sc. */
  ghost predicate Joined(db: Db, l: Call, sc: Syscall) {
    exists f, r | f in db.function_ && r in db.syscallRequirement ::
      l.name == f.name && r.functionId == f.id && r.syscallId == sc.id
  }

  /** File z calls something that needs sc. */
  ghost predicate Needs(db: Db, z: Cell, sc: Syscall) {
    sc in db.syscall && exists l | l in db.functionCall :: SqlEq(l.file, z) && Joined(db, l, sc)
  }

  /** A run of the script x may need sc: x or a file it leads to does. */
  ghost predicate MayNeed(db: Db, x: Cell, sc: Syscall) {
    Needs(db, x, sc) || exists z | Reaches(Includes(db), x, z) :: Needs(db, z, sc)
  }

  /** The file has a row of its own among the includes and class instances. */
  ghost predicate HasRow(db: Db, x: Cell) {
    exists y :: (x, y) in Includes(db)
  }

  /** sc is joined to a row of the single-source closure. */
  ghost predicate JoinsSingle(db: Db, rows: set<Cell>, sc: Syscall) {
    exists z | z in rows :: Needs(db, z, sc)
  }

  /** sc is joined to a row of the all-pairs closure that starts with x. */
  ghost predicate JoinsPairs(db: Db, rows: set<(Cell, Cell)>, x: Cell, sc: Syscall) {
    exists r | r in rows :: r.0 == x && (Needs(db, r.0, sc) || Needs(db, r.1, sc))
  }

  lemma SingleQuery(db: Db, x: Cell, rows: set<Cell>, sc: Syscall)
    requires x.Text? && IsSingle(Includes(db), x, rows)
    ensures JoinsSingle(db, rows, sc) <==> MayNeed(db, x, sc)
  {
    var inc := Includes(db);
    if JoinsSingle(db, rows, sc) {
      var z :| z in rows && Needs(db, z, sc);
      SingleIsReachable(inc, x, rows, z);
    }
    SingleIsReachable(inc, x, rows, x);
    if z :| Reaches(inc, x, z) && Needs(db, z, sc) {
      SingleIsReachable(inc, x, rows, z);
    }
  }

  lemma ReachesFirst(inc: set<(Cell, Cell)>, x: Cell, y: Cell)
    requires Reaches(inc, x, y)
    ensures exists z :: (x, z) in inc
  {
    var s :| Walk(inc, s) && s[0] == x && s[|s| - 1] == y;
    assert (s[0], s[0 + 1]) in inc;
  }

  lemma PairsQuery(db: Db, x: Cell, rows: set<(Cell, Cell)>, sc: Syscall)
    requires x.Text? && IsPairs(Includes(db), rows)
    ensures JoinsPairs(db, rows, x, sc) <==> HasRow(db, x) && MayNeed(db, x, sc)
  {
    var inc := Includes(db);
    if JoinsPairs(db, rows, x, sc) {
      var r :| r in rows && r.0 == x && (Needs(db, r.0, sc) || Needs(db, r.1, sc));
      assert r == (x, r.1);
      PairsAreReachable(inc, rows, x, r.1);
      ReachesFirst(inc, x, r.1);
    }
    if HasRow(db, x) && MayNeed(db, x, sc) {
      if Needs(db, x, sc) {
        var y :| (x, y) in inc;
        assert (x, y) in rows && (x, y).0 == x;
      } else {
        var z :| Reaches(inc, x, z) && Needs(db, z, sc);
        PairsAreReachable(inc, rows, x, z);
        assert (x, z).0 == x && (x, z).1 == z;
      }
    }
  }

  /** The two differently pruned queries give a script the same system calls exactly
      when it has a row of its own or itself calls nothing that needs any. */
  lemma QueriesAgree(db: Db, x: Cell, single: set<Cell>, pairs: set<(Cell, Cell)>)
    requires x.Text? && IsSingle(Includes(db), x, single) && IsPairs(Includes(db), pairs)
    ensures (forall sc :: JoinsSingle(db, single, sc) <==> JoinsPairs(db, pairs, x, sc))
       <==> HasRow(db, x) || (forall sc :: !Needs(db, x, sc))
  {
    forall sc
      ensures JoinsSingle(db, single, sc) <==> MayNeed(db, x, sc)
      ensures JoinsPairs(db, pairs, x, sc) <==> HasRow(db, x) && MayNeed(db, x, sc)
    {
      SingleQuery(db, x, single, sc);
      PairsQuery(db, x, pairs, sc);
    }
    if !HasRow(db, x) {
      forall sc
        ensures MayNeed(db, x, sc) <==> Needs(db, x, sc)
      {
        if z :| Reaches(Includes(db), x, z) && Needs(db, z, sc) {
          ReachesFirst(Includes(db), x, z);
        }
      }
    }
  }

  /** scan-project adds every scanned file as an include of itself. */
  lemma ScannedFilesAgree(db: Db, x: Cell, single: set<Cell>, pairs: set<(Cell, Cell)>)
    requires x.Text? && (x, x) in db.include_
    requires IsSingle(Includes(db), x, single) && IsPairs(Includes(db), pairs)
    ensures forall sc :: JoinsSingle(db, single, sc) <==> JoinsPairs(db, pairs, x, sc)
  {
    assert (x, x) in Includes(db);
    QueriesAgree(db, x, single, pairs);
  }

  // ----- the loops over the rows

  /** The rows SELECT DISTINCT I.x, SC.number of GetSyscallIdsForFile. */
  ghost predicate NumberRows(db: Db, pairs: set<(Cell, Cell)>, rows: set<(Cell, int)>) {
    forall x, n :: (x, n) in rows <==> exists sc: Syscall :: sc.number == n && JoinsPairs(db, pairs, x, sc)
  }

  type NumberLists = map<string, seq<int>>

  /** The lists hold the numbers of the rows, each once. */
  ghost predicate Lists(m: NumberLists, rows: set<(Cell, int)>) {
    && (forall f, n :: (Text(f), n) in rows <==> f in m && n in m[f])
    && (forall f | f in m :: m[f] != [] && NoDup(m[f]))
  }

  lemma ListsAppend(m: NumberLists, rows: set<(Cell, int)>, f: string, n: int)
    requires Lists(m, rows) && (Text(f), n) !in rows
    ensures Lists(m[f := (if f in m then m[f] else []) + [n]], rows + {(Text(f), n)})
  {
    var list := if f in m then m[f] else [];
    var m' := m[f := list + [n]];
    forall g, k
      ensures (Text(g), k) in rows + {(Text(f), n)} <==> g in m' && k in m'[g]
    {
      if g == f {
        assert k in list + [n] <==> k in list || k == n;
      }
    }
    assert n !in list;
  }

  ghost predicate HasNull(rows: set<(Cell, int)>) {
    exists row | row in rows :: row.0 == Null
  }

  /** The row loop of GetSyscallIdsForFile: append every number to its file's list. A
      NULL cannot be read into the file name. */
  method CollectNumbers(rows: set<(Cell, int)>) returns (syscalls: Option<NumberLists>)
    ensures syscalls.None? <==> HasNull(rows)
    ensures syscalls.Some? ==> Lists(syscalls.value, rows)
  {
    var lists := map[];
    var rest := rows;
    while rest != {}
      invariant rest <= rows && Lists(lists, rows - rest)
      invariant forall row | row in rows && row.0 == Null :: row in rest
      decreases rest
    {
      var row :| row in rest;
      assert row == (row.0, row.1);
      if row.0 == Null {
        return None;
      }
      var file := row.0.s;
      ListsAppend(lists, rows - rest, file, row.1);
      lists := lists[file := (if file in lists then lists[file] else []) + [row.1]];
      assert rows - (rest - {row}) == rows - rest + {(Text(file), row.1)};
      rest := rest - {row};
    }
    return Some(lists);
  }

  ghost predicate Listed(m: NumberLists, f: string, n: int) {
    f in m && n in m[f]
  }

  ghost predicate MayNeedNumber(db: Db, x: Cell, n: int) {
    exists sc: Syscall :: sc.number == n && MayNeed(db, x, sc)
  }

  /** The filter of a scanned file lists exactly the numbers of the system calls that
      the file and everything it leads to may need, each once. */
  lemma FilterIsExact(db: Db, pairs: set<(Cell, Cell)>, rows: set<(Cell, int)>, m: NumberLists, f: string)
    requires IsPairs(Includes(db), pairs) && NumberRows(db, pairs, rows) && Lists(m, rows)
    requires (Text(f), Text(f)) in db.include_
    ensures forall n :: Listed(m, f, n) <==> MayNeedNumber(db, Text(f), n)
    ensures f in m ==> NoDup(m[f])
  {
    assert (Text(f), Text(f)) in Includes(db);
    forall n
      ensures Listed(m, f, n) <==> MayNeedNumber(db, Text(f), n)
    {
      assert (Text(f), n) in rows <==> Listed(m, f, n);
      forall sc
        ensures JoinsPairs(db, pairs, Text(f), sc) <==> MayNeed(db, Text(f), sc)
      {
        PairsQuery(db, Text(f), pairs, sc);
      }
    }
  }

  /** A row whose file is NULL names something that needs sc. */
  ghost predicate NullNeeds(db: Db, sc: Syscall) {
    exists y | (Null, y) in Includes(db) :: Needs(db, y, sc)
  }

  /** No row is added to those whose file is NULL. */
  lemma NullRows(db: Db, pairs: set<(Cell, Cell)>, sc: Syscall)
    requires IsPairs(Includes(db), pairs)
    ensures JoinsPairs(db, pairs, Null, sc) <==> NullNeeds(db, sc)
  {
    var inc := Includes(db);
    var c := set r | r in pairs && (r.0 == Null ==> r in inc);
    assert PairsClosed(inc, c);
    if JoinsPairs(db, pairs, Null, sc) {
      var r :| r in pairs && r.0 == Null && (Needs(db, r.0, sc) || Needs(db, r.1, sc));
      assert r in c && r == (Null, r.1);
    }
    if y :| (Null, y) in inc && Needs(db, y, sc) {
      assert (Null, y) in pairs && (Null, y).0 == Null;
    }
  }

  /** The first three joins: the system calls with the files that call for them. */
  function JoinCalls(db: Db): (rows: set<(Syscall, Cell)>)
    ensures forall sc: Syscall, z: Cell | z.Text? :: (sc, z) in rows <==> Needs(db, z, sc)
  {
    set sc, r, f, l |
      sc in db.syscall && r in db.syscallRequirement && sc.id == r.syscallId &&
      f in db.function_ && r.functionId == f.id &&
      l in db.functionCall && l.name == f.name :: (sc, l.file)
  }

  /** SELECT DISTINCT I.x, SC.number, with the join to the closure. */
  function JoinNumbers(db: Db, pairs: set<(Cell, Cell)>): (rows: set<(Cell, int)>)
    ensures NumberRows(db, pairs, rows)
  {
    var calls := JoinCalls(db);
    var rows := set c, p |
      c in calls && p in pairs && (SqlEq(c.1, p.0) || SqlEq(c.1, p.1)) :: (p.0, c.0.number);
    JoinNumbersRows(db, calls, pairs, rows);
    rows
  }

  lemma JoinNumbersRows(db: Db, calls: set<(Syscall, Cell)>, pairs: set<(Cell, Cell)>, rows: set<(Cell, int)>)
    requires forall sc: Syscall, z: Cell | z.Text? :: (sc, z) in calls <==> Needs(db, z, sc)
    requires rows == set c, p |
      c in calls && p in pairs && (SqlEq(c.1, p.0) || SqlEq(c.1, p.1)) :: (p.0, c.0.number)
    ensures NumberRows(db, pairs, rows)
  {
    forall x, n
      ensures (x, n) in rows <==> exists sc: Syscall :: sc.number == n && JoinsPairs(db, pairs, x, sc)
    {
      if (x, n) in rows {
        var c, p :| c in calls && p in pairs && (SqlEq(c.1, p.0) || SqlEq(c.1, p.1)) && (x, n) == (p.0, c.0.number);
        assert c == (c.0, c.1);
        assert JoinsPairs(db, pairs, x, c.0);
      }
      if sc: Syscall :| sc.number == n && JoinsPairs(db, pairs, x, sc) {
        var p :| p in pairs && p.0 == x && (Needs(db, p.0, sc) || Needs(db, p.1, sc));
        var z := if Needs(db, p.0, sc) then p.0 else p.1;
        assert z.Text? && (sc, z) in calls;
        assert (p.0, (sc, z).0.number) in rows;
      }
    }
  }

  /** Some system call of the table has this number. */
  ghost predicate HasNumber(db: Db, n: int) {
    exists sc | sc in db.syscall :: sc.number == n
  }

  /** The rows of the query start with files that include or instantiate something, and
      their numbers are those of the table. */
  lemma RowsAreKnown(db: Db, pairs: set<(Cell, Cell)>, rows: set<(Cell, int)>, f: string, n: int)
    requires IsPairs(Includes(db), pairs) && NumberRows(db, pairs, rows) && (Text(f), n) in rows
    ensures HasRow(db, Text(f)) && HasNumber(db, n)
  {
    var sc: Syscall :| sc.number == n && JoinsPairs(db, pairs, Text(f), sc);
    assert sc in db.syscall;
    var c := set r | r in pairs && HasRow(db, r.0);
    forall r | r in Includes(db)
      ensures r in c
    {
      assert r == (r.0, r.1) && HasRow(db, r.0);
    }
    assert PairsClosed(Includes(db), c);
  }

  /** GetSyscallIdsForFile: fails exactly when a row with a NULL file names something that
      needs a system call. */
  method GetSyscallIdsForFile(db: Db) returns (syscalls: Option<NumberLists>)
    ensures syscalls.None? <==> exists sc: Syscall :: NullNeeds(db, sc)
    ensures syscalls.Some? ==>
      && (forall f, n | (Text(f), Text(f)) in db.include_ ::
        Listed(syscalls.value, f, n) <==> MayNeedNumber(db, Text(f), n))
      && (forall f | f in syscalls.value :: syscalls.value[f] != [] && NoDup(syscalls.value[f]))
      && (forall f, n | Listed(syscalls.value, f, n) :: HasRow(db, Text(f)) && HasNumber(db, n))
  {
    var pairs := AllPairs(Includes(db));
    var rows := JoinNumbers(db, pairs);
    syscalls := CollectNumbers(rows);
    forall sc
      ensures JoinsPairs(db, pairs, Null, sc) <==> NullNeeds(db, sc)
    {
      NullRows(db, pairs, sc);
    }
    NullNumbers(db, pairs, rows);
    if syscalls.Some? {
      ListsAreExact(db, pairs, rows, syscalls.value);
    }
  }

  lemma NullNumbers(db: Db, pairs: set<(Cell, Cell)>, rows: set<(Cell, int)>)
    requires NumberRows(db, pairs, rows)
    ensures HasNull(rows) <==> exists sc: Syscall :: JoinsPairs(db, pairs, Null, sc)
  {
    if HasNull(rows) {
      var row :| row in rows && row.0 == Null;
      assert (Null, row.1) in rows;
      var sc: Syscall :| sc.number == row.1 && JoinsPairs(db, pairs, Null, sc);
    }
    if sc: Syscall :| JoinsPairs(db, pairs, Null, sc) {
      assert (Null, sc.number) in rows;
    }
  }

  lemma ListsAreExact(db: Db, pairs: set<(Cell, Cell)>, rows: set<(Cell, int)>, m: NumberLists)
    requires IsPairs(Includes(db), pairs) && NumberRows(db, pairs, rows) && Lists(m, rows)
    ensures forall f, n | (Text(f), Text(f)) in db.include_ :: Listed(m, f, n) <==> MayNeedNumber(db, Text(f), n)
    ensures forall f, n | Listed(m, f, n) :: HasRow(db, Text(f)) && HasNumber(db, n)
  {
    forall f, n | (Text(f), Text(f)) in db.include_
      ensures Listed(m, f, n) <==> MayNeedNumber(db, Text(f), n)
    {
      FilterIsExact(db, pairs, rows, m, f);
    }
    forall f, n | Listed(m, f, n)
      ensures HasRow(db, Text(f)) && HasNumber(db, n)
    {
      assert (Text(f), n) in rows;
      RowsAreKnown(db, pairs, rows, f, n);
    }
  }

  // ----- GetSyscallsForFile

  /** File z calls the function name, which needs sc. */
  ghost predicate CallNeeds(db: Db, z: Cell, name: string, sc: Syscall) {
    sc in db.syscall && Call(z, name) in db.functionCall && Joined(db, Call(z, name), sc)
  }

  /** One row of the query: the system call, a file the script leads to, its callee. */
  ghost predicate NameRow(db: Db, single: set<Cell>, row: (string, string, string)) {
    Text(row.1) in single && exists sc: Syscall :: sc.name == row.0 && CallNeeds(db, Text(row.1), row.2, sc)
  }

  /** SELECT DISTINCT SC.name, I.x, L.name, with its joins. */
  function JoinNames(db: Db, single: set<Cell>): (rows: set<(string, string, string)>)
    ensures forall row :: row in rows <==> NameRow(db, single, row)
  {
    var rows := set sc, r, f, l |
      sc in db.syscall && r in db.syscallRequirement && sc.id == r.syscallId &&
      f in db.function_ && r.functionId == f.id &&
      l in db.functionCall && l.name == f.name && l.file in single && l.file.Text? :: (sc.name, l.file.s, l.name);
    JoinNamesRows(db, single, rows);
    rows
  }

  lemma JoinNamesRows(db: Db, single: set<Cell>, rows: set<(string, string, string)>)
    requires rows == set sc, r, f, l |
      sc in db.syscall && r in db.syscallRequirement && sc.id == r.syscallId &&
      f in db.function_ && r.functionId == f.id &&
      l in db.functionCall && l.name == f.name && l.file in single && l.file.Text? :: (sc.name, l.file.s, l.name)
    ensures forall row :: row in rows <==> NameRow(db, single, row)
  {
    forall row | row in rows
      ensures NameRow(db, single, row)
    {
      var sc, r, f, l :| sc in db.syscall && r in db.syscallRequirement && sc.id == r.syscallId &&
        f in db.function_ && r.functionId == f.id &&
        l in db.functionCall && l.name == f.name && l.file in single && l.file.Text? && row == (sc.name, l.file.s, l.name);
      assert l == Call(Text(row.1), row.2) && CallNeeds(db, Text(row.1), row.2, sc);
    }
    forall row | NameRow(db, single, row)
      ensures row in rows
    {
      var sc: Syscall :| sc.name == row.0 && CallNeeds(db, Text(row.1), row.2, sc);
      var l := Call(Text(row.1), row.2);
      assert l.file in single && row == (sc.name, l.file.s, l.name);
    }
  }

  type Requirements = map<string, map<string, seq<string>>>

  function FilesOf(m: Requirements, syscall: string): map<string, seq<string>> {
    if syscall in m then m[syscall] else map[]
  }

  function NamesOf(m: Requirements, syscall: string, file: string): seq<string> {
    if file in FilesOf(m, syscall) then FilesOf(m, syscall)[file] else []
  }

  ghost predicate ListsNames(m: Requirements, rows: set<(string, string, string)>) {
    && (forall s, f, n :: n in NamesOf(m, s, f) <==> (s, f, n) in rows)
    && (forall s, f :: NoDup(NamesOf(m, s, f)))
  }

  function AddName(m: Requirements, row: (string, string, string)): Requirements {
    m[row.0 := FilesOf(m, row.0)[row.1 := NamesOf(m, row.0, row.1) + [row.2]]]
  }

  lemma ListsNamesAppend(m: Requirements, rows: set<(string, string, string)>, row: (string, string, string))
    requires ListsNames(m, rows) && row !in rows
    ensures ListsNames(AddName(m, row), rows + {row})
  {
    var m' := AddName(m, row);
    assert row == (row.0, row.1, row.2);
    forall s, f
      ensures NamesOf(m', s, f) == NamesOf(m, s, f) + if s == row.0 && f == row.1 then [row.2] else []
    {
    }
    forall s, f
      ensures NoDup(NamesOf(m', s, f))
    {
      assert row.2 !in NamesOf(m, row.0, row.1);
    }
  }

  /** The row loop of GetSyscallsForFile: append every callee to the list of its file. */
  method CollectNames(rows: set<(string, string, string)>) returns (syscalls: Requirements)
    ensures ListsNames(syscalls, rows)
  {
    syscalls := map[];
    var rest := rows;
    while rest != {}
      invariant rest <= rows && ListsNames(syscalls, rows - rest)
      decreases rest
    {
      var row :| row in rest;
      ListsNamesAppend(syscalls, rows - rest, row);
      ghost var was := syscalls;
      if row.0 !in syscalls {
        syscalls := syscalls[row.0 := map[]];
      }
      var names := if row.1 in syscalls[row.0] then syscalls[row.0][row.1] else [];
      syscalls := syscalls[row.0 := syscalls[row.0][row.1 := names + [row.2]]];
      assert syscalls == AddName(was, row);
      assert rows - (rest - {row}) == rows - rest + {row};
      rest := rest - {row};
    }
  }

  /** GetSyscallsForFile: for every system call the files that need it, among file and
      all it leads to, with the callees that need it there, each once. */
  method GetSyscallsForFile(db: Db, file: string) returns (syscalls: Requirements)
    ensures forall s, f, n :: n in NamesOf(syscalls, s, f) <==>
      && (f == file || Reaches(Includes(db), Text(file), Text(f)))
      && exists sc: Syscall :: sc.name == s && CallNeeds(db, Text(f), n, sc)
    ensures forall s, f :: NoDup(NamesOf(syscalls, s, f))
  {
    var single := SingleSource(Includes(db), Text(file));
    var rows := JoinNames(db, single);
    syscalls := CollectNames(rows);
    forall f
      ensures Text(f) in single <==> f == file || Reaches(Includes(db), Text(file), Text(f))
    {
      SingleIsReachable(Includes(db), Text(file), single, Text(f));
    }
    forall s, f, n
      ensures n in NamesOf(syscalls, s, f) <==> NameRow(db, single, (s, f, n))
    {
      assert (s, f, n) in rows <==> NameRow(db, single, (s, f, n));
    }
  }
}
