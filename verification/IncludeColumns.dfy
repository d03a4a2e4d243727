/** The query that lists the files a script leads to with one recursion for its includes
    and another for the classes it instantiates. */
module IncludeColumns {
  import opened Collections
  import opened FilterClosure

  // ----- the two recursions

  /** The recursive part of includes(x), and of class_instances(x). */
  function StepColumn(column: set<(Cell, Cell)>, x: Cell): set<Cell> {
    set p | p in column && SqlEq(p.0, x) :: p.1
  }

  ghost predicate ColumnClosed(column: set<(Cell, Cell)>, x: Cell, c: set<Cell>) {
    x in c && forall y | y in c :: StepColumn(column, y) <= c
  }

  ghost predicate IsColumn(column: set<(Cell, Cell)>, x: Cell, rows: set<Cell>) {
    ColumnClosed(column, x, rows) && forall c | ColumnClosed(column, x, c) :: rows <= c
  }

  method ColumnSource(column: set<(Cell, Cell)>, x: Cell) returns (rows: set<Cell>)
    ensures IsColumn(column, x, rows)
  {
    var step := (y: Cell) => StepColumn(column, y);
    ghost var universe := {x} + set p | p in column :: p.1;
    rows := Recursive({x}, step, universe);
    forall c | ColumnClosed(column, x, c)
      ensures rows <= c
    {
      assert ClosedUnder({x}, step, c);
    }
  }

  /** y is x or can be reached from it by rows of this column alone. */
  ghost predicate InColumn(column: set<(Cell, Cell)>, x: Cell, y: Cell) {
    y == x || Reaches(column, x, y)
  }

  lemma InColumnStep(column: set<(Cell, Cell)>, x: Cell, y: Cell, z: Cell)
    requires InColumn(column, x, y) && y.Text? && (y, z) in column
    ensures InColumn(column, x, z)
  {
    if y == x {
      ReachesEdge(column, x, z);
    } else {
      ReachesStep(column, x, y, z);
    }
  }

  lemma {:induction false} WalkInColumn(column: set<(Cell, Cell)>, rows: set<Cell>, x: Cell, s: seq<Cell>, k: nat)
    requires IsColumn(column, x, rows) && Walk(column, s) && s[0] == x && k < |s|
    ensures s[k] in rows
  {
    if k > 0 {
      assert s[k - 1].Text? && (s[k - 1], s[k - 1 + 1]) in column;
      WalkInColumn(column, rows, x, s, k - 1);
      assert s[k] in StepColumn(column, s[k - 1]);
    }
  }

  /** Each of the two recursions computes what its own column reaches from x. */
  lemma ColumnIsReachable(column: set<(Cell, Cell)>, x: Cell, rows: set<Cell>, y: Cell)
    requires IsColumn(column, x, rows) && x.Text?
    ensures y in rows <==> InColumn(column, x, y)
  {
    if y != x && Reaches(column, x, y) {
      var s :| Walk(column, s) && s[0] == x && s[|s| - 1] == y;
      WalkInColumn(column, rows, x, s, |s| - 1);
    }
    var c := set z | z in rows && InColumn(column, x, z);
    forall z | z in c
      ensures StepColumn(column, z) <= c
    {
      forall w | w in StepColumn(column, z)
        ensures w in c
      {
        assert StepColumn(column, z) <= rows;
        InColumnStep(column, x, z, w);
      }
    }
    assert ColumnClosed(column, x, c);
    assert rows <= c;
  }

  /** The rows of the query: of the first recursion all but NULL, of the second all. */
  ghost predicate IsUnited(db: Db, x: Cell, rows: set<Cell>) {
    exists i, c :: IsColumn(db.include_, x, i) && IsColumn(db.resolvedClassInstance, x, c) && rows == i - {Null} + c
  }

  lemma UnitedInColumns(db: Db, x: Cell, rows: set<Cell>)
    requires x.Text? && IsUnited(db, x, rows)
    ensures forall y: Cell | y.Text? ::
      y in rows <==> InColumn(db.include_, x, y) || InColumn(db.resolvedClassInstance, x, y)
    ensures Null in rows <==> Reaches(db.resolvedClassInstance, x, Null)
  {
    var i, c :| IsColumn(db.include_, x, i) && IsColumn(db.resolvedClassInstance, x, c) && rows == i - {Null} + c;
    forall y
      ensures y in i <==> InColumn(db.include_, x, y)
      ensures y in c <==> InColumn(db.resolvedClassInstance, x, y)
    {
      ColumnIsReachable(db.include_, x, i, y);
      ColumnIsReachable(db.resolvedClassInstance, x, c, y);
    }
  }

  /** GetIncludesForFileRecursive: the row loop cannot read a NULL into a string. */
  method GetIncludesForFileRecursive(db: Db, file: string) returns (includes: Option<seq<string>>, ghost rows: set<Cell>)
    ensures IsUnited(db, Text(file), rows)
    ensures includes.None? <==> Reaches(db.resolvedClassInstance, Text(file), Null)
    ensures includes.Some? ==> NoDup(includes.value) && forall y :: y in includes.value <==> Text(y) in rows
  {
    var i := ColumnSource(db.include_, Text(file));
    var c := ColumnSource(db.resolvedClassInstance, Text(file));
    rows := i - {Null} + c;
    UnitedInColumns(db, Text(file), rows);
    var list, rest := [], i - {Null} + c;
    while rest != {}
      invariant rest <= rows && NoDup(list)
      invariant Null in rows ==> Null in rest
      invariant forall y :: y in list <==> Text(y) in rows - rest
      decreases rest
    {
      var row :| row in rest;
      if row == Null {
        return None, rows;
      }
      list := list + [row.s];
      rest := rest - {row};
    }
    return Some(list), rows;
  }

  lemma {:induction false} WalkStays(inc: set<(Cell, Cell)>, s: seq<Cell>, k: nat, p: Cell -> bool)
    requires Walk(inc, s) && k < |s| && p(s[0])
    requires forall a, b {:trigger (a, b) in inc} | (a, b) in inc && p(a) && b.Text? :: p(b)
    requires s[k].Text?
    ensures p(s[k])
  {
    if k > 0 {
      assert s[k - 1].Text? && (s[k - 1], s[k - 1 + 1]) in inc;
      WalkStays(inc, s, k - 1, p);
    }
  }

  lemma ReachesMore(small: set<(Cell, Cell)>, inc: set<(Cell, Cell)>, x: Cell, y: Cell)
    requires small <= inc && Reaches(small, x, y)
    ensures Reaches(inc, x, y)
  {
    var s :| Walk(small, s) && s[0] == x && s[|s| - 1] == y;
    assert Walk(inc, s);
  }

  // ----- against the joint closure

  /** The query reports exactly the files that the joint closure has. */
  ghost predicate FindsJoint(db: Db, x: Cell, rows: set<Cell>) {
    forall y: Cell | y.Text? :: y in rows <==> y == x || Reaches(Includes(db), x, y)
  }

  /** Wherever x leads by the rows of one, a row of two goes on to a file that x also
      leads to by one of them alone. */
  ghost predicate Crossing(one: set<(Cell, Cell)>, two: set<(Cell, Cell)>, x: Cell) {
    forall y, z {:trigger (y, z) in two} | (y, z) in two && y.Text? && z.Text? && InColumn(one, x, y) ::
      InColumn(one, x, z) || InColumn(two, x, z)
  }

  lemma InColumnMore(db: Db, x: Cell, y: Cell)
    requires InColumn(db.include_, x, y) || InColumn(db.resolvedClassInstance, x, y)
    ensures InColumn(Includes(db), x, y)
  {
    if Reaches(db.include_, x, y) {
      ReachesMore(db.include_, Includes(db), x, y);
    }
    if Reaches(db.resolvedClassInstance, x, y) {
      ReachesMore(db.resolvedClassInstance, Includes(db), x, y);
    }
  }

  /** The query never reports a file outside the joint closure, and it reports all of it
      exactly when no change of column on the way leads to a new file. */
  lemma SeparateColumnsAgree(db: Db, x: Cell, rows: set<Cell>)
    requires x.Text? && IsUnited(db, x, rows)
    ensures forall y: Cell | y.Text? && y in rows :: y == x || Reaches(Includes(db), x, y)
    ensures FindsJoint(db, x, rows) <==>
      && Crossing(db.include_, db.resolvedClassInstance, x)
      && Crossing(db.resolvedClassInstance, db.include_, x)
  {
    UnitedInColumns(db, x, rows);
    forall y: Cell | y.Text? && y in rows
      ensures y == x || Reaches(Includes(db), x, y)
    {
      InColumnMore(db, x, y);
    }
    if FindsJoint(db, x, rows) {
      CrossingNeeded(db, x, rows, db.include_, db.resolvedClassInstance);
      CrossingNeeded(db, x, rows, db.resolvedClassInstance, db.include_);
    } else {
      CrossingEnough(db, x, rows);
    }
  }

  lemma CrossingNeeded(db: Db, x: Cell, rows: set<Cell>, one: set<(Cell, Cell)>, two: set<(Cell, Cell)>)
    requires FindsJoint(db, x, rows) && (one, two) in Columns(db)
    requires forall y: Cell | y.Text? && y in rows :: InColumn(one, x, y) || InColumn(two, x, y)
    ensures Crossing(one, two, x)
  {
    forall y, z {:trigger (y, z) in two} | (y, z) in two && y.Text? && z.Text? && InColumn(one, x, y)
      ensures InColumn(one, x, z) || InColumn(two, x, z)
    {
      InColumnMore(db, x, y);
      InColumnStep(Includes(db), x, y, z);
      assert z in rows;
    }
  }

  /** The two columns, in either order. */
  ghost function Columns(db: Db): set<(set<(Cell, Cell)>, set<(Cell, Cell)>)> {
    {(db.include_, db.resolvedClassInstance), (db.resolvedClassInstance, db.include_)}
  }

  /** A walk that ends outside a set of files it starts in leaves it by some row. */
  lemma WalkLeaves(inc: set<(Cell, Cell)>, rows: set<Cell>, s: seq<Cell>)
    requires Walk(inc, s) && s[0].Text? && s[0] in rows && s[|s| - 1].Text? && s[|s| - 1] !in rows
    ensures exists a, b :: (a, b) in inc && a.Text? && a in rows && b.Text? && b !in rows
  {
    var p := (c: Cell) => c.Text? && c in rows;
    if forall a, b {:trigger (a, b) in inc} | (a, b) in inc && p(a) && b.Text? :: p(b) {
      WalkStays(inc, s, |s| - 1, p);
    }
  }

  lemma CrossingEnough(db: Db, x: Cell, rows: set<Cell>)
    requires x.Text? && IsUnited(db, x, rows) && !FindsJoint(db, x, rows)
    ensures !Crossing(db.include_, db.resolvedClassInstance, x) || !Crossing(db.resolvedClassInstance, db.include_, x)
  {
    UnitedInColumns(db, x, rows);
    var inc := Includes(db);
    var y: Cell :| y.Text? && (y in rows) != (y == x || Reaches(inc, x, y));
    if y in rows {
      InColumnMore(db, x, y);
      assert false;
    } else {
      var s :| Walk(inc, s) && s[0] == x && s[|s| - 1] == y;
      WalkLeaves(inc, rows, s);
      var a, b :| (a, b) in inc && a.Text? && a in rows && b.Text? && b !in rows;
      RowCrosses(db, x, a, b);
    }
  }

  lemma RowCrosses(db: Db, x: Cell, a: Cell, b: Cell)
    requires (a, b) in Includes(db) && a.Text? && b.Text?
    requires InColumn(db.include_, x, a) || InColumn(db.resolvedClassInstance, x, a)
    requires !InColumn(db.include_, x, b) && !InColumn(db.resolvedClassInstance, x, b)
    ensures !Crossing(db.include_, db.resolvedClassInstance, x) || !Crossing(db.resolvedClassInstance, db.include_, x)
  {
    if (a, b) in db.include_ && InColumn(db.include_, x, a) {
      InColumnStep(db.include_, x, a, b);
    }
    if (a, b) in db.resolvedClassInstance && InColumn(db.resolvedClassInstance, x, a) {
      InColumnStep(db.resolvedClassInstance, x, a, b);
    }
  }

  /** What a caller can check row by row: apart from x itself, a file that one of the
      columns leads to has in the other no row but to itself. */
  lemma OneKindAgrees(db: Db, x: Cell, rows: set<Cell>)
    requires x.Text? && IsUnited(db, x, rows)
    requires forall y, z | (y, z) in db.resolvedClassInstance && y != x && z.Text? && InColumn(db.include_, x, y) :: z == y
    requires forall y, z | (y, z) in db.include_ && y != x && z.Text? && InColumn(db.resolvedClassInstance, x, y) :: z == y
    ensures FindsJoint(db, x, rows)
  {
    forall z | (x, z) in db.resolvedClassInstance
      ensures InColumn(db.resolvedClassInstance, x, z)
    {
      InColumnStep(db.resolvedClassInstance, x, x, z);
    }
    forall z | (x, z) in db.include_
      ensures InColumn(db.include_, x, z)
    {
      InColumnStep(db.include_, x, x, z);
    }
    SeparateColumnsAgree(db, x, rows);
  }

  /** A scanned project of three files: a includes b, and b instantiates a class of c. */
  function ThreeFiles(a: string, b: string, c: string): Db {
    Db({(Text(a), Text(a)), (Text(b), Text(b)), (Text(c), Text(c)), (Text(a), Text(b))},
       {(Text(b), Text(c))}, {}, {}, {}, {})
  }

  /** There the query loses c, which a change of column leads to. */
  lemma SeparateColumnsLose(a: string, b: string, c: string, rows: set<Cell>)
    requires a != b && b != c && a != c
    requires IsUnited(ThreeFiles(a, b, c), Text(a), rows)
    ensures Reaches(Includes(ThreeFiles(a, b, c)), Text(a), Text(c)) && Text(c) !in rows
  {
    var db := ThreeFiles(a, b, c);
    ReachesEdge(Includes(db), Text(a), Text(b));
    ReachesStep(Includes(db), Text(a), Text(b), Text(c));
    if Reaches(db.include_, Text(a), Text(c)) {
      var s :| Walk(db.include_, s) && s[0] == Text(a) && s[|s| - 1] == Text(c);
      WalkStays(db.include_, s, |s| - 1, y => y != Text(c));
      assert false;
    }
    if Reaches(db.resolvedClassInstance, Text(a), Text(c)) {
      ReachesFirst(db.resolvedClassInstance, Text(a), Text(c));
      assert false;
    }
    UnitedInColumns(db, Text(a), rows);
  }
}
