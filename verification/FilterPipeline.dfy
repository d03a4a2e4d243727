/** From the database to the filter: the lists of the query, printed by build-filters,
    loaded by the extension, and looked up when a script starts. */
module FilterPipeline {
  import opened Collections
  import opened UtHashRow
  import opened UtHash
  import opened UtHashSpec
  import opened FilterClosure
  import opened ProfileFile

  // ----- every list fits its row

  /** The numbers below k. */
  ghost function Below(k: nat): (r: set<int>)
    ensures |r| == k
    ensures forall i :: i in r <==> 0 <= i < k
  {
    if k == 0 then {} else Below(k - 1) + {k - 1}
  }

  lemma SubsetSize(a: set<int>, b: set<int>)
    requires a <= b
    ensures |a| <= |b|
  {
    assert b == a + (b - a);
  }

  lemma {:induction false} DistinctSize(ns: seq<int>)
    requires NoDup(ns)
    ensures |set n | n in ns| == |ns|
  {
    if ns != [] {
      var m := |ns| - 1;
      DistinctSize(ns[..m]);
      assert (set n | n in ns) == (set n | n in ns[..m]) + {ns[m]};
      assert ns[m] !in ns[..m];
    }
  }

  /** Distinct numbers below the row length are no more than the row has places. */
  lemma DistinctNumbersFit(ns: seq<int>, k: nat)
    requires NoDup(ns) && forall n | n in ns :: 0 <= n < k
    ensures |ns| <= k
  {
    DistinctSize(ns);
    SubsetSize((set n | n in ns), Below(k));
  }

  /** The system calls that the kernel header defines. */
  ghost predicate KernelNumbers(db: Db) {
    forall sc | sc in db.syscall :: 0 <= sc.number < 333
  }

  /** The file names that the profile format and the filter's name field can carry. */
  ghost predicate CarriedPaths(db: Db) {
    forall p | p in Includes(db) :: p.0.Text? && CleanPath(p.0.s) && |p.0.s| < 512
  }

  lemma ListsFit(db: Db, m: map<string, seq<int>>, rs: seq<Row>)
    requires KernelNumbers(db) && CarriedPaths(db) && Enumerates(rs, m)
    requires forall f | f in m :: m[f] != [] && NoDup(m[f])
    requires forall f, n | Listed(m, f, n) :: HasRow(db, Text(f)) && HasNumber(db, n)
    ensures forall f | f in m :: CleanPath(f)
    ensures Loadable(PrintAll(rs))
  {
    forall f | f in m
      ensures CleanPath(f) && |f| < NAME_LENGTH && |m[f]| <= ROW_LENGTH
    {
      assert Listed(m, f, m[f][0]);
      var y :| (Text(f), y) in Includes(db);
      forall n | n in m[f]
        ensures 0 <= n < ROW_LENGTH
      {
        assert Listed(m, f, n);
      }
      DistinctNumbersFit(m[f], ROW_LENGTH);
    }
    ParseFileOfPrinted(rs);
    forall r | r in ParseFile(PrintAll(rs))
      ensures Fits(r)
    {
      ListingRows(rs, r);
    }
  }

  // ----- the pipeline

  /** What the filter of a script has to hold: exactly the numbers that the script and
      everything it leads to may need, each once; no filter when there are none. */
  ghost predicate ExactFilter(db: Db, f: Filter?, path: string) {
    && (f == null <==> forall n :: !MayNeedNumber(db, Text(path), n))
    && (f != null ==>
      && f.row.name == path && NoDup(f.row.syscalls)
      && forall n :: n in f.row.syscalls <==> MayNeedNumber(db, Text(path), n))
  }

  lemma ListIsExact(db: Db, m: map<string, seq<int>>, f: Filter?, path: string)
    requires forall n :: Listed(m, path, n) <==> MayNeedNumber(db, Text(path), n)
    requires forall g | g in m :: m[g] != [] && NoDup(m[g])
    requires f == null <==> path !in m || m[path] == []
    requires f != null ==> f.row == Row(path, m[path])
    ensures ExactFilter(db, f, path)
  {
    if f == null {
      assert forall n :: !Listed(m, path, n);
    } else {
      assert Listed(m, path, m[path][0]);
    }
  }

  /** Build the profile of a database and load it. */
  method BuildAndLoad(db: Db, hashFcn: HashFcn) returns (filters: Hash)
    requires KernelNumbers(db) && CarriedPaths(db)
    ensures filters.Valid() && filters.hashFcn == hashFcn
    ensures forall path | (Text(path), Text(path)) in db.include_ ::
      ExactFilter(db, UtHashSpec.Find(hashFcn, filters.table, path), path)
  {
    var lists := GetSyscallIdsForFile(db);
    assert lists.Some?;
    var syscalls := lists.value;
    var file := PrintProfile(syscalls);
    ghost var rs :| Enumerates(rs, syscalls) && file == PrintAll(rs);
    ListsFit(db, syscalls, rs);
    filters := LoadProfile(file, hashFcn);
    forall path | (Text(path), Text(path)) in db.include_
      ensures ExactFilter(db, UtHashSpec.Find(hashFcn, filters.table, path), path)
    {
      LookupIsMap(hashFcn, filters.table, rs, syscalls, path);
      ListIsExact(db, syscalls, UtHashSpec.Find(hashFcn, filters.table, path), path);
    }
  }

  /** The system calls that every FPM worker needs. */
  const FPM_SYSCALLS := [100, 80, 38, 273, 48]

  /** load_seccomp_profile, up to the loading of the rules: the numbers it allows. A
      path shorter than that of the application's directory, and a disabled extension, get
      none; of any other path, what lies behind that length is looked up. */
  method LoadSeccompProfile(db: Db, filters: Hash, enable: bool, scriptPath: string, appBase: string)
    returns (rules: Option<seq<int>>)
    requires filters.Valid()
    requires forall path | (Text(path), Text(path)) in db.include_ ::
      ExactFilter(db, UtHashSpec.Find(filters.hashFcn, filters.table, path), path)
    ensures rules.None? <==> |scriptPath| < |appBase| || !enable
    ensures rules.Some? && (Text(scriptPath[|appBase|..]), Text(scriptPath[|appBase|..])) in db.include_ ==>
      forall n :: n in rules.value <==> n in {38, 48, 80, 100, 273} || MayNeedNumber(db, Text(scriptPath[|appBase|..]), n)
  {
    if |scriptPath| < |appBase| {
      return None;
    }
    var relativePath := scriptPath[|appBase|..];
    if !enable {
      return None;
    }
    var s := filters.Find(relativePath);
    var allowed := FPM_SYSCALLS;
    if s != null {
      for i := 0 to |s.row.syscalls|
        invariant allowed == FPM_SYSCALLS + s.row.syscalls[..i]
      {
        allowed := allowed + [s.row.syscalls[i]];
      }
      assert allowed == FPM_SYSCALLS + s.row.syscalls;
    }
    rules := Some(allowed);
  }
}
