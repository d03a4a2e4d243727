/** The profile file: printed by build-filters, split and decoded by the extension
    when it starts. */
module ProfileFile {
  import opened Collections
  import opened CStrings
  import opened UtHashRow
  import opened UtHash
  import opened UtHashSpec
  import UtHashRuns

  const DELIM := ' '
  const ROW_LENGTH := 333
  const NAME_LENGTH := 512

  // ----- printing

  function PrintNumbers(ns: seq<int>): string {
    if ns == [] then "" else " " + PrintInt(ns[0]) + PrintNumbers(ns[1..])
  }

  function PrintLine(r: Row): string {
    r.name + PrintNumbers(r.syscalls) + "\n"
  }

  function PrintAll(rs: seq<Row>): string {
    if rs == [] then "" else PrintLine(rs[0]) + PrintAll(rs[1..])
  }

  /** rs lists the entries of the map, each once, in some order. */
  ghost predicate Enumerates(rs: seq<Row>, m: map<string, seq<int>>) {
    && (forall i | 0 <= i < |rs| :: rs[i].name in m && m[rs[i].name] == rs[i].syscalls)
    && (forall i, j | 0 <= i < j < |rs| :: rs[i].name != rs[j].name)
    && (forall k | k in m :: exists i :: 0 <= i < |rs| && rs[i].name == k)
  }

  lemma {:induction false} PrintNumbersAppend(ns: seq<int>, n: int)
    ensures PrintNumbers(ns + [n]) == PrintNumbers(ns) + " " + PrintInt(n)
  {
    if ns == [] {
      assert [n][1..] == [] && ns + [n] == [n];
    } else {
      assert (ns + [n])[1..] == ns[1..] + [n];
      PrintNumbersAppend(ns[1..], n);
    }
  }

  lemma {:induction false} PrintAllAppend(rs: seq<Row>, r: Row)
    ensures PrintAll(rs + [r]) == PrintAll(rs) + PrintLine(r)
  {
    if rs == [] {
      assert [r][1..] == [] && rs + [r] == [r];
    } else {
      assert (rs + [r])[1..] == rs[1..] + [r];
      PrintAllAppend(rs[1..], r);
    }
  }

  /** The inner loop: the line of one entry. */
  method PrintEntry(k: string, v: seq<int>) returns (line: string)
    ensures line == PrintLine(Row(k, v))
  {
    line := k;
    for i := 0 to |v|
      invariant line == k + PrintNumbers(v[..i])
    {
      PrintNumbersAppend(v[..i], v[i]);
      assert v[..i] + [v[i]] == v[..i + 1];
      line := line + " " + PrintInt(v[i]);
    }
    assert v[..|v|] == v;
    line := line + "\n";
  }

  /** The outer loop of build-filters; a map is walked in no particular order. */
  method PrintProfile(syscalls: map<string, seq<int>>) returns (out: string)
    ensures exists rs :: Enumerates(rs, syscalls) && out == PrintAll(rs)
  {
    out := "";
    ghost var rs: seq<Row> := [];
    var rest := syscalls.Keys;
    while rest != {}
      invariant out == PrintAll(rs) && rest <= syscalls.Keys
      invariant Enumerates(rs, map k | k in syscalls && k !in rest :: syscalls[k])
      decreases rest
    {
      var k :| k in rest;
      var line := PrintEntry(k, syscalls[k]);
      PrintAllAppend(rs, Row(k, syscalls[k]));
      EnumeratesAppend(rs, syscalls, rest, k);
      out, rs := out + line, rs + [Row(k, syscalls[k])];
      rest := rest - {k};
    }
    assert (map k | k in syscalls && k !in rest :: syscalls[k]) == syscalls;
  }

  lemma EnumeratesAppend(rs: seq<Row>, m: map<string, seq<int>>, rest: set<string>, k: string)
    requires Enumerates(rs, map q | q in m && q !in rest :: m[q]) && k in rest && k in m
    ensures Enumerates(rs + [Row(k, m[k])], map q | q in m && q !in rest - {k} :: m[q])
  {
    var t := rs + [Row(k, m[k])];
    var listed := map q | q in m && q !in rest :: m[q];
    forall q | q in m && q !in rest - {k}
      ensures exists i :: 0 <= i < |t| && t[i].name == q
    {
      if q == k {
        assert t[|rs|].name == q;
      } else {
        assert q in listed;
        var i :| 0 <= i < |rs| && rs[i].name == q;
        assert t[i].name == q;
      }
    }
  }

  // ----- parsing

  /** The fields of a string. */
  function Fields(s: string): (fs: seq<string>)
    ensures fs != []
    decreases |s|
  {
    var i := IndexOf(s, DELIM);
    [s[..i]] + (if i < |s| then Fields(s[i + 1..]) else [])
  }

  function Numbers(fs: seq<string>): (ns: seq<int>)
    ensures |ns| == |fs|
    ensures forall i | 0 <= i < |fs| :: ns[i] == Atoi(fs[i])
  {
    seq(|fs|, i requires 0 <= i < |fs| => Atoi(fs[i]))
  }

  /** What create_seccomp_filter makes of a string: one number for every field. */
  function SplitNumbers(s: string): (ns: seq<int>) {
    Numbers(Fields(s))
  }

  /** What a line of the file stands for: nothing when it has no delimiter. */
  function ParseLine(line: string): Option<Row> {
    var s := line[..IndexOf(line, NUL)];
    var i := IndexOf(s, DELIM);
    if i < |s| then Some(Row(s[..i], SplitNumbers(s[i + 1..]))) else None
  }

  /** The rows that a line adds. */
  function Found(line: string): (rs: seq<Row>) {
    match ParseLine(line) case Some(r) => [r] case None => []
  }

  /** getline: up to and with the newline, or what is left. */
  function GetLine(s: string): (line: string)
    requires s != []
    ensures line != [] && line <= s
  {
    var i := IndexOf(s, '\n');
    if i < |s| then s[..i + 1] else s
  }

  function ParseFile(s: string): seq<Row>
    decreases |s|
  {
    if s == [] then []
    else
      var line := GetLine(s);
      Found(line) + ParseFile(s[|line|..])
  }

  /** The struct filter can hold what the line stands for. */
  predicate Fits(r: Row) {
    |r.syscalls| <= ROW_LENGTH && |r.name| < NAME_LENGTH
  }

  lemma TailOfSlice(buf: string, p: nat, n: nat, k: nat)
    requires p + n <= |buf| && k <= n
    ensures buf[p..][..n][k..] == buf[p + k..][..n - k]
  {
    assert buf[p..][k..] == buf[p + k..];
  }

  /** The first field of the C string at p, and the string behind it. */
  lemma FieldOf(buf: string, p: nat)
    requires p < |buf| && buf[|buf| - 1] == NUL
    ensures var s := CStr(buf, p); var i := IndexOf(s, DELIM);
      && StrChr(buf, p, DELIM) == (if i < |s| then p + i else -1)
      && (i < |s| ==> p + i + 1 < |buf| && buf[p + i] == DELIM)
      && (i < |s| ==> CStr(buf, p + i + 1) == s[i + 1..])
      && (i == |s| ==> s == s[..i])
  {
    var s := CStr(buf, p);
    var i := IndexOf(s, DELIM);
    var n := IndexOf(buf[p..], NUL);
    assert buf[p..][|buf| - 1 - p] == NUL;
    IndexOfFirst(buf[p..], NUL);
    IndexOfFirst(s, DELIM);
    if i < |s| {
      IndexOfUnique(buf[p + i + 1..], NUL, n - i - 1);
      TailOfSlice(buf, p, n, i + 1);
      assert s[i] == DELIM;
    }
  }

  /** The fields that are done and those of the rest are all the fields. */
  ghost predicate Splits(all: seq<string>, done: seq<string>, rest: string) {
    done + Fields(rest) == all
  }

  /** Move the first field of the rest to the fields that are done. */
  lemma TakeField(all: seq<string>, done: seq<string>, rest: string)
    requires Splits(all, done, rest)
    ensures |done| < |all|
    ensures var i := IndexOf(rest, DELIM); var next := done + [rest[..i]];
      if i < |rest| then Splits(all, next, rest[i + 1..]) && |next| < |all| else next == all
  {
    FieldsUnfold(rest);
    var i := IndexOf(rest, DELIM);
    if i < |rest| {
      Regroup(done, [rest[..i]], Fields(rest[i + 1..]));
    }
  }

  lemma FieldsUnfold(s: string)
    ensures var i := IndexOf(s, DELIM);
      Fields(s) == if i < |s| then [s[..i]] + Fields(s[i + 1..]) else [s[..i]]
  {
  }

  /** A NUL written over the delimiter ends the string there and leaves the rest. */
  lemma CutString(before: string, after: string, p: nat, q: nat)
    requires p <= q < |before| && before[q] == DELIM && after == before[q := NUL]
    requires q == p + IndexOf(CStr(before, p), DELIM) && q - p < |CStr(before, p)|
    ensures CStr(after, p) == CStr(before, p)[..q - p]
    ensures CStr(after, q + 1) == CStr(before, q + 1)
  {
    IndexOfFirst(before[p..], NUL);
    assert forall j | 0 <= j < q - p :: after[p..][j] == before[p..][j];
    IndexOfUnique(after[p..], NUL, q - p);
    assert after[q + 1..] == before[q + 1..];
  }

  /** One turn of the loop: the field at p becomes entry i of the row. */
  method DecodeField(buf: array<char>, p: nat, row: array<int>, i: nat) returns (nums: int, ghost tail: string)
    requires p < buf.Length && buf[buf.Length - 1] == NUL
    requires i < row.Length && buf as object != row
    modifies buf, row
    ensures buf[buf.Length - 1] == NUL && forall j | 0 <= j < p :: buf[j] == old(buf[j])
    ensures forall j | 0 <= j < row.Length && j != i :: row[j] == old(row[j])
    ensures var s := old(CStr(buf[..], p)); var k := IndexOf(s, DELIM);
      && row[i] == Atoi(s[..k])
      && (if k < |s| then nums == p + k < buf.Length - 1 && tail == s[k + 1..] else nums == -1)
    ensures nums != -1 ==> tail == CStr(buf[..], nums + 1)
  {
    ghost var before := buf[..];
    nums := StrChr(buf[..], p, DELIM);
    FieldOf(before, p);
    if nums != -1 {
      buf[nums] := NUL;
      CutString(before, buf[..], p, nums);
    }
    ghost var after := buf[..];
    var scn := Atoi(CStr(buf[..], p));
    row[i] := scn;
    assert buf[..] == after;
    tail := CStr(after, nums + 1);
  }

  /** The fields that are decoded are in the row, the rest is still in the buffer. */
  ghost predicate Decoded(buf: array<char>, syscalls: nat, row: array<int>, all: seq<string>, done: seq<string>, rest: string)
    reads buf, row
  {
    && syscalls < buf.Length && buf[buf.Length - 1] == NUL && |done| <= row.Length
    && (forall j | 0 <= j < |done| :: row[j] == Atoi(done[j]))
    && rest == CStr(buf[..], syscalls) && Splits(all, done, rest)
  }

  /** The same turn, as a step of the whole string. */
  method DecodeNext(buf: array<char>, syscalls: nat, row: array<int>, i: nat,
                    ghost all: seq<string>, ghost done: seq<string>, ghost rest: string)
    returns (last: bool, next: int, ghost done': seq<string>, ghost rest': string)
    requires Decoded(buf, syscalls, row, all, done, rest) && i == |done| < row.Length && buf as object != row
    modifies buf, row
    ensures forall j | 0 <= j < syscalls :: buf[j] == old(buf[j])
    ensures |done'| == i + 1 && forall j | 0 <= j < |done'| :: row[j] == Atoi(done'[j])
    ensures last ==> done' == all
    ensures !last ==> next > syscalls && |done'| < |all| && Decoded(buf, next, row, all, done', rest')
  {
    TakeField(all, done, rest);
    done' := done + [rest[..IndexOf(rest, DELIM)]];
    var nums;
    nums, rest' := DecodeField(buf, syscalls, row, i);
    next := nums + 1;
    last := nums == -1;
  }

  /** create_seccomp_filter: the numbers of the string that starts at start. Its
      delimiters are overwritten, nothing before it is. */
  method CreateSeccompFilter(buf: array<char>, start: nat, row: array<int>) returns (i: nat)
    requires start < buf.Length && buf[buf.Length - 1] == NUL
    requires |Fields(CStr(buf[..], start))| <= row.Length
    requires buf as object != row
    modifies buf, row
    ensures i <= row.Length && row[..i] == SplitNumbers(old(CStr(buf[..], start)))
    ensures forall j | 0 <= j < start :: buf[j] == old(buf[j])
  {
    i := 0;
    var syscalls := start;
    ghost var done: seq<string>, rest := [], CStr(buf[..], start);
    ghost var all := Fields(rest);
    while true
      invariant start <= syscalls && i == |done| < |all| <= row.Length
      invariant Decoded(buf, syscalls, row, all, done, rest)
      invariant forall j | 0 <= j < start :: buf[j] == old(buf[j])
      decreases buf.Length - syscalls
    {
      var last;
      last, syscalls, done, rest := DecodeNext(buf, syscalls, row, i, all, done, rest);
      i := i + 1;
      if last {
        return;
      }
    }
  }

  /** One turn of the loading loop, up to the add: the filter that a line makes. */
  method ReadLine(line: string) returns (s: Filter?)
    requires ParseLine(line).Some? ==> Fits(ParseLine(line).value)
    ensures s == null <==> ParseLine(line).None?
    ensures s != null ==> fresh(s) && s.row == ParseLine(line).value
  {
    var buf := new char[|line| + 1](i requires 0 <= i <= |line| => if i < |line| then line[i] else NUL);
    ghost var before := buf[..];
    assert before == line + [NUL];
    LineParts(line, before);
    var nums := StrChr(buf[..], 0, DELIM);
    if nums == -1 {
      return null;
    }
    buf[nums] := NUL;
    CutString(before, buf[..], 0, nums);
    ghost var cut := buf[..];
    var row := new int[ROW_LENGTH];
    var len := CreateSeccompFilter(buf, nums + 1, row);
    SamePrefix(cut, buf[..], nums);
    s := new Filter(Row(CStr(buf[..], 0), row[..len]));
  }

  /** What the buffer of a line says about its meaning. */
  lemma LineParts(line: string, buf: string)
    requires buf == line + [NUL]
    ensures var q := StrChr(buf, 0, DELIM);
      if q == -1 then ParseLine(line).None?
      else
        && q < |line| && buf[q] == DELIM && q == IndexOf(CStr(buf, 0), DELIM) < |CStr(buf, 0)|
        && ParseLine(line) == Some(Row(CStr(buf, 0)[..q], SplitNumbers(CStr(buf, q + 1))))
        && |Fields(CStr(buf, q + 1))| == |ParseLine(line).value.syscalls|
  {
    LineString(line);
    FieldOf(buf, 0);
  }

  /** The buffer of a line holds the line up to its first NUL. */
  lemma LineString(line: string)
    ensures CStr(line + [NUL], 0) == line[..IndexOf(line, NUL)]
  {
    IndexOfFirst(line, NUL);
    var buf := line + [NUL];
    assert buf[0..] == buf;
    IndexOfUnique(buf, NUL, IndexOf(line, NUL));
  }

  /** A string that ends at q does not depend on what follows. */
  lemma SamePrefix(a: string, b: string, q: nat)
    requires |a| == |b| && q < |a| && a[q] == NUL && forall j | 0 <= j <= q :: a[j] == b[j]
    ensures CStr(a, 0) == CStr(b, 0)
  {
    assert a[0..] == a && b[0..] == b;
    IndexOfFirst(a, NUL);
    assert IndexOf(a, NUL) <= q;
    IndexOfUnique(b, NUL, IndexOf(a, NUL));
  }

  function Rows(app: seq<Filter>): (rs: seq<Row>)
    ensures |rs| == |app|
    ensures forall i | 0 <= i < |app| :: rs[i] == app[i].row
  {
    seq(|app|, i requires 0 <= i < |app| => app[i].row)
  }

  ghost predicate Loadable(file: string) {
    forall r | r in ParseFile(file) :: Fits(r)
  }

  /** The part of a table that was allocated since the start of a load. */
  twostate predicate AllFresh(new filters: Hash)
    reads filters
  {
    fresh(filters) && fresh(filters.buckets) && forall i | 0 <= i < |filters.table.app| :: fresh(filters.table.app[i])
  }

  lemma AppendedLast(h: HashFcn, t: Table, f: Filter)
    requires UtHashSpec.Valid(h, t)
    ensures Add(h, t, f).app == t.app + [f]
  {
  }

  /** Load one line. */
  method LoadLine(line: string, filters: Hash) returns (s: Filter?)
    requires filters.Valid() && forall r | r in Found(line) :: Fits(r)
    modifies filters, filters.buckets, filters.table.app
    ensures filters.Valid() && (filters.buckets == old(filters.buckets) || fresh(filters.buckets))
    ensures if s == null then Found(line) == [] else fresh(s) && Found(line) == [s.row]
    ensures filters.table.app == old(filters.table.app) + if s == null then [] else [s]
    ensures Rows(filters.table.app) == Rows(old(filters.table.app)) + Found(line)
  {
    assert ParseLine(line).Some? ==> ParseLine(line).value in Found(line);
    s := ReadLine(line);
    if s != null {
      AppendedLast(filters.hashFcn, filters.table, s);
      filters.Add(s);
    }
  }

  /** The rows that are loaded and those of the rest of the file are all the rows. */
  ghost predicate Pending(all: seq<Row>, done: seq<Row>, rest: string) {
    done + ParseFile(rest) == all
  }

  lemma TakeLine(all: seq<Row>, done: seq<Row>, rest: string)
    requires Pending(all, done, rest) && rest != ""
    ensures var line := GetLine(rest);
      && Pending(all, done + Found(line), rest[|line|..])
      && forall r | r in Found(line) :: r in all
  {
    var line := GetLine(rest);
    var more := ParseFile(rest[|line|..]);
    assert ParseFile(rest) == Found(line) + more;
    assert done + (Found(line) + more) == (done + Found(line)) + more;
  }

  /** The profile-loading loop of MINIT. */
  method LoadProfile(file: string, hashFcn: HashFcn) returns (filters: Hash)
    requires Loadable(file)
    ensures filters.Valid() && filters.hashFcn == hashFcn && AllFresh(filters)
    ensures Rows(filters.table.app) == ParseFile(file)
  {
    filters := new Hash(hashFcn);
    var rest := file;
    ghost var all := ParseFile(file);
    while rest != ""
      invariant filters.Valid() && filters.hashFcn == hashFcn && AllFresh(filters)
      invariant Pending(all, Rows(filters.table.app), rest)
      decreases |rest|
    {
      var line := GetLine(rest);
      TakeLine(all, Rows(filters.table.app), rest);
      var s := LoadLine(line, filters);
      rest := rest[|line|..];
    }
  }

  // ----- the round trip

  /** A path that survives the line format. */
  ghost predicate CleanPath(p: string) {
    forall i | 0 <= i < |p| :: p[i] != DELIM && p[i] != '\n' && p[i] != NUL
  }

  lemma IndexOfBehind(a: string, c: char, b: string)
    requires (forall i | 0 <= i < |a| :: a[i] != c) && (b != "" ==> b[0] == c)
    ensures IndexOf(a + b, c) == |a|
  {
    IndexOfUnique(a + b, c, |a|);
  }

  /** A numeral at the end of the line, or in front of more. */
  lemma NumeralFirst(n: int, tail: string)
    requires tail == "\n" || (tail != "" && tail[0] == DELIM)
    ensures var s := PrintInt(n) + tail; var i := IndexOf(s, DELIM);
      && Atoi(s[..i]) == n
      && (if tail == "\n" then i == |s| else i == |PrintInt(n)| && s[i + 1..] == tail[1..])
  {
    var d := PrintInt(n);
    var s := d + tail;
    if tail == "\n" {
      IndexOfUnique(s, DELIM, |s|);
      assert s[..|s|] == s;
      AtoiOfPrintInt(n, "\n");
    } else {
      IndexOfUnique(s, DELIM, |d|);
      assert s[..|d|] == d + "";
      AtoiOfPrintInt(n, "");
    }
  }

  /** What a line has behind the delimiter that follows the path. */
  function Printed(ns: seq<int>): string
    requires ns != []
  {
    PrintInt(ns[0]) + (PrintNumbers(ns[1..]) + "\n")
  }

  lemma PrintedBehind(ns: seq<int>)
    requires ns != []
    ensures PrintNumbers(ns) + "\n" == " " + Printed(ns)
  {
  }

  /** The first field of a printed list is its first numeral. */
  lemma FirstOfPrinted(ns: seq<int>)
    requires ns != []
    ensures var s := Printed(ns); var i := IndexOf(s, DELIM);
      && Atoi(s[..i]) == ns[0]
      && (if |ns| == 1 then i == |s| else i < |s| && s[i + 1..] == Printed(ns[1..]))
  {
    if |ns| == 1 {
      assert ns[1..] == [] && PrintNumbers(ns[1..]) + "\n" == "\n";
      NumeralFirst(ns[0], "\n");
    } else {
      PrintedBehind(ns[1..]);
      var tail := " " + Printed(ns[1..]);
      NumeralFirst(ns[0], tail);
      assert tail[1..] == Printed(ns[1..]);
    }
  }

  lemma PrintedUnfolds(ns: seq<int>) returns (first: string)
    requires ns != []
    ensures Atoi(first) == ns[0]
    ensures Fields(Printed(ns)) == [first] + (if |ns| == 1 then [] else Fields(Printed(ns[1..])))
  {
    FirstOfPrinted(ns);
    FieldsUnfold(Printed(ns));
    first := Printed(ns)[..IndexOf(Printed(ns), DELIM)];
  }

  /** The fields of a printed list are its numerals, the last with the newline. */
  lemma {:induction false} FieldsOfPrinted(ns: seq<int>, i: nat)
    requires i < |ns|
    ensures |Fields(Printed(ns))| == |ns| && Atoi(Fields(Printed(ns))[i]) == ns[i]
  {
    var first := PrintedUnfolds(ns);
    if |ns| > 1 {
      FieldsOfPrinted(ns[1..], if i == 0 then 0 else i - 1);
    }
  }

  lemma NumbersOfPrinted(ns: seq<int>)
    requires ns != []
    ensures SplitNumbers(Printed(ns)) == ns
  {
    FieldsOfPrinted(ns, 0);
    forall i | 0 <= i < |ns|
      ensures SplitNumbers(Printed(ns))[i] == ns[i]
    {
      FieldsOfPrinted(ns, i);
    }
  }

  /** A printed list has no newline and no NUL. */
  lemma {:induction false} PrintedChars(ns: seq<int>, i: nat)
    requires i < |PrintNumbers(ns)|
    ensures PrintNumbers(ns)[i] != '\n' && PrintNumbers(ns)[i] != NUL
  {
    var n := PrintInt(ns[0]);
    if i > |n| {
      PrintedChars(ns[1..], i - 1 - |n|);
    }
  }

  lemma LineChars(r: Row)
    requires CleanPath(r.name)
    ensures var line := PrintLine(r);
      forall i | 0 <= i < |line| :: line[i] != NUL && (line[i] == '\n' <==> i == |line| - 1)
  {
    var line := PrintLine(r);
    forall i | 0 <= i < |line|
      ensures line[i] != NUL && (line[i] == '\n' <==> i == |line| - 1)
    {
      if |r.name| <= i < |line| - 1 {
        PrintedChars(r.syscalls, i - |r.name|);
      }
    }
  }

  /** Decoding undoes printing, line by line; an empty list makes no filter. */
  lemma ParsePrinted(r: Row)
    requires CleanPath(r.name)
    ensures Found(PrintLine(r)) == if r.syscalls == [] then [] else [r]
  {
    var line := PrintLine(r);
    LineChars(r);
    assert line + "" == line && line[..|line|] == line;
    IndexOfBehind(line, NUL, "");
    if r.syscalls == [] {
      IndexOfBehind(line, DELIM, "");
    } else {
      PrintedParts(r);
      NumbersOfPrinted(r.syscalls);
    }
  }

  lemma PrintedParts(r: Row)
    requires CleanPath(r.name) && r.syscalls != []
    ensures var line := PrintLine(r);
      && IndexOf(line, DELIM) == |r.name| < |line|
      && line[..|r.name|] == r.name && line[|r.name| + 1..] == Printed(r.syscalls)
  {
    PrintedBehind(r.syscalls);
    var tail := " " + Printed(r.syscalls);
    Regroup(r.name, PrintNumbers(r.syscalls), "\n");
    IndexOfBehind(r.name, DELIM, tail);
  }

  /** getline finds the printed lines. */
  lemma FirstLine(r: Row, more: string)
    requires CleanPath(r.name)
    ensures GetLine(PrintLine(r) + more) == PrintLine(r)
    ensures (PrintLine(r) + more)[|PrintLine(r)|..] == more
  {
    LineChars(r);
    var n := |PrintLine(r)| - 1;
    var s := PrintLine(r) + more;
    assert forall j | 0 <= j <= n :: s[j] == PrintLine(r)[j];
    IndexOfUnique(s, '\n', n);
    assert s[..n + 1] == PrintLine(r);
  }

  /** The rows that make a filter. */
  ghost function Listing(rs: seq<Row>): seq<Row> {
    if rs == [] then [] else (if rs[0].syscalls == [] then [] else [rs[0]]) + Listing(rs[1..])
  }

  /** Decoding undoes printing, for the whole file. */
  lemma {:induction false} ParseFileOfPrinted(rs: seq<Row>)
    requires forall i | 0 <= i < |rs| :: CleanPath(rs[i].name)
    ensures ParseFile(PrintAll(rs)) == Listing(rs)
  {
    if rs != [] {
      FirstLine(rs[0], PrintAll(rs[1..]));
      ParsePrinted(rs[0]);
      ParseFileOfPrinted(rs[1..]);
    }
  }

  lemma {:induction false} ListingRows(rs: seq<Row>, r: Row)
    ensures r in Listing(rs) <==> r in rs && r.syscalls != []
  {
    if rs != [] {
      ListingRows(rs[1..], r);
      assert rs == [rs[0]] + rs[1..];
    }
  }

  /** The printed profile of a map, once loaded, answers a lookup with the list that
      the map has for the path, and with nothing when it has none. */
  lemma LookupIsMap(h: HashFcn, t: Table, rs: seq<Row>, m: map<string, seq<int>>, path: string)
    requires UtHashSpec.Valid(h, t) && Rows(t.app) == ParseFile(PrintAll(rs)) && Enumerates(rs, m)
    requires forall k | k in m :: CleanPath(k)
    ensures var f := Find(h, t, path);
      && (f == null <==> path !in m || m[path] == [])
      && (f != null ==> f.row == Row(path, m[path]))
  {
    ParseFileOfPrinted(rs);
    UtHashRuns.FindIsLookup(h, t, path);
    var f := Find(h, t, path);
    if f != null {
      var i :| 0 <= i < |t.app| && t.app[i] == f;
      assert Rows(t.app)[i] == f.row;
      ListingRows(rs, f.row);
      var j :| 0 <= j < |rs| && rs[j] == f.row;
      assert rs[j].name == path;
    } else if path in m {
      var j :| 0 <= j < |rs| && rs[j].name == path;
      ListingRows(rs, rs[j]);
    }
  }

  // ----- every line

  /** The fields with a blank between them. */
  function JoinFields(fs: seq<string>): string
    requires fs != []
  {
    if |fs| == 1 then fs[0] else fs[0] + " " + JoinFields(fs[1..])
  }

  ghost predicate NoBlank(s: string) {
    forall i | 0 <= i < |s| :: s[i] != ' '
  }

  /** Splitting undoes joining, empty fields included. */
  lemma {:induction false} FieldsOfJoined(fs: seq<string>)
    requires fs != [] && forall i | 0 <= i < |fs| :: NoBlank(fs[i])
    ensures Fields(JoinFields(fs)) == fs
  {
    var s := JoinFields(fs);
    if |fs| == 1 {
      IndexOfBehind(fs[0], ' ', "");
      assert s + "" == s && s[..|s|] == s && fs == [fs[0]];
    } else {
      var more := JoinFields(fs[1..]);
      assert s == fs[0] + (" " + more);
      IndexOfBehind(fs[0], ' ', " " + more);
      assert s[..|fs[0]|] == fs[0] && s[|fs[0]| + 1..] == more;
      FieldsOfJoined(fs[1..]);
    }
  }

  /** What every line means, up to its first NUL: the path in front of the first blank, and
      the number that atoi reads from each field behind it; without a blank, nothing. */
  lemma LineMeans(path: string, fs: seq<string>, behind: string)
    requires NoBlank(path) && (forall i | 0 <= i < |path| :: path[i] != NUL)
    requires forall i | 0 <= i < |fs| :: NoBlank(fs[i])
    requires fs != [] ==> forall i | 0 <= i < |JoinFields(fs)| :: JoinFields(fs)[i] != NUL
    requires behind == "" || behind[0] == NUL
    ensures fs == [] ==> ParseLine(path + behind) == None
    ensures fs != [] ==> ParseLine(path + " " + JoinFields(fs) + behind) == Some(Row(path, Numbers(fs)))
  {
    var text := if fs == [] then path else path + " " + JoinFields(fs);
    IndexOfBehind(text, NUL, behind);
    assert (text + behind)[..|text|] == text;
    if fs == [] {
      IndexOfBehind(path, ' ', "");
      assert path + "" == path;
    } else {
      assert text == path + (" " + JoinFields(fs));
      IndexOfBehind(path, ' ', " " + JoinFields(fs));
      assert text[..|path|] == path && text[|path| + 1..] == JoinFields(fs);
      FieldsOfJoined(fs);
    }
  }
}
