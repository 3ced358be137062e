/** The migration runner of run-postgres-migrations.py.

    The connection is not in autocommit mode and has read `schema_migrations` before the loop, so each
    file's own transaction block is a savepoint inside the run's single transaction: an error anywhere
    rolls the whole run back. SHA-256 and the success of a file's SQL are parameters. */
module Migrations {
  import opened Wrappers
  import D = Decimal
  import Tokens

  datatype File = File(stem: string, content: string)

  /** Filename and checksum, under the version. */
  datatype Applied = Applied(filename: string, checksum: string)

  /** The tracking table, and every migration text the database has executed, in order. */
  datatype Database = Database(recorded: map<string, Applied>, executed: seq<string>)

  const EMPTY := Database(map[], [])

  datatype MigrationError = DirectoryMissing | NoFiles | NotNumeric | Duplicate | NotContiguous | Edited(stem: string) | Failed(stem: string)

  /** `stem.split("_", 1)[0]`. */
  function Version(f: File): string {
    f.stem[..Tokens.IndexOf(f.stem, '_')]
  }

  predicate HasNumber(f: File) {
    |Version(f)| > 0 && forall i :: 0 <= i < |Version(f)| ==> D.IsDecimal(Version(f)[i])
  }

  function Number(f: File): nat
    requires HasNumber(f)
  {
    D.Parse(Version(f))
  }

  // ---- Discovery ----

  ghost predicate Numbered(files: seq<File>) {
    && (forall i :: 0 <= i < |files| ==> HasNumber(files[i]))
    && (forall i, j :: 0 <= i < j < |files| ==> Version(files[i]) != Version(files[j]))
  }

  function InsertByNumber(f: File, sorted: seq<File>): (r: seq<File>)
    requires HasNumber(f) && forall i :: 0 <= i < |sorted| ==> HasNumber(sorted[i])
    ensures |r| == |sorted| + 1 && forall i :: 0 <= i < |r| ==> HasNumber(r[i])
    ensures multiset(r) == multiset(sorted) + multiset{f}
  {
    if |sorted| == 0 || Number(f) <= Number(sorted[0]) then [f] + sorted
    else
      assert sorted == [sorted[0]] + sorted[1..];
      [sorted[0]] + InsertByNumber(f, sorted[1..])
  }

  /** `sorted(files, key=int(version))`. */
  function ByNumber(files: seq<File>): (r: seq<File>)
    requires forall i :: 0 <= i < |files| ==> HasNumber(files[i])
    ensures |r| == |files| && forall i :: 0 <= i < |r| ==> HasNumber(r[i])
    ensures multiset(r) == multiset(files)
  {
    if |files| == 0 then []
    else
      assert files == [files[0]] + files[1..];
      InsertByNumber(files[0], ByNumber(files[1..]))
  }

  /** The versions are `1..n`, all filled to the width of the first. */
  predicate Contiguous(files: seq<File>, width: nat) {
    forall i :: 0 <= i < |files| ==> Version(files[i]) == D.Filled(i + 1, width)
  }

  /** Every file's number is at most the next one's. */
  ghost predicate Ascending(files: seq<File>)
    requires forall i :: 0 <= i < |files| ==> HasNumber(files[i])
  {
    forall i, j :: 0 <= i < j < |files| ==> Number(files[i]) <= Number(files[j])
  }

  ghost predicate DistinctVersions(files: seq<File>) {
    forall i, j :: 0 <= i < j < |files| ==> Version(files[i]) != Version(files[j])
  }

  lemma InsertMembers(f: File, sorted: seq<File>)
    requires HasNumber(f) && forall i :: 0 <= i < |sorted| ==> HasNumber(sorted[i])
    ensures forall x :: x in InsertByNumber(f, sorted) <==> x == f || x in sorted
  {
    var r := InsertByNumber(f, sorted);
    forall x ensures x in r <==> x == f || x in sorted {
      assert x in r <==> x in multiset(r);
      assert x in sorted <==> x in multiset(sorted);
    }
  }

  lemma ConsAscending(f: File, rest: seq<File>)
    requires HasNumber(f) && (forall i :: 0 <= i < |rest| ==> HasNumber(rest[i])) && Ascending(rest)
    requires forall i :: 0 <= i < |rest| ==> Number(f) <= Number(rest[i])
    ensures Ascending([f] + rest)
  {
  }

  lemma {:induction false} InsertAscending(f: File, sorted: seq<File>)
    requires HasNumber(f) && (forall i :: 0 <= i < |sorted| ==> HasNumber(sorted[i])) && Ascending(sorted)
    ensures Ascending(InsertByNumber(f, sorted))
  {
    if |sorted| > 0 && Number(f) > Number(sorted[0]) {
      var rest := sorted[1..];
      InsertAscending(f, rest);
      InsertMembers(f, rest);
      var r := InsertByNumber(f, rest);
      forall i | 0 <= i < |r| ensures Number(sorted[0]) <= Number(r[i]) {
        assert r[i] in r;
      }
      ConsAscending(sorted[0], r);
    } else {
      ConsAscending(f, sorted);
    }
  }

  lemma {:induction false} InsertDistinct(f: File, sorted: seq<File>)
    requires HasNumber(f) && (forall i :: 0 <= i < |sorted| ==> HasNumber(sorted[i])) && DistinctVersions(sorted)
    requires forall x :: x in sorted ==> Version(x) != Version(f)
    ensures DistinctVersions(InsertByNumber(f, sorted))
  {
    if |sorted| > 0 && Number(f) > Number(sorted[0]) {
      var rest := sorted[1..];
      InsertDistinct(f, rest);
      InsertMembers(f, rest);
      var r := InsertByNumber(f, rest);
      forall i | 0 <= i < |r| ensures Version(sorted[0]) != Version(r[i]) {
        assert r[i] in r && sorted[0] in sorted;
      }
    }
  }

  lemma {:induction false} SortMembers(files: seq<File>)
    requires forall i :: 0 <= i < |files| ==> HasNumber(files[i])
    ensures forall x :: x in ByNumber(files) <==> x in files
  {
    if |files| > 0 {
      assert files == [files[0]] + files[1..];
      SortMembers(files[1..]);
      InsertMembers(files[0], ByNumber(files[1..]));
    }
  }

  /** The sort is by number, ascending. */
  lemma {:induction false} SortAscending(files: seq<File>)
    requires forall i :: 0 <= i < |files| ==> HasNumber(files[i])
    ensures Ascending(ByNumber(files))
  {
    if |files| > 0 {
      SortAscending(files[1..]);
      InsertAscending(files[0], ByNumber(files[1..]));
    }
  }

  lemma {:induction false} SortDistinct(files: seq<File>)
    requires (forall i :: 0 <= i < |files| ==> HasNumber(files[i])) && DistinctVersions(files)
    ensures DistinctVersions(ByNumber(files))
  {
    if |files| > 0 {
      var rest := files[1..];
      SortDistinct(rest);
      SortMembers(rest);
      forall x | x in ByNumber(rest) ensures Version(x) != Version(files[0]) {
        var i :| 0 <= i < |rest| && rest[i] == x;
        assert files[i + 1] == x;
      }
      InsertDistinct(files[0], ByNumber(rest));
    }
  }

  /** What a directory must look like, whatever the order of its listing: the versions are different, and
      they are exactly `1..n` filled to one width. */
  ghost predicate Directory(files: seq<File>, width: nat) {
    && files != [] && width >= 1 && DistinctVersions(files)
    && (forall i :: 0 <= i < |files| ==> Version(files[i]) in Versions(width, |files|))
    && (forall v :: v in Versions(width, |files|) ==> exists i :: 0 <= i < |files| && Version(files[i]) == v)
  }

  ghost predicate IsDirectory(files: seq<File>) {
    exists width: nat :: Directory(files, width)
  }

  lemma DirectoryNumbers(files: seq<File>, width: nat, f: File)
    requires Directory(files, width) && f in files
    ensures HasNumber(f) && 1 <= Number(f) <= |files| && Version(f) == D.Filled(Number(f), width)
  {
    var k :| 0 <= k < |files| && files[k] == f;
    assert Version(files[k]) in Versions(width, |files|);
    var i :| 1 <= i <= |files| && D.Filled(i, width) == Version(f);
    D.ParseFilled(i, width);
  }

  lemma {:induction false} CountUp(files: seq<File>, n: nat, i: nat)
    requires forall j :: 0 <= j < |files| ==> HasNumber(files[j])
    requires (forall j :: 0 <= j < |files| ==> 1 <= Number(files[j]) <= n) && |files| == n && i < n
    requires forall j, k :: 0 <= j < k < |files| ==> Number(files[j]) < Number(files[k])
    ensures Number(files[i]) >= i + 1
  {
    if i > 0 {
      CountUp(files, n, i - 1);
    }
  }

  lemma {:induction false} CountDown(files: seq<File>, n: nat, i: nat)
    requires forall j :: 0 <= j < |files| ==> HasNumber(files[j])
    requires (forall j :: 0 <= j < |files| ==> 1 <= Number(files[j]) <= n) && |files| == n && i < n
    requires forall j, k :: 0 <= j < k < |files| ==> Number(files[j]) < Number(files[k])
    ensures Number(files[i]) <= i + 1
    decreases n - i
  {
    if i + 1 < n {
      CountDown(files, n, i + 1);
    }
  }

  /** Different numbers from `1..n`, ascending, are `1..n`. */
  lemma AscendingIsContiguous(ordered: seq<File>, width: nat)
    requires (forall i :: 0 <= i < |ordered| ==> HasNumber(ordered[i])) && Ascending(ordered) && DistinctVersions(ordered)
    requires forall i :: 0 <= i < |ordered| ==> 1 <= Number(ordered[i]) <= |ordered| && Version(ordered[i]) == D.Filled(Number(ordered[i]), width)
    ensures Contiguous(ordered, width)
  {
    forall j, k | 0 <= j < k < |ordered| ensures Number(ordered[j]) < Number(ordered[k]) {
      assert Version(ordered[j]) != Version(ordered[k]);
    }
    forall i | 0 <= i < |ordered| ensures Version(ordered[i]) == D.Filled(i + 1, width) {
      CountUp(ordered, |ordered|, i);
      CountDown(ordered, |ordered|, i);
    }
  }

  lemma DirectorySorts(files: seq<File>, width: nat)
    requires Directory(files, width)
    ensures Numbered(files) && Contiguous(ByNumber(files), width)
  {
    forall i | 0 <= i < |files| ensures HasNumber(files[i]) {
      DirectoryNumbers(files, width, files[i]);
    }
    SortMembers(files);
    SortAscending(files);
    SortDistinct(files);
    var ordered := ByNumber(files);
    forall i | 0 <= i < |ordered|
      ensures 1 <= Number(ordered[i]) <= |ordered| && Version(ordered[i]) == D.Filled(Number(ordered[i]), width)
    {
      assert ordered[i] in ordered;
      DirectoryNumbers(files, width, ordered[i]);
    }
    AscendingIsContiguous(ordered, width);
  }

  lemma ContiguousIsDirectory(files: seq<File>, width: nat)
    requires files != [] && Numbered(files) && width >= 1 && Contiguous(ByNumber(files), width)
    ensures Directory(files, width)
  {
    forall i | 0 <= i < |files| ensures Version(files[i]) in Versions(width, |files|) {
      VersionIsListed(files, width, i);
    }
    forall v | v in Versions(width, |files|) ensures exists i :: 0 <= i < |files| && Version(files[i]) == v {
      var i := ListedVersion(files, width, v);
    }
  }

  lemma VersionIsListed(files: seq<File>, width: nat, i: nat)
    requires Numbered(files) && Contiguous(ByNumber(files), width) && i < |files|
    ensures Version(files[i]) in Versions(width, |files|)
  {
    SortMembers(files);
    var ordered := ByNumber(files);
    assert files[i] in ordered;
    var k :| 0 <= k < |ordered| && ordered[k] == files[i];
    assert Version(ordered[k]) == D.Filled(k + 1, width);
    VersionInPrefix(width, |files|, k + 1);
  }

  lemma ListedVersion(files: seq<File>, width: nat, v: string) returns (i: nat)
    requires Numbered(files) && Contiguous(ByNumber(files), width) && v in Versions(width, |files|)
    ensures i < |files| && Version(files[i]) == v
  {
    SortMembers(files);
    var ordered := ByNumber(files);
    var k :| 1 <= k <= |files| && D.Filled(k, width) == v;
    assert ordered[k - 1] in ordered && Version(ordered[k - 1]) == v;
    i :| i < |files| && files[i] == ordered[k - 1];
  }

  /** A listing is accepted, in whatever order it comes, if and only if it is such a directory for some width. */
  lemma AcceptsExactly(files: seq<File>)
    ensures Accepts(files) <==> IsDirectory(files)
  {
    if Accepts(files) {
      ContiguousIsDirectory(files, |Version(ByNumber(files)[0])|);
    }
    if IsDirectory(files) {
      var width: nat :| Directory(files, width);
      DirectorySorts(files, width);
      FirstVersionWidth(width);
    }
  }

  ghost predicate Accepts(files: seq<File>) {
    files != [] && Numbered(files) && Contiguous(ByNumber(files), |Version(ByNumber(files)[0])|)
  }

  /** The first file, if any, without a numeric version or with a version already seen. */
  method FirstDefect(files: seq<File>) returns (defect: Option<MigrationError>)
    ensures defect.None? <==> Numbered(files)
    ensures defect.Some? ==> exists i :: 0 <= i < |files| && Numbered(files[..i])
                                         && defect == Some(if HasNumber(files[i]) then Duplicate else NotNumeric)
                                         && (HasNumber(files[i]) ==> exists j :: 0 <= j < i && Version(files[j]) == Version(files[i]))
  {
    var seen: set<string> := {};
    for i := 0 to |files|
      invariant forall j :: 0 <= j < i ==> HasNumber(files[j])
      invariant forall j, k :: 0 <= j < k < i ==> Version(files[j]) != Version(files[k])
      invariant forall v :: v in seen <==> exists j :: 0 <= j < i && Version(files[j]) == v
    {
      assert Numbered(files[..i]);
      if !HasNumber(files[i]) {
        return Some(NotNumeric);
      }
      if Version(files[i]) in seen {
        return Some(Duplicate);
      }
      seen := seen + {Version(files[i])};
    }
    return None;
  }

  /** `_discover_migrations`: any listing of a directory whose versions are exactly `1..n` at one width
      becomes those files in that order; everything else is refused, by the first check it fails. */
  method DiscoverMigrations(listing: Option<seq<File>>) returns (r: Result<seq<File>, MigrationError>)
    ensures r.Ok? <==> listing.Some? && IsDirectory(listing.value)
    ensures r.Ok? <==> listing.Some? && Accepts(listing.value)
    ensures r.Ok? ==> r.value == ByNumber(listing.value) && multiset(r.value) == multiset(listing.value)
                      && forall i :: 0 <= i < |r.value| ==> Version(r.value[i]) == D.Filled(i + 1, |Version(r.value[0])|)
    ensures listing.None? <==> r == Err(DirectoryMissing)
    ensures listing == Some([]) <==> r == Err(NoFiles)
    ensures r.Err? && r.error in {NotNumeric, Duplicate} <==> listing.Some? && listing.value != [] && !Numbered(listing.value)
    ensures r == Err(NotContiguous) <==> listing.Some? && listing.value != [] && Numbered(listing.value) && !IsDirectory(listing.value)
  {
    if listing.None? {
      return Err(DirectoryMissing);
    }
    var files := listing.value;
    if files == [] {
      return Err(NoFiles);
    }
    AcceptsExactly(files);
    var defect := FirstDefect(files);
    if defect.Some? {
      return Err(defect.value);
    }
    var ordered := ByNumber(files);
    if !Contiguous(ordered, |Version(ordered[0])|) {
      return Err(NotContiguous);
    }
    return Ok(ordered);
  }

  // ---- One run ----

  /** What the run cannot know: the checksum function, and which file's SQL fails on which database. */
  datatype World = World(checksum: string -> string, fails: (Database, File) -> bool)

  function Record(w: World, db: Database, f: File): Database {
    Database(db.recorded[Version(f) := Applied(f.stem + ".sql", w.checksum(f.content))], db.executed + [f.content])
  }

  /** The loop over the remaining files; `existing` was read before it. */
  function Pass(w: World, existing: map<string, Applied>, db: Database, files: seq<File>, dry: bool): Result<(Database, seq<string>), MigrationError>
    decreases |files|
  {
    if |files| == 0 then Ok((db, []))
    else
      var f, rest := files[0], files[1..];
      if Version(f) in existing then
        if existing[Version(f)].checksum != w.checksum(f.content) then Err(Edited(f.stem)) else Pass(w, existing, db, rest, dry)
      else if !dry && w.fails(db, f) then Err(Failed(f.stem))
      else
        Prefixed([f.stem + ".sql"], Pass(w, existing, if dry then db else Record(w, db, f), rest, dry))
  }

  function Prefixed(names: seq<string>, r: Result<(Database, seq<string>), MigrationError>): Result<(Database, seq<string>), MigrationError> {
    match r
    case Err(e) => Err(e)
    case Ok((final, more)) => Ok((final, names + more))
  }

  lemma PrefixedTwice(names: seq<string>, name: string, r: Result<(Database, seq<string>), MigrationError>)
    ensures Prefixed(names, Prefixed([name], r)) == Prefixed(names + [name], r)
    ensures Prefixed([], r) == r
  {
    if r.Ok? {
      assert names + ([name] + r.value.1) == names + [name] + r.value.1;
      assert [] + r.value.1 == r.value.1;
    }
  }

  /** `run_migrations` after discovery: commit on success, roll back on any error. */
  function Run(w: World, db: Database, files: seq<File>, dry: bool): (Database, Result<seq<string>, MigrationError>) {
    match Pass(w, db.recorded, db, files, dry)
    case Err(e) => (db, Err(e))
    case Ok((final, names)) => (final, Ok(names))
  }

  class MigrationTarget {
    var recorded: map<string, Applied>
    var executed: seq<string>

    function State(): Database
      reads this
    {
      Database(recorded, executed)
    }

    constructor ()
      ensures State() == EMPTY
    {
      recorded, executed := map[], [];
    }

    method RunMigrations(w: World, listing: Option<seq<File>>, dry: bool) returns (r: Result<seq<string>, MigrationError>)
      modifies this
      ensures listing.None? || !IsDirectory(listing.value) ==> r.Err? && !r.error.Edited? && !r.error.Failed? && State() == old(State())
      ensures listing.Some? && IsDirectory(listing.value) ==> Accepts(listing.value)
      ensures listing.Some? && Accepts(listing.value) ==> (State(), r) == Run(w, old(State()), ByNumber(listing.value), dry)
    {
      var discovered := DiscoverMigrations(listing);
      if discovered.Err? {
        return Err(discovered.error);
      }
      var pass := ApplyAll(w, recorded, State(), discovered.value, dry);
      if pass.Err? {
        return Err(pass.error);
      }
      recorded, executed := pass.value.0.recorded, pass.value.0.executed;
      return Ok(pass.value.1);
    }
  }

  /** The loop over the files, on the run's own transaction: the database it would commit and the names it
      applied, or the error that rolls it back. */
  method ApplyAll(w: World, existing: map<string, Applied>, start: Database, files: seq<File>, dry: bool)
    returns (r: Result<(Database, seq<string>), MigrationError>)
    ensures r == Pass(w, existing, start, files, dry)
  {
    var db, applied := start, [];
    assert files[0..] == files;
    PrefixedTwice([], "", Pass(w, existing, db, files, dry));
    for i := 0 to |files|
      invariant Pass(w, existing, start, files, dry) == Prefixed(applied, Pass(w, existing, db, files[i..], dry))
    {
      var f := files[i];
      assert files[i..][0] == f && files[i..][1..] == files[i + 1..];
      if Version(f) in existing {
        if existing[Version(f)].checksum != w.checksum(f.content) {
          return Err(Edited(f.stem));
        }
      } else {
        if !dry {
          if w.fails(db, f) {
            return Err(Failed(f.stem));
          }
          db := Record(w, db, f);
        }
        PrefixedTwice(applied, f.stem + ".sql", Pass(w, existing, db, files[i + 1..], dry));
        applied := applied + [f.stem + ".sql"];
      }
    }
    assert files[|files|..] == [];
    assert applied + [] == applied;
    return Ok((db, applied));
  }

  // ---- Prefixes ----

  function Versions(width: nat, k: nat): set<string> {
    set i | 1 <= i <= k :: D.Filled(i, width)
  }

  /** The recorded versions are exactly `1..k`. */
  ghost predicate IsPrefix(db: Database, width: nat, k: nat) {
    db.recorded.Keys == Versions(width, k)
  }

  lemma VersionInPrefix(width: nat, k: nat, i: nat)
    requires i >= 1
    ensures D.Filled(i, width) in Versions(width, k) <==> i <= k
  {
    if D.Filled(i, width) in Versions(width, k) {
      var j :| 1 <= j <= k && D.Filled(j, width) == D.Filled(i, width);
      if i != j {
        FilledDiffer(width, i, j);
      }
    }
  }

  function Names(files: seq<File>): (names: seq<string>)
    ensures |names| == |files| && forall i :: 0 <= i < |files| ==> names[i] == files[i].stem + ".sql"
  {
    if |files| == 0 then [] else [files[0].stem + ".sql"] + Names(files[1..])
  }

  function Extended(w: World, db: Database, files: seq<File>): Database
    decreases |files|
  {
    if |files| == 0 then db else Extended(w, Record(w, db, files[0]), files[1..])
  }

  /** The file was applied, and is no longer what was applied. */
  predicate EditedFile(w: World, existing: map<string, Applied>, f: File) {
    Version(f) in existing && existing[Version(f)].checksum != w.checksum(f.content)
  }

  ghost predicate Tampered(w: World, existing: map<string, Applied>, files: seq<File>) {
    exists i :: 0 <= i < |files| && EditedFile(w, existing, files[i])
  }

  ghost predicate FirstEdited(w: World, existing: map<string, Applied>, files: seq<File>, i: int) {
    0 <= i < |files| && EditedFile(w, existing, files[i]) && forall j :: 0 <= j < i ==> !EditedFile(w, existing, files[j])
  }

  /** The file's SQL fails on the database that the files before it leave. */
  predicate FailsAt(w: World, db: Database, files: seq<File>, i: nat)
    requires i < |files|
  {
    w.fails(Extended(w, db, files[..i]), files[i])
  }

  ghost predicate FirstFailing(w: World, db: Database, files: seq<File>, i: nat) {
    i < |files| && FailsAt(w, db, files, i) && forall j: nat :: j < i ==> !FailsAt(w, db, files, j)
  }

  ghost predicate NoneFails(w: World, db: Database, files: seq<File>) {
    forall i: nat :: i < |files| ==> !FailsAt(w, db, files, i)
  }

  /** Files that are all recorded are only checked, and the first edited one ends the run. */
  lemma {:induction false} RecordedPass(w: World, existing: map<string, Applied>, db: Database, known: seq<File>, rest: seq<File>, dry: bool)
    requires forall j :: 0 <= j < |known| ==> Version(known[j]) in existing
    ensures if Tampered(w, existing, known)
            then exists i :: FirstEdited(w, existing, known, i) && Pass(w, existing, db, known + rest, dry) == Err(Edited(known[i].stem))
            else Pass(w, existing, db, known + rest, dry) == Pass(w, existing, db, rest, dry)
    decreases |known|
  {
    if |known| == 0 {
      assert known + rest == rest;
    } else {
      var tail := known[1..];
      assert (known + rest)[1..] == tail + rest;
      TamperedCons(w, existing, known);
      RecordedPass(w, existing, db, tail, rest, dry);
      if EditedFile(w, existing, known[0]) {
        assert FirstEdited(w, existing, known, 0);
      } else if Tampered(w, existing, tail) {
        var i :| FirstEdited(w, existing, tail, i) && Pass(w, existing, db, tail + rest, dry) == Err(Edited(tail[i].stem));
        FirstEditedCons(w, existing, known, i);
      }
    }
  }

  lemma FirstEditedCons(w: World, existing: map<string, Applied>, files: seq<File>, i: int)
    requires |files| > 0 && !EditedFile(w, existing, files[0]) && FirstEdited(w, existing, files[1..], i)
    ensures FirstEdited(w, existing, files, i + 1) && files[i + 1] == files[1..][i]
  {
    assert forall j :: 1 <= j < |files| ==> files[j] == files[1..][j - 1];
  }

  lemma TamperedCons(w: World, existing: map<string, Applied>, files: seq<File>)
    requires |files| > 0
    ensures Tampered(w, existing, files) <==> EditedFile(w, existing, files[0]) || Tampered(w, existing, files[1..])
  {
    var rest := files[1..];
    assert forall j :: 0 <= j < |rest| ==> files[j + 1] == rest[j];
    if Tampered(w, existing, files) {
      var j :| 0 <= j < |files| && EditedFile(w, existing, files[j]);
      assert j > 0 ==> rest[j - 1] == files[j];
    }
  }

  lemma FailsCons(w: World, db: Database, files: seq<File>, i: nat)
    requires 0 < i < |files|
    ensures FailsAt(w, db, files, i) <==> FailsAt(w, Record(w, db, files[0]), files[1..], i - 1)
  {
    var front := files[..i];
    assert front[0] == files[0] && front[1..] == files[1..][..i - 1];
  }

  lemma FirstFailingCons(w: World, db: Database, files: seq<File>, i: nat)
    requires |files| > 0 && !FailsAt(w, db, files, 0) && FirstFailing(w, Record(w, db, files[0]), files[1..], i)
    ensures FirstFailing(w, db, files, i + 1) && files[i + 1] == files[1..][i]
  {
    forall j: nat | j <= i + 1 ensures FailsAt(w, db, files, j) <==> j > 0 && FailsAt(w, Record(w, db, files[0]), files[1..], j - 1) {
      if j > 0 {
        FailsCons(w, db, files, j);
      }
    }
  }

  lemma NoneFailsCons(w: World, db: Database, files: seq<File>)
    requires |files| > 0 && !FailsAt(w, db, files, 0) && NoneFails(w, Record(w, db, files[0]), files[1..])
    ensures NoneFails(w, db, files)
  {
    forall i: nat | i < |files| ensures !FailsAt(w, db, files, i) {
      if i > 0 {
        FailsCons(w, db, files, i);
      }
    }
  }

  /** Files that are not recorded are all listed, or applied in order until the first that fails. */
  lemma {:induction false} UnrecordedPass(w: World, existing: map<string, Applied>, db: Database, files: seq<File>, dry: bool)
    requires forall j :: 0 <= j < |files| ==> Version(files[j]) !in existing
    ensures var r := Pass(w, existing, db, files, dry);
            && (r.Err? ==> !dry && exists i: nat :: FirstFailing(w, db, files, i) && r == Err(Failed(files[i].stem)))
            && (r.Ok? ==> r.value == (if dry then db else Extended(w, db, files), Names(files)) && (dry || NoneFails(w, db, files)))
    decreases |files|
  {
    if |files| > 0 {
      var next := if dry then db else Record(w, db, files[0]);
      UnrecordedPass(w, existing, next, files[1..], dry);
      assert files[..0] == [];
      if !dry {
        UnrecordedStep(w, existing, db, files);
      }
    }
  }

  lemma UnrecordedStep(w: World, existing: map<string, Applied>, db: Database, files: seq<File>)
    requires |files| > 0 && Version(files[0]) !in existing
    requires var r := Pass(w, existing, Record(w, db, files[0]), files[1..], false);
             && (r.Err? ==> exists i: nat :: FirstFailing(w, Record(w, db, files[0]), files[1..], i) && r == Err(Failed(files[1..][i].stem)))
             && (r.Ok? ==> NoneFails(w, Record(w, db, files[0]), files[1..]))
    ensures var r := Pass(w, existing, db, files, false);
            && (r.Err? ==> exists i: nat :: FirstFailing(w, db, files, i) && r == Err(Failed(files[i].stem)))
            && (r.Ok? ==> NoneFails(w, db, files))
  {
    assert files[..0] == [];
    assert FailsAt(w, db, files, 0) <==> w.fails(db, files[0]);
    var tail := Pass(w, existing, Record(w, db, files[0]), files[1..], false);
    if w.fails(db, files[0]) {
      assert FirstFailing(w, db, files, 0);
    } else if tail.Err? {
      var i: nat :| FirstFailing(w, Record(w, db, files[0]), files[1..], i) && tail == Err(Failed(files[1..][i].stem));
      FirstFailingCons(w, db, files, i);
    } else {
      NoneFailsCons(w, db, files);
    }
  }

  function Least(a: nat, b: nat): nat {
    if a <= b then a else b
  }

  /** When exactly the first `k` versions are recorded, every recorded file of the directory is checked
      before any new one is applied. */
  lemma PassShape(w: World, existing: map<string, Applied>, db: Database, files: seq<File>, width: nat, k: nat, dry: bool)
    requires Contiguous(files, width) && existing.Keys == Versions(width, k)
    ensures var r := Pass(w, existing, db, files, dry);
            var added := files[Least(k, |files|)..];
            && (Tampered(w, existing, files) ==> exists i :: FirstEdited(w, existing, files, i) && r == Err(Edited(files[i].stem)))
            && (!Tampered(w, existing, files) && r.Err? ==> !dry && exists i: nat :: FirstFailing(w, db, added, i) && r == Err(Failed(added[i].stem)))
            && (r.Ok? ==> r.value == (if dry then db else Extended(w, db, added), Names(added)) && (dry || NoneFails(w, db, added)))
  {
    var m := Least(k, |files|);
    RecordedAreFirst(existing, files, width, k);
    assert files == files[..m] + files[m..];
    SplitPass(w, existing, db, files[..m], files[m..], dry);
    TamperedAmongRecorded(w, existing, files, m);
  }

  lemma RecordedAreFirst(existing: map<string, Applied>, files: seq<File>, width: nat, k: nat)
    requires Contiguous(files, width) && existing.Keys == Versions(width, k)
    ensures var m := Least(k, |files|);
            && (forall j :: 0 <= j < m ==> Version(files[j]) in existing)
            && (forall j :: m <= j < |files| ==> Version(files[j]) !in existing)
  {
    forall j | 0 <= j < |files| ensures Version(files[j]) in existing <==> j < k {
      VersionInPrefix(width, k, j + 1);
    }
  }

  lemma SplitPass(w: World, existing: map<string, Applied>, db: Database, known: seq<File>, rest: seq<File>, dry: bool)
    requires forall j :: 0 <= j < |known| ==> Version(known[j]) in existing
    requires forall j :: 0 <= j < |rest| ==> Version(rest[j]) !in existing
    ensures var r := Pass(w, existing, db, known + rest, dry);
            && (Tampered(w, existing, known) ==> exists i :: FirstEdited(w, existing, known, i) && r == Err(Edited(known[i].stem)))
            && (!Tampered(w, existing, known) && r.Err? ==> !dry && exists i: nat :: FirstFailing(w, db, rest, i) && r == Err(Failed(rest[i].stem)))
            && (r.Ok? ==> r.value == (if dry then db else Extended(w, db, rest), Names(rest)) && (dry || NoneFails(w, db, rest)))
  {
    RecordedPass(w, existing, db, known, rest, dry);
    UnrecordedPass(w, existing, db, rest, dry);
  }

  lemma TamperedAmongRecorded(w: World, existing: map<string, Applied>, files: seq<File>, m: nat)
    requires m <= |files| && forall j :: m <= j < |files| ==> Version(files[j]) !in existing
    ensures Tampered(w, existing, files) <==> Tampered(w, existing, files[..m])
    ensures forall i :: FirstEdited(w, existing, files[..m], i) ==> FirstEdited(w, existing, files, i)
  {
    var known := files[..m];
    assert forall j :: 0 <= j < m ==> known[j] == files[j];
    if Tampered(w, existing, files) {
      var j :| 0 <= j < |files| && EditedFile(w, existing, files[j]);
      assert j < m && known[j] == files[j];
    }
  }

  // ---- What a run does to a prefix ----

  /** The log of executed texts, and the recorded checksums, describe the same `k` migrations: version
      `i` was executed once, as the `i`-th text. */
  ghost predicate Faithful(checksum: string -> string, db: Database, width: nat, k: nat) {
    && IsPrefix(db, width, k) && |db.executed| == k
    && forall i :: 0 <= i < k ==> D.Filled(i + 1, width) in db.recorded
                                  && db.recorded[D.Filled(i + 1, width)].checksum == checksum(db.executed[i])
  }

  lemma RecordFaithful(w: World, db: Database, f: File, width: nat, k: nat)
    requires Faithful(w.checksum, db, width, k) && Version(f) == D.Filled(k + 1, width)
    ensures Faithful(w.checksum, Record(w, db, f), width, k + 1)
  {
    var next := Record(w, db, f);
    VersionInPrefix(width, k, k + 1);
    assert Versions(width, k + 1) == Versions(width, k) + {Version(f)};
    forall i | 0 <= i < k + 1
      ensures D.Filled(i + 1, width) in next.recorded && next.recorded[D.Filled(i + 1, width)].checksum == w.checksum(next.executed[i])
    {
      if i < k {
        assert D.Filled(i + 1, width) in db.recorded;
        assert next.executed[i] == db.executed[i];
      }
    }
  }

  lemma {:induction false} ExtendFaithful(w: World, db: Database, files: seq<File>, width: nat, k: nat)
    requires Contiguous(files, width) && Faithful(w.checksum, db, width, k) && k <= |files|
    ensures Faithful(w.checksum, Extended(w, db, files[k..]), width, |files|)
    decreases |files| - k
  {
    if k < |files| {
      assert files[k..][0] == files[k] && files[k..][1..] == files[k + 1..];
      RecordFaithful(w, db, files[k], width, k);
      ExtendFaithful(w, Record(w, db, files[k]), files, width, k + 1);
    }
  }

  function Texts(files: seq<File>): (texts: seq<string>)
    ensures |texts| == |files| && forall i :: 0 <= i < |files| ==> texts[i] == files[i].content
  {
    if |files| == 0 then [] else [files[0].content] + Texts(files[1..])
  }

  lemma Associates(a: seq<string>, b: seq<string>, c: seq<string>)
    ensures a + b + c == a + (b + c)
  {
  }

  lemma {:induction false} ExtendExecutes(w: World, db: Database, files: seq<File>)
    ensures Extended(w, db, files).executed == db.executed + Texts(files)
    decreases |files|
  {
    if |files| > 0 {
      ExtendExecutes(w, Record(w, db, files[0]), files[1..]);
      Associates(db.executed, [files[0].content], Texts(files[1..]));
    }
  }

  lemma {:induction false} ExtendRecords(w: World, db: Database, files: seq<File>, j: nat)
    requires DistinctVersions(files) && j < |files|
    ensures var after := Extended(w, db, files);
            Version(files[j]) in after.recorded
            && after.recorded[Version(files[j])] == Applied(files[j].stem + ".sql", w.checksum(files[j].content))
    decreases |files|
  {
    var rest := files[1..];
    assert forall i :: 0 <= i < |rest| ==> rest[i] == files[i + 1];
    if j > 0 {
      ExtendRecords(w, Record(w, db, files[0]), rest, j - 1);
    } else {
      ExtendKeeps(w, Record(w, db, files[0]), rest, Version(files[0]));
    }
  }

  lemma VersionsDiffer(files: seq<File>, width: nat, i: nat, j: nat)
    requires Contiguous(files, width) && i < j < |files|
    ensures Version(files[i]) != Version(files[j])
  {
    FilledDiffer(width, i + 1, j + 1);
  }

  lemma TailDiffers(files: seq<File>, width: nat, k: nat, i: nat, j: nat)
    requires Contiguous(files, width) && k <= |files| && i < j < |files| - k
    ensures Version(files[k..][i]) != Version(files[k..][j])
  {
    assert files[k..][i] == files[k + i] && files[k..][j] == files[k + j];
    VersionsDiffer(files, width, k + i, k + j);
  }

  lemma TailDistinct(files: seq<File>, width: nat, k: nat)
    requires Contiguous(files, width) && k <= |files|
    ensures DistinctVersions(files[k..])
  {
    var rest := files[k..];
    forall i, j | 0 <= i < j < |rest| ensures Version(rest[i]) != Version(rest[j]) {
      TailDiffers(files, width, k, i, j);
    }
  }

  /** The new files of the directory, recorded under their names and checksums. */
  ghost predicate RecordsAll(w: World, db: Database, files: seq<File>) {
    forall i :: 0 <= i < |files| ==>
      Version(files[i]) in db.recorded && db.recorded[Version(files[i])] == Applied(files[i].stem + ".sql", w.checksum(files[i].content))
  }

  /** One run over the prefix `1..k`, with a directory of the same width, and exactly when it succeeds: no
      applied file was edited and, in a real run, no new file fails. Otherwise it names the first edited
      file, or else the first that fails, and leaves no trace; on success the prefix grows to the
      directory, executing and recording exactly the new files in order. */
  lemma RunKeepsPrefix(w: World, db: Database, files: seq<File>, width: nat, k: nat, dry: bool)
    requires Contiguous(files, width) && Faithful(w.checksum, db, width, k)
    ensures var (after, r) := Run(w, db, files, dry);
            var n := if k <= |files| then |files| else k;
            var added := files[Least(k, |files|)..];
            && (r.Ok? <==> !Tampered(w, db.recorded, files) && (dry || NoneFails(w, db, added)))
            && (Tampered(w, db.recorded, files) ==> exists i :: FirstEdited(w, db.recorded, files, i) && r == Err(Edited(files[i].stem)))
            && (!Tampered(w, db.recorded, files) && r.Err? ==> exists i: nat :: FirstFailing(w, db, added, i) && r == Err(Failed(added[i].stem)))
            && (dry || r.Err? ==> after == db)
            && (r.Ok? && !dry ==> Faithful(w.checksum, after, width, n) && after.executed == db.executed + Texts(added)
                                  && RecordsAll(w, after, added))
            && (r.Ok? ==> r.value == Names(added))
  {
    var added := files[Least(k, |files|)..];
    PassShape(w, db.recorded, db, files, width, k, dry);
    ExtendExecutes(w, db, added);
    TailDistinct(files, width, Least(k, |files|));
    forall j: nat | j < |added|
      ensures Version(added[j]) in Extended(w, db, added).recorded
              && Extended(w, db, added).recorded[Version(added[j])] == Applied(added[j].stem + ".sql", w.checksum(added[j].content))
    {
      ExtendRecords(w, db, added, j);
    }
    if k <= |files| {
      ExtendFaithful(w, db, files, width, k);
    } else {
      assert files[|files|..] == [];
    }
  }

  // ---- Main results ----

  /** One invocation: a listing (absent, broken, grown, shrunk or edited), the flag, and which SQL fails. */
  datatype Invocation = Invocation(listing: Option<seq<File>>, dry: bool, fails: (Database, File) -> bool)

  ghost function Step(checksum: string -> string, db: Database, i: Invocation): Database {
    if i.listing.None? || !Accepts(i.listing.value) then db
    else Run(World(checksum, i.fails), db, ByNumber(i.listing.value), i.dry).0
  }

  ghost function Series(checksum: string -> string, runs: seq<Invocation>): Database {
    if |runs| == 0 then EMPTY else Step(checksum, Series(checksum, runs[..|runs| - 1]), runs[|runs| - 1])
  }

  /** A run that changes the database: a real one that succeeds. */
  ghost predicate Effective(checksum: string -> string, db: Database, i: Invocation) {
    && !i.dry && i.listing.Some? && Accepts(i.listing.value)
    && Run(World(checksum, i.fails), db, ByNumber(i.listing.value), false).1.Ok?
  }

  /** The widths of the version numbers in the directories of the effective runs. */
  ghost function Widths(checksum: string -> string, runs: seq<Invocation>): set<nat> {
    if |runs| == 0 then {}
    else
      var front, last := runs[..|runs| - 1], runs[|runs| - 1];
      if Effective(checksum, Series(checksum, front), last)
      then Widths(checksum, front) + {|Version(ByNumber(last.listing.value)[0])|}
      else Widths(checksum, front)
  }

  lemma {:induction false} DryPass(w: World, existing: map<string, Applied>, db: Database, files: seq<File>)
    requires Pass(w, existing, db, files, true).Ok?
    ensures Pass(w, existing, db, files, true).value.0 == db
    decreases |files|
  {
    if |files| > 0 {
      DryPass(w, existing, db, files[1..]);
    }
  }

  lemma IneffectiveStep(checksum: string -> string, db: Database, i: Invocation)
    requires !Effective(checksum, db, i)
    ensures Step(checksum, db, i) == db
  {
    if i.listing.Some? && Accepts(i.listing.value) {
      var w, files := World(checksum, i.fails), ByNumber(i.listing.value);
      if i.dry && Pass(w, db.recorded, db, files, true).Ok? {
        DryPass(w, db.recorded, db, files);
      }
    }
  }

  lemma EffectiveStep(checksum: string -> string, db: Database, i: Invocation, width: nat, k: nat) returns (n: nat)
    requires Effective(checksum, db, i) && |Version(ByNumber(i.listing.value)[0])| == width
    requires Faithful(checksum, db, width, k)
    ensures Faithful(checksum, Step(checksum, db, i), width, n)
  {
    var w, files := World(checksum, i.fails), ByNumber(i.listing.value);
    n := if k <= |files| then |files| else k;
    RunKeepsPrefix(w, db, files, width, k, false);
  }

  /** Over any series of runs from an empty database, whatever the directories, flags and failures, as long
      as the effective runs write their version numbers at one width: the recorded versions are a prefix
      `1..k`, and each was executed exactly once, in order. */
  lemma {:induction false} AlwaysAPrefix(checksum: string -> string, runs: seq<Invocation>, width: nat) returns (k: nat)
    requires forall v :: v in Widths(checksum, runs) ==> v == width
    ensures Faithful(checksum, Series(checksum, runs), width, k)
  {
    k := 0;
    if |runs| > 0 {
      var front, last := runs[..|runs| - 1], runs[|runs| - 1];
      assert Widths(checksum, front) <= Widths(checksum, runs);
      k := AlwaysAPrefix(checksum, front, width);
      if Effective(checksum, Series(checksum, front), last) {
        k := EffectiveStep(checksum, Series(checksum, front), last, width, k);
      } else {
        IneffectiveStep(checksum, Series(checksum, front), last);
      }
    }
  }

  lemma {:induction false} PassKeepsKeys(w: World, existing: map<string, Applied>, db: Database, files: seq<File>)
    requires Pass(w, existing, db, files, false).Ok? && existing.Keys <= db.recorded.Keys
    ensures db.recorded.Keys <= Pass(w, existing, db, files, false).value.0.recorded.Keys
    ensures |files| > 0 ==> Version(files[0]) in Pass(w, existing, db, files, false).value.0.recorded
    decreases |files|
  {
    if |files| > 0 {
      PassKeepsKeys(w, existing, if Version(files[0]) in existing then db else Record(w, db, files[0]), files[1..]);
    }
  }

  /** Every width that was ever in effect has left its own version 1 in the table. */
  lemma {:induction false} WidthsLeaveMarks(checksum: string -> string, runs: seq<Invocation>, v: nat)
    requires v in Widths(checksum, runs)
    ensures v >= 1 && D.Filled(1, v) in Series(checksum, runs).recorded
  {
    var front, last := runs[..|runs| - 1], runs[|runs| - 1];
    var db := Series(checksum, front);
    if Effective(checksum, db, last) {
      var files := ByNumber(last.listing.value);
      PassKeepsKeys(World(checksum, last.fails), db.recorded, db, files);
      assert HasNumber(files[0]);
    } else {
      IneffectiveStep(checksum, db, last);
    }
    if v in Widths(checksum, front) {
      WidthsLeaveMarks(checksum, front, v);
    }
  }

  lemma OneMarkOnly(width: nat, k: nat, u: nat, v: nat)
    requires u >= 1 && v >= 1 && D.Filled(1, u) in Versions(width, k) && D.Filled(1, v) in Versions(width, k)
    ensures u == v
  {
    var i :| 1 <= i <= k && D.Filled(i, width) == D.Filled(1, u);
    var j :| 1 <= j <= k && D.Filled(j, width) == D.Filled(1, v);
    D.ParseFilled(i, width);
    D.ParseFilled(1, u);
    D.ParseFilled(j, width);
    D.ParseFilled(1, v);
    FirstVersionWidth(u);
    FirstVersionWidth(v);
  }

  ghost predicate SomePrefix(checksum: string -> string, db: Database) {
    exists width: nat, k: nat :: Faithful(checksum, db, width, k)
  }

  ghost predicate AtMostOne(widths: set<nat>) {
    forall u, v :: u in widths && v in widths ==> u == v
  }

  lemma PrefixNeedsOneWidth(checksum: string -> string, runs: seq<Invocation>, width: nat, k: nat)
    requires IsPrefix(Series(checksum, runs), width, k)
    ensures AtMostOne(Widths(checksum, runs))
  {
    forall u, v | u in Widths(checksum, runs) && v in Widths(checksum, runs) ensures u == v {
      WidthsLeaveMarks(checksum, runs, u);
      WidthsLeaveMarks(checksum, runs, v);
      OneMarkOnly(width, k, u, v);
    }
  }

  /** Exactly when the guarantee holds: over every series of runs, the table is a prefix with each version
      executed once, in order, if and only if no two effective runs used different widths. */
  lemma PrefixExactly(checksum: string -> string, runs: seq<Invocation>)
    ensures SomePrefix(checksum, Series(checksum, runs)) <==> AtMostOne(Widths(checksum, runs))
  {
    if SomePrefix(checksum, Series(checksum, runs)) {
      var width: nat, k: nat :| Faithful(checksum, Series(checksum, runs), width, k);
      PrefixNeedsOneWidth(checksum, runs, width, k);
    }
    if AtMostOne(Widths(checksum, runs)) {
      var width: nat := 1;
      if Widths(checksum, runs) != {} {
        width :| width in Widths(checksum, runs);
      }
      var k := AlwaysAPrefix(checksum, runs, width);
      assert Faithful(checksum, Series(checksum, runs), width, k);
    }
  }

  lemma UntamperedExtension(w: World, db: Database, files: seq<File>, width: nat, k: nat)
    requires Contiguous(files, width) && Faithful(w.checksum, db, width, k) && k <= |files| && !Tampered(w, db.recorded, files)
    ensures !Tampered(w, Extended(w, db, files[k..]).recorded, files)
  {
    var after := Extended(w, db, files[k..]);
    forall i | 0 <= i < |files| ensures Version(files[i]) in after.recorded && after.recorded[Version(files[i])].checksum == w.checksum(files[i].content) {
      if i < k {
        KeptChecksum(w, db, files, width, k, i);
      } else {
        NewChecksum(w, db, files, width, k, i);
      }
    }
  }

  lemma ExecutedAt(w: World, db: Database, files: seq<File>, j: nat)
    requires j < |files|
    ensures var after := Extended(w, db, files);
            |after.executed| == |db.executed| + |files| && after.executed[|db.executed| + j] == files[j].content
  {
    ExtendExecutes(w, db, files);
  }

  lemma NewChecksum(w: World, db: Database, files: seq<File>, width: nat, k: nat, i: nat)
    requires Contiguous(files, width) && Faithful(w.checksum, db, width, k) && k <= i < |files|
    ensures var after := Extended(w, db, files[k..]);
            Version(files[i]) in after.recorded && after.recorded[Version(files[i])].checksum == w.checksum(files[i].content)
  {
    ExtendFaithful(w, db, files, width, k);
    ExecutedAt(w, db, files[k..], i - k);
    assert files[k..][i - k] == files[i];
    assert Version(files[i]) == D.Filled(i + 1, width);
  }

  lemma UntamperedAfter(w: World, db: Database, files: seq<File>, width: nat, k: nat)
    requires Contiguous(files, width) && Faithful(w.checksum, db, width, k) && Run(w, db, files, false).1.Ok?
    ensures !Tampered(w, Run(w, db, files, false).0.recorded, files)
  {
    PassShape(w, db.recorded, db, files, width, k, false);
    if k <= |files| {
      UntamperedExtension(w, db, files, width, k);
    } else {
      assert files[|files|..] == [];
    }
  }

  /** A successful run followed by another on the same directory is a no-op, whichever SQL would fail. */
  lemma RerunIsNoOp(w: World, db: Database, files: seq<File>, width: nat, k: nat, again: World, dry: bool)
    requires Contiguous(files, width) && Faithful(w.checksum, db, width, k)
    requires Run(w, db, files, false).1.Ok? && again.checksum == w.checksum
    ensures var after := Run(w, db, files, false).0;
            Run(again, after, files, dry) == (after, Ok([]))
  {
    var after := Run(w, db, files, false).0;
    var n := if k <= |files| then |files| else k;
    RunKeepsPrefix(w, db, files, width, k, false);
    UntamperedAfter(w, db, files, width, k);
    assert Faithful(again.checksum, after, width, n);
    assert !Tampered(again, after.recorded, files);
    FullPass(again, after, files, width, n, dry);
  }

  /** When every file of the directory is recorded, nothing is left to fail. */
  lemma FullPass(w: World, db: Database, files: seq<File>, width: nat, n: nat, dry: bool)
    requires Contiguous(files, width) && db.recorded.Keys == Versions(width, n) && |files| <= n && !Tampered(w, db.recorded, files)
    ensures Run(w, db, files, dry) == (db, Ok([]))
  {
    FullPassFrom(w, db.recorded, db, files, width, n, 0, dry);
    assert files[0..] == files;
  }

  lemma {:induction false} FullPassFrom(w: World, existing: map<string, Applied>, db: Database, files: seq<File>, width: nat, n: nat, i: nat, dry: bool)
    requires Contiguous(files, width) && existing.Keys == Versions(width, n) && i <= |files| <= n && !Tampered(w, existing, files)
    ensures Pass(w, existing, db, files[i..], dry) == Ok((db, []))
    decreases |files| - i
  {
    if i < |files| {
      VersionInPrefix(width, n, i + 1);
      assert files[i..][0] == files[i] && files[i..][1..] == files[i + 1..];
      assert Version(files[i]) in existing;
      FullPassFrom(w, existing, db, files, width, n, i + 1, dry);
    }
  }

  lemma FilledDiffer(width: nat, i: nat, j: nat)
    requires i != j
    ensures D.Filled(i, width) != D.Filled(j, width)
  {
    D.ParseFilled(i, width);
    D.ParseFilled(j, width);
  }

  lemma {:induction false} KeptChecksum(w: World, db: Database, files: seq<File>, width: nat, k: nat, i: nat)
    requires Contiguous(files, width) && Faithful(w.checksum, db, width, k) && i < k <= |files|
    requires !Tampered(w, db.recorded, files)
    ensures D.Filled(i + 1, width) in Extended(w, db, files[k..]).recorded
    ensures Extended(w, db, files[k..]).recorded[D.Filled(i + 1, width)].checksum == w.checksum(files[i].content)
  {
    var version, rest := D.Filled(i + 1, width), files[k..];
    assert Version(files[i]) == version && !EditedFile(w, db.recorded, files[i]);
    forall j | 0 <= j < |rest| ensures Version(rest[j]) != version {
      assert rest[j] == files[k + j];
      VersionsDiffer(files, width, i, k + j);
    }
    ExtendKeeps(w, db, rest, version);
  }

  lemma {:induction false} ExtendKeeps(w: World, db: Database, files: seq<File>, version: string)
    requires version in db.recorded && forall j :: 0 <= j < |files| ==> Version(files[j]) != version
    ensures version in Extended(w, db, files).recorded && Extended(w, db, files).recorded[version] == db.recorded[version]
    decreases |files|
  {
    if |files| > 0 {
      ExtendKeeps(w, Record(w, db, files[0]), files[1..], version);
    }
  }

  /** A dry run changes nothing and lists exactly what a succeeding real run applies. */
  lemma DryRunForetells(w: World, db: Database, files: seq<File>, width: nat, k: nat)
    requires Contiguous(files, width) && Faithful(w.checksum, db, width, k)
    ensures Run(w, db, files, true).0 == db
    ensures Run(w, db, files, false).1.Ok? ==> Run(w, db, files, true).1 == Run(w, db, files, false).1
    ensures Run(w, db, files, true).1.Err? <==> Tampered(w, db.recorded, files)
  {
    RunKeepsPrefix(w, db, files, width, k, true);
    RunKeepsPrefix(w, db, files, width, k, false);
  }

  lemma FirstVersionWidth(width: nat)
    requires width >= 1
    ensures |D.Filled(1, width)| == width
  {
  }

  /** Why the width must not change: on a database that has migrations, a succeeding run executes the
      first file again if and only if the directory writes its version numbers at another width. */
  lemma WidthChangeReapplies(w: World, db: Database, files: seq<File>, width: nat, k: nat, other: nat)
    requires Faithful(w.checksum, db, width, k) && width >= 1 && k >= 1
    requires files != [] && Contiguous(files, other) && other >= 1
    requires Run(w, db, files, false).1.Ok?
    ensures (db.executed + [files[0].content] <= Run(w, db, files, false).0.executed && Version(files[0]) !in db.recorded) <==> width != other
    ensures width == other ==> |Run(w, db, files, false).0.executed| == if k <= |files| then |files| else k
  {
    FirstVersionWidth(width);
    FirstVersionWidth(other);
    VersionInPrefix(width, k, 1);
    if Version(files[0]) in db.recorded {
      var j :| 1 <= j <= k && D.Filled(j, width) == D.Filled(1, other);
      D.ParseFilled(j, width);
      D.ParseFilled(1, other);
    }
    if width == other {
      RunKeepsPrefix(w, db, files, width, k, false);
    } else {
      PassGrows(w, db.recorded, Record(w, db, files[0]), files[1..]);
    }
  }

  lemma OneFile(stem: string, content: string, width: nat)
    requires |stem| > width >= 1 && stem[..width] == D.Filled(1, width) && stem[width] == '_'
    ensures var f := File(stem, content);
            && Version(f) == D.Filled(1, width) && HasNumber(f)
            && Accepts([f]) && ByNumber([f]) == [f] && Contiguous([f], width)
  {
    var f := File(stem, content);
    assert stem == D.Filled(1, width) + ['_'] + stem[width + 1..];
    FirstVersionWidth(width);
    Tokens.IndexOfConcat(D.Filled(1, width), '_', stem[width + 1..]);
    assert [f][1..] == [] && ByNumber([]) == [];
  }

  lemma RunNew(w: World, db: Database, f: File)
    requires Version(f) !in db.recorded && !w.fails(db, f)
    ensures Run(w, db, [f], false) == (Record(w, db, f), Ok([f.stem + ".sql"]))
  {
    assert [f][1..] == [];
    assert Pass(w, db.recorded, Record(w, db, f), [], false) == Ok((Record(w, db, f), []));
    assert [f.stem + ".sql"] + [] == [f.stem + ".sql"];
  }

  /** The same migration in a directory numbered "1" and then in one numbered "01": both runs succeed, and
      its text is executed twice. */
  lemma WidthChangeRunsTwice(checksum: string -> string, text: string)
    ensures var never := (_: Database, _: File) => false;
            var narrow, wide := Invocation(Some([File("1_a", text)]), false, never), Invocation(Some([File("01_a", text)]), false, never);
            Series(checksum, [narrow, wide]).executed == [text, text]
  {
    var never := (_: Database, _: File) => false;
    var f, g, w := File("1_a", text), File("01_a", text), World(checksum, never);
    FilledOnes();
    OneFile("1_a", text, 1);
    OneFile("01_a", text, 2);
    RunNew(w, EMPTY, f);
    RunNew(w, Record(w, EMPTY, f), g);
    SeriesOfTwo(checksum, Invocation(Some([f]), false, never), Invocation(Some([g]), false, never));
    assert Record(w, EMPTY, f).executed == [text] && Version(g) !in Record(w, EMPTY, f).recorded;
    assert [text] + [text] == [text, text];
  }

  lemma FilledOnes()
    ensures D.Filled(1, 1) == "1" == "1_a"[..1] && D.Filled(1, 2) == "01" == "01_a"[..2] && "1" != "01"
  {
    assert |"1"| != |"01"|;
  }

  lemma SeriesOfTwo(checksum: string -> string, a: Invocation, b: Invocation)
    ensures Series(checksum, [a, b]) == Step(checksum, Step(checksum, EMPTY, a), b)
  {
    assert [a, b][..1] == [a] && [a][..0] == [];
    assert Series(checksum, [a]) == Step(checksum, Series(checksum, []), a);
  }

  lemma {:induction false} PassGrows(w: World, existing: map<string, Applied>, db: Database, files: seq<File>)
    requires Pass(w, existing, db, files, false).Ok?
    ensures db.executed <= Pass(w, existing, db, files, false).value.0.executed
    decreases |files|
  {
    if |files| > 0 {
      PassGrows(w, existing, if Version(files[0]) in existing then db else Record(w, db, files[0]), files[1..]);
    }
  }
}
