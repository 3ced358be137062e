/** backup-postgres.py and restore-postgres.py: one COPY text file per table, restored by one cascading
    truncate followed by all loads, in one transaction. A row is its line of COPY text, which contains no
    newline. */
module DataRestore {
  import opened Wrappers
  import Tokens

  type Tables = map<string, seq<string>>

  /** `references[c]` are the tables that table `c` has foreign keys to. */
  type ForeignKeys = map<string, set<string>>

  // ---- COPY text ----

  function Dump(rows: seq<string>): string {
    if |rows| == 0 then "" else rows[0] + "\n" + Dump(rows[1..])
  }

  /** The rows COPY FROM reads: a final line may lack its newline. */
  function Lines(text: string): seq<string>
    decreases |text|
  {
    var i := Tokens.IndexOf(text, '\n');
    if |text| == 0 then [] else if i == |text| then [text] else [text[..i]] + Lines(text[i + 1..])
  }

  function Newlines(text: string): nat {
    if |text| == 0 then 0 else Newlines(text[..|text| - 1]) + (if text[|text| - 1] == '\n' then 1 else 0)
  }

  ghost predicate OneLineEach(rows: seq<string>) {
    forall i :: 0 <= i < |rows| ==> '\n' !in rows[i]
  }

  lemma {:induction false} NewlinesConcat(a: string, b: string)
    ensures Newlines(a + b) == Newlines(a) + Newlines(b)
  {
    if |b| == 0 {
      assert a + b == a;
    } else {
      assert (a + b)[..|a + b| - 1] == a + b[..|b| - 1];
      NewlinesConcat(a, b[..|b| - 1]);
    }
  }

  lemma {:induction false} NoNewlines(a: string)
    requires '\n' !in a
    ensures Newlines(a) == 0
  {
    if |a| > 0 {
      NoNewlines(a[..|a| - 1]);
    }
  }

  lemma {:induction false} DumpNewlines(rows: seq<string>)
    requires OneLineEach(rows)
    ensures Newlines(Dump(rows)) == |rows|
    decreases |rows|
  {
    if |rows| > 0 {
      DumpNewlines(rows[1..]);
      NewlinesConcat(rows[0] + "\n", Dump(rows[1..]));
      NewlinesConcat(rows[0], "\n");
      NoNewlines(rows[0]);
      assert "\n"[..0] == "" && Newlines("\n") == 1;
    }
  }

  lemma LinesStep(head: string, rest: string)
    requires '\n' !in head
    ensures Lines(head + "\n" + rest) == [head] + Lines(rest)
  {
    var text := head + ['\n'] + rest;
    assert "\n" == ['\n'];
    Tokens.IndexOfConcat(head, '\n', rest);
    assert text[..|head|] == head && text[|head| + 1..] == rest;
  }

  /** A dump has one newline per row, and reading it back gives the rows. */
  lemma {:induction false} DumpRoundTrip(rows: seq<string>)
    requires OneLineEach(rows)
    ensures Newlines(Dump(rows)) == |rows| && Lines(Dump(rows)) == rows
    decreases |rows|
  {
    DumpNewlines(rows);
    if |rows| > 0 {
      DumpRoundTrip(rows[1..]);
      LinesStep(rows[0], Dump(rows[1..]));
      assert rows == [rows[0]] + rows[1..];
    }
  }

  /** A last line without its newline is a row too, so any text is the dump of its lines, or that without the
      final newline. */
  lemma {:induction false} LinesUnterminated(rows: seq<string>, last: string)
    requires OneLineEach(rows) && '\n' !in last && last != ""
    ensures Lines(Dump(rows) + last) == rows + [last]
    decreases |rows|
  {
    if |rows| == 0 {
      assert Dump(rows) + last == last;
      NoneFound(last, '\n');
      assert rows + [last] == [last];
    } else {
      LinesUnterminated(rows[1..], last);
      LinesStep(rows[0], Dump(rows[1..]) + last);
      assert Dump(rows) + last == rows[0] + "\n" + (Dump(rows[1..]) + last);
      assert rows + [last] == [rows[0]] + (rows[1..] + [last]);
    }
  }

  lemma {:induction false} NoneFound(s: string, c: char)
    requires c !in s
    ensures Tokens.IndexOf(s, c) == |s|
  {
    if |s| > 0 {
      assert s[0] in s;
      NoneFound(s[1..], c);
    }
  }

  // ---- Backup ----

  function Concat(chunks: seq<string>): string {
    if |chunks| == 0 then "" else Concat(chunks[..|chunks| - 1]) + chunks[|chunks| - 1]
  }

  datatype BackupError = OutputNotEmpty | NoTables

  const EXCLUDED := "schema_migrations"

  function Included(names: seq<string>): (r: seq<string>)
    ensures forall n :: n in r <==> n in names && n != EXCLUDED
  {
    if |names| == 0 then []
    else
      assert names == [names[0]] + names[1..];
      if names[0] == EXCLUDED then Included(names[1..]) else [names[0]] + Included(names[1..])
  }

  /** Write a table's chunks to its file, counting newlines chunk by chunk. */
  method WriteTable(chunks: seq<string>, ghost rows: seq<string>) returns (written: string, rowCount: nat)
    requires OneLineEach(rows) && Concat(chunks) == Dump(rows)
    ensures written == Dump(rows) && rowCount == |rows|
  {
    written, rowCount := "", 0;
    for j := 0 to |chunks|
      invariant written == Concat(chunks[..j]) && rowCount == Newlines(written)
    {
      assert chunks[..j + 1][..j] == chunks[..j];
      NewlinesConcat(written, chunks[j]);
      rowCount := rowCount + Newlines(chunks[j]);
      written := written + chunks[j];
    }
    assert chunks[..|chunks|] == chunks;
    DumpRoundTrip(rows);
  }

  /** `backup_database`. The database cuts each table's COPY text into chunks as it likes: whatever the
      boundaries, the files hold the whole text and the manifest counts the rows. */
  method BackupDatabase(tables: Tables, names: seq<string>, chunks: string -> seq<string>, outputEmpty: bool)
    returns (r: Result<(map<string, string>, map<string, nat>), BackupError>)
    requires forall n :: n in names ==> n in tables && OneLineEach(tables[n]) && Concat(chunks(n)) == Dump(tables[n])
    ensures r.Ok? <==> outputEmpty && exists n :: n in names && n != "schema_migrations"
    ensures r == Err(OutputNotEmpty) <==> !outputEmpty
    ensures r.Ok? ==> var (files, manifest) := r.value;
                      && files.Keys == manifest.Keys && (forall n :: n in files <==> n in names && n != EXCLUDED)
                      && forall n :: n in files ==> n in tables && files[n] == Dump(tables[n]) && manifest[n] == |tables[n]|
  {
    if !outputEmpty {
      return Err(OutputNotEmpty);
    }
    var included := Included(names);
    if included == [] {
      return Err(NoTables);
    }
    assert included[0] in included;
    var files, manifest := WriteAll(tables, included, chunks);
    return Ok((files, manifest));
  }

  method WriteAll(tables: Tables, names: seq<string>, chunks: string -> seq<string>)
    returns (files: map<string, string>, manifest: map<string, nat>)
    requires forall n :: n in names ==> n in tables && OneLineEach(tables[n]) && Concat(chunks(n)) == Dump(tables[n])
    ensures files.Keys == manifest.Keys && forall n :: n in files <==> n in names
    ensures forall n :: n in files ==> n in tables && files[n] == Dump(tables[n]) && manifest[n] == |tables[n]|
  {
    files, manifest := map[], map[];
    for i := 0 to |names|
      invariant files.Keys == manifest.Keys
      invariant forall n :: n in files ==> n in names && files[n] == Dump(tables[n]) && manifest[n] == |tables[n]|
      invariant forall j :: 0 <= j < i ==> names[j] in files
    {
      var table := names[i];
      assert table in names;
      var written, rowCount := WriteTable(chunks(table), tables[table]);
      files := files[table := written];
      manifest := manifest[table := rowCount];
    }
  }

  // ---- TRUNCATE ... CASCADE ----

  function Dependents(fk: ForeignKeys, tables: set<string>): set<string> {
    set c | c in fk && fk[c] * tables != {}
  }

  /** The named tables and every table that refers to one of them, directly or not. */
  function Cascade(fk: ForeignKeys, tables: set<string>): (closed: set<string>)
    ensures tables <= closed
    decreases |fk.Keys - tables|
  {
    var next := tables + Dependents(fk, tables);
    if next == tables then tables
    else
      CascadeGrows(fk, tables);
      Cascade(fk, next)
  }

  lemma CascadeGrows(fk: ForeignKeys, tables: set<string>)
    requires tables + Dependents(fk, tables) != tables
    ensures |fk.Keys - (tables + Dependents(fk, tables))| < |fk.Keys - tables|
  {
    var next := tables + Dependents(fk, tables);
    var c :| c in next && c !in tables;
    assert c in fk.Keys - tables && c !in fk.Keys - next;
    SmallerSet(fk.Keys - next, fk.Keys - tables);
  }

  lemma {:induction false} SmallerSet(a: set<string>, b: set<string>)
    requires a < b
    ensures |a| < |b|
    decreases a
  {
    var x :| x in b && x !in a;
    if a != {} {
      var y :| y in a;
      SmallerSet(a - {y}, b - {y});
    }
  }

  /** A chain of references: each table of the path refers to the one before. */
  ghost predicate Chain(fk: ForeignKeys, path: seq<string>) {
    |path| > 0 && forall i :: 0 < i < |path| ==> path[i] in fk && path[i - 1] in fk[path[i]]
  }

  ghost predicate Reaches(fk: ForeignKeys, from: string, to: string) {
    exists path :: Chain(fk, path) && path[0] == from && path[|path| - 1] == to
  }

  lemma {:induction false} CascadeClosed(fk: ForeignKeys, tables: set<string>)
    ensures Dependents(fk, Cascade(fk, tables)) <= Cascade(fk, tables)
    decreases |fk.Keys - tables|
  {
    var next := tables + Dependents(fk, tables);
    if next != tables {
      CascadeGrows(fk, tables);
      CascadeClosed(fk, next);
    }
  }

  lemma {:induction false} ChainStays(fk: ForeignKeys, closed: set<string>, path: seq<string>, i: nat)
    requires Dependents(fk, closed) <= closed && Chain(fk, path) && path[0] in closed && i < |path|
    ensures path[i] in closed
  {
    if i > 0 {
      ChainStays(fk, closed, path, i - 1);
      assert path[i - 1] in fk[path[i]] * closed;
      assert path[i] in Dependents(fk, closed);
    }
  }

  ghost predicate ReachedFrom(fk: ForeignKeys, roots: set<string>, to: string) {
    exists from :: from in roots && Reaches(fk, from, to)
  }

  lemma ReachedStep(fk: ForeignKeys, roots: set<string>, t: string, c: string)
    requires ReachedFrom(fk, roots, t) && c in fk && t in fk[c]
    ensures ReachedFrom(fk, roots, c)
  {
    var from :| from in roots && Reaches(fk, from, t);
    var path :| Chain(fk, path) && path[0] == from && path[|path| - 1] == t;
    var longer := path + [c];
    assert Chain(fk, longer) && longer[0] == from && longer[|longer| - 1] == c;
    assert Reaches(fk, from, c);
  }

  lemma RootReached(fk: ForeignKeys, roots: set<string>, t: string)
    requires t in roots
    ensures ReachedFrom(fk, roots, t)
  {
    var path := [t];
    assert Chain(fk, path) && path[0] == t && path[|path| - 1] == t;
    assert Reaches(fk, t, t);
  }

  lemma ReachedIsCascaded(fk: ForeignKeys, roots: set<string>, x: string)
    requires ReachedFrom(fk, roots, x)
    ensures x in Cascade(fk, roots)
  {
    var from :| from in roots && Reaches(fk, from, x);
    var path :| Chain(fk, path) && path[0] == from && path[|path| - 1] == x;
    CascadeClosed(fk, roots);
    ChainStays(fk, Cascade(fk, roots), path, |path| - 1);
  }

  lemma {:induction false} CascadeReached(fk: ForeignKeys, roots: set<string>, tables: set<string>, x: string)
    requires forall t :: t in tables ==> ReachedFrom(fk, roots, t)
    requires x in Cascade(fk, tables)
    ensures ReachedFrom(fk, roots, x)
    decreases |fk.Keys - tables|
  {
    var next := tables + Dependents(fk, tables);
    if next != tables {
      forall c | c in Dependents(fk, tables) ensures ReachedFrom(fk, roots, c) {
        var t :| t in fk[c] * tables;
        ReachedStep(fk, roots, t, c);
      }
      CascadeGrows(fk, tables);
      CascadeReached(fk, roots, next, x);
    }
  }

  /** For every foreign-key graph, cycles included, the cascade is exactly reference reachability. */
  lemma CascadeIsReachability(fk: ForeignKeys, roots: set<string>, x: string)
    ensures x in Cascade(fk, roots) <==> ReachedFrom(fk, roots, x)
  {
    if x in Cascade(fk, roots) {
      forall t | t in roots ensures ReachedFrom(fk, roots, t) {
        RootReached(fk, roots, t);
      }
      CascadeReached(fk, roots, roots, x);
    }
    if ReachedFrom(fk, roots, x) {
      ReachedIsCascaded(fk, roots, x);
    }
  }

  function Truncated(tables: Tables, fk: ForeignKeys, names: set<string>): Tables {
    map t | t in tables :: if t in Cascade(fk, names) then [] else tables[t]
  }

  // ---- Restore ----

  datatype RestoreError = NonEmptyTables | UnknownTable | NothingToTruncate | MissingDump(table: string) | RowCountMismatch(table: string) | Disturbed

  /** One line of the manifest. */
  datatype Entry = Entry(table: string, rows: nat)

  ghost predicate DistinctTables(manifest: seq<Entry>) {
    forall i, j :: 0 <= i < j < |manifest| ==> manifest[i].table != manifest[j].table
  }

  function Names(manifest: seq<Entry>): set<string> {
    set i | 0 <= i < |manifest| :: manifest[i].table
  }

  /** What the backup directory must look like: a dump for every manifest table, with the recorded rows. */
  ghost predicate Complete(manifest: seq<Entry>, files: map<string, string>) {
    forall i :: 0 <= i < |manifest| ==> manifest[i].table in files && |Lines(files[manifest[i].table])| == manifest[i].rows
  }

  ghost predicate Restorable(tables: Tables, manifest: seq<Entry>, files: map<string, string>, truncateFirst: bool) {
    && (forall i :: 0 <= i < |manifest| ==> manifest[i].table in tables)
    && (if truncateFirst then manifest != [] else forall i :: 0 <= i < |manifest| ==> tables[manifest[i].table] == [])
    && Complete(manifest, files)
  }

  /** Manifest tables hold their dump; the others are emptied if the cascade reaches them, and untouched otherwise. */
  ghost function RestoredTables(tables: Tables, fk: ForeignKeys, manifest: seq<Entry>, files: map<string, string>, truncateFirst: bool): Tables
    requires Complete(manifest, files)
  {
    map t | t in tables :: if t in Names(manifest) && t in files then Lines(files[t])
                           else if truncateFirst && t in Cascade(fk, Names(manifest)) then []
                           else tables[t]
  }

  /** The tables just before the first load. */
  function Prepared(tables: Tables, fk: ForeignKeys, manifest: seq<Entry>, truncateFirst: bool): (start: Tables)
    requires forall i :: 0 <= i < |manifest| ==> manifest[i].table in tables
    requires !truncateFirst ==> forall i :: 0 <= i < |manifest| ==> tables[manifest[i].table] == []
    ensures start.Keys == tables.Keys
    ensures forall i :: 0 <= i < |manifest| ==> start[manifest[i].table] == []
  {
    assert forall i :: 0 <= i < |manifest| ==> manifest[i].table in Names(manifest);
    if truncateFirst then Truncated(tables, fk, Names(manifest)) else tables
  }

  lemma LoadedIsRestored(tables: Tables, fk: ForeignKeys, manifest: seq<Entry>, files: map<string, string>, truncateFirst: bool, work: Tables)
    requires Restorable(tables, manifest, files, truncateFirst) && work.Keys == tables.Keys
    requires forall t :: t in tables ==>
               work[t] == if t in Names(manifest) && t in files then Lines(files[t]) else Prepared(tables, fk, manifest, truncateFirst)[t]
    ensures work == RestoredTables(tables, fk, manifest, files, truncateFirst)
    ensures forall t :: t in Names(manifest) ==> t in work && t in files && work[t] == Lines(files[t])
  {
    forall t | t in Names(manifest) ensures t in files && t in tables {
      var i :| 0 <= i < |manifest| && manifest[i].table == t;
    }
  }

  class RestoreTarget {
    const references: ForeignKeys
    var tables: Tables

    constructor (tables: Tables, references: ForeignKeys)
      ensures this.tables == tables && this.references == references
    {
      this.tables, this.references := tables, references;
    }

    /** `restore_database`: for every foreign-key graph and manifest order, it succeeds exactly when the
        backup is restorable, then every manifest table equals its dump; a failed restore changes nothing. */
    method RestoreDatabase(manifest: seq<Entry>, files: map<string, string>, truncateFirst: bool)
      returns (r: Result<map<string, nat>, RestoreError>)
      requires DistinctTables(manifest)
      modifies this`tables
      ensures r.Ok? <==> Restorable(old(tables), manifest, files, truncateFirst)
      ensures r.Ok? ==> tables == RestoredTables(old(tables), references, manifest, files, truncateFirst)
                        && r.value.Keys == Names(manifest) && forall t :: t in r.value ==> t in tables && r.value[t] == |tables[t]|
      ensures r.Ok? ==> tables.Keys == old(tables).Keys
                        && forall t :: t in old(tables) ==>
                             if InManifest(manifest, t) then t in files && tables[t] == Lines(files[t])
                             else tables[t] == if truncateFirst && ReachedFrom(references, Names(manifest), t) then [] else old(tables)[t]
      ensures r.Err? ==> tables == old(tables) && Explains(tables, manifest, files, truncateFirst, r.error)
    {
      var work := Restore(tables, references, manifest, files, truncateFirst);
      if work.Err? {
        return Err(work.error);
      }
      forall t | t in tables
        ensures if InManifest(manifest, t) then t in files && work.value[t] == Lines(files[t])
                else work.value[t] == if truncateFirst && ReachedFrom(references, Names(manifest), t) then [] else tables[t]
      {
        RestoredByReach(tables, references, manifest, files, truncateFirst, t);
      }
      tables := work.value;
      return Ok(map t | t in Names(manifest) :: |tables[t]|);
    }
  }

  /** What each refusal means. */
  ghost predicate Explains(tables: Tables, manifest: seq<Entry>, files: map<string, string>, truncateFirst: bool, e: RestoreError) {
    match e
    case UnknownTable => exists i :: 0 <= i < |manifest| && manifest[i].table !in tables
    case NonEmptyTables => !truncateFirst && exists i :: 0 <= i < |manifest| && manifest[i].table in tables && tables[manifest[i].table] != []
    case NothingToTruncate => truncateFirst && manifest == []
    case _ => FirstBad(manifest, files, e)
  }

  lemma RestoredByReach(tables: Tables, fk: ForeignKeys, manifest: seq<Entry>, files: map<string, string>, truncateFirst: bool, t: string)
    requires Restorable(tables, manifest, files, truncateFirst) && t in tables
    ensures InManifest(manifest, t) ==> t in files && RestoredTables(tables, fk, manifest, files, truncateFirst)[t] == Lines(files[t])
    ensures !InManifest(manifest, t) ==>
              RestoredTables(tables, fk, manifest, files, truncateFirst)[t]
              == if truncateFirst && ReachedFrom(fk, Names(manifest), t) then [] else tables[t]
  {
    CascadeIsReachability(fk, Names(manifest), t);
  }

  ghost predicate InManifest(manifest: seq<Entry>, t: string) {
    exists i :: 0 <= i < |manifest| && manifest[i].table == t
  }

  /** The transaction's body: the new tables, or the error that rolls it back. */
  method Restore(tables: Tables, fk: ForeignKeys, manifest: seq<Entry>, files: map<string, string>, truncateFirst: bool)
    returns (r: Result<Tables, RestoreError>)
    requires DistinctTables(manifest)
    ensures r.Ok? <==> Restorable(tables, manifest, files, truncateFirst)
    ensures r.Err? ==> Explains(tables, manifest, files, truncateFirst, r.error)
    ensures r.Ok? ==> r.value == RestoredTables(tables, fk, manifest, files, truncateFirst)
                      && forall t :: t in Names(manifest) ==> t in r.value && t in files && r.value[t] == Lines(files[t])
  {
    var problem := Preflight(tables, manifest, truncateFirst);
    if problem.Some? {
      return Err(problem.value);
    }
    var start := Prepared(tables, fk, manifest, truncateFirst);
    r := LoadAll(start, manifest, files);
    if r.Ok? {
      LoadedIsRestored(tables, fk, manifest, files, truncateFirst, r.value);
    }
  }

  /** The checks before anything is written. */
  method Preflight(tables: Tables, manifest: seq<Entry>, truncateFirst: bool) returns (problem: Option<RestoreError>)
    ensures problem == Some(UnknownTable) ==> exists i :: 0 <= i < |manifest| && manifest[i].table !in tables
    ensures problem == Some(NonEmptyTables) ==> !truncateFirst && exists i :: 0 <= i < |manifest| && manifest[i].table in tables && tables[manifest[i].table] != []
    ensures problem == Some(NothingToTruncate) <==> truncateFirst && manifest == []
    ensures problem.Some? ==> problem.value.UnknownTable? || problem.value.NonEmptyTables? || problem.value.NothingToTruncate?
    ensures problem.None? <==>
              && (forall i :: 0 <= i < |manifest| ==> manifest[i].table in tables)
              && (if truncateFirst then manifest != [] else forall i :: 0 <= i < |manifest| ==> tables[manifest[i].table] == [])
  {
    for i := 0 to |manifest|
      invariant forall j :: 0 <= j < i ==> manifest[j].table in tables && (!truncateFirst ==> tables[manifest[j].table] == [])
    {
      if manifest[i].table !in tables {
        return Some(UnknownTable);
      }
      if !truncateFirst && tables[manifest[i].table] != [] {
        return Some(NonEmptyTables);
      }
    }
    return if truncateFirst && manifest == [] then Some(NothingToTruncate) else None;
  }

  /** The error names the first table of the manifest whose dump is missing or has another number of rows. */
  ghost predicate FirstBad(manifest: seq<Entry>, files: map<string, string>, e: RestoreError) {
    exists i :: 0 <= i < |manifest| && BadEntry(manifest[i], files, e) && Complete(manifest[..i], files)
  }

  ghost predicate BadEntry(entry: Entry, files: map<string, string>, e: RestoreError) {
    || (entry.table !in files && e == MissingDump(entry.table))
    || (entry.table in files && |Lines(files[entry.table])| != entry.rows && e == RowCountMismatch(entry.table))
  }

  lemma BadAt(manifest: seq<Entry>, files: map<string, string>, i: nat, e: RestoreError)
    requires i < |manifest| && BadEntry(manifest[i], files, e)
    requires forall j :: 0 <= j < i ==> manifest[j].table in files && |Lines(files[manifest[j].table])| == manifest[j].rows
    ensures FirstBad(manifest, files, e)
  {
    assert Complete(manifest[..i], files);
  }

  /** The load loop and the second pass over all row counts. Starting from empty manifest tables, it
      succeeds exactly when every dump is there with its recorded rows, and touches nothing else. */
  method LoadAll(start: Tables, manifest: seq<Entry>, files: map<string, string>) returns (r: Result<Tables, RestoreError>)
    requires DistinctTables(manifest)
    requires forall j :: 0 <= j < |manifest| ==> manifest[j].table in start && start[manifest[j].table] == []
    ensures r.Ok? <==> Complete(manifest, files)
    ensures r.Err? ==> FirstBad(manifest, files, r.error)
    ensures r.Ok? ==> r.value.Keys == start.Keys
                      && forall t :: t in start ==> r.value[t] == if t in Names(manifest) && t in files then Lines(files[t]) else start[t]
  {
    var work := start;
    for i := 0 to |manifest|
      invariant work.Keys == start.Keys
      invariant forall j :: 0 <= j < i ==> manifest[j].table in files && |Lines(files[manifest[j].table])| == manifest[j].rows
      invariant forall j :: 0 <= j < i ==> work[manifest[j].table] == Lines(files[manifest[j].table])
      invariant forall t :: t in work && t !in Names(manifest[..i]) ==> work[t] == start[t]
    {
      var table := manifest[i].table;
      if table !in files {
        BadAt(manifest, files, i, MissingDump(table));
        return Err(MissingDump(table));
      }
      assert table !in Names(manifest[..i]);
      var sent := CopyInChunks(files[table]);
      work := work[table := work[table] + Lines(sent)];
      assert work[table] == Lines(files[table]);
      NamesStep(manifest, i);
      if |work[table]| != manifest[i].rows {
        BadAt(manifest, files, i, RowCountMismatch(table));
        return Err(RowCountMismatch(table));
      }
    }
    assert manifest[..|manifest|] == manifest;
    var disturbed := SecondPass(work, manifest);
    if disturbed {
      return Err(Disturbed);
    }
    return Ok(work);
  }

  /** Every row count again, after every table has been loaded. */
  method SecondPass(work: Tables, manifest: seq<Entry>) returns (disturbed: bool)
    requires forall i :: 0 <= i < |manifest| ==> manifest[i].table in work
    ensures disturbed <==> exists i :: 0 <= i < |manifest| && |work[manifest[i].table]| != manifest[i].rows
  {
    for i := 0 to |manifest|
      invariant forall j :: 0 <= j < i ==> |work[manifest[j].table]| == manifest[j].rows
    {
      if |work[manifest[i].table]| != manifest[i].rows {
        return true;
      }
    }
    return false;
  }

  lemma NamesStep(manifest: seq<Entry>, i: nat)
    requires i < |manifest|
    ensures Names(manifest[..i + 1]) == Names(manifest[..i]) + {manifest[i].table}
  {
    assert manifest[..i + 1] == manifest[..i] + [manifest[i]];
    forall t ensures t in Names(manifest[..i + 1]) <==> t in Names(manifest[..i]) || t == manifest[i].table {
      if t in Names(manifest[..i + 1]) {
        var j :| 0 <= j < i + 1 && manifest[..i + 1][j].table == t;
        assert j < i ==> manifest[..i][j].table == t;
      }
      if t in Names(manifest[..i]) {
        var j :| 0 <= j < i && manifest[..i][j].table == t;
        assert manifest[..i + 1][j].table == t;
      }
      assert manifest[..i + 1][i].table == manifest[i].table;
    }
  }

  const CHUNK := 65536

  /** `while chunk := handle.read(65536): copy.write(chunk)`. */
  method CopyInChunks(content: string) returns (sent: string)
    ensures sent == content
  {
    sent := "";
    var position := 0;
    while position < |content|
      invariant 0 <= position <= |content| && sent == content[..position]
    {
      var end := if position + CHUNK < |content| then position + CHUNK else |content|;
      sent := sent + content[position..end];
      position := end;
    }
  }

  /** A restored backup is the data that was backed up: every table of the manifest comes back row for
      row, into any database that has the tables. */
  lemma BackupThenRestore(source: Tables, target: Tables, fk: ForeignKeys, manifest: seq<Entry>, files: map<string, string>, truncateFirst: bool)
    requires forall i :: 0 <= i < |manifest| ==>
               var t := manifest[i].table;
               t in source && OneLineEach(source[t]) && t in files && files[t] == Dump(source[t]) && manifest[i].rows == |source[t]| && t in target
    requires if truncateFirst then manifest != [] else forall i :: 0 <= i < |manifest| ==> target[manifest[i].table] == []
    ensures Restorable(target, manifest, files, truncateFirst)
    ensures forall i :: 0 <= i < |manifest| ==>
              RestoredTables(target, fk, manifest, files, truncateFirst)[manifest[i].table] == source[manifest[i].table]
  {
    forall i | 0 <= i < |manifest|
      ensures Lines(files[manifest[i].table]) == source[manifest[i].table] && manifest[i].table in Names(manifest)
    {
      DumpRoundTrip(source[manifest[i].table]);
    }
  }

  // ---- Truncating inside the load loop ----

  /** The rejected design: each table is truncated, with its cascade, just before its own load. */
  ghost function Interleaved(tables: Tables, fk: ForeignKeys, manifest: seq<Entry>, files: map<string, string>): Tables
    requires Complete(manifest, files)
    decreases |manifest|
  {
    if |manifest| == 0 then tables
    else
      var n := |manifest| - 1;
      var before := Interleaved(tables, fk, manifest[..n], files);
      Truncated(before, fk, {manifest[n].table})[manifest[n].table := Lines(files[manifest[n].table])]
  }

  /** A later table's cascade reaches this one. */
  ghost predicate WipedLater(fk: ForeignKeys, manifest: seq<Entry>, i: nat) {
    exists j :: i < j < |manifest| && manifest[i].table in Cascade(fk, {manifest[j].table})
  }

  /** Truncating inside the loop loses the rows of a table exactly when the table has rows and the cascade
      of some later table reaches it. */
  lemma {:induction false} InterleavingLosesExactly(tables: Tables, fk: ForeignKeys, manifest: seq<Entry>, files: map<string, string>, i: nat)
    requires DistinctTables(manifest) && Complete(manifest, files) && i < |manifest|
    requires forall k :: 0 <= k < |manifest| ==> manifest[k].table in tables
    ensures var after := Interleaved(tables, fk, manifest, files);
            var dump := Lines(files[manifest[i].table]);
            && after.Keys == tables.Keys
            && after[manifest[i].table] == (if WipedLater(fk, manifest, i) then [] else dump)
            && (after[manifest[i].table] != dump <==> dump != [] && WipedLater(fk, manifest, i))
    decreases |manifest|
  {
    var n := |manifest| - 1;
    var front := manifest[..n];
    InterleavedStep(tables, fk, manifest, files);
    if i < n {
      InterleavingLosesExactly(tables, fk, front, files, i);
      WipedSplit(fk, manifest, i);
    }
  }

  lemma {:induction false} InterleavedKeys(tables: Tables, fk: ForeignKeys, manifest: seq<Entry>, files: map<string, string>)
    requires Complete(manifest, files) && forall k :: 0 <= k < |manifest| ==> manifest[k].table in tables
    ensures Interleaved(tables, fk, manifest, files).Keys == tables.Keys
    decreases |manifest|
  {
    if |manifest| > 0 {
      InterleavedKeys(tables, fk, manifest[..|manifest| - 1], files);
    }
  }

  lemma InterleavedStep(tables: Tables, fk: ForeignKeys, manifest: seq<Entry>, files: map<string, string>)
    requires DistinctTables(manifest) && Complete(manifest, files) && |manifest| > 0
    requires forall k :: 0 <= k < |manifest| ==> manifest[k].table in tables
    ensures var n := |manifest| - 1;
            var before, after := Interleaved(tables, fk, manifest[..n], files), Interleaved(tables, fk, manifest, files);
            && before.Keys == after.Keys == tables.Keys
            && after[manifest[n].table] == Lines(files[manifest[n].table])
            && forall k :: 0 <= k < n ==> after[manifest[k].table]
                                          == if manifest[k].table in Cascade(fk, {manifest[n].table}) then [] else before[manifest[k].table]
  {
    InterleavedKeys(tables, fk, manifest[..|manifest| - 1], files);
  }

  lemma WipedSplit(fk: ForeignKeys, manifest: seq<Entry>, i: nat)
    requires i < |manifest| - 1
    ensures var n := |manifest| - 1;
            WipedLater(fk, manifest, i) <==> WipedLater(fk, manifest[..n], i) || manifest[i].table in Cascade(fk, {manifest[n].table})
  {
    var front := manifest[..|manifest| - 1];
    if WipedLater(fk, manifest, i) {
      var j :| i < j < |manifest| && manifest[i].table in Cascade(fk, {manifest[j].table});
      assert j < |front| ==> front[j] == manifest[j];
    }
    if WipedLater(fk, front, i) {
      var j :| i < j < |front| && front[i].table in Cascade(fk, {front[j].table});
      assert manifest[j] == front[j];
    }
  }
}
