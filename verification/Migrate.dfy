/** The commands of the migration tool as they run: loops that execute scripts and write the ledger one
    statement at a time. Each is proved to compute the function of MigrateModel. */
module Migrate {
  import opened GoStrings
  import opened MigrateModel

  datatype DirEntry = DirEntry(name: string, isDir: bool)

  datatype Listing = ReadError | Entries(entries: seq<DirEntry>)

  const UP_SUFFIX := ".up.sql"

  predicate IsUpFile(e: DirEntry) {
    !e.isDir && HasSuffix(e.name, UP_SUFFIX)
  }

  function UpFileNames(entries: seq<DirEntry>): (r: seq<string>)
    ensures forall f :: f in r ==> HasSuffix(f, UP_SUFFIX)
    ensures forall f :: f in r <==> exists i :: 0 <= i < |entries| && entries[i].name == f && IsUpFile(entries[i])
  {
    if entries == [] then []
    else
      UpFileNames(entries[..|entries| - 1]) +
      (if IsUpFile(entries[|entries| - 1]) then [entries[|entries| - 1].name] else [])
  }

  /** The file name without its suffix. */
  function MigrationName(file: string): string
    requires HasSuffix(file, UP_SUFFIX)
  {
    file[..|file| - |UP_SUFFIX|]
  }

  function NamesOfFiles(files: seq<string>): seq<string>
    requires forall f :: f in files ==> HasSuffix(f, UP_SUFFIX)
  {
    seq(|files|, i requires 0 <= i < |files| => MigrationName(files[i]))
  }

  function SortedUpFiles(entries: seq<DirEntry>): (r: seq<string>)
    ensures Sorted(r) && forall f :: f in r <==> f in UpFileNames(entries)
  {
    var r := SortStrings(UpFileNames(entries));
    assert forall f :: f in r <==> f in multiset(r);
    r
  }

  /** The migration names a command works through: sorted by file name, suffix trimmed afterwards. */
  function DirOf(listing: Listing): Dir {
    match listing
    case ReadError => Unreadable
    case Entries(entries) => Names(NamesOfFiles(SortedUpFiles(entries)))
  }

  ghost predicate EntriesDistinct(entries: seq<DirEntry>) {
    forall i, j :: 0 <= i < j < |entries| ==> entries[i].name != entries[j].name
  }

  lemma {:induction false} UpFileNamesDistinct(entries: seq<DirEntry>)
    requires EntriesDistinct(entries)
    ensures Distinct(UpFileNames(entries))
  {
    if entries != [] {
      var front := entries[..|entries| - 1];
      UpFileNamesDistinct(front);
      assert forall i :: 0 <= i < |front| ==> front[i] == entries[i];
      assert entries[|entries| - 1].name !in UpFileNames(front);
    }
  }

  /** A directory never holds one name twice, so the commands never meet one migration name twice. */
  lemma MigrationNamesDistinct(entries: seq<DirEntry>)
    requires EntriesDistinct(entries)
    ensures Distinct(DirOf(Entries(entries)).names)
  {
    var files := SortedUpFiles(entries);
    UpFileNamesDistinct(entries);
    SortStringsDistinct(UpFileNames(entries));
    DistinctMeaning(DirOf(Entries(entries)).names);
    forall i, j | 0 <= i < j < |files| ensures MigrationName(files[i]) != MigrationName(files[j]) {
      assert HasSuffix(files[i], UP_SUFFIX) && HasSuffix(files[j], UP_SUFFIX);
      assert files[i] == MigrationName(files[i]) + UP_SUFFIX && files[j] == MigrationName(files[j]) + UP_SUFFIX;
    }
  }

  method ListUpFiles(entries: seq<DirEntry>) returns (files: seq<string>)
    ensures files == UpFileNames(entries)
  {
    files := [];
    for i := 0 to |entries|
      invariant files == UpFileNames(entries[..i])
    {
      assert entries[..i + 1][..i] == entries[..i];
      if IsUpFile(entries[i]) {
        files := files + [entries[i].name];
      }
    }
    assert entries[..|entries|] == entries;
  }

  class Database<S> {
    var hasSchema: bool
    var hasLedger: bool
    var ledger: seq<Row>
    var nextId: nat
    var schema: S

    constructor (sc: Scripts<S>)
      ensures State() == Initial(sc)
    {
      hasSchema, hasLedger, ledger, nextId, schema := true, false, [], 1, sc.empty;
    }

    function State(): Db<S>
      reads this
    {
      Db(hasSchema, hasLedger, ledger, nextId, schema)
    }

    method EnsureMigrationsTable(fails: bool)
      modifies this
      ensures State() == if fails then old(State()) else EnsureTable(old(State()))
    {
      if !fails && hasSchema && !hasLedger {
        hasLedger, ledger, nextId := true, [], 1;
      }
    }

    method RunMigrations(sc: Scripts<S>, listing: Listing, opening: Opening, faults: string -> UpFault)
      returns (ok: bool)
      modifies this
      ensures UpResult(State(), ok) == RunUp(sc, old(State()), DirOf(listing), opening, faults)
    {
      if listing.ReadError? {
        return false;
      }
      var files := ListUpFiles(listing.entries);
      if |files| == 0 {
        assert SortStrings(files) == [];
        return true;
      }
      files := SortStrings(files);
      assert files == SortedUpFiles(listing.entries);
      assert files != [];

      EnsureMigrationsTable(opening.tableFails);
      if opening.queryFails || !hasLedger {
        return false;
      }
      ok := ApplyFiles(sc, files, faults, MaxBatch(ledger) + 1);
    }

    /** The loop over the sorted files. */
    method ApplyFiles(sc: Scripts<S>, files: seq<string>, faults: string -> UpFault, nextBatch: nat) returns (ok: bool)
      requires forall f :: f in files ==> HasSuffix(f, UP_SUFFIX)
      modifies this
      ensures UpResult(State(), ok) == UpFiles(sc, old(State()), NamesOfFiles(files), faults, nextBatch)
    {
      ghost var names := NamesOfFiles(files);
      for i := 0 to |files|
        invariant UpFiles(sc, State(), names[i..], faults, nextBatch) ==
          UpFiles(sc, old(State()), names, faults, nextBatch)
      {
        var migrationName := MigrationName(files[i]);
        assert names[i..][0] == migrationName && names[i..][1..] == names[i + 1..];
        if faults(migrationName).StatusFails? {
          return false;
        }
        if Applied(ledger, migrationName) {
          continue;
        }
        if faults(migrationName).ReadFails? {
          return false;
        }
        if sc.blank(migrationName) {
          continue;
        }
        if faults(migrationName).ExecFails? {
          return false;
        }
        schema := sc.up(migrationName, schema);
        ledger := ledger + [Row(nextId, migrationName, nextBatch)];
        nextId := nextId + 1;
      }
      return true;
    }

    method RollbackMigration(sc: Scripts<S>, queryFails: bool, faults: string -> DownFault)
      modifies this
      ensures State() == RunDown(sc, old(State()), queryFails, faults)
    {
      if queryFails || !hasLedger {
        return;
      }
      var currentBatch := MaxBatch(ledger);
      if currentBatch == 0 {
        return;
      }
      var migrations := InBatchNewestFirst(ledger, currentBatch);
      ghost var start := State();
      for i := 0 to |migrations|
        invariant DownRows(sc, State(), migrations[i..], faults) == DownRows(sc, start, migrations, faults)
      {
        var m := migrations[i];
        assert migrations[i..][0] == m && migrations[i..][1..] == migrations[i + 1..];
        if faults(m.name).ReadMissing? {
          continue;
        }
        if faults(m.name).DownFails? {
          continue;
        }
        if faults(m.name).DownOk? {
          schema := sc.down(m.name, schema);
        }
        ledger := WithoutId(ledger, m.id);
      }
    }

    method FreshMigration(sc: Scripts<S>, dropFails: bool, createFails: bool, listing: Listing, opening: Opening,
                          faults: string -> UpFault)
      returns (ok: bool)
      modifies this
      ensures UpResult(State(), ok) ==
        RunFresh(sc, old(State()), dropFails, createFails, DirOf(listing), opening, faults)
    {
      if dropFails {
        return false;
      }
      hasSchema, hasLedger, ledger, nextId, schema := false, false, [], 1, sc.empty;
      if createFails {
        return false;
      }
      hasSchema := true;
      ok := RunMigrations(sc, listing, opening, faults);
    }
  }
}
