/** What each command does, told by the rows, the files and the failing statements alone. */
module MigrateEffects {
  import opened GoStrings
  import opened MigrateModel
  import opened MigrateTheorems
  import opened MigrateRuns
  import opened MigrateSchema
  import opened Migrate

  /******* Which names a directory yields *******/

  /** The name is the file name without its suffix. */
  lemma NameOfStem(stem: string)
    ensures HasSuffix(stem + ".up.sql", UP_SUFFIX) && MigrationName(stem + ".up.sql") == stem
  {
    var file := stem + ".up.sql";
    assert file[|file| - 7..] == ".up.sql";
  }

  /** The names are those of the files, not directories, that end in ".up.sql", in the order of the file names. */
  lemma DirectoryNames(entries: seq<DirEntry>)
    ensures var names := DirOf(Entries(entries)).names;
      && (forall n :: n in names <==> DirEntry(n + ".up.sql", false) in entries)
      && forall i, j :: 0 <= i < j < |names| ==> Le(names[i] + ".up.sql", names[j] + ".up.sql")
  {
    var files := SortedUpFiles(entries);
    var names := DirOf(Entries(entries)).names;
    forall i | 0 <= i < |files| ensures files[i] == names[i] + ".up.sql" {
      assert HasSuffix(files[i], UP_SUFFIX);
    }
    forall n ensures n in names <==> DirEntry(n + ".up.sql", false) in entries {
      NameOfStem(n);
      assert n + ".up.sql" in files <==> DirEntry(n + ".up.sql", false) in entries by {
        assert forall i :: 0 <= i < |entries| ==>
          (entries[i].name == n + ".up.sql" && IsUpFile(entries[i]) <==> entries[i] == DirEntry(n + ".up.sql", false));
      }
      if n in names {
        var i :| 0 <= i < |names| && names[i] == n;
        assert files[i] in files;
      }
      if n + ".up.sql" in files {
        var i :| 0 <= i < |files| && files[i] == n + ".up.sql";
        assert names[i] == MigrationName(n + ".up.sql");
      }
    }
  }

  /******* up *******/

  /** A file stops the command when its status cannot be read, or it is not yet applied and cannot be read, or it
      is not yet applied, not blank, and its script fails. */
  lemma StopsMeaning<S>(sc: Scripts<S>, ledger: seq<Row>, faults: string -> UpFault, name: string)
    ensures Stops(sc, ledger, faults, name) <==>
      || faults(name) == StatusFails
      || (faults(name) == ReadFails && !Applied(ledger, name))
      || (faults(name) == ExecFails && !Applied(ledger, name) && !sc.blank(name))
  {
  }

  /** Both statements before the files go through: the table is there or can be made, and can be queried. */
  predicate Opens<S>(db: Db<S>, opening: Opening) {
    !opening.queryFails && (db.hasLedger || (db.hasSchema && !opening.tableFails))
  }

  /** An up over a directory succeeds exactly when it opens and no file stops it. It keeps the old rows, gives all
      new ones the next batch number, and records a file exactly when it is new, not blank and no file up to it
      stops the command; in directory order. */
  lemma UpRecords<S>(sc: Scripts<S>, db: Db<S>, names: seq<string>, opening: Opening, faults: string -> UpFault)
    requires (db.hasLedger || db.ledger == []) && Distinct(names) && names != []
    ensures var r := RunUp(sc, db, Names(names), opening, faults);
      && (r.ok <==> Opens(db, opening) && forall i :: 0 <= i < |names| ==> !Stops(sc, db.ledger, faults, names[i]))
      && db.ledger <= r.db.ledger
      && (forall i :: |db.ledger| <= i < |r.db.ledger| ==> r.db.ledger[i].batch == MaxBatch(db.ledger) + 1)
      && (forall n :: Applied(r.db.ledger, n) <==>
            Applied(db.ledger, n) || (Opens(db, opening) && !sc.blank(n) && Unblocked(sc, db.ledger, faults, names, n)))
      && forall i, j :: |db.ledger| <= i < j < |r.db.ledger| ==>
           ComesBefore(names, r.db.ledger[i].name, r.db.ledger[j].name)
  {
    if ReachesFiles(db, Names(names), opening) {
      var db1 := EnsureTable(db);
      UpEffect(sc, db, Names(names), opening, faults);
      OutcomeRecords(sc, db1, names, faults);
    } else {
      UpWithoutFiles(sc, db, Names(names), opening, faults);
    }
  }

  /** Without files nothing happens: a directory that cannot be read is an error, an empty one is not. */
  lemma UpNeedsFiles<S>(sc: Scripts<S>, db: Db<S>, opening: Opening, faults: string -> UpFault)
    ensures RunUp(sc, db, Unreadable, opening, faults) == UpResult(db, false)
    ensures RunUp(sc, db, Names([]), opening, faults) == UpResult(db, true)
  {
  }

  /** The name is in the directory, and neither it nor a name before it stops the command. */
  predicate Unblocked<S>(sc: Scripts<S>, ledger: seq<Row>, faults: string -> UpFault, names: seq<string>, n: string) {
    exists i :: 0 <= i < |names| && names[i] == n && forall j :: 0 <= j <= i ==> !Stops(sc, ledger, faults, names[j])
  }

  predicate ComesBefore(names: seq<string>, a: string, b: string) {
    exists i, j :: 0 <= i < j < |names| && names[i] == a && names[j] == b
  }

  lemma OutcomeRecords<S>(sc: Scripts<S>, db: Db<S>, names: seq<string>, faults: string -> UpFault)
    requires Distinct(names)
    ensures var r := Outcome(sc, db, names, faults, NextBatch(db));
      && (r.ok <==> forall i :: 0 <= i < |names| ==> !Stops(sc, db.ledger, faults, names[i]))
      && db.ledger <= r.db.ledger
      && (forall i :: |db.ledger| <= i < |r.db.ledger| ==> r.db.ledger[i].batch == MaxBatch(db.ledger) + 1)
      && (forall n :: Applied(r.db.ledger, n) <==>
            Applied(db.ledger, n) || (!sc.blank(n) && Unblocked(sc, db.ledger, faults, names, n)))
      && forall i, j :: |db.ledger| <= i < j < |r.db.ledger| ==>
           ComesBefore(names, r.db.ledger[i].name, r.db.ledger[j].name)
  {
    var k := FirstStop(sc, db.ledger, names, faults);
    var r := Outcome(sc, db, names, faults, NextBatch(db));
    CompletedRows(sc, db, names[..k], NextBatch(db));
    forall n ensures Applied(r.db.ledger, n) <==>
      Applied(db.ledger, n) || (!sc.blank(n) && Unblocked(sc, db.ledger, faults, names, n))
    {
      CompletedNames(sc, db, names[..k], NextBatch(db), n);
      UnblockedIsBefore(sc, db.ledger, faults, names, n);
    }
    forall i, j | |db.ledger| <= i < j < |r.db.ledger|
      ensures ComesBefore(names, r.db.ledger[i].name, r.db.ledger[j].name)
    {
      CompletedOrder(sc, db, names, k, NextBatch(db), i, j);
    }
  }

  lemma CompletedOrder<S>(sc: Scripts<S>, db: Db<S>, names: seq<string>, k: nat, batch: nat, i: nat, j: nat)
    requires k <= |names| && |db.ledger| <= i < j < |Completed(sc, db, names[..k], batch).ledger|
    ensures var l := Completed(sc, db, names[..k], batch).ledger; ComesBefore(names, l[i].name, l[j].name)
  {
    var l := Completed(sc, db, names[..k], batch).ledger;
    CompletedRows(sc, db, names[..k], batch);
    PendingInOrder(sc, db.ledger, names[..k], i - |db.ledger|, j - |db.ledger|);
    BeforeInPrefix(names, k, l[i].name, l[j].name);
  }

  lemma CompletedRows<S>(sc: Scripts<S>, db: Db<S>, names: seq<string>, batch: nat)
    ensures var l, done := Completed(sc, db, names, batch).ledger, Pending(sc, db.ledger, names);
      && db.ledger <= l && |l| == |db.ledger| + |done|
      && forall i :: |db.ledger| <= i < |l| ==> l[i].batch == batch && l[i].name == done[i - |db.ledger|]
  {
    var done := Pending(sc, db.ledger, names);
    ApplyAllLedger(sc, db, done, batch);
    RowsAppended(db.ledger, done, batch, db.nextId);
  }

  lemma RowsAppended(ledger: seq<Row>, names: seq<string>, batch: nat, id: nat)
    ensures var l := ledger + NewRows(names, batch, id);
      && ledger <= l && |l| == |ledger| + |names|
      && forall i :: |ledger| <= i < |l| ==> l[i].batch == batch && l[i].name == names[i - |ledger|]
  {
  }

  lemma CompletedNames<S>(sc: Scripts<S>, db: Db<S>, names: seq<string>, batch: nat, n: string)
    ensures Applied(Completed(sc, db, names, batch).ledger, n) <==>
      Applied(db.ledger, n) || (!sc.blank(n) && n in names)
  {
    AppliedAfter(sc, db, Pending(sc, db.ledger, names), batch, n);
    PendingMembers(sc, db.ledger, names);
  }

  lemma BeforeInPrefix(names: seq<string>, k: nat, a: string, b: string)
    requires k <= |names| && ComesBefore(names[..k], a, b)
    ensures ComesBefore(names, a, b)
  {
    var i, j :| 0 <= i < j < k && names[..k][i] == a && names[..k][j] == b;
    assert names[i] == a && names[j] == b;
  }

  lemma UnblockedIsBefore<S>(sc: Scripts<S>, ledger: seq<Row>, faults: string -> UpFault, names: seq<string>, n: string)
    ensures Unblocked(sc, ledger, faults, names, n) <==> n in names[..FirstStop(sc, ledger, names, faults)]
  {
    var k := FirstStop(sc, ledger, names, faults);
    if n in names[..k] {
      var i :| 0 <= i < k && names[..k][i] == n;
      assert names[i] == n && forall j :: 0 <= j <= i ==> !Stops(sc, ledger, faults, names[j]);
    }
    if i :| 0 <= i < |names| && names[i] == n && forall j :: 0 <= j <= i ==> !Stops(sc, ledger, faults, names[j]) {
      assert i < k;
      assert names[..k][i] == n;
    }
  }

  lemma {:induction false} PendingInOrder<S>(sc: Scripts<S>, ledger: seq<Row>, names: seq<string>, i: nat, j: nat)
    requires i < j < |Pending(sc, ledger, names)|
    ensures ComesBefore(names, Pending(sc, ledger, names)[i], Pending(sc, ledger, names)[j])
  {
    var front := names[..|names| - 1];
    var p := Pending(sc, ledger, front);
    if j < |p| {
      PendingInOrder(sc, ledger, front, i, j);
      var x, y :| 0 <= x < y < |front| && front[x] == p[i] && front[y] == p[j];
      assert names[x] == p[i] && names[y] == p[j];
    } else {
      PendingMembers(sc, ledger, front);
      assert p[i] in front;
      var x :| 0 <= x < |front| && front[x] == p[i];
      assert names[x] == p[i] && names[|names| - 1] == Pending(sc, ledger, names)[j];
    }
  }

  /******* down *******/

  /** A down removes a row exactly when it belongs to the newest batch and its script ran or failed with "does
      not exist"; when the largest batch cannot be read it does nothing. */
  lemma DownRemoves<S>(sc: Scripts<S>, db: Db<S>, queryFails: bool, faults: string -> DownFault)
    requires WellFormed(db)
    ensures var db' := RunDown(sc, db, queryFails, faults);
      && (queryFails ==> db' == db)
      && db' == db.(ledger := db'.ledger, schema := db'.schema)
      && (!queryFails ==> forall row :: row in db'.ledger <==>
            row in db.ledger
            && (row.batch < MaxBatch(db.ledger) || faults(row.name) == ReadMissing || faults(row.name) == DownFails))
  {
    if !queryFails {
      DownEffect(sc, db, faults);
      var p, m := Older(db.ledger), Newest(db.ledger);
      NewestIsSuffix(db.ledger);
      forall row ensures row in p ==> row.batch < MaxBatch(db.ledger) {
        if row in p {
          var i :| 0 <= i < |p| && p[i] == row;
          OlderRowsAreOlder(db.ledger, i);
        }
      }
      forall row ensures row in m ==> row.batch == MaxBatch(db.ledger) {
      }
      forall row ensures row in Kept(m, faults) <==>
        row in m && (faults(row.name) == ReadMissing || faults(row.name) == DownFails)
      {
        KeptMembers(m, faults, row);
      }
    }
  }

  lemma {:induction false} KeptMembers(rows: seq<Row>, faults: string -> DownFault, row: Row)
    ensures row in Kept(rows, faults) <==>
      row in rows && (faults(row.name) == ReadMissing || faults(row.name) == DownFails)
  {
    if rows != [] {
      KeptMembers(rows[..|rows| - 1], faults, row);
      assert rows == rows[..|rows| - 1] + [rows[|rows| - 1]];
    }
  }

  /** A down in which every script fails or is missing, or meets something that does not exist, leaves the
      schema alone. */
  lemma DownWithoutScripts<S>(sc: Scripts<S>, db: Db<S>, queryFails: bool, faults: string -> DownFault)
    requires WellFormed(db) && forall n :: faults(n) != DownOk
    ensures RunDown(sc, db, queryFails, faults).schema == db.schema
  {
    if !queryFails {
      DownEffect(sc, db, faults);
      NothingRolledBack(sc, db.schema, Newest(db.ledger), faults);
    }
  }

  lemma {:induction false} NothingRolledBack<S>(sc: Scripts<S>, s: S, rows: seq<Row>, faults: string -> DownFault)
    requires forall n :: faults(n) != DownOk
    ensures RolledBack(sc, s, rows, faults) == s
  {
    if rows != [] {
      NothingRolledBack(sc, s, rows[..|rows| - 1], faults);
    }
  }

  /******* fresh *******/

  /** Once the schema is dropped and created, nothing of the old database matters. */
  lemma FreshForgets<S>(sc: Scripts<S>, db1: Db<S>, db2: Db<S>, dir: Dir, opening: Opening, faults: string -> UpFault)
    ensures
      RunFresh(sc, db1, false, false, dir, opening, faults) == RunFresh(sc, db2, false, false, dir, opening, faults)
  {
  }

  /** A successful fresh applies every file that is not blank, in one batch, numbered from 1, to the empty schema. */
  lemma FreshRebuilds<S>(sc: Scripts<S>, db: Db<S>, names: seq<string>, opening: Opening, faults: string -> UpFault)
    requires Distinct(names) && RunFresh(sc, db, false, false, Names(names), opening, faults).ok
    ensures var db' := RunFresh(sc, db, false, false, Names(names), opening, faults).db;
      && db'.ledger == NewRows(Pending(sc, [], names), 1, 1)
      && (forall n :: Applied(db'.ledger, n) <==> n in names && !sc.blank(n))
      && db'.schema == Build(sc, sc.empty, db'.ledger)
  {
    var base := Dropped(sc).(hasSchema := true);
    if names != [] {
      CompletedUp(sc, base, names, Attempt(opening, faults));
      assert EnsureTable(base) == base.(hasLedger := true);
      CompletionFromNothing(sc, EnsureTable(base), names);
    }
    var db' := RunFresh(sc, db, false, false, Names(names), opening, faults).db;
    forall n ensures Applied(db'.ledger, n) <==> n in names && !sc.blank(n) {
      PendingMembers(sc, [], names);
      RowsNamed(Pending(sc, [], names), n);
    }
  }

  lemma CompletionFromNothing<S>(sc: Scripts<S>, base: Db<S>, names: seq<string>)
    requires base.ledger == [] && base.nextId == 1
    ensures Completion(sc, base, names).ledger == NewRows(Pending(sc, [], names), 1, 1)
    ensures Completion(sc, base, names).schema == Build(sc, base.schema, NewRows(Pending(sc, [], names), 1, 1))
  {
    ApplyAllLedger(sc, base, Pending(sc, [], names), 1);
    ApplyAllBuilds(sc, base, Pending(sc, [], names), 1);
  }

  lemma RowsNamed(names: seq<string>, n: string)
    ensures Applied(NewRows(names, 1, 1), n) <==> n in names
  {
    var rows := NewRows(names, 1, 1);
    if n in names {
      var i :| 0 <= i < |names| && names[i] == n;
      assert rows[i].name == n;
    }
  }

  /** When the drop fails nothing happens. When the schema is dropped and not created, everything is gone, and
      no up succeeds until another fresh does. */
  lemma FreshFailures<S>(sc: Scripts<S>, db: Db<S>, createFails: bool, dir: Dir, opening: Opening,
                         faults: string -> UpFault, names: seq<string>, later: Opening)
    requires names != []
    ensures RunFresh(sc, db, true, createFails, dir, opening, faults) == UpResult(db, false)
    ensures var r := RunFresh(sc, db, false, true, dir, opening, faults);
      && !r.ok && r.db.ledger == [] && r.db.schema == sc.empty
      && RunUp(sc, r.db, Names(names), later, faults) == UpResult(r.db, false)
  {
  }

  /** A down after a successful fresh takes back everything. */
  lemma DownUndoesFresh<S(!new)>(sc: Scripts<S>, db: Db<S>, names: seq<string>, opening: Opening,
                                 faults: string -> UpFault, downFaults: string -> DownFault)
    requires Distinct(names) && RunFresh(sc, db, false, false, Names(names), opening, faults).ok
    requires DownsUndo(sc) && forall n :: downFaults(n).DownOk?
    ensures var db' := RunDown(sc, RunFresh(sc, db, false, false, Names(names), opening, faults).db, false, downFaults);
      db'.ledger == [] && db'.schema == sc.empty
  {
    var base := Dropped(sc).(hasSchema := true);
    DownUndoesUp(sc, base, Names(names), opening, faults, downFaults);
    if RunUp(sc, base, Names(names), opening, faults).db.ledger == [] {
      FreshRebuilds(sc, db, names, opening, faults);
    }
  }
}
