/** Main results about runs of the migration tool. */
module MigrateSchema {
  import opened GoStrings
  import opened MigrateModel
  import opened MigrateTheorems
  import opened MigrateRuns

  /******* The ledger over every run *******/

  ghost predicate DirsOk(cs: seq<Command>) {
    forall i :: 0 <= i < |cs| ==> (cs[i].Up? || cs[i].Fresh? ==> DirOk(cs[i].dir))
  }

  lemma ExecKeepsWellFormed<S>(sc: Scripts<S>, db: Db<S>, c: Command)
    requires WellFormed(db) && (c.Up? || c.Fresh? ==> DirOk(c.dir))
    ensures WellFormed(Exec(sc, db, c))
  {
    match c
    case Up(dir, opening, faults) => UpKeepsWellFormed(sc, db, dir, opening, faults);
    case Down(queryFails, faults) => DownKeepsWellFormed(sc, db, queryFails, faults);
    case Fresh(dropFails, createFails, dir, opening, faults) =>
      UpKeepsWellFormed(sc, Dropped(sc).(hasSchema := true), dir, opening, faults);
  }

  lemma {:induction false} RunWellFormed<S>(sc: Scripts<S>, cs: seq<Command>)
    requires DirsOk(cs)
    ensures WellFormed(Run(sc, cs))
  {
    if cs != [] {
      RunWellFormed(sc, cs[..|cs| - 1]);
      ExecKeepsWellFormed(sc, Run(sc, cs[..|cs| - 1]), cs[|cs| - 1]);
    }
  }

  /** Over every run of up, down and fresh, with any statement failing anywhere and files appearing
      between commands: names unique, ids increasing, batches non-decreasing and exactly 1..max. */
  lemma LedgerInvariantOverRuns<S>(sc: Scripts<S>, cs: seq<Command>)
    requires DirsOk(cs)
    ensures LedgerInv(Run(sc, cs))
  {
    RunWellFormed(sc, cs);
    WellFormedIffInv(Run(sc, cs));
  }

  /******* The schema is the image of the ledger *******/

  /** The up scripts of the rows, in id order, run on s. */
  function Build<S>(sc: Scripts<S>, s: S, rows: seq<Row>): S {
    if rows == [] then s else sc.up(rows[|rows| - 1].name, Build(sc, s, rows[..|rows| - 1]))
  }

  ghost predicate InSync<S>(sc: Scripts<S>, db: Db<S>) {
    db.schema == Build(sc, sc.empty, db.ledger)
  }

  /** Each down script undoes its up script. */
  ghost predicate DownsUndo<S(!new)>(sc: Scripts<S>) {
    forall name, s :: sc.down(name, sc.up(name, s)) == s
  }

  /** No rollback was wrongly counted as done, and none succeeded below one that failed: seen from the
      newest row down, successes come first. */
  ghost predicate Clean(rows: seq<Row>, faults: string -> DownFault) {
    exists j :: CleanAt(rows, faults, j)
  }

  ghost predicate CleanAt(rows: seq<Row>, faults: string -> DownFault, j: nat) {
    && j <= |rows|
    && (forall i :: 0 <= i < j ==> Keeps(faults(rows[i].name)))
    && (forall i :: j <= i < |rows| ==> faults(rows[i].name).DownOk?)
  }

  lemma {:induction false} ApplyAllBuilds<S>(sc: Scripts<S>, db: Db<S>, names: seq<string>, batch: nat)
    ensures ApplyAll(sc, db, names, batch).schema == Build(sc, db.schema, NewRows(names, batch, db.nextId))
  {
    if names != [] {
      var rows := NewRows(names, batch, db.nextId);
      ApplyAllBuilds(sc, db, names[..|names| - 1], batch);
      assert rows[..|rows| - 1] == NewRows(names[..|names| - 1], batch, db.nextId);
    }
  }

  /** What any up does to rows and schema: it appends one batch of rows and runs their scripts. */
  lemma UpShape<S>(sc: Scripts<S>, db: Db<S>, dir: Dir, opening: Opening, faults: string -> UpFault)
    returns (rows: seq<Row>)
    requires DirOk(dir) && (db.hasLedger || db.ledger == [])
    ensures forall i :: 0 <= i < |rows| ==> rows[i].batch == MaxBatch(db.ledger) + 1
    ensures RunUp(sc, db, dir, opening, faults).db.ledger == db.ledger + rows
    ensures RunUp(sc, db, dir, opening, faults).db.schema == Build(sc, db.schema, rows)
  {
    if ReachesFiles(db, dir, opening) {
      UpEffect(sc, db, dir, opening, faults);
      TableKeepsLedger(db);
      rows := OutcomeRows(sc, EnsureTable(db), dir.names, faults, NextBatch(EnsureTable(db)));
    } else {
      UpWithoutFiles(sc, db, dir, opening, faults);
      rows := [];
      assert db.ledger + rows == db.ledger;
    }
  }

  lemma OutcomeRows<S>(sc: Scripts<S>, db: Db<S>, names: seq<string>, faults: string -> UpFault, batch: nat)
    returns (rows: seq<Row>)
    ensures forall i :: 0 <= i < |rows| ==> rows[i].batch == batch
    ensures var db' := Outcome(sc, db, names, faults, batch).db;
      db'.ledger == db.ledger + rows && db'.schema == Build(sc, db.schema, rows)
  {
    var applied := Pending(sc, db.ledger, names[..FirstStop(sc, db.ledger, names, faults)]);
    ApplyAllLedger(sc, db, applied, batch);
    ApplyAllBuilds(sc, db, applied, batch);
    rows := NewRows(applied, batch, db.nextId);
  }

  lemma {:induction false} BuildConcat<S>(sc: Scripts<S>, s: S, a: seq<Row>, b: seq<Row>)
    ensures Build(sc, s, a + b) == Build(sc, Build(sc, s, a), b)
  {
    if b == [] {
      assert a + b == a;
    } else {
      assert (a + b)[..|a + b| - 1] == a + b[..|b| - 1];
      BuildConcat(sc, s, a, b[..|b| - 1]);
    }
  }

  lemma UpKeepsSync<S>(sc: Scripts<S>, db: Db<S>, dir: Dir, opening: Opening, faults: string -> UpFault)
    requires WellFormed(db) && DirOk(dir) && InSync(sc, db)
    ensures InSync(sc, RunUp(sc, db, dir, opening, faults).db)
  {
    var rows := UpShape(sc, db, dir, opening, faults);
    BuildConcat(sc, sc.empty, db.ledger, rows);
  }

  lemma {:induction false} RolledBackUndoesBuild<S(!new)>(sc: Scripts<S>, s: S, rows: seq<Row>,
                                                          faults: string -> DownFault, j: nat)
    requires DownsUndo(sc) && CleanAt(rows, faults, j)
    ensures RolledBack(sc, Build(sc, s, rows), rows, faults) == Build(sc, s, rows[..j])
    ensures Kept(rows, faults) == rows[..j]
    decreases rows
  {
    var n := |rows|;
    if j == n {
      assert rows[..j] == rows;
      RolledBackFailing(sc, Build(sc, s, rows), rows, faults);
    } else {
      assert CleanAt(rows[..n - 1], faults, j);
      assert rows[..n - 1][..j] == rows[..j];
      RolledBackUndoesBuild(sc, s, rows[..n - 1], faults, j);
    }
  }

  lemma {:induction false} RolledBackFailing<S>(sc: Scripts<S>, s: S, rows: seq<Row>, faults: string -> DownFault)
    requires forall i :: 0 <= i < |rows| ==> Keeps(faults(rows[i].name))
    ensures RolledBack(sc, s, rows, faults) == s && Kept(rows, faults) == rows
  {
    if rows != [] {
      RolledBackFailing(sc, s, rows[..|rows| - 1], faults);
    }
  }

  /** A clean rollback keeps the schema the image of the ledger, for every family of scripts whose
      downs undo their ups. */
  lemma CleanDownKeepsSync<S(!new)>(sc: Scripts<S>, db: Db<S>, queryFails: bool, faults: string -> DownFault)
    requires WellFormed(db) && InSync(sc, db) && DownsUndo(sc)
    requires Clean(Newest(db.ledger), faults)
    ensures InSync(sc, RunDown(sc, db, queryFails, faults))
  {
    if !queryFails {
      var p, m := Older(db.ledger), Newest(db.ledger);
      var j: nat :| CleanAt(m, faults, j);
      NewestIsSuffix(db.ledger);
      BuildConcat(sc, sc.empty, p, m);
      DownEffect(sc, db, faults);
      RolledBackUndoesBuild(sc, Build(sc, sc.empty, p), m, faults, j);
      BuildConcat(sc, sc.empty, p, m[..j]);
    }
  }

  /** Every down of the run is clean at the state it meets; ups and fresh runs may fail anywhere. */
  ghost predicate DownsClean<S>(sc: Scripts<S>, cs: seq<Command>) {
    forall i :: 0 <= i < |cs| && cs[i].Down? ==> Clean(Newest(Run(sc, cs[..i]).ledger), cs[i].downFaults)
  }

  /** Over every run with clean downs, the schema is what the up scripts of the ledger rows, applied in
      id order, build from the empty schema. */
  lemma {:induction false} SchemaMatchesLedgerOverRuns<S(!new)>(sc: Scripts<S>, cs: seq<Command>)
    requires DirsOk(cs) && DownsUndo(sc) && DownsClean(sc, cs)
    ensures InSync(sc, Run(sc, cs))
  {
    if cs != [] {
      var before, c := cs[..|cs| - 1], cs[|cs| - 1];
      assert forall i :: 0 <= i < |before| ==> before[..i] == cs[..i];
      SchemaMatchesLedgerOverRuns(sc, before);
      RunWellFormed(sc, before);
      var db := Run(sc, before);
      match c
      case Up(dir, opening, faults) => UpKeepsSync(sc, db, dir, opening, faults);
      case Down(queryFails, faults) => CleanDownKeepsSync(sc, db, queryFails, faults);
      case Fresh(dropFails, createFails, dir, opening, faults) =>
        UpKeepsSync(sc, Dropped(sc).(hasSchema := true), dir, opening, faults);
    }
  }

  /******* Clean is the exact condition *******/

  /** Scripts whose schema is the list of what ran: up appends its name, down removes it from the end. */
  function StackScripts(): Scripts<seq<string>> {
    Scripts(
      (name: string) => false,
      (name: string, s: seq<string>) => s + [name],
      (name: string, s: seq<string>) => if s != [] && s[|s| - 1] == name then s[..|s| - 1] else s,
      [])
  }

  lemma StackDownsUndo()
    ensures DownsUndo(StackScripts())
  {
    var sc := StackScripts();
    forall name, s ensures sc.down(name, sc.up(name, s)) == s {
      assert (s + [name])[..|s + [name]| - 1] == s;
    }
  }

  function NamesOf(rows: seq<Row>): seq<string> {
    seq(|rows|, i requires 0 <= i < |rows| => rows[i].name)
  }

  lemma {:induction false} StackBuilds(rows: seq<Row>)
    ensures Build(StackScripts(), [], rows) == NamesOf(rows)
  {
    if rows != [] {
      StackBuilds(rows[..|rows| - 1]);
    }
  }

  /** Once the top of the stack belongs to none of the rows, rolling them back changes nothing. */
  lemma {:induction false} StackStuck(s: seq<string>, rows: seq<Row>, faults: string -> DownFault)
    requires s != [] && forall i :: 0 <= i < |rows| ==> rows[i].name != s[|s| - 1]
    ensures RolledBack(StackScripts(), s, rows, faults) == s
  {
    if rows != [] {
      StackStuck(s, rows[..|rows| - 1], faults);
    }
  }

  /** Rolling back the stack pops the successful rows at the end and then stops for good. */
  lemma {:induction false} StackPops(p: seq<Row>, m: seq<Row>, faults: string -> DownFault) returns (j: nat)
    requires NamesUnique(p + m)
    ensures j <= |m| && (forall i :: j <= i < |m| ==> faults(m[i].name).DownOk?)
    ensures j == 0 || !faults(m[j - 1].name).DownOk?
    ensures RolledBack(StackScripts(), NamesOf(p + m), m, faults) == NamesOf(p + m[..j])
    decreases m
  {
    if m == [] {
      j := 0;
    } else {
      var front, last := m[..|m| - 1], m[|m| - 1];
      assert m == front + [last];
      StackTop(p, front, last);
      if faults(last.name).DownOk? {
        j := StackPops(p, front, faults);
        assert front[..j] == m[..j];
      } else {
        j := |m|;
        assert m[..j] == m;
        StackStuck(NamesOf(p + m), front, faults);
      }
    }
  }

  lemma StackTop(p: seq<Row>, front: seq<Row>, last: Row)
    requires NamesUnique(p + (front + [last]))
    ensures NamesOf(p + (front + [last])) == NamesOf(p + front) + [last.name]
    ensures StackScripts().down(last.name, NamesOf(p + (front + [last]))) == NamesOf(p + front)
    ensures NamesUnique(p + front) && forall i :: 0 <= i < |front| ==> front[i].name != last.name
  {
    var all := p + (front + [last]);
    assert all == (p + front) + [last];
    assert all[..|all| - 1] == p + front;
    assert NamesOf(all)[..|all| - 1] == NamesOf(p + front);
    forall i | 0 <= i < |front| ensures front[i].name != last.name {
      assert all[|p| + i] == front[i] && all[|p| + |front|] == last;
    }
  }

  lemma {:induction false} KeptPrefix(m: seq<Row>, j: nat, faults: string -> DownFault)
    requires j <= |m| && forall i :: j <= i < |m| ==> faults(m[i].name).DownOk?
    ensures Kept(m, faults) == Kept(m[..j], faults)
    decreases m
  {
    if j < |m| {
      assert m[..|m| - 1][..j] == m[..j];
      KeptPrefix(m[..|m| - 1], j, faults);
    } else {
      assert m[..j] == m;
    }
  }

  /** For the stack scripts the rollback keeps schema and ledger in step if and only if it is clean, so
      a rollback that is not clean breaks some well-behaved schema: Clean cannot be weakened. */
  lemma StackDownInSyncIffClean(db: Db<seq<string>>, faults: string -> DownFault)
    requires WellFormed(db) && InSync(StackScripts(), db)
    ensures InSync(StackScripts(), RunDown(StackScripts(), db, false, faults)) <==> Clean(Newest(db.ledger), faults)
  {
    var sc, p, m := StackScripts(), Older(db.ledger), Newest(db.ledger);
    StackDownsUndo();
    if Clean(m, faults) {
      CleanDownKeepsSync(sc, db, false, faults);
    } else {
      NewestIsSuffix(db.ledger);
      StackBuilds(db.ledger);
      DownEffect(sc, db, faults);
      StackBuilds(p + Kept(m, faults));
      UncleanStack(p, m, faults);
    }
  }

  lemma UncleanStack(p: seq<Row>, m: seq<Row>, faults: string -> DownFault)
    requires NamesUnique(p + m) && !Clean(m, faults)
    ensures RolledBack(StackScripts(), NamesOf(p + m), m, faults) != NamesOf(p + Kept(m, faults))
  {
    var j := StackPops(p, m, faults);
    assert |Kept(m, faults)| != j by { UncleanKeepsFewer(m, faults, j); }
    assert |NamesOf(p + Kept(m, faults))| == |p| + |Kept(m, faults)| && |NamesOf(p + m[..j])| == |p| + j;
  }

  lemma UncleanKeepsFewer(m: seq<Row>, faults: string -> DownFault, j: nat)
    requires !Clean(m, faults) && j <= |m| && forall i :: j <= i < |m| ==> faults(m[i].name).DownOk?
    ensures |Kept(m, faults)| != j
  {
    KeptPrefix(m, j, faults);
    KeptSelects(m[..j], faults);
    if |Kept(m[..j], faults)| == j {
      assert forall i :: 0 <= i < j ==> m[..j][i] == m[i];
      assert CleanAt(m, faults, j);
    }
  }

  /** A database whose schema is the image of this ledger. */
  function Synced<S>(sc: Scripts<S>, ledger: seq<Row>, nextId: nat): Db<S> {
    Db(true, true, ledger, nextId, Build(sc, sc.empty, ledger))
  }

  /** Clean is the exact condition: a rollback is clean if and only if it keeps schema and ledger in step
      for every family of scripts whose downs undo their ups. */
  lemma CleanIffAlwaysInSync(ledger: seq<Row>, nextId: nat, faults: string -> DownFault)
    requires NamesUnique(ledger) && IdsIncreasing(ledger, nextId) && Ladder(ledger)
    ensures Clean(Newest(ledger), faults) <==>
      forall sc: Scripts<seq<string>> :: DownsUndo(sc) ==>
        InSync(sc, RunDown(sc, Synced(sc, ledger, nextId), false, faults))
  {
    if Clean(Newest(ledger), faults) {
      forall sc: Scripts<seq<string>> | DownsUndo(sc)
        ensures InSync(sc, RunDown(sc, Synced(sc, ledger, nextId), false, faults))
      {
        CleanDownKeepsSync(sc, Synced(sc, ledger, nextId), false, faults);
      }
    } else {
      StackDownsUndo();
      StackDownInSyncIffClean(Synced(StackScripts(), ledger, nextId), faults);
    }
  }

  /******* down takes back one batch *******/

  ghost predicate AllRollBack(rows: seq<Row>, faults: string -> DownFault) {
    forall i :: 0 <= i < |rows| ==> faults(rows[i].name).DownOk?
  }

  lemma FullDownLedger<S>(sc: Scripts<S>, db: Db<S>, faults: string -> DownFault)
    requires WellFormed(db) && AllRollBack(Newest(db.ledger), faults)
    ensures RunDown(sc, db, false, faults).ledger == Older(db.ledger)
  {
    DownEffect(sc, db, faults);
    KeptNone(Newest(db.ledger), faults);
    assert Older(db.ledger) + [] == Older(db.ledger);
  }

  /** A fully successful down removes exactly the newest batch, lowers the maximum by one, and gives the
      schema of the remaining rows. */
  lemma FullDown<S(!new)>(sc: Scripts<S>, db: Db<S>, faults: string -> DownFault)
    requires WellFormed(db) && DownsUndo(sc) && AllRollBack(Newest(db.ledger), faults)
    ensures var db' := RunDown(sc, db, false, faults);
      && WellFormed(db') && db'.ledger == Older(db.ledger)
      && (db.ledger != [] ==> MaxBatch(db'.ledger) == MaxBatch(db.ledger) - 1)
      && (InSync(sc, db) ==> InSync(sc, db'))
  {
    var db' := RunDown(sc, db, false, faults);
    assert db'.ledger == Older(db.ledger) by { FullDownLedger(sc, db, faults); }
    assert db.ledger != [] ==> MaxBatch(db'.ledger) == MaxBatch(db.ledger) - 1 by { OlderIsLadder(db.ledger); }
    assert WellFormed(db') by { DownKeepsWellFormed(sc, db, false, faults); }
    if InSync(sc, db) {
      assert CleanAt(Newest(db.ledger), faults, 0);
      CleanDownKeepsSync(sc, db, false, faults);
    }
  }

  function Downs<S>(sc: Scripts<S>, db: Db<S>, n: nat, faults: string -> DownFault): Db<S>
    decreases n
  {
    if n == 0 then db else Downs(sc, RunDown(sc, db, false, faults), n - 1, faults)
  }

  /** As many successful downs as there are batches lead back to the empty ledger and the empty schema. */
  lemma {:induction false} DownsToEmpty<S(!new)>(sc: Scripts<S>, db: Db<S>, faults: string -> DownFault)
    requires WellFormed(db) && InSync(sc, db) && DownsUndo(sc) && (forall n :: faults(n).DownOk?)
    ensures var db' := Downs(sc, db, MaxBatch(db.ledger), faults); db'.ledger == [] && db'.schema == sc.empty
    decreases MaxBatch(db.ledger)
  {
    LadderMeaning(db.ledger);
    if db.ledger != [] {
      FullDown(sc, db, faults);
      DownsToEmpty(sc, RunDown(sc, db, false, faults), faults);
    }
  }

  /******* down after up *******/

  /** After an up that recorded at least one file, even if it then failed, a successful down restores the
      ledger rows and the schema. After an up that recorded nothing, the down takes back an older batch,
      so the ledger is restored exactly when something was recorded or there was nothing to take back. */
  lemma DownUndoesUp<S(!new)>(sc: Scripts<S>, db: Db<S>, dir: Dir, opening: Opening, upFaults: string -> UpFault,
                              downFaults: string -> DownFault)
    requires WellFormed(db) && DirOk(dir) && DownsUndo(sc)
    requires forall n :: downFaults(n).DownOk?
    ensures var db1 := RunUp(sc, db, dir, opening, upFaults).db;
      var db2 := RunDown(sc, db1, false, downFaults);
      && (db2.ledger == db.ledger <==> |db1.ledger| > |db.ledger| || db.ledger == [])
      && (|db1.ledger| > |db.ledger| ==> db2.schema == db.schema)
  {
    var db1 := RunUp(sc, db, dir, opening, upFaults).db;
    var rows := UpShape(sc, db, dir, opening, upFaults);
    assert WellFormed(db1) by { UpKeepsWellFormed(sc, db, dir, opening, upFaults); }
    DownAfterBatch(sc, db, rows, db1, downFaults);
  }

  lemma DownAfterBatch<S(!new)>(sc: Scripts<S>, db: Db<S>, rows: seq<Row>, db1: Db<S>, faults: string -> DownFault)
    requires Ladder(db.ledger) && WellFormed(db1) && DownsUndo(sc) && (forall n :: faults(n).DownOk?)
    requires forall i :: 0 <= i < |rows| ==> rows[i].batch == MaxBatch(db.ledger) + 1
    requires db1.ledger == db.ledger + rows && db1.schema == Build(sc, db.schema, rows)
    ensures var db2 := RunDown(sc, db1, false, faults);
      && (db2.ledger == db.ledger <==> rows != [] || db.ledger == [])
      && (rows != [] ==> db2.schema == db.schema)
  {
    if rows != [] {
      NewBatchIsNewest(db.ledger, rows, MaxBatch(db.ledger) + 1);
      DownUndoesBatch(sc, db, rows, db1, faults);
    } else {
      assert db1.ledger == db.ledger;
      DownTakesNewest(sc, db1, faults);
    }
  }

  lemma DownUndoesBatch<S(!new)>(sc: Scripts<S>, db: Db<S>, rows: seq<Row>, db1: Db<S>, faults: string -> DownFault)
    requires WellFormed(db1) && DownsUndo(sc) && (forall n :: faults(n).DownOk?)
    requires Older(db1.ledger) == db.ledger && Newest(db1.ledger) == rows && db1.schema == Build(sc, db.schema, rows)
    ensures var db2 := RunDown(sc, db1, false, faults); db2.ledger == db.ledger && db2.schema == db.schema
  {
    assert CleanAt(rows, faults, 0);
    RolledBackUndoesBuild(sc, db.schema, rows, faults, 0);
    assert db.ledger + rows[..0] == db.ledger;
    DownEffect(sc, db1, faults);
  }

  lemma DownTakesNewest<S(!new)>(sc: Scripts<S>, db: Db<S>, faults: string -> DownFault)
    requires WellFormed(db) && DownsUndo(sc) && (forall n :: faults(n).DownOk?)
    ensures |RunDown(sc, db, false, faults).ledger| < |db.ledger| || db.ledger == []
    ensures db.ledger == [] ==> RunDown(sc, db, false, faults) == db
  {
    FullDown(sc, db, faults);
    NewestIsSuffix(db.ledger);
  }

  lemma NewBatchIsNewest(ledger: seq<Row>, rows: seq<Row>, batch: nat)
    requires Ladder(ledger) && batch == MaxBatch(ledger) + 1
    requires rows != [] && forall i :: 0 <= i < |rows| ==> rows[i].batch == batch
    ensures Older(ledger + rows) == ledger && Newest(ledger + rows) == rows
  {
    var l := ledger + rows;
    assert MaxBatch(l) == batch by {
      MaxBatchBounds(ledger);
      MaxBatchOfAppend(ledger, rows, batch);
    }
    assert NewestStart(l, batch) == |ledger| by {
      MaxBatchBounds(ledger);
      NewestStartOfAppend(ledger, rows, batch);
    }
  }

  lemma {:induction false} MaxBatchOfAppend(ledger: seq<Row>, rows: seq<Row>, batch: nat)
    requires MaxBatch(ledger) < batch && forall i :: 0 <= i < |rows| ==> rows[i].batch == batch
    ensures MaxBatch(ledger + rows) == if rows == [] then MaxBatch(ledger) else batch
  {
    if rows == [] {
      assert ledger + rows == ledger;
    } else {
      assert (ledger + rows)[..|ledger + rows| - 1] == ledger + rows[..|rows| - 1];
      MaxBatchOfAppend(ledger, rows[..|rows| - 1], batch);
    }
  }

  lemma {:induction false} NewestStartOfAppend(ledger: seq<Row>, rows: seq<Row>, batch: nat)
    requires forall i :: 0 <= i < |ledger| ==> ledger[i].batch != batch
    requires forall i :: 0 <= i < |rows| ==> rows[i].batch == batch
    ensures NewestStart(ledger + rows, batch) == |ledger|
  {
    if rows == [] {
      assert ledger + rows == ledger;
    } else {
      assert (ledger + rows)[..|ledger + rows| - 1] == ledger + rows[..|rows| - 1];
      NewestStartOfAppend(ledger, rows[..|rows| - 1], batch);
    }
  }

  /******* A failed up, retried *******/

  /** After the first k files were handled, the pending ones are those pending before among the rest. */
  lemma PendingAfterPart<S>(sc: Scripts<S>, db: Db<S>, names: seq<string>, k: nat, batch: nat)
    requires Distinct(names) && k <= |names|
    ensures var done := Pending(sc, db.ledger, names[..k]);
      && Pending(sc, ApplyAll(sc, db, done, batch).ledger, names) == Pending(sc, db.ledger, names[k..])
      && Pending(sc, db.ledger, names) == done + Pending(sc, db.ledger, names[k..])
  {
    var done := Pending(sc, db.ledger, names[..k]);
    var l1 := ApplyAll(sc, db, done, batch).ledger;
    assert names == names[..k] + names[k..];
    PendingConcat(sc, db.ledger, names[..k], names[k..]);
    PendingConcat(sc, l1, names[..k], names[k..]);
    forall n ensures Applied(l1, n) <==> Applied(db.ledger, n) || n in done {
      AppliedAfter(sc, db, done, batch, n);
    }
    NothingPendingTwice(sc, db.ledger, l1, names[..k]);
    DistinctConcat(names[..k], names[k..]);
    PendingMembers(sc, db.ledger, names[..k]);
    PendingSame(sc, db.ledger, l1, names[k..]);
  }

  lemma AppliedAfter<S>(sc: Scripts<S>, db: Db<S>, done: seq<string>, batch: nat, n: string)
    ensures Applied(ApplyAll(sc, db, done, batch).ledger, n) <==> Applied(db.ledger, n) || n in done
  {
    var rows := NewRows(done, batch, db.nextId);
    ApplyAllLedger(sc, db, done, batch);
    AppliedAppend(db.ledger, rows, n);
    if n in done {
      var i :| 0 <= i < |done| && done[i] == n;
      assert rows[i].name == n;
    }
  }

  lemma NothingPendingTwice<S>(sc: Scripts<S>, l0: seq<Row>, l1: seq<Row>, names: seq<string>)
    requires forall n :: Applied(l1, n) <==> Applied(l0, n) || n in Pending(sc, l0, names)
    ensures Pending(sc, l1, names) == []
  {
    var pending := Pending(sc, l1, names);
    assert pending == [] || pending[0] in pending;
    PendingMembers(sc, l0, names);
    PendingMembers(sc, l1, names);
  }

  /** The same schema and the same ledger names. */
  ghost predicate SameOutcome<S>(a: Db<S>, b: Db<S>) {
    a.schema == b.schema && NamesOf(a.ledger) == NamesOf(b.ledger)
  }

  /** The statements that fail in one invocation. */
  datatype Attempt = Attempt(opening: Opening, faults: string -> UpFault)

  function Tried<S>(sc: Scripts<S>, db: Db<S>, dir: Dir, a: Attempt): UpResult<S> {
    RunUp(sc, db, dir, a.opening, a.faults)
  }

  /** An up that failed anywhere, followed by a successful one over the same files, gives the schema and the
      ledger names of one uninterrupted up (only batch numbers differ), and one more successful up then
      changes nothing. */
  lemma RetryCompletesUp<S>(sc: Scripts<S>, db: Db<S>, dir: Dir, names: seq<string>, a: Attempt, b: Attempt,
                            c: Attempt, d: Attempt)
    requires (db.hasLedger || db.ledger == []) && Distinct(names) && dir in {Unreadable, Names(names)}
    ensures var first := Tried(sc, db, dir, a).db;
      var retried := Tried(sc, first, Names(names), b);
      var once := Tried(sc, db, Names(names), c);
      var again := Tried(sc, retried.db, Names(names), d);
      && (retried.ok && once.ok ==> SameOutcome(retried.db, once.db))
      && (retried.ok && again.ok ==> again.db == retried.db)
  {
    if names != [] {
      RetryAgrees(sc, db, dir, names, a, b, c);
      UpTwice(sc, Tried(sc, db, dir, a).db, names, b, d);
    }
  }

  /** Every successful up over these files ends at the same place. */
  function Completion<S>(sc: Scripts<S>, db: Db<S>, names: seq<string>): Db<S> {
    Completed(sc, db, names, NextBatch(db))
  }

  lemma CompletedUp<S>(sc: Scripts<S>, db: Db<S>, names: seq<string>, a: Attempt)
    requires Distinct(names) && names != []
    ensures var r := Tried(sc, db, Names(names), a);
      r.ok ==> r.db == Completion(sc, EnsureTable(db), names) && r.db.hasLedger
  {
    if ReachesFiles(db, Names(names), a.opening) {
      UpEffect(sc, db, Names(names), a.opening, a.faults);
      OutcomeIfOk(sc, EnsureTable(db), names, a.faults);
      CompletionHasLedger(sc, EnsureTable(db), names);
    } else {
      UpWithoutFiles(sc, db, Names(names), a.opening, a.faults);
    }
  }

  lemma OutcomeIfOk<S>(sc: Scripts<S>, db: Db<S>, names: seq<string>, faults: string -> UpFault)
    ensures var r := Outcome(sc, db, names, faults, NextBatch(db)); r.ok ==> r.db == Completion(sc, db, names)
  {
    assert names[..|names|] == names;
  }

  lemma CompletionHasLedger<S>(sc: Scripts<S>, db: Db<S>, names: seq<string>)
    ensures Completion(sc, db, names).hasLedger == db.hasLedger
  {
    ApplyAllLedger(sc, db, Pending(sc, db.ledger, names), NextBatch(db));
  }

  lemma TableKeepsLedger<S>(db: Db<S>)
    requires db.hasLedger || db.ledger == []
    ensures EnsureTable(db).ledger == db.ledger && EnsureTable(db).schema == db.schema
    ensures db.hasLedger ==> EnsureTable(db) == db
  {
  }

  lemma RetryAgrees<S>(sc: Scripts<S>, db: Db<S>, dir: Dir, names: seq<string>, a: Attempt, b: Attempt, c: Attempt)
    requires (db.hasLedger || db.ledger == []) && Distinct(names) && names != [] && dir in {Unreadable, Names(names)}
    ensures var first := Tried(sc, db, dir, a).db;
      var retried := Tried(sc, first, Names(names), b);
      var once := Tried(sc, db, Names(names), c);
      && (first.hasLedger || first.ledger == [])
      && (retried.ok && once.ok ==> SameOutcome(retried.db, once.db))
  {
    var first := Tried(sc, db, dir, a).db;
    var k := PartialUp(sc, db, dir, names, a);
    CompletedUp(sc, first, names, b);
    CompletedUp(sc, db, names, c);
    RestAfterPart(sc, EnsureTable(db), names, k);
  }

  /** Any up over these files leaves the first k of them handled, for some k. */
  lemma PartialUp<S>(sc: Scripts<S>, db: Db<S>, dir: Dir, names: seq<string>, a: Attempt) returns (k: nat)
    requires (db.hasLedger || db.ledger == []) && Distinct(names) && names != [] && dir in {Unreadable, Names(names)}
    ensures k <= |names|
    ensures var first := Tried(sc, db, dir, a).db;
      && EnsureTable(first) == Completion(sc, EnsureTable(db), names[..k])
      && (first.hasLedger || first.ledger == [])
  {
    if ReachesFiles(db, dir, a.opening) {
      k := FirstStop(sc, EnsureTable(db).ledger, names, a.faults);
      UpEffect(sc, db, dir, a.opening, a.faults);
      CompletionHasLedger(sc, EnsureTable(db), names[..k]);
    } else {
      k := 0;
      UpWithoutFiles(sc, db, dir, a.opening, a.faults);
      NothingHandled(sc, EnsureTable(db), names);
    }
  }

  lemma NothingHandled<S>(sc: Scripts<S>, db: Db<S>, names: seq<string>)
    ensures Completion(sc, db, names[..0]) == db
  {
    assert names[..0] == [];
  }

  /** A second successful up over the same files finds nothing to do. */
  lemma UpTwice<S>(sc: Scripts<S>, db: Db<S>, names: seq<string>, b: Attempt, d: Attempt)
    requires (db.hasLedger || db.ledger == []) && Distinct(names) && names != []
    ensures var once := Tried(sc, db, Names(names), b);
      var again := Tried(sc, once.db, Names(names), d);
      once.ok && again.ok ==> again.db == once.db
  {
    var once := Tried(sc, db, Names(names), b).db;
    CompletedUp(sc, db, names, b);
    if Tried(sc, db, Names(names), b).ok {
      CompletedUp(sc, once, names, d);
      TableKeepsLedger(once);
      NothingLeft(sc, EnsureTable(db), names);
    }
  }

  lemma NothingLeft<S>(sc: Scripts<S>, db: Db<S>, names: seq<string>)
    requires Distinct(names)
    ensures var once := Completion(sc, db, names); Completion(sc, once, names) == once
  {
    assert names[..|names|] == names && names[|names|..] == [];
    PendingAfterPart(sc, db, names, |names|, NextBatch(db));
  }

  /** Applying what is still pending after the first k files ends where applying everything at once ends. */
  lemma RestAfterPart<S>(sc: Scripts<S>, db: Db<S>, names: seq<string>, k: nat)
    requires Distinct(names) && k <= |names|
    ensures SameOutcome(Completion(sc, Completion(sc, db, names[..k]), names), Completion(sc, db, names))
  {
    var batch, batch1 := NextBatch(db), NextBatch(Completion(sc, db, names[..k]));
    PartsAreApplied(sc, db, names, k, batch, batch1);
    ApplyAllSameEffect(sc, db, Pending(sc, db.ledger, names[..k]), Pending(sc, db.ledger, names[k..]), batch, batch1);
  }

  lemma PartsAreApplied<S>(sc: Scripts<S>, db: Db<S>, names: seq<string>, k: nat, batch: nat, batch1: nat)
    requires Distinct(names) && k <= |names|
    ensures var done, rest := Pending(sc, db.ledger, names[..k]), Pending(sc, db.ledger, names[k..]);
      var first := Completed(sc, db, names[..k], batch);
      && Completed(sc, first, names, batch1) == ApplyAll(sc, ApplyAll(sc, db, done, batch), rest, batch1)
      && Completed(sc, db, names, batch) == ApplyAll(sc, db, done + rest, batch)
  {
    PendingAfterPart(sc, db, names, k, batch);
  }

  /** Applying a list in one go, or in two parts under another batch number. */
  lemma {:induction false} ApplyAllSameEffect<S>(sc: Scripts<S>, db: Db<S>, a: seq<string>, b: seq<string>,
                                                 batch: nat, batch1: nat)
    ensures var once := ApplyAll(sc, db, a + b, batch);
      var twice := ApplyAll(sc, ApplyAll(sc, db, a, batch), b, batch1);
      SameOutcome(twice, once)
  {
    if b == [] {
      assert a + b == a;
    } else {
      var front := b[..|b| - 1];
      assert (a + b)[..|a + b| - 1] == a + front;
      ApplyAllSameEffect(sc, db, a, front, batch, batch1);
      var once, twice := ApplyAll(sc, db, a + front, batch), ApplyAll(sc, ApplyAll(sc, db, a, batch), front, batch1);
      assert NamesOf(ApplyUp(sc, once, b[|b| - 1], batch).ledger) == NamesOf(once.ledger) + [b[|b| - 1]];
      assert NamesOf(ApplyUp(sc, twice, b[|b| - 1], batch1).ledger) == NamesOf(twice.ledger) + [b[|b| - 1]];
    }
  }
}
