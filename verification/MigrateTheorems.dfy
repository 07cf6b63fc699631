/** What the migration commands keep over every run, and how up, down and fresh relate. */
module MigrateTheorems {
  import opened GoStrings
  import opened MigrateModel

  /******* The ledger invariant *******/

  ghost predicate NamesUnique(ledger: seq<Row>) {
    forall i, j :: 0 <= i < j < |ledger| ==> ledger[i].name != ledger[j].name
  }

  ghost predicate IdsIncreasing(ledger: seq<Row>, nextId: nat) {
    && (forall i, j :: 0 <= i < j < |ledger| ==> ledger[i].id < ledger[j].id)
    && (forall i :: 0 <= i < |ledger| ==> ledger[i].id < nextId)
  }

  ghost predicate BatchesNondecreasing(ledger: seq<Row>) {
    forall i, j :: 0 <= i < j < |ledger| ==> ledger[i].batch <= ledger[j].batch
  }

  function Batches(ledger: seq<Row>): set<nat> {
    set i | 0 <= i < |ledger| :: ledger[i].batch
  }

  /** The set of batches is exactly 1..max. */
  ghost predicate NoGap(ledger: seq<Row>) {
    forall b :: b in Batches(ledger) <==> 1 <= b <= MaxBatch(ledger)
  }

  /** Names unique, ids strictly increasing, batches non-decreasing and exactly 1..max. */
  ghost predicate LedgerInv<S>(db: Db<S>) {
    && NamesUnique(db.ledger)
    && IdsIncreasing(db.ledger, db.nextId)
    && BatchesNondecreasing(db.ledger)
    && NoGap(db.ledger)
    && (!db.hasLedger ==> db.ledger == [])
  }

  /** Batches climb from 1 in steps of at most one: the local form of "no gap". */
  ghost predicate Ladder(ledger: seq<Row>) {
    && (ledger != [] ==> ledger[0].batch == 1)
    && forall i :: 0 < i < |ledger| ==> StepsUp(ledger, i)
  }

  predicate StepsUp(ledger: seq<Row>, i: nat)
    requires 0 < i < |ledger|
  {
    ledger[i - 1].batch <= ledger[i].batch <= ledger[i - 1].batch + 1
  }

  lemma LadderPrefix(ledger: seq<Row>, k: nat)
    requires Ladder(ledger) && k <= |ledger|
    ensures Ladder(ledger[..k])
    ensures k > 0 ==> ledger[..k][k - 1] == ledger[k - 1]
  {
    forall i | 0 < i < k ensures StepsUp(ledger[..k], i) {
      assert StepsUp(ledger, i);
    }
  }

  lemma {:induction false} LadderAscends(ledger: seq<Row>, i: nat, j: nat)
    requires Ladder(ledger) && i <= j < |ledger|
    ensures ledger[i].batch <= ledger[j].batch
  {
    if i < j {
      assert StepsUp(ledger, j);
      LadderAscends(ledger, i, j - 1);
    }
  }

  lemma {:induction false} MaxBatchBounds(ledger: seq<Row>)
    ensures forall i :: 0 <= i < |ledger| ==> ledger[i].batch <= MaxBatch(ledger)
    ensures ledger != [] ==> MaxBatch(ledger) in Batches(ledger)
  {
    if ledger != [] {
      var front := ledger[..|ledger| - 1];
      MaxBatchBounds(front);
      assert forall i :: 0 <= i < |front| ==> ledger[i] == front[i];
      assert ledger[|ledger| - 1].batch in Batches(ledger);
      if front != [] {
        var i :| 0 <= i < |front| && front[i].batch == MaxBatch(front);
        assert ledger[i].batch in Batches(ledger);
      }
    }
  }

  lemma {:induction false} LadderCovers(ledger: seq<Row>, b: nat)
    requires Ladder(ledger) && ledger != [] && 1 <= b <= ledger[|ledger| - 1].batch
    ensures b in Batches(ledger)
  {
    var front := ledger[..|ledger| - 1];
    if b == ledger[|ledger| - 1].batch {
    } else {
      assert StepsUp(ledger, |front|);
      LadderPrefix(ledger, |front|);
      LadderCovers(front, b);
      var i :| 0 <= i < |front| && front[i].batch == b;
      assert ledger[i].batch == b;
    }
  }

  lemma LadderHasNoGap(ledger: seq<Row>)
    requires Ladder(ledger)
    ensures BatchesNondecreasing(ledger) && NoGap(ledger)
    ensures ledger != [] ==> MaxBatch(ledger) == ledger[|ledger| - 1].batch
  {
    MaxBatchBounds(ledger);
    forall i, j | 0 <= i <= j < |ledger| ensures 1 <= ledger[i].batch <= ledger[j].batch {
      LadderAscends(ledger, 0, i);
      LadderAscends(ledger, i, j);
    }
    forall b | 1 <= b <= MaxBatch(ledger) ensures b in Batches(ledger) {
      LadderCovers(ledger, b);
    }
  }

  lemma NoGapIsLadder(ledger: seq<Row>)
    requires BatchesNondecreasing(ledger) && NoGap(ledger)
    ensures Ladder(ledger)
  {
    if ledger != [] {
      NoGapBelow(ledger, 0, 1);
    }
    forall i | 0 < i < |ledger| ensures StepsUp(ledger, i) {
      NoGapBelow(ledger, i, ledger[i - 1].batch + 1);
    }
  }

  /** Non-decreasing and without a gap below the maximum: exactly the ladders. */
  lemma LadderMeaning(ledger: seq<Row>)
    ensures Ladder(ledger) <==> BatchesNondecreasing(ledger) && NoGap(ledger)
    ensures Ladder(ledger) && ledger != [] ==> MaxBatch(ledger) == ledger[|ledger| - 1].batch
  {
    if Ladder(ledger) {
      LadderHasNoGap(ledger);
    } else if BatchesNondecreasing(ledger) && NoGap(ledger) {
      NoGapIsLadder(ledger);
    }
  }

  /** If b is above everything before position i, the row at i is at most b. */
  lemma NoGapBelow(ledger: seq<Row>, i: nat, b: nat)
    requires BatchesNondecreasing(ledger) && NoGap(ledger)
    requires i < |ledger| && b >= 1 && (forall j :: 0 <= j < i ==> ledger[j].batch < b)
    ensures ledger[i].batch <= b && ledger[i].batch >= 1
  {
    MaxBatchBounds(ledger);
    assert ledger[i].batch in Batches(ledger);
    assert b <= MaxBatch(ledger) ==> b in Batches(ledger);
  }

  /** The form of the invariant that the proofs work with. */
  ghost predicate WellFormed<S>(db: Db<S>) {
    && NamesUnique(db.ledger) && IdsIncreasing(db.ledger, db.nextId) && Ladder(db.ledger)
    && (!db.hasLedger ==> db.ledger == [])
  }

  lemma WellFormedIffInv<S>(db: Db<S>)
    ensures WellFormed(db) <==> LedgerInv(db)
  {
    LadderMeaning(db.ledger);
  }

  /******* up: which files run *******/

  /** The pending files: not in the ledger and not blank, in directory order. */
  function Pending<S>(sc: Scripts<S>, ledger: seq<Row>, names: seq<string>): seq<string> {
    if names == [] then []
    else
      Pending(sc, ledger, names[..|names| - 1]) +
      (if Applied(ledger, names[|names| - 1]) || sc.blank(names[|names| - 1]) then [] else [names[|names| - 1]])
  }

  /** The statement that this file reaches first fails. */
  predicate Stops<S>(sc: Scripts<S>, ledger: seq<Row>, faults: string -> UpFault, name: string) {
    match faults(name)
    case UpOk => false
    case StatusFails => true
    case ReadFails => !Applied(ledger, name)
    case ExecFails => !Applied(ledger, name) && !sc.blank(name)
  }

  /** The position of the first failing file, or the number of files. */
  function FirstStop<S>(sc: Scripts<S>, ledger: seq<Row>, names: seq<string>, faults: string -> UpFault): (k: nat)
    ensures k <= |names|
    ensures forall i :: 0 <= i < k ==> !Stops(sc, ledger, faults, names[i])
    ensures k < |names| ==> Stops(sc, ledger, faults, names[k])
  {
    if names == [] || Stops(sc, ledger, faults, names[0]) then 0
    else 1 + FirstStop(sc, ledger, names[1..], faults)
  }

  /** Runs the given scripts in order and records each. */
  function ApplyAll<S>(sc: Scripts<S>, db: Db<S>, names: seq<string>, batch: nat): Db<S> {
    if names == [] then db
    else ApplyUp(sc, ApplyAll(sc, db, names[..|names| - 1], batch), names[|names| - 1], batch)
  }

  function NewRows(names: seq<string>, batch: nat, id: nat): seq<Row> {
    seq(|names|, i requires 0 <= i < |names| => Row(id + i, names[i], batch))
  }

  lemma {:induction false} ApplyAllLedger<S>(sc: Scripts<S>, db: Db<S>, names: seq<string>, batch: nat)
    ensures var db' := ApplyAll(sc, db, names, batch);
      && db' == db.(schema := db'.schema, ledger := db'.ledger, nextId := db.nextId + |names|)
      && db'.ledger == db.ledger + NewRows(names, batch, db.nextId)
  {
    if names != [] {
      ApplyAllLedger(sc, db, names[..|names| - 1], batch);
    }
  }

  lemma {:induction false} ApplyAllFirst<S>(sc: Scripts<S>, db: Db<S>, name: string, rest: seq<string>, batch: nat)
    ensures ApplyAll(sc, ApplyUp(sc, db, name, batch), rest, batch) == ApplyAll(sc, db, [name] + rest, batch)
  {
    if rest == [] {
      assert ([name] + rest)[..0] == [];
    } else {
      assert ([name] + rest)[..|rest|] == [name] + rest[..|rest| - 1];
      ApplyAllFirst(sc, db, name, rest[..|rest| - 1], batch);
    }
  }

  lemma {:induction false} PendingConcat<S>(sc: Scripts<S>, ledger: seq<Row>, a: seq<string>, b: seq<string>)
    ensures Pending(sc, ledger, a + b) == Pending(sc, ledger, a) + Pending(sc, ledger, b)
  {
    if b == [] {
      assert a + b == a;
    } else {
      assert (a + b)[..|a + b| - 1] == a + b[..|b| - 1];
      PendingConcat(sc, ledger, a, b[..|b| - 1]);
    }
  }

  lemma {:induction false} PendingMembers<S>(sc: Scripts<S>, ledger: seq<Row>, names: seq<string>)
    ensures forall n :: n in Pending(sc, ledger, names) <==> n in names && !Applied(ledger, n) && !sc.blank(n)
    ensures Distinct(names) ==> Distinct(Pending(sc, ledger, names))
  {
    if names != [] {
      var front, last := names[..|names| - 1], names[|names| - 1];
      PendingMembers(sc, ledger, front);
      assert names == front + [last];
      DistinctConcat(front, [last]);
      DistinctConcat(Pending(sc, ledger, front), [last]);
    }
  }

  /** A ledger that records some other names leaves the pending files of a directory the same. */
  lemma {:induction false} PendingSame<S>(sc: Scripts<S>, l0: seq<Row>, l1: seq<Row>, names: seq<string>)
    requires forall n :: n in names ==> (Applied(l0, n) <==> Applied(l1, n))
    ensures Pending(sc, l0, names) == Pending(sc, l1, names)
  {
    if names != [] {
      PendingSame(sc, l0, l1, names[..|names| - 1]);
    }
  }

  lemma AppliedAppend(a: seq<Row>, b: seq<Row>, name: string)
    ensures Applied(a + b, name) <==> Applied(a, name) || Applied(b, name)
  {
    if Applied(a, name) {
      var i :| 0 <= i < |a| && a[i].name == name;
      assert (a + b)[i].name == name;
    }
    if Applied(b, name) {
      var i :| 0 <= i < |b| && b[i].name == name;
      assert (a + b)[|a| + i].name == name;
    }
  }

  /** The pending ones of these files, applied in order. */
  function Completed<S>(sc: Scripts<S>, db: Db<S>, names: seq<string>, batch: nat): Db<S> {
    ApplyAll(sc, db, Pending(sc, db.ledger, names), batch)
  }

  /** The pending files before the first failing one are applied; it is a success if none fails. */
  function Outcome<S>(sc: Scripts<S>, db: Db<S>, names: seq<string>, faults: string -> UpFault, batch: nat)
    : UpResult<S>
  {
    var k := FirstStop(sc, db.ledger, names, faults);
    UpResult(Completed(sc, db, names[..k], batch), k == |names|)
  }

  /** An up applies exactly the pending files that sort before the first failing one, in order, and
      reports success exactly when no file fails. */
  lemma {:induction false} UpAppliesPendingBeforeFailure<S>(sc: Scripts<S>, db: Db<S>, names: seq<string>,
                                                            faults: string -> UpFault, batch: nat)
    requires Distinct(names)
    ensures UpFiles(sc, db, names, faults, batch) == Outcome(sc, db, names, faults, batch)
    decreases names
  {
    var k := FirstStop(sc, db.ledger, names, faults);
    if names != [] && k > 0 {
      var name, rest := names[0], names[1..];
      assert names == [name] + rest;
      DistinctConcat([name], rest);
      PendingHead(sc, db.ledger, names, k);
      UpFilesHead(sc, db, names, faults, batch);
      if Applied(db.ledger, name) || sc.blank(name) {
        assert Pending(sc, db.ledger, names[..k]) == Pending(sc, db.ledger, rest[..k - 1]);
        UpAppliesPendingBeforeFailure(sc, db, rest, faults, batch);
      } else {
        var db1 := ApplyUp(sc, db, name, batch);
        RecordingKeepsRest(sc, db, name, rest, batch, faults);
        UpAppliesPendingBeforeFailure(sc, db1, rest, faults, batch);
        PendingSame(sc, db.ledger, db1.ledger, rest[..k - 1]);
        ApplyAllFirst(sc, db, name, Pending(sc, db.ledger, rest[..k - 1]), batch);
      }
    }
  }

  lemma UpFilesHead<S>(sc: Scripts<S>, db: Db<S>, names: seq<string>, faults: string -> UpFault, batch: nat)
    requires names != [] && !Stops(sc, db.ledger, faults, names[0])
    ensures UpFiles(sc, db, names, faults, batch) ==
      var skipped := Applied(db.ledger, names[0]) || sc.blank(names[0]);
      UpFiles(sc, if skipped then db else ApplyUp(sc, db, names[0], batch), names[1..], faults, batch)
    ensures FirstStop(sc, db.ledger, names, faults) == 1 + FirstStop(sc, db.ledger, names[1..], faults)
  {
  }

  lemma PendingHead<S>(sc: Scripts<S>, ledger: seq<Row>, names: seq<string>, k: nat)
    requires 0 < k <= |names|
    ensures Pending(sc, ledger, names[..k]) ==
      (if Applied(ledger, names[0]) || sc.blank(names[0]) then [] else [names[0]])
      + Pending(sc, ledger, names[1..][..k - 1])
  {
    assert names[..k] == [names[0]] + names[1..][..k - 1];
    PendingConcat(sc, ledger, [names[0]], names[1..][..k - 1]);
    assert [names[0]][..0] == [];
  }

  /** Recording one file changes nothing for the files after it. */
  lemma RecordingKeepsRest<S>(sc: Scripts<S>, db: Db<S>, name: string, rest: seq<string>, batch: nat,
                              faults: string -> UpFault)
    requires name !in rest
    ensures forall n :: n in rest ==> (Applied(ApplyUp(sc, db, name, batch).ledger, n) <==> Applied(db.ledger, n))
    ensures FirstStop(sc, ApplyUp(sc, db, name, batch).ledger, rest, faults) == FirstStop(sc, db.ledger, rest, faults)
  {
    var db1 := ApplyUp(sc, db, name, batch);
    forall n | n in rest ensures Applied(db1.ledger, n) <==> Applied(db.ledger, n) {
      AppliedAppend(db.ledger, [Row(db.nextId, name, batch)], n);
    }
    FirstStopSame(sc, db.ledger, db1.ledger, rest, faults);
  }

  lemma {:induction false} FirstStopSame<S>(sc: Scripts<S>, l0: seq<Row>, l1: seq<Row>, names: seq<string>,
                                            faults: string -> UpFault)
    requires forall n :: n in names ==> (Applied(l0, n) <==> Applied(l1, n))
    ensures FirstStop(sc, l0, names, faults) == FirstStop(sc, l1, names, faults)
  {
    if names != [] {
      assert names[0] in names;
      FirstStopSame(sc, l0, l1, names[1..], faults);
    }
  }

  /** The same for the whole command, including the cases that reach no file. */
  ghost predicate ReachesFiles<S>(db: Db<S>, dir: Dir, opening: Opening) {
    && dir.Names? && dir.names != [] && !opening.queryFails
    && (if opening.tableFails then db.hasLedger else EnsureTable(db).hasLedger)
  }

  lemma UpEffect<S>(sc: Scripts<S>, db: Db<S>, dir: Dir, opening: Opening, faults: string -> UpFault)
    requires ReachesFiles(db, dir, opening) && Distinct(dir.names)
    ensures var db1 := EnsureTable(db);
      RunUp(sc, db, dir, opening, faults) == Outcome(sc, db1, dir.names, faults, NextBatch(db1))
  {
    ReachesUpFiles(sc, db, dir, opening, faults);
    UpAppliesPendingBeforeFailure(sc, EnsureTable(db), dir.names, faults, NextBatch(EnsureTable(db)));
  }

  lemma ReachesUpFiles<S>(sc: Scripts<S>, db: Db<S>, dir: Dir, opening: Opening, faults: string -> UpFault)
    requires ReachesFiles(db, dir, opening)
    ensures var db1 := EnsureTable(db);
      RunUp(sc, db, dir, opening, faults) == UpFiles(sc, db1, dir.names, faults, NextBatch(db1))
  {
  }
}
