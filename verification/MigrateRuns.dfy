/** Runs of the migration tool: the ledger invariant, the schema as the image of the ledger, and how
    up, down and a retried up undo or complete each other. */
module MigrateRuns {
  import opened GoStrings
  import opened MigrateModel
  import opened MigrateTheorems

  /******* up keeps the ledger *******/

  /** A directory never holds two files of the same name. */
  ghost predicate DirOk(dir: Dir) {
    dir.Names? ==> Distinct(dir.names)
  }

  lemma AppliedNames(ledger: seq<Row>, name: string)
    requires !Applied(ledger, name)
    ensures forall i :: 0 <= i < |ledger| ==> ledger[i].name != name
  {
  }

  lemma AppendKeepsNames(ledger: seq<Row>, names: seq<string>, batch: nat, id: nat)
    requires NamesUnique(ledger) && Distinct(names) && (forall n :: n in names ==> !Applied(ledger, n))
    ensures NamesUnique(ledger + NewRows(names, batch, id))
  {
    var l, rows := ledger + NewRows(names, batch, id), NewRows(names, batch, id);
    DistinctMeaning(names);
    forall i, j | 0 <= i < j < |l| ensures l[i].name != l[j].name {
      if i < |ledger| <= j {
        var name := names[j - |ledger|];
        assert name in names && l[j] == rows[j - |ledger|];
        AppliedNames(ledger, name);
      }
    }
  }

  lemma AppendKeepsIds(ledger: seq<Row>, names: seq<string>, batch: nat, id: nat)
    requires IdsIncreasing(ledger, id)
    ensures IdsIncreasing(ledger + NewRows(names, batch, id), id + |names|)
  {
  }

  lemma AppendKeepsLadder(ledger: seq<Row>, names: seq<string>, id: nat)
    requires Ladder(ledger)
    ensures Ladder(ledger + NewRows(names, MaxBatch(ledger) + 1, id))
  {
    LadderExtends(ledger, NewRows(names, MaxBatch(ledger) + 1, id), MaxBatch(ledger) + 1);
  }

  lemma UpKeepsWellFormed<S>(sc: Scripts<S>, db: Db<S>, dir: Dir, opening: Opening, faults: string -> UpFault)
    requires WellFormed(db) && DirOk(dir)
    ensures WellFormed(RunUp(sc, db, dir, opening, faults).db)
  {
    if ReachesFiles(db, dir, opening) {
      UpKeepsWellFormedFiles(sc, db, dir, opening, faults);
    } else {
      UpWithoutFiles(sc, db, dir, opening, faults);
    }
  }

  lemma EnsureTableKeepsWellFormed<S>(db: Db<S>)
    requires WellFormed(db)
    ensures WellFormed(EnsureTable(db)) && EnsureTable(db).ledger == db.ledger
  {
  }

  lemma UpKeepsWellFormedFiles<S>(sc: Scripts<S>, db: Db<S>, dir: Dir, opening: Opening, faults: string -> UpFault)
    requires WellFormed(db) && DirOk(dir) && ReachesFiles(db, dir, opening)
    ensures WellFormed(RunUp(sc, db, dir, opening, faults).db)
  {
    EnsureTableKeepsWellFormed(db);
    OutcomeKeepsWellFormed(sc, EnsureTable(db), dir.names, faults);
    UpEffect(sc, db, dir, opening, faults);
  }

  lemma OutcomeKeepsWellFormed<S>(sc: Scripts<S>, db: Db<S>, names: seq<string>, faults: string -> UpFault)
    requires WellFormed(db) && db.hasLedger && Distinct(names)
    ensures WellFormed(Outcome(sc, db, names, faults, NextBatch(db)).db)
  {
    var k := FirstStop(sc, db.ledger, names, faults);
    PendingIsFresh(sc, db.ledger, names, k);
    ApplyAllKeepsWellFormed(sc, db, Pending(sc, db.ledger, names[..k]));
  }

  lemma PendingIsFresh<S>(sc: Scripts<S>, ledger: seq<Row>, names: seq<string>, k: nat)
    requires Distinct(names) && k <= |names|
    ensures Distinct(Pending(sc, ledger, names[..k]))
    ensures forall n :: n in Pending(sc, ledger, names[..k]) ==> !Applied(ledger, n)
  {
    assert names == names[..k] + names[k..];
    DistinctConcat(names[..k], names[k..]);
    PendingMembers(sc, ledger, names[..k]);
  }

  lemma ApplyAllKeepsWellFormed<S>(sc: Scripts<S>, db: Db<S>, names: seq<string>)
    requires WellFormed(db) && db.hasLedger && Distinct(names) && (forall n :: n in names ==> !Applied(db.ledger, n))
    ensures WellFormed(ApplyAll(sc, db, names, MaxBatch(db.ledger) + 1))
  {
    var batch := MaxBatch(db.ledger) + 1;
    var db' := ApplyAll(sc, db, names, batch);
    ApplyAllLedger(sc, db, names, batch);
    assert NamesUnique(db'.ledger) by { AppendKeepsNames(db.ledger, names, batch, db.nextId); }
    assert IdsIncreasing(db'.ledger, db'.nextId) by { AppendKeepsIds(db.ledger, names, batch, db.nextId); }
    assert Ladder(db'.ledger) by { AppendKeepsLadder(db.ledger, names, db.nextId); }
  }

  lemma UpWithoutFiles<S>(sc: Scripts<S>, db: Db<S>, dir: Dir, opening: Opening, faults: string -> UpFault)
    requires !ReachesFiles(db, dir, opening)
    ensures RunUp(sc, db, dir, opening, faults).db in {db, EnsureTable(db)}
    ensures RunUp(sc, db, dir, opening, faults).ok <==> dir == Names([])
  {
  }

  /******* down: the newest batch is a suffix *******/

  function NewestStart(ledger: seq<Row>, batch: nat): (k: nat)
    ensures k <= |ledger| && (forall i :: k <= i < |ledger| ==> ledger[i].batch == batch)
    ensures k > 0 ==> ledger[k - 1].batch != batch
  {
    if ledger == [] || ledger[|ledger| - 1].batch != batch then |ledger|
    else NewestStart(ledger[..|ledger| - 1], batch)
  }

  /** The rows before the newest batch, and the rows of the newest batch. */
  function Older(ledger: seq<Row>): seq<Row> {
    ledger[..NewestStart(ledger, MaxBatch(ledger))]
  }

  function Newest(ledger: seq<Row>): seq<Row> {
    ledger[NewestStart(ledger, MaxBatch(ledger))..]
  }

  function Reverse(rows: seq<Row>): seq<Row> {
    if rows == [] then [] else [rows[|rows| - 1]] + Reverse(rows[..|rows| - 1])
  }

  lemma {:induction false} NewestFirstIsReversedSuffix(ledger: seq<Row>, batch: nat)
    requires forall i :: 0 <= i < NewestStart(ledger, batch) ==> ledger[i].batch != batch
    ensures InBatchNewestFirst(ledger, batch) == Reverse(ledger[NewestStart(ledger, batch)..])
  {
    var k := NewestStart(ledger, batch);
    if ledger != [] {
      var front := ledger[..|ledger| - 1];
      if k == |ledger| {
        assert NewestStart(front, batch) == |front| by {
          if |front| > 0 { assert front[|front| - 1] == ledger[|ledger| - 2]; }
        }
        NewestFirstIsReversedSuffix(front, batch);
      } else {
        assert ledger[k..][..|ledger| - k - 1] == front[k..];
        NewestFirstIsReversedSuffix(front, batch);
      }
    }
  }

  lemma OlderRowsAreOlder(ledger: seq<Row>, i: nat)
    requires Ladder(ledger) && i < |Older(ledger)|
    ensures ledger[i].batch < MaxBatch(ledger)
  {
    var k := |Older(ledger)|;
    LadderMeaning(ledger);
    LadderAscends(ledger, i, k - 1);
    LadderAscends(ledger, k - 1, |ledger| - 1);
  }

  lemma NewestFirstQuery(ledger: seq<Row>)
    requires Ladder(ledger)
    ensures InBatchNewestFirst(ledger, MaxBatch(ledger)) == Reverse(Newest(ledger))
  {
    forall i | 0 <= i < |Older(ledger)| ensures ledger[i].batch != MaxBatch(ledger) {
      OlderRowsAreOlder(ledger, i);
    }
    NewestFirstIsReversedSuffix(ledger, MaxBatch(ledger));
  }

  lemma LastRowIsNewest(ledger: seq<Row>)
    requires Ladder(ledger) && ledger != []
    ensures NewestStart(ledger, MaxBatch(ledger)) < |ledger|
  {
    LadderHasNoGap(ledger);
  }

  /** The newest batch is a suffix of the ledger, and the rollback query returns it from the end. */
  lemma NewestIsSuffix(ledger: seq<Row>)
    requires Ladder(ledger)
    ensures InBatchNewestFirst(ledger, MaxBatch(ledger)) == Reverse(Newest(ledger))
    ensures ledger == Older(ledger) + Newest(ledger) && (ledger != [] ==> Newest(ledger) != [])
    ensures forall i :: 0 <= i < |Newest(ledger)| ==> Newest(ledger)[i].batch == MaxBatch(ledger)
  {
    NewestFirstQuery(ledger);
    SplitAtNewest(ledger);
    if ledger != [] {
      LastRowIsNewest(ledger);
    }
  }

  lemma SplitAtNewest(ledger: seq<Row>)
    ensures ledger == Older(ledger) + Newest(ledger)
    ensures forall i :: 0 <= i < |Newest(ledger)| ==> Newest(ledger)[i].batch == MaxBatch(ledger)
  {
    var k := NewestStart(ledger, MaxBatch(ledger));
    assert forall i :: 0 <= i < |ledger[k..]| ==> ledger[k..][i] == ledger[k + i];
  }

  lemma OlderIsLadder(ledger: seq<Row>)
    requires Ladder(ledger)
    ensures Ladder(Older(ledger)) && (ledger != [] ==> MaxBatch(Older(ledger)) == MaxBatch(ledger) - 1)
  {
    var k := |Older(ledger)|;
    LadderPrefix(ledger, k);
    LadderMeaning(ledger[..k]);
    LadderMeaning(ledger);
    if ledger != [] {
      assert k < |ledger| && ledger[k].batch == MaxBatch(ledger);
      if k > 0 {
        assert StepsUp(ledger, k);
        OlderRowsAreOlder(ledger, k - 1);
      }
    }
  }

  /******* down: its effect *******/

  predicate Keeps(fault: DownFault) {
    fault.ReadMissing? || fault.DownFails?
  }

  /** The rows whose rollback failed, which stay in the ledger. */
  function Kept(rows: seq<Row>, faults: string -> DownFault): seq<Row> {
    if rows == [] then []
    else Kept(rows[..|rows| - 1], faults) + (if Keeps(faults(rows[|rows| - 1].name)) then [rows[|rows| - 1]] else [])
  }

  /** The schema after rolling the rows back from the last to the first. */
  function RolledBack<S>(sc: Scripts<S>, s: S, rows: seq<Row>, faults: string -> DownFault): S
    decreases rows
  {
    if rows == [] then s
    else
      var last := rows[|rows| - 1];
      RolledBack(sc, if faults(last.name).DownOk? then sc.down(last.name, s) else s, rows[..|rows| - 1], faults)
  }

  lemma {:induction false} WithoutIdAbsent(ledger: seq<Row>, id: nat)
    requires forall i :: 0 <= i < |ledger| ==> ledger[i].id != id
    ensures WithoutId(ledger, id) == ledger
  {
    if ledger != [] {
      WithoutIdAbsent(ledger[..|ledger| - 1], id);
    }
  }

  lemma {:induction false} WithoutIdAt(ledger: seq<Row>, k: nat)
    requires k < |ledger| && forall i, j :: 0 <= i < j < |ledger| ==> ledger[i].id < ledger[j].id
    ensures WithoutId(ledger, ledger[k].id) == ledger[..k] + ledger[k + 1..]
  {
    var front := ledger[..|ledger| - 1];
    if k == |ledger| - 1 {
      WithoutIdAbsent(front, ledger[k].id);
    } else {
      WithoutIdAt(front, k);
      assert front[..k] == ledger[..k] && front[k + 1..] + [ledger[|ledger| - 1]] == ledger[k + 1..];
    }
  }

  ghost predicate IdsAscend(ledger: seq<Row>) {
    forall i, j :: 0 <= i < j < |ledger| ==> ledger[i].id < ledger[j].id
  }

  lemma AscendWithout(a: seq<Row>, r: Row, b: seq<Row>)
    requires IdsAscend(a + [r] + b)
    ensures IdsAscend(a + b)
  {
    var l := a + [r] + b;
    forall i, j | 0 <= i < j < |a + b| ensures (a + b)[i].id < (a + b)[j].id {
      assert (a + b)[i] == l[if i < |a| then i else i + 1] && (a + b)[j] == l[if j < |a| then j else j + 1];
    }
  }

  /** Deleting the row between two parts of the ledger leaves the two parts. */
  lemma DeleteBetween(a: seq<Row>, r: Row, b: seq<Row>)
    requires IdsAscend(a + [r] + b)
    ensures WithoutId(a + [r] + b, r.id) == a + b
  {
    var l := a + [r] + b;
    assert l[|a|] == r && l[..|a|] == a && l[|a| + 1..] == b;
    WithoutIdAt(l, |a|);
  }

  /** Rolling back the rows `m`, newest first, removes all of them except the failed ones. */
  lemma {:induction false} DownRowsEffect<S>(sc: Scripts<S>, db: Db<S>, p: seq<Row>, m: seq<Row>, k: seq<Row>,
                                             faults: string -> DownFault)
    requires db.ledger == p + m + k && IdsAscend(db.ledger)
    ensures DownRows(sc, db, Reverse(m), faults) ==
      db.(ledger := p + Kept(m, faults) + k, schema := RolledBack(sc, db.schema, m, faults))
    decreases m
  {
    if m == [] {
      assert p + Kept(m, faults) + k == p + m + k;
    } else {
      var last, front := m[|m| - 1], m[..|m| - 1];
      var db1 := DownRow(sc, db, last, faults(last.name));
      var k1 := (if Keeps(faults(last.name)) then [last] else []) + k;
      assert m == front + [last];
      DownLastRow(sc, db, p, front, last, k, faults);
      DownRowsEffect(sc, db1, p, front, k1, faults);
      KeptRegroups(p, m, k, faults);
      assert RolledBack(sc, db.schema, m, faults) == RolledBack(sc, db1.schema, front, faults);
    }
  }

  lemma KeptRegroups(p: seq<Row>, m: seq<Row>, k: seq<Row>, faults: string -> DownFault)
    requires m != []
    ensures var last, front := m[|m| - 1], m[..|m| - 1];
      p + Kept(front, faults) + ((if Keeps(faults(last.name)) then [last] else []) + k) == p + Kept(m, faults) + k
  {
  }

  lemma DownLastRow<S>(sc: Scripts<S>, db: Db<S>, p: seq<Row>, front: seq<Row>, last: Row, k: seq<Row>,
                       faults: string -> DownFault)
    requires db.ledger == p + (front + [last]) + k && IdsAscend(db.ledger)
    ensures var db1 := DownRow(sc, db, last, faults(last.name));
      && DownRows(sc, db, Reverse(front + [last]), faults) == DownRows(sc, db1, Reverse(front), faults)
      && db1.ledger == p + front + ((if Keeps(faults(last.name)) then [last] else []) + k)
      && IdsAscend(db1.ledger)
  {
    assert (front + [last])[..|front|] == front;
    assert Reverse(front + [last]) == [last] + Reverse(front);
    assert ([last] + Reverse(front))[1..] == Reverse(front);
    assert db.ledger == (p + front) + [last] + k;
    if Keeps(faults(last.name)) {
      assert db.ledger == p + front + ([last] + k);
    } else {
      DeleteBetween(p + front, last, k);
      AscendWithout(p + front, last, k);
      assert [] + k == k;
    }
  }

  /** A down removes from the newest batch the rows whose rollback went through, and no other row. */
  lemma DownEffect<S>(sc: Scripts<S>, db: Db<S>, faults: string -> DownFault)
    requires WellFormed(db)
    ensures RunDown(sc, db, false, faults) ==
      db.(ledger := Older(db.ledger) + Kept(Newest(db.ledger), faults),
          schema := RolledBack(sc, db.schema, Newest(db.ledger), faults))
  {
    var p, m := Older(db.ledger), Newest(db.ledger);
    NewestIsSuffix(db.ledger);
    LadderMeaning(db.ledger);
    if db.ledger != [] {
      assert p + m + [] == db.ledger;
      DownRowsEffect(sc, db, p, m, [], faults);
      assert p + Kept(m, faults) + [] == p + Kept(m, faults);
    }
  }

  /******* down keeps the ledger *******/

  lemma {:induction false} KeptSelects(rows: seq<Row>, faults: string -> DownFault)
    ensures |Kept(rows, faults)| <= |rows|
    ensures forall r :: r in Kept(rows, faults) ==> r in rows
    ensures |Kept(rows, faults)| == |rows| ==> forall i :: 0 <= i < |rows| ==> Keeps(faults(rows[i].name))
  {
    if rows != [] {
      KeptSelects(rows[..|rows| - 1], faults);
      assert rows == rows[..|rows| - 1] + [rows[|rows| - 1]];
    }
  }

  lemma {:induction false} KeptNone(rows: seq<Row>, faults: string -> DownFault)
    requires forall i :: 0 <= i < |rows| ==> faults(rows[i].name).DownOk?
    ensures Kept(rows, faults) == []
  {
    if rows != [] {
      KeptNone(rows[..|rows| - 1], faults);
    }
  }

  /** Dropping rows from the end part keeps names unique and ids increasing. */
  lemma {:induction false} KeptKeepsOrder(p: seq<Row>, m: seq<Row>, faults: string -> DownFault, nextId: nat)
    requires NamesUnique(p + m) && IdsIncreasing(p + m, nextId)
    ensures NamesUnique(p + Kept(m, faults)) && IdsIncreasing(p + Kept(m, faults), nextId)
  {
    if m != [] {
      var front, last := m[..|m| - 1], m[|m| - 1];
      var all := p + front;
      assert p + m == all + [last];
      assert all == (p + m)[..|all|];
      KeptKeepsOrder(p, front, faults, nextId);
      if Keeps(faults(last.name)) {
        KeptSelects(front, faults);
        var kept := p + Kept(front, faults);
        assert p + Kept(m, faults) == kept + [last];
        forall r | r in kept ensures r in all {
        }
        AppendKeepsOrder(all, kept, last, nextId);
      } else {
        assert Kept(m, faults) == Kept(front, faults);
      }
    }
  }

  lemma AppendKeepsOrder(all: seq<Row>, kept: seq<Row>, last: Row, nextId: nat)
    requires NamesUnique(all + [last]) && IdsIncreasing(all + [last], nextId)
    requires NamesUnique(kept) && IdsIncreasing(kept, nextId) && forall r :: r in kept ==> r in all
    ensures NamesUnique(kept + [last]) && IdsIncreasing(kept + [last], nextId)
  {
    forall r | r in kept ensures r.name != last.name && r.id < last.id {
      var i :| 0 <= i < |all| && all[i] == r;
      assert (all + [last])[i] == r && (all + [last])[|all|] == last;
    }
    assert (all + [last])[|all|] == last;
    forall i | 0 <= i < |kept| ensures kept[i].name != last.name && kept[i].id < last.id {
      assert kept[i] in kept;
    }
  }

  lemma DownKeepsWellFormed<S>(sc: Scripts<S>, db: Db<S>, queryFails: bool, faults: string -> DownFault)
    requires WellFormed(db)
    ensures WellFormed(RunDown(sc, db, queryFails, faults))
  {
    if !queryFails {
      var p, m := Older(db.ledger), Newest(db.ledger);
      assert p + m == db.ledger by { NewestIsSuffix(db.ledger); }
      KeptKeepsOrder(p, m, faults, db.nextId);
      KeptKeepsLadder(db.ledger, faults);
      DownEffect(sc, db, faults);
    }
  }

  lemma KeptKeepsLadder(ledger: seq<Row>, faults: string -> DownFault)
    requires Ladder(ledger)
    ensures Ladder(Older(ledger) + Kept(Newest(ledger), faults))
  {
    NewestIsSuffix(ledger);
    OlderIsLadder(ledger);
    KeptSelects(Newest(ledger), faults);
    LadderExtends(Older(ledger), Kept(Newest(ledger), faults), MaxBatch(ledger));
  }

  lemma LadderExtends(p: seq<Row>, q: seq<Row>, batch: nat)
    requires Ladder(p) && (q != [] ==> batch == MaxBatch(p) + 1) && forall r :: r in q ==> r.batch == batch
    ensures Ladder(p + q)
  {
    LadderMeaning(p);
    forall i | 0 <= i < |q| ensures q[i].batch == batch {
      assert q[i] in q;
    }
    forall i | 0 < i < |p + q| ensures StepsUp(p + q, i) {
      if i < |p| {
        assert StepsUp(p, i);
      }
    }
  }
}
