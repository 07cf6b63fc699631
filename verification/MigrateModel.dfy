/** The migration tool's commands as functions on the database: the ledger table `migrations`
    (id, name, batch) and the schema that the scripts build. Scripts are opaque functions; every command
    is told which of its statements fail. */
module MigrateModel {

  datatype Row = Row(id: nat, name: string, batch: nat)

  /** Rows are listed in the order of their ids. Dropping the schema drops the ledger with it. */
  datatype Db<S> = Db(hasSchema: bool, hasLedger: bool, ledger: seq<Row>, nextId: nat, schema: S)

  /** File contents, fixed per migration name: whether the up script is blank after trimming, and what
      each script does to the schema when it succeeds. */
  datatype Scripts<!S> = Scripts(blank: string -> bool, up: (string, S) -> S, down: (string, S) -> S, empty: S)

  datatype UpFault = UpOk | StatusFails | ReadFails | ExecFails

  /** NotExist is an execution error whose text contains "does not exist". */
  datatype DownFault = DownOk | ReadMissing | DownFails | NotExist

  /** Which of the two statements before the files fail: creating the ledger table, whose error the command
      ignores, and reading the largest batch. */
  datatype Opening = Opening(tableFails: bool, queryFails: bool)

  /** One invocation: the migration names found in the directory, sorted, or None when it cannot be read. */
  datatype Dir = Unreadable | Names(names: seq<string>)

  datatype Command =
    | Up(dir: Dir, opening: Opening, faults: string -> UpFault)
    | Down(queryFails: bool, downFaults: string -> DownFault)
    | Fresh(dropFails: bool, createFails: bool, dir: Dir, opening: Opening, faults: string -> UpFault)

  /******* Queries *******/

  function Max(a: nat, b: nat): nat {
    if a < b then b else a
  }

  /** The largest batch number, or 0 when there is no row. */
  function MaxBatch(ledger: seq<Row>): nat {
    if ledger == [] then 0 else Max(MaxBatch(ledger[..|ledger| - 1]), ledger[|ledger| - 1].batch)
  }

  function NextBatch<S>(db: Db<S>): nat {
    MaxBatch(db.ledger) + 1
  }

  predicate Applied(ledger: seq<Row>, name: string) {
    exists row :: row in ledger && row.name == name
  }

  /** The rows of one batch, the newest first. */
  function InBatchNewestFirst(ledger: seq<Row>, batch: nat): seq<Row> {
    if ledger == [] then []
    else
      var last := ledger[|ledger| - 1];
      (if last.batch == batch then [last] else []) + InBatchNewestFirst(ledger[..|ledger| - 1], batch)
  }

  /** The rows other than the one with this id. */
  function WithoutId(ledger: seq<Row>, id: nat): seq<Row> {
    if ledger == [] then []
    else
      WithoutId(ledger[..|ledger| - 1], id) + (if ledger[|ledger| - 1].id == id then [] else [ledger[|ledger| - 1]])
  }

  /******* up *******/

  function EnsureTable<S>(db: Db<S>): Db<S> {
    if db.hasSchema && !db.hasLedger then db.(hasLedger := true, ledger := [], nextId := 1) else db
  }

  /** The script ran and its row was inserted. */
  function ApplyUp<S>(sc: Scripts<S>, db: Db<S>, name: string, batch: nat): Db<S> {
    db.(schema := sc.up(name, db.schema), ledger := db.ledger + [Row(db.nextId, name, batch)], nextId := db.nextId + 1)
  }

  datatype UpResult<S> = UpResult(db: Db<S>, ok: bool)

  function UpFiles<S>(sc: Scripts<S>, db: Db<S>, names: seq<string>, faults: string -> UpFault, batch: nat): UpResult<S>
    decreases names
  {
    if names == [] then UpResult(db, true)
    else
      var name, rest := names[0], names[1..];
      if faults(name).StatusFails? then UpResult(db, false)
      else if Applied(db.ledger, name) then UpFiles(sc, db, rest, faults, batch)
      else if faults(name).ReadFails? then UpResult(db, false)
      else if sc.blank(name) then UpFiles(sc, db, rest, faults, batch)
      else if faults(name).ExecFails? then UpResult(db, false)
      else UpFiles(sc, ApplyUp(sc, db, name, batch), rest, faults, batch)
  }

  function RunUp<S>(sc: Scripts<S>, db: Db<S>, dir: Dir, opening: Opening, faults: string -> UpFault): UpResult<S> {
    if dir.Unreadable? then UpResult(db, false)
    else if dir.names == [] then UpResult(db, true)
    else
      var db1 := if opening.tableFails then db else EnsureTable(db);
      if opening.queryFails || !db1.hasLedger then UpResult(db1, false)
      else UpFiles(sc, db1, dir.names, faults, NextBatch(db1))
  }

  /******* down *******/

  function DownRow<S>(sc: Scripts<S>, db: Db<S>, row: Row, fault: DownFault): Db<S> {
    match fault
    case ReadMissing => db
    case DownFails => db
    case NotExist => db.(ledger := WithoutId(db.ledger, row.id))
    case DownOk => db.(schema := sc.down(row.name, db.schema), ledger := WithoutId(db.ledger, row.id))
  }

  function DownRows<S>(sc: Scripts<S>, db: Db<S>, rows: seq<Row>, faults: string -> DownFault): Db<S>
    decreases rows
  {
    if rows == [] then db
    else DownRows(sc, DownRow(sc, db, rows[0], faults(rows[0].name)), rows[1..], faults)
  }

  function RunDown<S>(sc: Scripts<S>, db: Db<S>, queryFails: bool, faults: string -> DownFault): Db<S> {
    if queryFails || !db.hasLedger || MaxBatch(db.ledger) == 0 then db
    else DownRows(sc, db, InBatchNewestFirst(db.ledger, MaxBatch(db.ledger)), faults)
  }

  /******* fresh *******/

  function Dropped<S>(sc: Scripts<S>): Db<S> {
    Db(false, false, [], 1, sc.empty)
  }

  function RunFresh<S>(sc: Scripts<S>, db: Db<S>, dropFails: bool, createFails: bool, dir: Dir, opening: Opening,
                       faults: string -> UpFault): UpResult<S>
  {
    if dropFails then UpResult(db, false)
    else if createFails then UpResult(Dropped(sc), false)
    else RunUp(sc, Dropped(sc).(hasSchema := true), dir, opening, faults)
  }

  /******* Runs *******/

  function Exec<S>(sc: Scripts<S>, db: Db<S>, c: Command): Db<S> {
    match c
    case Up(dir, opening, faults) => RunUp(sc, db, dir, opening, faults).db
    case Down(queryFails, faults) => RunDown(sc, db, queryFails, faults)
    case Fresh(dropFails, createFails, dir, opening, faults) =>
      RunFresh(sc, db, dropFails, createFails, dir, opening, faults).db
  }

  /** A new database, and the state after a sequence of commands. */
  function Initial<S>(sc: Scripts<S>): Db<S> {
    Db(true, false, [], 1, sc.empty)
  }

  function Run<S>(sc: Scripts<S>, cs: seq<Command>): Db<S> {
    if cs == [] then Initial(sc) else Exec(sc, Run(sc, cs[..|cs| - 1]), cs[|cs| - 1])
  }
}
