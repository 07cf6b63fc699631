# golang-base, verified

Dafny models of the parts of the golang-base service template that keep state or run an algorithm, with
proofs of what they guarantee: the permission engine and its cache, the migration tool, the Socket.IO
channel worker, the dashboard layout, the PDF table, and the permission registry.

Code that changes things step by step is a class or a method with its loops, proved against functions and
predicates on values; the main results are lemmas about those values and about runs of any length. `dafny
verify dfyconfig.toml` checks everything.

| files | what they model |
|---|---|
| `GoStrings` | byte order of strings, `sort.Strings`, prefix, suffix and index |
| `AuthModel`, `AuthStores`, `AuthService`, `PermissionMiddleware`, `AuthTheorems`, `AuthDecisions` | permission tables, audit log, Redis keys, the service and the middleware, one operation at a time |
| `CacheInterleaving` | the same cache with reads and writes cut into steps and interleaved |
| `MigrateModel`, `Migrate`, `MigrateTheorems`, `MigrateRuns`, `MigrateSchema`, `MigrateEffects`, `MigrationFiles` | `up`, `down`, `fresh` and `create` |
| `ChannelWorker`, `ChannelService` | publishers, Start, Stop and worker goroutines |
| `Dashboard` | the panel packer |
| `PdfTable` | column widths and page breaks |
| `PermissionRegistry` | sorted permissions, groups, wildcards |

## What the proofs found

Properties that the code meets only under a condition are stated with the exact condition.

- The middleware ignores expiry and `is_granted`. It lets through everything the service grants, and more
  exactly when a matching row exists while the permission is denied or has no live row
  (`ServiceAgainstMiddleware`).
- A bulk role update in which a statement fails after another one succeeded returns before it drops the cache
  key. For a cached role that is the one operation that leaves a stale entry (`CoherenceStep`); a successful
  retry heals it (`RetriedUpdateHeals`).
- A bulk role update does not renew an expired row that it keeps: the permission is requested and stored, and
  still not in force (`ActiveAfterUpdate`).
- Storing a denial and deleting the override leave the same audit entry exactly when the denial has no expiry
  (`DenialLogsLikeDeletionIff`). So the log replays to the whole table of user overrides exactly as long as no such
  denial is stored and no change of an override goes unlogged (`ReplayStep`, `LogReplaysOverRunsIff`); the granted
  overrides can be replayed whatever denials are stored (`ReplayGrantsStep`).
- A role grant stores its row and takes effect whatever its flag says, while a false flag logs it as a revocation
  (`RoleGrantDecides`, `LogStepRecords`). The handlers only send user targets here.
- `down` rolls back the newest *batch*, although the repository's README says it rolls back the last
  migration. The model follows the code. A failed rollback is skipped and older rows of the batch are still
  rolled back. A rollback in which all successes are newer than all failures, and no error was taken for "does
  not exist", is called clean; being clean is equivalent to keeping the schema the image of the ledger for every
  family of scripts whose downs undo their ups (`CleanIffAlwaysInSync`).
- `create` numbers files with `%03d`. A number of four or more digits sorts before exactly the three-digit files
  whose number is at least its first three digits, so 1000 comes after 099 and before 100 (`LongNumberPlace`).
  With three-digit up files only, the new file runs last up to 999 and not after (`CreatedFileRunsLastIff`,
  `ThousandthFileDoesNotRunLast`).
- `Stop` closes the channel before the worker drains it, and `Publish` stays open. A message accepted after the
  worker has left is lost although `Publish` returned true (`LatePublishIsLost`). When Stop returns, everything
  accepted is dispatched exactly when nothing was accepted since the worker left (`StopReturnsDrained`), so
  callers who stop sending before Stop lose nothing (`QuietStopDeliversAll`). Only the Stop that closed the
  channel waits: a second one returns at once (`SecondStopReturnsEarly`).
- After a `Start` that follows a close of the stop channel, the next `Stop` closes it twice (`DoubleCloseIff`).
- Messages are dispatched in the order of acceptance as long as no `Start` takes effect while a worker is still
  live, and such a `Start` always opens a way to dispatch out of order (`OverlapIffCanReorder`).
- The sorted permission list and the concatenated groups are the same exactly when no category, continued by a
  character that sorts below the dot, begins another (as "a" begins "a-b"), and every key without a category sorts
  where "unknown" does (`ConcatIsListingIff`).
- When the largest int is in use as a number, `create` wraps to a negative one: its file sorts before all others
  (`CreatedFileRunsLastIff`), can overwrite an earlier one (`CreateOverwritesIff`), and its name cannot be typed
  again (`BaseNameIsStable`).

## Assumptions

- One `now` per decision and per operation. Rows survive JSON unchanged; Redis commands succeed; service and
  middleware share one Redis client. Row order in query results is unspecified, so every loop over rows
  takes them in an arbitrary order.
- A migration script either runs completely or leaves the schema as it was, touches only the schema and not the
  ledger table, and depends only on its name. Ledger INSERT and DELETE succeed. Everything the scripts create
  lives in the schema that `fresh` drops.
- gofpdf is known here by four facts: a cell that would pass the page-break trigger (page height minus the
  18 mm set by SetAutoPageBreak) moves to the top margin of a new page, `Ln(-1)` moves down by the last cell
  height, `SetY` sets the height absolutely, and an image placed without flow does not move the cursor.
- `fmt.Sscanf("%d")` skips leading space, accepts a sign, reads digits and ignores the rest; a value beyond 64
  bits is an error. `int` is 64 bits wide.

## Model

| member | source | states |
|---|---|---|
| AuthService.Service.GetRolePermissions | internal/modules/auth/service.go:215-230 | the unexpired permissions of the role, each once, or the read error |
| AuthService.Service.GetUserPermissions | internal/modules/auth/service.go:356-371 | the unexpired overrides with their flag, whatever order the rows come in |
| AuthService.Service.GetComputedPermissions | internal/modules/auth/service.go:374-415 | "*" for a super admin; otherwise a strictly sorted list of exactly the role permissions plus granted minus denied overrides, with failed reads skipped |
| AuthService.Service.HasPermission | internal/modules/auth/service.go:418-446 | the overrides-first decision, for every combination of failed reads |
| AuthDecisions.HasMeaning | internal/modules/auth/service.go:418-446 | told by the rows alone: a member has a permission as super admin, by the flag of an override, or without one by a row of a role; a row counts up to and including the instant of its expiry, and what cannot be read counts as absent |
| AuthTheorems.HasIffComputed | internal/modules/auth/service.go:374-446 | for a user who is not super admin the two algorithms decide every permission alike, for all rows, expiries, overrides and failed reads |
| AuthTheorems.ComputedListUnique | internal/modules/auth/service.go:398-412 | the computed list does not depend on map iteration order |
| AuthDecisions.GrantDecides | internal/modules/auth/service.go:448-461 | a stored override decides with its flag up to its expiry and leaves the decision to the roles afterwards; no other user and no other permission is affected |
| AuthDecisions.RevokeDecides | internal/modules/auth/service.go:487-499 | a deleted override leaves the decision to the roles; nobody else is affected |
| AuthDecisions.RoleGrantDecides | internal/modules/auth/service.go:449-454 | a role grant gives the permission to the members of the role up to its expiry, whatever its flag; otherwise another role decides |
| AuthDecisions.RoleRevokeDecides | internal/modules/auth/service.go:488-493 | after a role revocation only another role gives the permission |
| AuthDecisions.UntargetedWrites | internal/modules/auth/service.go:449-461 | a failed table write changes nothing; a target of another kind, or without its id, changes no table and no key |
| AuthService.Service.UpdateRolePermissions | internal/modules/auth/service.go:232-268 | on success exactly the requested set, kept rows untouched, new rows without expiry, other roles untouched, key dropped; on an error a set between old ∩ requested and old ∪ requested that lost a row only if every requested one is there, unchanged iff no statement had succeeded, key not dropped |
| AuthService.Service.GrantMissing | internal/modules/auth/service.go:243-249 | after the first loop the role holds old ∪ requested; after an error, something between old and that |
| AuthService.Service.RevokeUnwanted | internal/modules/auth/service.go:251-262 | the second loop only removes rows, never a requested one, and ends at the requested set |
| AuthTheorems.ActiveAfterUpdate | internal/modules/auth/service.go:238-268 | after a successful update a requested permission is in force iff no expired row for it was kept |
| AuthTheorems.RetriedUpdateHeals | internal/modules/auth/service.go:232-268 | a failed update followed by a successful one gives the requested set, original surviving rows and a coherent cache |
| AuthDecisions.UpdateRows | internal/modules/auth/service.go:232-268 | whether a bulk update fails or not: old rows untouched, new rows only for requested permissions and without expiry; other roles, overrides and the log unchanged |
| AuthDecisions.FailedUpdateGrantsFirst | internal/modules/auth/service.go:243-262 | a failed bulk update loses no requested row, and no row at all before every requested one is there |
| AuthService.Service.GrantUserPermission | internal/modules/auth/service.go:448-485 | table write, invalidation, then log entry, with each failure returning at its place; all target kinds |
| AuthService.Service.RevokeUserPermission | internal/modules/auth/service.go:487-517 | the same for a deletion, logged as a revocation |
| AuthService.Service.InvalidateRolePermissionCache | internal/modules/auth/service.go:539-545 | drops the role's key and no other; nothing without Redis |
| AuthService.Service.InvalidateUserPermissionCache | internal/modules/auth/service.go:530-536 | drops the user's key and no other; nothing without Redis |
| AuthStores.Repository.GrantRolePermission | internal/modules/auth/repository.go:162-178 | upsert on (role, permission) that changes only the expiry of an existing row, or fails without effect |
| AuthStores.Repository.RevokeRolePermission | internal/modules/auth/repository.go:180-184 | deletes the one row, or fails without effect |
| AuthStores.Repository.GrantUserPermission | internal/modules/auth/repository.go:195-215 | upsert on (user, permission) that keeps the creation time of an existing row, or fails without effect |
| AuthDecisions.RegrantKeepsCreation | internal/modules/auth/repository.go:195-215 | an override granted twice keeps the first creation time and has the second actor, flag and expiry |
| AuthDecisions.RoleRegrantKeepsCreation | internal/modules/auth/repository.go:162-178 | a role row granted twice keeps the first creation time and has the second expiry |
| AuthStores.Repository.RevokeUserPermission | internal/modules/auth/repository.go:217-221 | deletes the one row, or fails without effect |
| AuthStores.Repository.LogPermissionChange | internal/modules/auth/repository.go:232-242 | appends the entry, or fails without effect |
| AuthModel.CacheKeysDistinct | internal/domain/cache.go:7-11 | role keys and user keys never collide, nor do keys of different owners |
| AuthTheorems.CoherenceStep | internal/modules/auth/service.go:232-268 | an operation keeps every cache entry equal to its rows iff it is not a bulk update of a cached role in which a statement failed after another had succeeded |
| AuthTheorems.PartialUpdateLeavesStaleEntry | internal/modules/auth/service.go:256-262 | such an update exists |
| AuthTheorems.CacheCoherentOverRuns | internal/modules/auth/service.go:264-265 | over every run without such an update, cached and direct reads agree in every state |
| AuthTheorems.ReplayStep | internal/modules/auth/service.go:448-517 | from a state whose log replays to the whole table of user overrides, flags and expiries included, an operation keeps that iff it is neither an unlogged change of an override nor a logged denial without expiry; told from the state before and the failing statements |
| AuthTheorems.LogReplaysOverRunsIff | internal/modules/auth/service.go:448-517 | over every run, role targets, bulk updates and reads included, the log replays to the whole table of user overrides in every state iff no operation of the run is one of those two |
| AuthTheorems.ReplayGrantsStep | internal/modules/auth/service.go:448-517 | the log replays to the granted overrides after an operation iff it is not an unlogged write that makes a difference to a granted one, whatever denials are stored |
| AuthTheorems.LogReplaysGrantsOverRuns | internal/modules/auth/service.go:448-517 | over every run without such a write the last log entry is a grant iff a granted row exists, with the same expiry |
| AuthTheorems.DenialLogsLikeDeletionIff | internal/modules/auth/service.go:463-516 | a denial and a deletion leave the same log iff the denial has no expiry; a user whose role has the permission keeps it after the deletion, and after the denial iff that has expired |
| AuthDecisions.LogStepRecords | internal/modules/auth/service.go:463-516 | an operation adds at most one entry, exactly for a grant or revocation whose writes go through, and it records target, permission, actor, time, flag, action and expiry |
| AuthDecisions.LogIsAppendOnly | internal/modules/auth/repository.go:232-242 | over every run the log only grows at its end |
| PermissionMiddleware.CachedAuthRepository.CachedGetRolePermissions | internal/middleware/permission.go:44-68 | returns the cached rows or the loaded ones, and stores loaded rows unless there are none |
| PermissionMiddleware.CachedAuthRepository.CachedGetUserPermissions | internal/middleware/permission.go:71-95 | the same for a user's rows |
| PermissionMiddleware.CachedAuthRepository.InvalidateRolePermissionsCache | internal/middleware/permission.go:106-111 | drops exactly the role's key |
| PermissionMiddleware.CachedAuthRepository.InvalidateUserPermissionsCache | internal/middleware/permission.go:98-103 | drops exactly the user's key |
| AuthDecisions.ReadFillsCache | internal/middleware/permission.go:44-95 | rows that were read answer later reads without the database; no rows are not kept, and a failed read changes nothing |
| AuthDecisions.DropReloads | internal/middleware/permission.go:98-111 | after its key is dropped a read goes to the table, and every other read is as before |
| PermissionMiddleware.MatchPermission | internal/middleware/permission.go:115-129 | true iff some pattern equals the permission or is "prefix.*" with "prefix." in front of it |
| AuthDecisions.PatternMeaning | internal/middleware/permission.go:115-129 | a pattern matches its own name, and as "prefix.*" whatever begins with "prefix." |
| PermissionMiddleware.CachedAuthRepository.AnyRoleMatches | internal/middleware/permission.go:164-173 | true iff some readable role has a matching row; later cache fills do not change the answer |
| PermissionMiddleware.CachedAuthRepository.AllowedPermissions | internal/middleware/permission.go:146-186 | the decision as a function of the state before the request, which only fills the cache |
| AuthDecisions.AllowedMeaning | internal/middleware/permission.go:146-186 | unauthorized iff there is no such member or the lookup fails; let through iff super admin or a row that was read, through the cache, matches a pattern; otherwise forbidden |
| AuthDecisions.PatternListsJoin | internal/middleware/permission.go:115-186 | a route with two pattern lists lets through iff one of them does |
| AuthTheorems.ServiceAgainstMiddleware | internal/middleware/permission.go:146-186 | what the service grants the middleware allows; the two differ iff a matching row exists while the permission is denied or has no live row |
| AuthTheorems.DecisionsCoincide | internal/middleware/permission.go:158-186 | for a name without ".*" and a user with no expired row and no denial the decisions are equal |
| AuthTheorems.GrantedIsAllowedOverRuns | internal/middleware/permission.go:146-186 | over coherent runs, granted implies allowed in every state |
| CacheInterleaving.ServedRowsAreRecent | internal/middleware/permission.go:44-95 | in every interleaving each served value was the table's content no longer ago than 24 hours plus its reader's load-to-store gap |
| CacheInterleaving.QuietKeysAreServedCurrent | internal/domain/cache.go:12-13 | a key unchanged for the TTL plus the largest gap is served with its current rows, whatever raced before |
| CacheInterleaving.NoPreWriteRowsAfterDelete | internal/modules/auth/service.go:450-459 | if no reader loads before a write and stores after its delete, no read begun after the delete returns rows from before the write |
| CacheInterleaving.StraddlingReaderServesOldRows | internal/middleware/permission.go:56-65 | and conversely: every run with such a reader continues, right after its store, with a read begun after the delete that returns the rows from before the write |
| CacheInterleaving.StraddlingRunStraddles | internal/middleware/permission.go:56-65 | such runs exist for any nonempty old rows and any new ones |
| CacheInterleaving.EntryAnswersForADay | internal/domain/cache.go:12-13 | an entry that is neither deleted nor stored again answers for 24 hours from its store, and no longer |
| CacheInterleaving.EntryStays | internal/middleware/permission.go:98-111 | an entry stays until its own key is deleted or stored again |
| CacheInterleaving.ReadGoesOn | internal/middleware/permission.go:44-95 | a read is never stuck: exactly one of hit and miss, and after a load exactly one of storing and returning nothing |
| Migrate.Database.RunMigrations | cmd/migrate/main.go:133-209 | listing, sorting, table creation and the loop over files compute the function of the model, for every failing statement, the ignored failure to create the table included |
| Migrate.Database.EnsureMigrationsTable | cmd/migrate/main.go:123-131 | creates an empty ledger table where there is none; a failure is ignored and changes nothing |
| Migrate.Database.ApplyFiles | cmd/migrate/main.go:171-208 | the loop stops at the first failure and skips applied and blank files |
| Migrate.Database.RollbackMigration | cmd/migrate/main.go:211-283 | the newest batch, by descending id; unreadable and failed rollbacks are skipped, "does not exist" counts as done |
| Migrate.Database.FreshMigration | cmd/migrate/main.go:356-370 | drop, create, up, each of which may fail |
| Migrate.MigrationNamesDistinct | cmd/migrate/main.go:145-172 | no migration name is met twice in one command |
| MigrateEffects.DirectoryNames | cmd/migrate/main.go:145-172 | the names of a command are those of the files, not directories, ending in ".up.sql", without that suffix, in the order of the file names |
| MigrateEffects.UpRecords | cmd/migrate/main.go:157-208 | an up succeeds iff the table is there or can be made, the batch can be read, and no file stops it; it keeps old rows, gives new ones the next batch, and records, in directory order, exactly the new files that are not blank and have no stopping file up to them |
| MigrateEffects.StopsMeaning | cmd/migrate/main.go:174-200 | a file stops an up iff its status cannot be read, or it is new and cannot be read, or it is new, not blank, and its script fails |
| MigrateEffects.UpNeedsFiles | cmd/migrate/main.go:133-155 | an unreadable directory is an error and an empty one a success, both without any effect |
| MigrateEffects.DownRemoves | cmd/migrate/main.go:211-283 | a down removes a row iff it is of the newest batch and its script ran or met "does not exist"; nothing when the batch cannot be read |
| MigrateEffects.DownWithoutScripts | cmd/migrate/main.go:245-279 | a down in which no script runs leaves the schema alone |
| MigrateEffects.FreshForgets | cmd/migrate/main.go:356-370 | once dropped and created, a fresh gives the same result from any two databases |
| MigrateEffects.FreshRebuilds | cmd/migrate/main.go:356-370 | a successful fresh leaves exactly the non-blank files, in batch 1 with ids from 1, and the schema they build from the empty one, whatever was there before |
| MigrateEffects.FreshFailures | cmd/migrate/main.go:356-370 | a failed drop changes nothing; after a failed create everything is gone and every later up fails without effect |
| MigrateEffects.DownUndoesFresh | cmd/migrate/main.go:211-370 | a successful down after a successful fresh leaves the empty ledger and schema |
| MigrateSchema.LedgerInvariantOverRuns | cmd/migrate/main.go:163-204 | over every run with any failures: names unique, ids increasing, batches non-decreasing and exactly 1..max |
| MigrateTheorems.WellFormedIffInv | cmd/migrate/main.go:163-169 | that invariant is the same as batches climbing from 1 in steps of at most one |
| MigrateRuns.NewestIsSuffix | cmd/migrate/main.go:214-227 | the newest batch is a suffix of the ledger and the rollback query returns it from the end |
| MigrateRuns.DownEffect | cmd/migrate/main.go:260-279 | a down removes from the newest batch exactly the rows whose rollback went through |
| MigrateTheorems.UpAppliesPendingBeforeFailure | cmd/migrate/main.go:171-205 | an up applies exactly the pending non-blank files before the first failing one and succeeds iff none fails |
| MigrateSchema.SchemaMatchesLedgerOverRuns | cmd/migrate/main.go:133-283 | over every run with clean downs, ups failing anywhere, the schema is what the up scripts of the ledger rows build in id order |
| MigrateSchema.CleanDownKeepsSync | cmd/migrate/main.go:260-279 | a down whose successes are all newer than its failures keeps schema and ledger in step, for all scripts whose downs undo their ups |
| MigrateSchema.StackDownInSyncIffClean | cmd/migrate/main.go:260-279 | for one such family of scripts that condition is also necessary |
| MigrateSchema.CleanIffAlwaysInSync | cmd/migrate/main.go:260-279 | a down is clean iff it keeps schema and ledger in step for every family of scripts whose downs undo their ups |
| MigrateSchema.FullDown | cmd/migrate/main.go:211-283 | a fully successful down removes exactly the newest batch and lowers the maximum by one |
| MigrateSchema.DownsToEmpty | cmd/migrate/main.go:211-283 | as many downs as there are batches end at the empty ledger and schema |
| MigrateSchema.DownUndoesUp | cmd/migrate/main.go:133-283 | after an up that recorded something, a down restores ledger rows and schema; otherwise the ledger is restored iff it was empty |
| MigrateSchema.RetryCompletesUp | cmd/migrate/main.go:133-208 | an up that failed at any statement, unreadable directory and failed queries included, and a successful retry give schema and ledger names of one uninterrupted up, and one more successful up changes nothing |
| MigrationFiles.GetNextMigrationSequence | cmd/migrate/main.go:371-396 | one more than the largest number parsed from an up file name, wrapping at 64 bits; 1 for an unreadable directory |
| MigrationFiles.NextExceedsAll | cmd/migrate/main.go:385-395 | the new number exceeds every parsed one iff the largest is below 9223372036854775807 |
| MigrationFiles.LargestNumber | cmd/migrate/main.go:377-395 | the largest number of a directory is unique, and 0 iff no entry has a positive one |
| MigrationFiles.NumberOfMeaning | cmd/migrate/main.go:378-390 | an entry counts with the digits before its first underscore iff it is a file ending in ".up.sql" or "_up.sql" |
| MigrationFiles.ScanMeaning | cmd/migrate/main.go:386-387 | blanks, an optional sign and digits, followed by anything but a digit, are read as the signed value, and refused beyond 64 bits |
| MigrationFiles.CreateMigrationFile | cmd/migrate/main.go:398-425 | blank names are refused, numbered names keep their number, others get the next one, which is 1 when the directory cannot be read |
| MigrationFiles.CreatedNameRoundTrip | cmd/migrate/main.go:384-387 | the number printed with %03d is parsed back from the file name, for every 64-bit number |
| MigrationFiles.CreateOverwritesIff | cmd/migrate/main.go:417-433 | an existing up file is overwritten iff the typed name carries a number and that file exists, or the largest int is in use and the file with the wrapped number exists |
| MigrationFiles.BaseNameIsStable | cmd/migrate/main.go:412-425 | the built name is numbered unless a negative number was added in front, and typing it again builds it again iff it is numbered |
| MigrationFiles.NormalizedMeaning | cmd/migrate/main.go:412-415 | position by position: spaces and hyphens become underscores, capitals small letters, the rest stays |
| MigrationFiles.TrimMeaning | cmd/migrate/main.go:412 | trimming takes white space off both ends and nothing else |
| MigrationFiles.BuiltNameIsPlain | cmd/migrate/main.go:412-425 | a built name holds no space, hyphen or capital |
| MigrationFiles.NumberedMeaning | cmd/migrate/main.go:417-419 | exactly the names that begin with three digits or more and an underscore are numbered |
| MigrationFiles.CreatedFileRunsLast | cmd/migrate/main.go:157-171 | next to three-digit names a number up to 999 sorts after every up file |
| MigrationFiles.CreatedFileRunsLastIff | cmd/migrate/main.go:423-425 | it sorts after every up file iff there is none, or its number is at most 999, or it does not wrap and its first three digits exceed every up file's number |
| MigrationFiles.LongNumberPlace | cmd/migrate/main.go:423-425 | a number of four or more digits sorts before exactly the three-digit files whose number is at least its first three digits |
| MigrationFiles.ThousandthFileDoesNotRunLast | cmd/migrate/main.go:423-425 | when every numbered entry is an up file, 999 is the exact limit |
| ChannelWorker.ConservedOverRuns | example/socketio/handler/service.go:58-144 | in every run, restarts included, no message is lost or duplicated and the buffer stays within its capacity |
| ChannelWorker.CapacityAskedFor | example/socketio/handler/service.go:46-56 | in every state the capacity is the size asked for, or 1024 when that is not positive |
| ChannelWorker.FifoOverRuns | example/socketio/handler/service.go:58-144 | within one Start/Stop cycle accepted is dispatched, then at most one in flight, then the buffer; one worker at most; no double close |
| ChannelWorker.RefusedIffBacklogFull | example/socketio/handler/service.go:88-99 | in every run Publish refuses iff as many accepted messages as the buffer holds are neither dispatched nor in a worker's hand |
| ChannelWorker.StopReturnsDrained | example/socketio/handler/service.go:71-82 | when the Stop that closed the channel returns, everything accepted before the worker left is dispatched in order; all accepted messages are iff none was accepted between that and the return |
| ChannelWorker.QuietStopDeliversAll | example/socketio/handler/service.go:71-82 | in every interleaving: if nothing is sent from the close of the channel on, the Stop that closed it returns with every accepted message dispatched |
| ChannelWorker.ExitIsFinal | example/socketio/handler/service.go:129-139 | what is accepted after the worker has left its drain loop stays in the buffer, for the rest of the cycle |
| ChannelWorker.LatePublishIsLost | example/socketio/handler/service.go:88-99 | a message that Publish accepts between the worker's end and the return of Stop is never dispatched |
| ChannelWorker.SecondStopReturnsEarly | example/socketio/handler/service.go:73-76 | a second Stop returns at once while a message is still undelivered |
| ChannelWorker.WorkerTerminates | example/socketio/handler/service.go:125-144 | after the stop signal, without publishing, the worker takes at most 2 * buffer + 3 steps under any select choices |
| ChannelWorker.WorkerNeverBlocks | example/socketio/handler/service.go:129-142 | and until it returns one of its steps is enabled |
| ChannelWorker.DoubleCloseIff | example/socketio/handler/service.go:71-79 | the stop channel is closed twice iff a Start took effect after a close and a Stop followed |
| ChannelWorker.InTurnOverRuns | example/socketio/handler/service.go:58-144 | over every run in which no Start takes effect while a worker is live, restarts included: at most one worker is live, and accepted is dispatched, then what it holds, then the buffer |
| ChannelWorker.OverlapIffCanReorder | example/socketio/handler/service.go:58-144 | no Start of a run takes effect while a worker is live iff no state of the run can go on, without another Start, to dispatch out of order |
| ChannelWorker.TwoLiveCanReorder | example/socketio/handler/service.go:125-144 | from any state with two live workers and every accepted message accounted for, there are steps that dispatch out of order |
| ChannelWorker.RestartCanReorder | example/socketio/handler/service.go:58-82 | an instance: a Start between the unlock and the return of Stop, and two messages swapped |
| ChannelService.Service.constructor | example/socketio/handler/service.go:46-56 | the initial state, with 1024 for a non-positive size |
| ChannelService.Service.Start | example/socketio/handler/service.go:58-69 | is the Start step |
| ChannelService.Service.SignalStop | example/socketio/handler/service.go:71-79 | is the stop-signal step when started and the immediate return otherwise |
| ChannelService.Service.Publish | example/socketio/handler/service.go:88-99 | is the publish step with its result |
| ChannelService.Service.Send | example/socketio/handler/service.go:84-86 | is the blocking send on the channel, once there is room |
| ChannelService.Service.Drain | example/socketio/handler/service.go:131-139 | whatever others publish, send or stop meanwhile: a row of steps at whose end the worker is done, the buffer was found empty, and everything accepted until then is dispatched |
| ChannelService.Service.Worker | example/socketio/handler/service.go:125-144 | the same for the worker loop from any iteration on: it ends like that, or it waits with everything accepted dispatched; once the channel is closed it ends |
| ChannelService.Service.Stop | example/socketio/handler/service.go:71-82 | a row of steps from the signal to the return, with other callers at any moment: what was accepted until the worker left is dispatched in order, the rest is in the buffer, and with no other caller nothing is; not started, it is the one step of returning at once |
| Dashboard.Layout | monitoring/build_dashboard.py:264-273 | each panel's x and y are those of the packing function |
| Dashboard.NextPanel | monitoring/build_dashboard.py:264-273 | a panel is right beside the one before it iff both fit in the 24 columns, otherwise at the left exactly 8 further down; the first is at the origin, or 8 down when too wide |
| Dashboard.NoEmptyRows | monitoring/build_dashboard.py:264-273 | no row between the first and the last is empty |
| Dashboard.InsideIffFits | monitoring/build_dashboard.py:269-271 | all panels lie within the 24 columns iff none is wider than 24 |
| Dashboard.ReadingOrderIsListOrder | monitoring/build_dashboard.py:264-273 | an earlier panel is a row above or to the left in the same row |
| Dashboard.NoOverlap | monitoring/build_dashboard.py:264-273 | no two panels share a cell |
| Dashboard.LayoutUsesFewestRows | monitoring/build_dashboard.py:265-272 | no order-preserving assignment of panels to rows uses fewer rows |
| PdfTable.ResolveWidths | internal/pkg/export/pdf/pdf.go:93-124 | fixed columns keep their width, automatic ones get their weighted share, without division by zero |
| PdfTable.TableWidth | internal/pkg/export/pdf/pdf.go:209-215 | the sum of the widths |
| PdfTable.TotalWidth | internal/pkg/export/pdf/pdf.go:109-123 | with an automatic column the total is the available width, or fixed plus available when the fixed ones do not fit |
| PdfTable.FillsPageIff | internal/pkg/export/pdf/pdf.go:109-123 | exactly when the table is as wide as the page allows |
| PdfTable.WidthsByContent | internal/pkg/export/pdf/pdf.go:93-124 | columns with a width keep it; two without are to each other as their content lengths, where none counts as 1 |
| PdfTable.Fpdf.DrawHeader | internal/pkg/export/pdf/pdf.go:145-153 | moves down by one header row, from the top margin if gofpdf broke the page |
| PdfTable.Fpdf.DrawBrandHeader | internal/pkg/export/pdf/brandheader.go:17-67 | moves down by the block height on the page that the left and the right lines end on, or not at all when the logo cannot be read |
| PdfTable.Fpdf.DrawRows | internal/pkg/export/pdf/pdf.go:155-179 | one start per row, in order, each where the previous row ended or on a later page; every page opened for a row carries the brand block and the header, in this order and before the row, iff they repeat, and they are drawn nowhere else |
| PdfTable.Fpdf.OpenPage | internal/pkg/export/pdf/pdf.go:158-166 | a new page with the blocks that repeat, the cursor below them |
| PdfTable.Fpdf.DrawRow | internal/pkg/export/pdf/pdf.go:157-178 | one row, on a new page first iff it would end below the limit |
| PdfTable.RowFollows | internal/pkg/export/pdf/pdf.go:157-178 | a row starts right below the one before it iff it ends at least 20 mm above the bottom, otherwise on a new page below the repeated blocks |
| PdfTable.FreshStartBelowBlocks | internal/pkg/export/pdf/pdf.go:145-166 | how far below the top that is: 12 mm, the brand block of its lines, the header of 9 mm, each iff it repeats |
| PdfTable.FreshStartOnNextPage | internal/pkg/export/pdf/pdf.go:158-166 | it is the very next page when the blocks fit on one |
| PdfTable.LaterRowsBelowBlocks | internal/pkg/export/pdf/pdf.go:157-178 | every row on a later page starts below the repeated blocks |
| PdfTable.CellsBreakIff | internal/pkg/export/pdf/pdf.go:151-153 | cells stay where they are iff they end at least 18 mm above the bottom, otherwise they move to the top margin of a later page |
| PdfTable.RowsWellPlacedIff | internal/pkg/export/pdf/pdf.go:157-178 | every row ends above page height minus 20 mm with no automatic break inside it iff no row needs a new page or a fresh page has room for one |
| PdfTable.RowsInOrder | internal/pkg/export/pdf/pdf.go:157-178 | of any two rows the later one is on a later page, or on the same page below the end of the earlier one |
| PermissionRegistry.Registry.RegisterPermission | internal/domain/permissions.go:45-49 | the last description for a key wins |
| PermissionRegistry.Registry.AllPermissions | internal/domain/permissions.go:64-72 | exactly the registered keys, strictly sorted |
| PermissionRegistry.Registry.PermissionGroups | internal/domain/permissions.go:91-124 | sorted categories of the keys, each with exactly its keys, sorted |
| PermissionRegistry.GroupsPartitionKeys | internal/domain/permissions.go:91-124 | every key is in exactly one group and no group is empty |
| PermissionRegistry.ConcatIsListingIff | internal/domain/permissions.go:63-124 | the concatenated groups are the sorted list iff no category, continued by a character below the dot, begins another, and keys without a category sort among the others as "unknown" does among their categories |
| PermissionRegistry.WellNamedGroupsConcatenate | internal/domain/permissions.go:63-124 | they are when every key has a category whose characters all sort after the dot |
| PermissionRegistry.HyphenBreaksConcatenation | internal/domain/permissions.go:83-88 | they are not for "a.x" and "a-b.x" |
| PermissionRegistry.WildcardIsGroupIff | internal/middleware/permission.go:121-126 | "category.*" matches exactly the group of that category, except "unknown.*" when a key without category is registered |

## Left out

- HTTP handlers, routing, JSON binding, rate limiting, authentication and password code: plumbing over libraries.
- Seeders and DeleteUser: they change tables without touching the cache, so the coherence result does not cover them.
- AllowedPermissions without an initialised repository, which lets every request through.
- GetPermissionMatrix, ListPermissions, GetAllRolesWithPermissions, QueryPermissionChanges: they hand query results on and change nothing.
- Reason, IP address, user agent and entry id of a log entry: copied through unchanged.
- Redis errors and undecodable cache values, which the code treats as a miss.
- Expiry of a cache entry in the middle of one request, in the one-operation-at-a-time model; the interleaved model has it.
- ChannelWorker.FifoOverRuns: is about one Start/Stop cycle, where it also excludes a double close; the order over restarts is OverlapIffCanReorder.
- ChannelService.Service.Stop: others may publish, send and stop meanwhile, but not start; a Start in between is part of the step relation.
- ChannelService.Service.Worker: the same; and it is the only worker.
- ChannelService.Service.Drain: the same.
- Dispatch itself: routing to namespace, room or everybody is the append to a trace.
- Two occurrences of one panel object in the dashboard list: the generator builds a new one per entry.
- MigrationFiles.CreateMigrationFile: lower-cases ASCII letters only, and does not write the files.
- The columns, fonts, colours, text and horizontal positions of PDF cells, the title block, the footer, and rounding of floats.
- The migration `list` command, which only prints.
