# Verification of the CMS backend

This project models four parts of the backend in Dafny and proves properties of them.

1. **The wiki tree** (`WikiForest`, `WikiAccess`, `WikiPath`, `WikiRuns`, `WikiService`). Rows name their parent. The chain of a row is the row, its parent, and so on up to a root; the closure table is the set of all (ancestor, descendant, distance) triples read off the chains. Proved: what a move does to chains, closure rows, breadcrumbs and access decisions; when steps and whole runs of steps keep the tree free of cycles; what an edit changes; that the access scan is the check up the parents; that the path lookup is sound, and exactly when it misses no folder; that parsing a path inverts spelling it.
2. **The transaction manager** (`TransactionErrors`, `TransactionManager`, `TransactionService`). An attempt runs connect, start, operation, commit, rollback and release, each of which may fail. Proved: which attempts are made, which result is returned, what is committed, how long a call waits, and that batches are all or nothing.
3. **The permission logs** (`PermissionLogs`, `PermissionScheduler`, `Replacement`). Scheduler runs close and create logs of inactive departments; administrators replace ids by hand. Proved: any interleaving of the parallel checks equals the checks one after another; over every history an item has at most one open log and no resolved log changes; a second run changes nothing; what the replacement loop does to a list of ids, and to the logs that later runs see.
4. **Reconciliation of rows** (`TextEntries`, `Translations`, `VoteResults`, `BatchOrder`). Loops that write rows one at a time are proved equal to a declarative result, with the exact condition under which they get to the end and what they leave when they do not.

Classes hold the tables that the services change in place, and their methods follow the loops of the services; pure functions specify them, and what these functions say is stated again in the fields of the rows. `Option` stands for values that may be null or undefined, `Result` for a call that returns or throws.

## How the outside world enters

- Identifiers are numbers. An id that the database generates is a parameter that is not yet in use.
- A query without an order may deliver its rows in any order: the code picks them arbitrarily. `findOne` picks any matching row.
- The SSO system is a map from department id to name and activity. It answers for the departments it is asked for and knows; it is asked for those that live items list.
- The database refuses a second row under a unique index and a row whose foreign key names no row. Soft-deleted rows still count for both. The tables obey their foreign keys at the start (`ForeignKeys`), which every modelled step keeps.
- The `code` of a database error is read by `TransactionErrors.ReadCode`; a raw error carries the result.
- Failing calls are parameters: `Faults` for the steps of an attempt, `Outage` for the calls of the permission checks, a failing read and a set of failing rows for revalidation, sets of rows or flags for failing saves. A failed commit publishes nothing.
- A scheduler run reads the clock once.

## Where the code differs from its intent

- `executeTransaction` is documented to retry. An error of the transaction is converted inside the attempt and again in the retry loop; the second conversion finds no code and gives up. `TransactionManager.PlainMakesOneAttempt` and `TransactionManager.PlainRetries` state exactly when it retries, `TransactionManager.PlainFormDoesNotRetryDeadlocks` gives an input.
- `executeTransaction` lets an error of `release` through even after the commit. The caller then sees an error although the data is stored, or the operation is applied twice (`TransactionManager.LostCommitIsRepeated`). `TransactionManager.CommitLaw` states exactly when this happens.
- The cycle test of a move ignores deleted rows, so a live folder can be moved under its own deleted descendant, which leaves it without a root (`WikiRuns.DeletedTargetMakesCycle`). `WikiRuns.StepKeepsForest` shows that this is the only such case.
- The cycle test and the save of a move are separate statements without a lock. Two overlapping moves that each move a row into the subtree of the other both pass and make a cycle, exactly then (`WikiRuns.OverlappingMoves`).
- A comment at `src/domain/sub/wiki-file-system/wiki-file-system.service.ts:332` says that deleting a row deletes its children. The code deletes one row. Deleting a folder therefore removes its access check from everything below it (`WikiRuns.DeleteWidensAccess`).
- The descent along a path never goes back. It can miss a folder that exists (`WikiPath.AmbiguousNamesCanMissTheFolder`), exactly if places with the same path differ in the names of their child folders (`WikiPath.LookupIsExactEverywhere`, for one path `WikiPath.LookupIsExact`).
- Replacing a department by hand adds a RESOLVED log but does not close the open one. A run closes that one exactly if all departments it records are still listed by live items and active (`PermissionLogs.RunClosesExactly`), so replacing the last mention of a department leaves it open and blocks new logs of its item (`Replacement.ReplacementBlocksLogs`); `Replacement.ReplacedDepartmentHidesInactiveOne` gives an input in which the new department is inactive and goes unrecorded.
- The replacement loop is not always the simultaneous substitution (`Replacement.ChainedMappingsCompose`). For any list and distinct old ids, `Replacement.LoopIsSubstitutionExactly` says when the returned list is the substitution, through the place that each mapping overwrites. Read off the list and the mappings alone: with no id listed twice it is the substitution if no mapping writes the old id of a later one in front of where it stands, or while it does not stand there; it is not if such a clash is about a listed id (`Replacement.ListedClashDiffers`), nor if no clashing id is written again after its turn (`Replacement.LoopIsSubstitution`). A clash about an unlisted id that is written again may be repaired or not (`Replacement.ClashMayBeRepaired`); only the first theorem decides it.
- A vote result of another meeting that is named in an update is overwritten (`VoteResults.ForeignVoteIsOverwritten`).
- The main-popup update reads the translations once and fails when a new language is named twice; the IR update does not (`Translations.StaleRefinesFresh`).
- The updates of translations and vote results do not check that a language exists. The foreign key then stops them half-way, without a transaction: what came before stays (`Translations.FreshStops`, `Translations.StaleStops`, `VoteResults.SaveStops`), and a new vote result is left without any text (`VoteResults.UnknownLanguageLeavesBareVote`).
- A failing save in the IR batch order leaves the other rows reordered, while the announcement form undoes them (`BatchOrder.FormsAgreeExactly`).

## Model

| member | source | states |
|---|---|---|
| `WikiForest.MoveSplicesChains` | src/domain/sub/wiki-file-system/wiki-file-system.service.ts:302-324 | moving a row outside its own subtree keeps a forest; every chain through the row keeps its part up to the row and continues with the chain of the new parent, every other chain stays |
| `WikiForest.MoveUnderDescendantMakesCycle` | src/domain/sub/wiki-file-system/wiki-file-system.service.ts:311-320 | hanging a row under itself or a descendant leaves some row without a root, which is what the cycle test is for |
| `WikiForest.MoveShiftsClosure` | src/domain/sub/wiki-file-system/wiki-file-system-closure.entity.ts:13-52 | after a move the closure rows of a moved row up to the moved root stay, those beyond are the rows of the new parent at shifted distance |
| `WikiForest.ChainHasNoRepeats` | src/domain/sub/wiki-file-system/wiki-file-system-closure.entity.ts:48-52 | no row is its own ancestor, so ancestor and descendant determine the distance |
| `WikiAccess.SubtreeAnswer` | src/domain/sub/wiki-file-system/wiki-file-system.service.ts:160-179 | for any order of the answer, the subtree read is exactly the live rows at or below, also those below deleted rows |
| `WikiAccess.DescendantCrumbs` | src/domain/sub/wiki-file-system/wiki-file-system.service.ts:160-179 | for any order of the answer, the subtree read lists each row that is not deleted once, with its distance below |
| `WikiAccess.BreadcrumbAnswer` | src/domain/sub/wiki-file-system/wiki-file-system.service.ts:184-203 | any answer ordered by falling depth yields the live rows of the chain from the root down with their distances |
| `WikiAccess.CrumbsMean` | src/domain/sub/wiki-file-system/wiki-file-system.service.ts:184-203 | a breadcrumb lists the rows of the chain that are not deleted with their distances, by falling distance |
| `WikiAccess.AllowedUpIsAlongChain` | src/domain/sub/wiki-file-system/wiki-file-system.service.ts:406-432 | the recursive check up the parents is the check of every live folder on the chain |
| `WikiAccess.ScanDecidesAccess` | src/domain/sub/wiki-file-system/wiki-file-system.service.ts:397-432 | scanning the live ancestor folders decides the recursive check; deleted rows and files on the way are skipped |
| `WikiAccess.AccessIsDecided` | src/domain/sub/wiki-file-system/wiki-file-system.service.ts:391-432 | in the fields of the rows: access is given if and only if the row is not a private file and every folder on its chain that is not deleted is public or lists the employee's rank, position or department in the list of that kind |
| `WikiAccess.AccessReachesFoldersAbove` | src/domain/sub/wiki-file-system/wiki-file-system.service.ts:372-433 | whoever may open a row may open every live folder above it |
| `WikiAccess.MoveLeavesOthers` | src/domain/sub/wiki-file-system/wiki-file-system.service.ts:302-324 | rows outside the moved subtree keep breadcrumb and access decision |
| `WikiAccess.MoveSplicesBreadcrumb` | src/domain/sub/wiki-file-system/wiki-file-system.service.ts:184-203 | the breadcrumb of a moved row is that of the new parent with shifted distances, then the old part |
| `WikiAccess.MoveSplicesAccess` | src/domain/sub/wiki-file-system/wiki-file-system.service.ts:379-433 | access to a moved row is the checks inside the moved subtree and the checks from the new parent upwards |
| `WikiRuns.StepKeepsForest` | src/domain/sub/wiki-file-system/wiki-file-system.service.ts:302-356 | a create, edit, move, visibility change or delete keeps every row connected to a root if and only if it does not hang a live row under its own deleted descendant |
| `WikiRuns.RunKeepsForest` | src/domain/sub/wiki-file-system/wiki-file-system.service.ts:27-356 | every run of creates, edits, moves, visibility changes and deletes keeps the forest if and only if no step makes that mistake |
| `WikiRuns.RejectionIsExact` | src/domain/sub/wiki-file-system/wiki-file-system.service.ts:311-318 | for any order in which the subtree is read, a live target is among the ids read, and is refused, if and only if it is the row itself or some number of parent hops below it |
| `WikiRuns.OverlappingMoves` | src/domain/sub/wiki-file-system/wiki-file-system.service.ts:309-323 | two moves of different rows that make their tests before either saves leave a forest if and only if not each moves its row into the subtree of the other |
| `WikiRuns.DeletedTargetMakesCycle` | src/domain/sub/wiki-file-system/wiki-file-system.service.ts:173-174 | because deleted descendants are dropped, an accepted move can make a cycle (a concrete table) |
| `WikiRuns.DeleteHidesOneRow` | src/domain/sub/wiki-file-system/wiki-file-system.service.ts:329-336 | a delete hides one row and changes no chain |
| `WikiRuns.DeleteWidensAccess` | src/domain/sub/wiki-file-system/wiki-file-system.service.ts:329-336 | after a delete access to the rows below is decided by the other folders alone |
| `WikiRuns.EditKeepsTree` | src/domain/sub/wiki-file-system/wiki-file-system.service.ts:227-270 | the general edit moves nothing and leaves the rows and distances of every breadcrumb |
| `WikiRuns.EditSparesOthers` | src/domain/sub/wiki-file-system/wiki-file-system.service.ts:227-270 | an edit changes the access to no row that is not at or below the edited one |
| `WikiRuns.EditReachesSubtree` | src/domain/sub/wiki-file-system/wiki-file-system.service.ts:255-265 | at and below the edited row access is decided by its own new check and the old checks of the other rows on the chain |
| `WikiRuns.PublishReachesOnlySubtree` | src/domain/sub/wiki-file-system/wiki-file-system.service.ts:275-297 | a visibility change keeps all chains and breadcrumbs, changes access only at or below the row, and there only by its own check |
| `WikiService.WikiFileSystemService.Query` | src/domain/sub/wiki-file-system/wiki-file-system.service.ts:163-171 | a query delivers each selected closure row once, in any order |
| `WikiService.WikiFileSystemService.QueryRootFirst` | src/domain/sub/wiki-file-system/wiki-file-system.service.ts:187-195 | a query ordered by falling depth delivers each selected row once, in that order |
| `WikiService.WikiFileSystemService.FolderStructure` | src/domain/sub/wiki-file-system/wiki-file-system.service.ts:160-179 | returns exactly the rows at or below the given one that are not deleted, each once with its distance |
| `WikiService.WikiFileSystemService.PathToRoot` | src/domain/sub/wiki-file-system/wiki-file-system.service.ts:184-203 | returns the rows of the chain that are not deleted with their distances, root first, and nothing for an unknown row |
| `WikiService.WikiFileSystemService.CreateFolder` | src/domain/sub/wiki-file-system/wiki-file-system.service.ts:27-55 | adds exactly one live folder, public by default, and keeps the forest; a missing parent is refused without a change |
| `WikiService.WikiFileSystemService.CreateFile` | src/domain/sub/wiki-file-system/wiki-file-system.service.ts:60-104 | adds exactly one live file without permission lists and keeps the forest |
| `WikiService.WikiFileSystemService.UpdatePath` | src/domain/sub/wiki-file-system/wiki-file-system.service.ts:302-324 | field by field: a move of a live row changes its parent and nothing else; an unknown row, a live target on whose chain the row is, and a missing target are refused, each with its error; the forest is kept if and only if the row is not hung under its own deleted descendant |
| `WikiService.WikiFileSystemService.UpdateWiki` | src/domain/sub/wiki-file-system/wiki-file-system.service.ts:227-270 | field by field: the name, visibility and lists that are given replace those of a live row, everything else stays; other rows are not found |
| `WikiService.WikiFileSystemService.UpdateVisibility` | src/domain/sub/wiki-file-system/wiki-file-system.service.ts:275-297 | field by field: visibility and the lists that are given replace those of a live row, everything else stays |
| `WikiService.WikiFileSystemService.DeleteWiki` | src/domain/sub/wiki-file-system/wiki-file-system.service.ts:329-336 | soft-deletes one live row, refuses others, keeps the forest |
| `WikiService.WikiFileSystemService.DeleteEmptyFolder` | src/domain/sub/wiki-file-system/wiki-file-system.service.ts:341-356 | deletes only a live folder without live children, otherwise names the reason and changes nothing |
| `WikiService.WikiFileSystemService.CheckAccess` | src/domain/sub/wiki-file-system/wiki-file-system.service.ts:379-433 | the scan with early exit, in any order of rows, returns the decision in the fields of the rows; an unknown or deleted row is not found |
| `WikiService.WikiFileSystemService.FolderAtPath` | src/domain/sub/wiki-file-system/wiki-file-system.service.ts:475-535 | a returned row ends a path of folders that are not deleted, one under the other, with exactly the parsed names; a failure names a dead end of the descent; where the places on the way are alike it succeeds if and only if such a folder exists |
| `WikiPath.ParseYieldsSegments` | src/domain/sub/wiki-file-system/wiki-file-system.service.ts:478-495 | parsing returns the non-empty pieces of the trimmed path or says that there are none; the third error is never raised |
| `WikiPath.SpellingRoundTrip` | src/domain/sub/wiki-file-system/wiki-file-system.service.ts:478-495 | any spelling of a list of names parses back to it, whatever the number of slashes, if and only if no outer white space is exposed to trim |
| `WikiPath.ParsedPathIsCanonical` | src/domain/sub/wiki-file-system/wiki-file-system.service.ts:478-495 | whatever is parsed is a non-empty list of names that its canonical spelling parses to again |
| `WikiPath.TrimLosesLetters` | src/domain/sub/wiki-file-system/wiki-file-system.service.ts:484 | trimming removes a character of a name exactly if the path starts or ends with white space |
| `WikiPath.OuterCharacter` | src/domain/sub/wiki-file-system/wiki-file-system.service.ts:484-491 | a character before or after a name is dropped if and only if it is one of 25 white space characters or a slash |
| `WikiPath.LocatedIsBreadcrumb` | src/domain/sub/wiki-file-system/wiki-file-system.service.ts:500-534 | a folder lies at a list of names if and only if its whole chain consists of live folders and the names on its breadcrumb are that list |
| `WikiPath.LocatedIsPath` | src/domain/sub/wiki-file-system/wiki-file-system.service.ts:503-527 | a located folder is reached from the top through folders that are not deleted, with exactly the names |
| `WikiPath.PathIsLocated` | src/domain/sub/wiki-file-system/wiki-file-system.service.ts:503-527 | and every folder so reached is located |
| `WikiPath.LookupIsExact` | src/domain/sub/wiki-file-system/wiki-file-system.service.ts:503-527 | if a folder lies at a path, no descent along it can end early if and only if all places with the same part of the path agree on whether the next folder is there |
| `WikiPath.LookupIsExactEverywhere` | src/domain/sub/wiki-file-system/wiki-file-system.service.ts:475-535 | a descent that ends early always means that nothing lies at the path, for every path, if and only if folders at the same path have child folders of the same names |
| `WikiPath.UniqueNamesAreAlike` | src/domain/sub/wiki-file-system/wiki-file-system.service.ts:508-515 | unique sibling names are enough for that |
| `WikiPath.RenameSparesOthers` | src/domain/sub/wiki-file-system/wiki-file-system.service.ts:252 | a rename changes the paths of no folder that is not at or below the renamed row |
| `WikiPath.RenameMovesPaths` | src/domain/sub/wiki-file-system/wiki-file-system.service.ts:252 | a folder m levels below the renamed row lies at exactly its old path with the new name in place of the old one |
| `WikiPath.AmbiguousNamesCanMissTheFolder` | src/domain/sub/wiki-file-system/wiki-file-system.service.ts:508-522 | without unique names it can (a concrete table) |
| `WikiPath.DeletedParentHidesFolder` | src/domain/sub/wiki-file-system/wiki-file-system.service.ts:508-515 | a live folder below a deleted one is found by no path |
| `TransactionErrors.HandleDatabaseError` | libs/database/transaction-manager.service.ts:96-233 | the conversion returns a database exception that wraps the error, or throws an HTTP exception |
| `TransactionErrors.ConversionOfRaw` | libs/database/transaction-manager.service.ts:80-233 | in the fields of a raw error: business errors (response with status, status code 400 to 599, exception name with getStatus) pass, DUPLICATE_ codes become conflicts, each of 16 codes gives its kind, the rest depends on the class of the error |
| `TransactionErrors.RetriedErrors` | libs/database/transaction-manager.service.ts:238-271 | only raw errors of four kinds are retried; a converted error never is |
| `TransactionErrors.RetriedCodes` | libs/database/transaction-manager.service.ts:124-213 | these are the errors with one of ten codes |
| `TransactionErrors.SecondConversionGivesUp` | libs/database/transaction-manager.service.ts:226-232 | converting a converted error yields an unknown error, which ends the retries |
| `TransactionManager.CallOrder` | libs/database/transaction-manager.service.ts:298-320 | every attempt releases its runner once, as the last call; it rolls back exactly if the try block failed, right before; it commits exactly if all earlier steps worked |
| `TransactionManager.AttemptLaw` | libs/database/transaction-manager.service.ts:250-283 | in every form attempts are made up to the first that stops or the limit, each from the store left by its predecessors; the call ends with the store and result of the last |
| `TransactionManager.FirstFailingStep` | libs/database/transaction-manager.service.ts:292-312 | the error of a try block is that of its first failing step, and it then changes nothing |
| `TransactionManager.AttemptErrors` | libs/database/transaction-manager.service.ts:309-323 | in the plain form an error of release hides all others, then one of rollback; the other forms hide both |
| `TransactionManager.BusinessErrorPassesThrough` | libs/database/transaction-manager.service.ts:262-264 | every form: a business error thrown by the operation ends the call after one attempt and comes out unchanged, unless a later step of the plain form fails |
| `TransactionManager.OtherRawErrorsAreConverted` | libs/database/transaction-manager.service.ts:266-272 | no other raw error comes out unconverted |
| `TransactionManager.RetryLaw` | libs/database/transaction-manager.service.ts:442-544 | raw forms: attempts up to the first that stops or the limit; the result of that attempt is returned; the store has its effects alone if the call returns and is untouched if it throws; it returns exactly if all steps of that attempt work |
| `TransactionManager.RawFormsRetry` | libs/database/transaction-manager.service.ts:463-480 | raw forms: an attempt is repeated exactly for a retryable error of its own steps, whatever rollback and release do |
| `TransactionManager.NullIsThrownWithoutAttempts` | libs/database/transaction-manager.service.ts:255-282 | the statement after the loop is reached exactly when no attempt is allowed |
| `TransactionManager.CommitLaw` | libs/database/transaction-manager.service.ts:292-325 | all forms: one commit if the call returns and none if it throws, if and only if no attempt that is reached (allowed, and no earlier one stops) commits and then fails to release; the store then is that of the last attempt or the original |
| `TransactionManager.PlainRetries` | libs/database/transaction-manager.service.ts:309-320 | plain form: an attempt is repeated exactly for a raw retryable error of the release or, failing that, of the rollback |
| `TransactionManager.PlainMakesOneAttempt` | libs/database/transaction-manager.service.ts:292-325 | with working rollback and release the plain form makes one attempt, whose result or twice converted error is returned |
| `TransactionManager.PlainFormDoesNotRetryDeadlocks` | libs/database/transaction-manager.service.ts:317-322 | a deadlock that passes on the second attempt: the isolation form recovers, the plain form throws |
| `TransactionManager.LostCommitIsRepeated` | libs/database/transaction-manager.service.ts:306-320 | a release that fails once after the commit makes the plain form apply its operation twice |
| `TransactionManager.BackoffClosedForm` | libs/database/transaction-manager.service.ts:273-278 | closed form of the total wait after k retried failures |
| `TransactionManager.BackoffBound` | libs/database/transaction-manager.service.ts:257-279 | the wait depends only on the number of attempts and is at most five seconds per allowed retry |
| `TransactionManager.BatchResults` | libs/database/transaction-manager.service.ts:390-397 | results come in order, each from the store its predecessor left; an error is that of the first failing operation |
| `TransactionManager.BatchIsAllOrNothing` | libs/database/transaction-manager.service.ts:386-399 | a batch stores the effects of all operations or of none, as long as no commit is lost |
| `TransactionService.TransactionManagerService.RunAttempt` | libs/database/transaction-manager.service.ts:447-480 | one attempt, with the calls of the specification: exactly one release, at the end, whatever fails |
| `TransactionService.TransactionManagerService.ExecuteWithRetry` | libs/database/transaction-manager.service.ts:250-283 | the loop ends with the store, result, attempts, wait, commits and release calls of the specification |
| `TransactionService.TransactionManagerService.ExecuteTransaction` | libs/database/transaction-manager.service.ts:292-325 | as specified for the plain form; with no lost commit an error leaves the store untouched; a business error comes out unchanged after one attempt, and a raw error comes out only if it is one |
| `TransactionService.TransactionManagerService.ExecuteReadOnlyTransaction` | libs/database/transaction-manager.service.ts:442-485 | the store changes only if the call returns, by the last attempt alone; as many releases as runners |
| `TransactionService.TransactionManagerService.ExecuteTransactionWithIsolationLevel` | libs/database/transaction-manager.service.ts:495-544 | the same for a chosen isolation level |
| `TransactionService.TransactionManagerService.RunOperations` | libs/database/transaction-manager.service.ts:389-398 | the loop runs the operations in order and stops at the first error |
| `TransactionService.TransactionManagerService.ExecuteBatchTransaction` | libs/database/transaction-manager.service.ts:386-399 | with no lost commit all effects and one result per operation, or an error and no effect |
| `PermissionLogs.InvalidAreInactive` | src/context/announcement-context/announcement-permission.scheduler.ts:146-161 | the invalid departments are exactly the listed ones that are known and inactive, with their names |
| `PermissionLogs.ClassificationPartitions` | src/context/announcement-context/announcement-permission.scheduler.ts:141-161 | every listed department goes to exactly one of the two lists |
| `PermissionLogs.NeedsLogIffInactive` | src/context/wiki-context/wiki-permission.scheduler.ts:158-161 | a log is called for if and only if some listed department is known and inactive |
| `PermissionLogs.NewLogRecords` | src/context/announcement-context/announcement-permission.scheduler.ts:141-208 | a new log is open, belongs to the item, records as invalid exactly its listed departments that are known and inactive, with names and multiplicity, and keeps ranks, positions and all listed departments with the names that are known |
| `PermissionLogs.AddsMeans` | src/context/announcement-context/announcement-permission.scheduler.ts:127-190 | a check creates a log if and only if the item lists a known inactive department, no call fails, and the item has no detected, unresolved log |
| `PermissionLogs.SequentialChecksAdd` | src/context/announcement-context/announcement-permission.scheduler.ts:169-211 | for distinct items each check depends only on the logs at the start |
| `PermissionLogs.AnyInterleavingIsSequential` | src/context/announcement-context/announcement-permission.scheduler.ts:84-103 | any order of the find and save steps of a batch leaves the logs of the checks one after another, up to order, changes no earlier log, and reports the created ones |
| `PermissionLogs.OverlappingChecksCreateTwoLogs` | src/context/announcement-context/announcement-permission.scheduler.ts:168-211 | two overlapping checks of the same item create two open logs |
| `PermissionLogs.RunKeepsAtMostOneOpen` | src/context/wiki-context/wiki-permission.scheduler.ts:163-179 | a run, also one that fails midway, never leaves an item with two open logs |
| `PermissionLogs.RunPreserves` | src/context/announcement-context/announcement-permission.scheduler.ts:259-284 | a run removes no log, changes no record, and changes no resolved log |
| `PermissionLogs.HistoryKeepsLogs` | src/context/announcement-context/announcement-permission.scheduler.ts:38-311 | over every history of runs, failures (after any subset of the closable logs), edits and replacements: at most one open log per item, no log lost, resolved logs final |
| `PermissionLogs.RunPostcondition` | src/context/wiki-context/wiki-permission.scheduler.ts:56-96 | after a run without failures every item with an inactive department has exactly one open log; an open log was closed if and only if its departments are recorded, known and active |
| `PermissionLogs.SecondRunChangesNothing` | src/context/wiki-context/wiki-permission.scheduler.ts:219-276 | a second run with the same answer leaves the logs as they are |
| `PermissionLogs.RunClosesExactly` | src/context/announcement-context/announcement-permission.scheduler.ts:259-284 | a run closes exactly the unresolved logs of live items that record departments, each listed by some live item and active, as far as it gets to them: resolved by nobody at the time of the run; no other log changes |
| `PermissionLogs.RunRecords` | src/context/announcement-context/announcement-permission.scheduler.ts:127-208 | each log that a run adds records a live item as the SSO system describes its departments |
| `PermissionLogs.RunCreatesExactly` | src/context/announcement-context/announcement-permission.scheduler.ts:79-103 | a run without failures adds a log for exactly the live items that list an inactive department and have no unresolved log left |
| `PermissionLogs.UnlistedDepartmentBlocksLogs` | src/context/announcement-context/announcement-permission.scheduler.ts:54-77 | over every history: while no live item lists one of its departments, an open log stays as it is and no run creates a log for its item |
| `PermissionScheduler.Scheduler.SplitDepartments` | src/context/announcement-context/announcement-permission.scheduler.ts:141-161 | the loop produces the two lists of the specification |
| `PermissionScheduler.Scheduler.AllReactivated` | src/context/announcement-context/announcement-permission.scheduler.ts:266-275 | true exactly if all recorded departments are known and active |
| `PermissionScheduler.Scheduler.Revalidate` | src/context/announcement-context/announcement-permission.scheduler.ts:237-311 | closes in place, in any order of rows, exactly the reactivated open logs of the items that are reached before the read or an update fails; it fails exactly if the read or the update of such a row does |
| `PermissionScheduler.Scheduler.StepOneCheck` | src/context/announcement-context/announcement-permission.scheduler.ts:127-229 | one find or save step: the find goes on exactly if a log is called for and none is open, the save adds one log that records the item |
| `PermissionScheduler.Scheduler.CheckBatch` | src/context/announcement-context/announcement-permission.scheduler.ts:87-89 | letting any unfinished check go on until all are done adds exactly the logs of the specification, up to order; each records an item of the batch, and a check reports true exactly if it had reason to create one |
| `PermissionScheduler.Scheduler.SliceEnd` | src/context/announcement-context/announcement-permission.scheduler.ts:79-85 | a slice has ten items, the last one what is left |
| `PermissionScheduler.Scheduler.CheckInSlices` | src/context/announcement-context/announcement-permission.scheduler.ts:79-103 | the slices of ten cover each item once; each added log records an item; processedCount is the number of items and invalidCount the number of new logs |
| `PermissionScheduler.Scheduler.Run` | src/context/wiki-context/wiki-permission.scheduler.ts:38-119 | a run is an event of a history; in the fields of logs and items: it closes the logs that are due and that it gets to, changes no other, and adds logs that record live items; with errors caught per item, or without errors, it reaches all items |
| `Replacement.IndexOf` | src/business/announcement-business/announcement-business.service.ts:1068 | the first position of an id, or -1 exactly if it is missing |
| `Replacement.ReplacementConserves` | src/business/announcement-business/announcement-business.service.ts:1062-1080 | the list keeps its length; each hit trades one old id for one new id |
| `Replacement.ReplacementIsSimultaneous` | src/business/wiki-business/wiki-business.service.ts:539-554 | without duplicates, with distinct old ids and no new id replaced again, the loop is the simultaneous substitution |
| `Replacement.LoopIsRace` | src/business/announcement-business/announcement-business.service.ts:1067-1077 | with distinct old ids each mapping overwrites the first place at which its old id has arrived, and each place holds what was last written there |
| `Replacement.LoopIsSubstitutionExactly` | src/business/announcement-business/announcement-business.service.ts:1062-1080 | for any list and distinct old ids, the returned list is the simultaneous substitution if and only if at every place whose id is mapped to another, its mapping overwrites that place, and what it wrote is not overwritten without being written there again |
| `Replacement.LoopIsSubstitution` | src/business/announcement-business/announcement-business.service.ts:1062-1080 | without duplicates, with distinct old ids, and unless a clash is about an unlisted id that is written again after its turn: the returned list is the substitution if and only if no mapping clashes with a later one |
| `Replacement.ListedClashDiffers` | src/business/announcement-business/announcement-business.service.ts:1067-1077 | without duplicates and with distinct old ids, a clash about a listed id always makes the returned list differ |
| `Replacement.ClashMayBeRepaired` | src/business/announcement-business/announcement-business.service.ts:1067-1077 | concrete mappings: a clash that a third mapping repairs, and one that is written again and not repaired |
| `Replacement.ChainedMappingsCompose` | src/business/wiki-business/wiki-business.service.ts:543-551 | chained mappings are composed instead (a concrete case) |
| `Replacement.ReplacedCount` | src/business/announcement-business/announcement-business.service.ts:1067-1077 | each mapping takes away one occurrence of its old id as long as there is one; occurrences beyond the number of mappings stay |
| `Replacement.ReplacementUnlists` | src/business/announcement-business/announcement-business.service.ts:1029-1135 | a department that is not brought in is listed by no live item afterwards if and only if no other live item lists it and there is a mapping for each occurrence |
| `Replacement.ReplacementBlocksLogs` | src/business/announcement-business/announcement-business.service.ts:1029-1135 | after replacing the last mention of a department, its open log stays over every later history that does not list it again, and its item gets no new log |
| `Replacement.ReplacedDepartmentHidesInactiveOne` | src/business/announcement-business/announcement-business.service.ts:1102-1125 | a concrete replacement after which a run exists, and every run neither closes the old log nor records the new, inactive department |
| `Replacement.ReplacementCanBeUndone` | src/business/announcement-business/announcement-business.service.ts:1062-1080 | with distinct new ids that are not in the list the inverse mappings, last first, restore it |
| `Replacement.FindIndex` | src/business/announcement-business/announcement-business.service.ts:1068 | the search returns the first position or -1 |
| `Replacement.ReplaceInPlace` | src/business/announcement-business/announcement-business.service.ts:1067-1077 | the loop overwrites the copy in place as specified and counts the hits |
| `Replacement.ReplaceList` | src/business/announcement-business/announcement-business.service.ts:1062-1080 | a request without mappings leaves the list alone, otherwise a missing list counts as empty |
| `Replacement.PermissionBusinessService.ReplacePermissions` | src/business/announcement-business/announcement-business.service.ts:1029-1135 | field by field: both lists of the one live item are replaced and one RESOLVED log with its item, time, user and permissions is added, or nothing changes; the hit counts are returned; a success is an event of a history |
| `Translations.StaleRefinesFresh` | src/context/main-popup-context/main-popup-context.service.ts:201-241 | reading the rows for each entry succeeds if and only if the owner and every named language exist; reading them once succeeds if and only if moreover no language without a row is named twice, and then gives the same table |
| `Translations.FreshStops` | src/context/ir-context/ir-context.service.ts:201-247 | the update that reads again leaves exactly the entries before the first one whose owner or language does not exist |
| `Translations.StaleStops` | src/context/main-popup-context/main-popup-context.service.ts:201-241 | the update that reads once leaves exactly the entries before the first missing reference or the first second insert for a language, and says which |
| `Translations.UpsertKeys` | src/context/ir-context/ir-context.service.ts:201-247 | one row per old or named language, rows of other languages and owners unchanged |
| `Translations.UpsertMeans` | src/context/ir-context/ir-context.service.ts:201-247 | row by row: one row per old or named language, others unchanged; the last title, unsynchronised; the last description supplied, where only a new row may turn an empty one into null; without one the old description |
| `Translations.LastTitleWins` | src/context/ir-context/ir-context.service.ts:201-247 | the last title of a language is kept, and the row is no longer synchronised |
| `Translations.LastDescriptionWins` | src/domain/core/ir/ir.service.ts:199-243 | the last description supplied is kept as given; only in a new row an empty one becomes null, unless the service keeps it |
| `Translations.DescriptionStays` | src/context/ir-context/ir-context.service.ts:225 | without a supplied description the old one stays |
| `TextEntries.LanguageCount` | src/context/ir-context/ir-context.service.ts:106-110 | the set of languages is as large as the payload if and only if none repeats |
| `Translations.CreatedRowsCover` | src/context/ir-context/ir-context.service.ts:126-160 | one row per provided or active language: provided ones unsynced with their own text, others synced with the text of the first Korean entry or else the first; a description is stored as given, an empty one as null unless the service keeps it, a missing one as null |
| `Translations.RefusalMeans` | src/context/ir-context/ir-context.service.ts:99-110 | a creation is refused for an unknown or deleted language, then for a repeated one, then if there is nothing to copy |
| `Translations.BaseIndex` | src/context/ir-context/ir-context.service.ts:138-142 | the base text is the Korean one if provided, otherwise the first |
| `Translations.TranslationService.Check` | src/context/main-popup-context/main-popup-context.service.ts:100-110 | the checks refuse an unknown language, then a repeated one |
| `Translations.TranslationService.Create` | src/context/shareholders-meeting-context/shareholders-meeting-context.service.ts:118-181 | a creation is refused for exactly those reasons, or adds exactly the covering rows and touches no other |
| `Translations.TranslationService.UpdateFresh` | src/context/ir-context/ir-context.service.ts:201-247 | succeeds if and only if owner and languages exist, and then leaves the rows as said above; otherwise the rows of the entries before the first missing reference; keeps the foreign keys |
| `Translations.TranslationService.UpdateStale` | src/context/main-popup-context/main-popup-context.service.ts:201-241 | the same, and it also stops at the second insert for one language, with another error; keeps the foreign keys |
| `VoteResults.UpdateSucceeds` | src/context/shareholders-meeting-context/shareholders-meeting-context.service.ts:382-493 | an update succeeds if and only if every language named exists and every entry names a live result, or brings usable texts for an existing meeting |
| `VoteResults.EntryFailsWith` | src/context/shareholders-meeting-context/shareholders-meeting-context.service.ts:382-491 | which of the five errors an entry ends with, in the fields of the entry and the tables |
| `VoteResults.UpdateKeepsForeignKeys` | src/domain/core/shareholders-meeting/vote-result-translation.entity.ts:20-36 | an update, also one that fails half-way, leaves every row referring to existing rows |
| `VoteResults.SaveStops` | src/context/shareholders-meeting-context/shareholders-meeting-context.service.ts:398-443 | the texts of an existing result are saved up to the first new one in an unknown language |
| `VoteResults.UpdateStops` | src/context/shareholders-meeting-context/shareholders-meeting-context.service.ts:381-493 | a failing update applies the entries before the first one that does not work, gets as far into that one as it can, and looks at no later one |
| `VoteResults.UnknownLanguageLeavesBareVote` | src/context/shareholders-meeting-context/shareholders-meeting-context.service.ts:446-469 | for any payload: if the first entry that does not work is a new result with a text in an unknown language, it is stored without any text and the update ends with an error |
| `VoteResults.UpdateMatchesPayload` | src/context/shareholders-meeting-context/shareholders-meeting-context.service.ts:357-498 | afterwards the live results of the meeting and the entries match one to one with the entry's fields, the others are deleted, everything else is untouched |
| `VoteResults.VoteAfterUpdate` | src/domain/core/shareholders-meeting/shareholders-meeting.service.ts:350-394 | for any payload: the last entry naming a result decides its fields |
| `VoteResults.ForeignVoteIsOverwritten` | src/domain/core/shareholders-meeting/shareholders-meeting.service.ts:356-368 | whether the update succeeds or fails: a live result of another meeting stays as it is if and only if no entry tried names it or the last of them has the same fields; otherwise it takes those fields |
| `VoteResults.TextsAfterUpdate` | src/context/shareholders-meeting-context/shareholders-meeting-context.service.ts:398-491 | an added result has one text per provided or active language, its own last one unsynced or a synced copy of the base text; a changed one its provided texts replaced, any other its old texts |
| `VoteResults.CreationAdds` | src/context/shareholders-meeting-context/shareholders-meeting-context.service.ts:188-246 | creating the results of a meeting succeeds if and only if the meeting and all languages exist and every entry brings usable texts; then each entry is one result with one text per provided or active language, and nothing else changes |
| `VoteResults.FirstFor` | src/context/shareholders-meeting-context/shareholders-meeting-context.service.ts:223-226 | the base text is looked for from the front: the first in the preferred language |
| `VoteResults.BaseTitleIsBase` | src/context/shareholders-meeting-context/shareholders-meeting-context.service.ts:223-226 | the base text is the first in the preferred language, or the first of all if there is none |
| `VoteResults.LastTitleIsLast` | src/context/shareholders-meeting-context/shareholders-meeting-context.service.ts:417-443 | the title of a language is that of its last entry |
| `VoteResults.VoteResultService.Create` | src/context/shareholders-meeting-context/shareholders-meeting-context.service.ts:188-246 | the loop that creates results and texts row by row succeeds exactly then, reaches that state, and keeps the foreign keys |
| `VoteResults.VoteResultService.ApplyAll` | src/context/shareholders-meeting-context/shareholders-meeting-context.service.ts:381-493 | the loop applies the entries in order and stops at the first error |
| `VoteResults.VoteResultService.DeleteMissing` | src/context/shareholders-meeting-context/shareholders-meeting-context.service.ts:363-379 | deleting row by row removes exactly the live results of the meeting that are not kept |
| `VoteResults.VoteResultService.ApplyOne` | src/context/shareholders-meeting-context/shareholders-meeting-context.service.ts:382-493 | one entry changes or adds one result and its texts, or stops with an error and keeps what it wrote |
| `VoteResults.VoteResultService.Update` | src/context/shareholders-meeting-context/shareholders-meeting-context.service.ts:357-498 | the nested loops end in the specified state, also when an entry fails; success has exactly the stated condition |
| `BatchOrder.LastOrderIsLast` | src/domain/core/ir/ir.service.ts:275-279 | the order of an id is that of its last entry |
| `BatchOrder.DistinctIdsAtMostEntries` | src/domain/core/ir/ir.service.ts:258-259 | the two reported counts agree if and only if no id repeats |
| `BatchOrder.OrdersArrive` | src/domain/core/announcement/announcement.service.ts:393-420 | after a batch every named row that does not fail has the order of its last entry and the editor if one is given, keeps its deletion mark, and every other row is unchanged |
| `BatchOrder.EndMeans` | src/domain/core/ir/ir.service.ts:254-272 | an empty batch, a missing or deleted row, and a failing save end it with their errors, in this order |
| `BatchOrder.OrderService.UpdateSequentially` | src/domain/core/announcement/announcement.service.ts:353-452 | last entry per id wins, row by row; nothing changes when the payload is empty, an id is missing or an update fails; reports the number of entries |
| `BatchOrder.OrderService.BuildOrderMap` | src/domain/core/ir/ir.service.ts:275-279 | the map holds the last order of each id |
| `BatchOrder.OrderService.UpdateByMap` | src/domain/core/ir/ir.service.ts:248-303 | the same rows without failing saves; a failing save is reported and the named rows whose saves work have their order all the same; reports the number of distinct ids |
| `BatchOrder.FormsAgreeExactly` | src/domain/core/ir/ir.service.ts:282-295 | the two forms leave the same table if and only if no named row fails, or the other named rows would not change anyway |

## Left out

- Controllers, DTO validation, modules, logging, storage, the SSO requests themselves, notifications and e-mail.
- The trigger that maintains the closure table: its rows are defined from the parents. It is not part of this model what the table holds once a cycle exists.
- Wiki search and listing, and the title, content, file, attachments, order and editor of a wiki row: they touch neither the tree nor access nor paths.
- Column types and lengths; of the database constraints only unique indexes and foreign keys.
- `executeNestedTransaction` and `executeTransactionWithDomainEvents`: savepoints and event collection add nothing to the commit law.
- Texts of log notes, log ids and detection times; each log is identified by its row.
- Overlapping wiki steps other than two moves.
- Overlapping runs of one scheduler; `PermissionLogs.OverlappingChecksCreateTwoLogs` shows why they are excluded.
- Organisation-tree recipient extraction; the payload it reads is not part of this model.
- Translation entries that carry the id of a row, which need not belong to the edited entity.
- Soft-deleted translation rows, which still occupy the unique index.
- Entity fields other than order and editor in the batch order, and the date columns everywhere.
- TransactionService.TransactionManagerService.ExecuteReadOnlyTransaction: that the database refuses writes in read-only mode is left to the operation, which then throws.
- TransactionErrors.RetriedCodes: codes that are not strings count as no code.
- Replacement.PermissionBusinessService.ReplacePermissions: the wiki form also records no user when the user id is not a UUID; the user is taken as given.
