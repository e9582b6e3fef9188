# papaia-manager: a verified model

papaia-manager is the web service that looks after a papaia installation: it runs the core's
command line and shows its output, edits Keycloak roles, plans backups, upgrades add-ons and the
core, grants roles access to vector collections, cleans up Docker images and reports model usage.
Most of that is calls to other programs. This project models the parts that are algorithms or
state machines of their own, in Dafny, and proves what they promise.

`dafny verify dfyconfig.toml` checks the whole project.

## How the model is built

One module stands for one component. Code that changes state is a class with the same fields, or
a method with the same loops over sequences and arrays, proved against a function or a transition
of the state; what the component promises is proved about that function, or about every run of
the transitions. Calls to Keycloak, Qdrant, Docker and papaia-ctl are maps that a call changes or
leaves alone, and steps that may stop half-way. The clock is an integer.

| module | component |
|---|---|
| `LineSplitter` | the line reader behind every streamed log |
| `Graph`, `Roles`, `RolesService` | composite roles and the guard against cycles |
| `Retention` | retention, overdue and catch-up arithmetic, and pruning |
| `Weekdays`, `Presets` | the weekday field, cron expressions and presets |
| `Scheduler` | slots, retries and catch-ups of the backup scheduler |
| `Snapshots`, `AddonHistory` | add-on versions on disk and the record of them |
| `AclStore`, `CollectionStore` | role grants of vector collections |
| `JobQueue`, `TokenRefresh` | the single-flight job worker and the single-flight token refresh |
| `Images`, `ImagePrune` | image references, the outdated verdict, and the removal |
| `SemVer` | version precedence and the changelog between two versions |
| `WidgetIds`, `Tiles` | widget ids, and the dashboard document read and written |
| `ModelUsage`, `ModelSlots` | sums of the usage report, and the colour slots |
| `Resolve` | add-ons that several catalogs ship |
| `UpgradePhases` | the phases of an upgrade as read from its log |
| `Services` | the health of modules, and the services they should have |
| `Splitting`, `Text`, `Sorting`, `Collections`, `Wrappers` | what the others share |

## Where the code falls short of what is said about it

The code was kept as it is. Each of these has a lemma with an input, and a lemma that says exactly
when the promise holds.

- The walk that guards role edits stops at 500 roles. It is exact for all realms with at most `n`
  roles below the start if and only if `n <= 500` (`Roles.WalkLimit`); in a realm of 501 roles an
  edit can close a cycle (`RolesService.LargeRealmCanLoop`).
- Editing a role that contains one of Keycloak's own roles adds the new members and then fails
  on a lookup before it removes any (`RolesService.HolderOfOwnRoleCrashes`). An accepted edit does
  so if and only if the role contains one of those and no earlier call fails
  (`RolesService.CrashesExactly`).
- The message of the retention check says that the shortest retention keeps two restore points.
  One failed run is enough to leave one (`Retention.FailedRunLeavesOne`). Two points survive a
  failed run exactly when `Retention.TwoPointsLimit` says so, and any run of them exactly when
  `Retention.TwoPointsOverRuns` does; after a good run there are always two
  (`Retention.EveryGoodRunLeavesTwo`). How late a prune may be is `Retention.PruneDelayLimit`.
- Setting the roles of a collection makes the request the complete list if and only if the second
  points of a role grant nothing but what is requested (`AclStore.GrantsLandExactly`, with the
  input `AclStore.SpareGrantStays`), with one point for each role if and only if no role had two
  (`AclStore.LandsExactlyWithoutDuplicates`).
- It leaves all other grants alone if and only if no derived id was taken
  (`AclStore.FramesExactlyWithFreeIds`, with the input `AclStore.GlobalGrantIsOverwritten`).
- The token refresh forgets a lock that is in use once more than 512 are known. No token is
  exchanged twice at once, in all runs with at most `n` locks whenever a request enters, if and
  only if `n <= 512` (`TokenRefresh.LockTableLimit`); 514 requests with 513 tokens do it
  (`TokenRefresh.CrowdOverlaps`).
- Pruning snapshots with a list of directories to keep that was read before an upgrade can remove
  the directory that was just registered (`Snapshots.StalePruneLoses`), unless it has a place
  (`Snapshots.StalePruneCanLose`).
- A rollback after an upgrade that did not change the commit, which is every upgrade from a local
  catalog, can lose the commit (`AddonHistory.LocalRollbackForgets`); it finds it again exactly
  when `AddonHistory.RollbackOfSameCommit` says so.
- The pattern for widget ids lets one line feed through at the end (`Tiles.LineFeedPasses`), and
  nothing else that does not fit a URL path (`Tiles.IdsThatPass`).
- Two models whose names differ in case alone swap their colours with the order they come in
  (`ModelSlots.CaselessTwinsSwap`); colours are stable if and only if there are none such
  (`ModelSlots.SlotsAreStableExactly`).
- A section whose containers are all healthy can read as unknown
  (`Services.EmptyModuleHidesHealth`); its health is the worst of its containers unless an empty
  module hides that everything is healthy or completed (`Services.OverallIsWorst`).
- The cleanup phase of an upgrade can go from done to skipped when the log is read in the middle
  of its last line (`UpgradePhases.CutOutcomeMovesBack`), and as the log grows in no other way
  (`UpgradePhases.CutOutcomeMovesBackExactly`).
- The page reads the last 2000 lines of the log. A phase whose announcement has left that window
  goes back, from done to skipped say (`UpgradePhases.WindowLosesBackup`); no phase does if and
  only if everything announced before is still announced in the window
  (`UpgradePhases.WindowMovesForwardExactly`, and `UpgradePhases.WindowKeepsCleanupExactly` for
  the cleanup).

## Model

| member | source | states |
|---|---|---|
| LineSplitter.StreamLines | src/app/core/ctl.py:874-911 | for every way of cutting a stream into reads the lines are those of the whole stream; each byte received is searched once; between reads the buffer holds at most the cap, and never more than the cap and one read |
| LineSplitter.TakeLines | src/app/core/ctl.py:882-909 | the inner loop takes every line the buffer holds, keeps the bytes consumed in step with the lines yielded, leaves no newline behind and no more than the cap, and searches each byte after the resume index once |
| LineSplitter.PiecesAreTheSplit | src/app/core/ctl.py:874-911 | the lines are rendered from the only newline-free pieces that join to the stream |
| LineSplitter.LinesOfPieces | src/app/core/ctl.py:874-911 | a stream of lines reads as those lines, one of more than a mebibyte as its first mebibyte, and what follows the last newline only if there is anything |
| LineSplitter.PieceEnds | src/app/core/ctl.py:903-909 | a newline ends the current piece: it is rendered once, or was already when its head was clipped |
| LineSplitter.PieceDropped | src/app/core/ctl.py:884-902 | bytes cut off the buffer belong to an overlong piece, which is yielded once, as its first bytes and the marker |
| LineSplitter.StreamEnds | src/app/core/ctl.py:910-911 | at the end the rest of the buffer completes the lines of the whole stream; an empty rest yields nothing |
| Graph.PathDecomposes | src/app/core/roles_service.py:356-375 | a path through new edges from one vertex is a path of the old graph, or reaches that vertex and goes on from one of the targets in the old graph |
| Graph.FanAcyclic | src/app/core/roles_service.py:356-375 | edges from one vertex to several targets, added at once, keep the graph acyclic exactly when no target reached the vertex before |
| Roles.WalkIsReachability | src/app/core/roles_service.py:295-308 | the bounded walk never claims an unreachable role, and is reachability while no more than 500 roles lie below the start |
| Roles.WalkLimit | src/app/core/roles_service.py:295-308 | the walk is exact for all realms with at most `n` roles below the start if and only if `n` is at most 500 |
| Roles.FullAtOnce | src/app/core/roles_service.py:298-307 | a start whose members already fill the walk: nothing below them is found |
| Roles.CrowdIsMissed | src/app/core/roles_service.py:295-308 | in a concrete realm of 501 roles the walk misses a role that the start reaches |
| RolesService.StepKeepsAcyclic | src/app/core/roles_service.py:310-387 | no create, update or delete, finished or stopped between two calls, makes a cycle, as long as its walks are exact |
| RolesService.StepKeepsClosed | src/app/core/roles_service.py:310-387 | every role that a role contains exists after each step |
| RolesService.RefusedUpdateWouldLoop | src/app/core/roles_service.py:358-367 | an update that the guard refuses would have made a cycle |
| RolesService.RunStaysAcyclic | src/app/core/roles_service.py:310-387 | over any run of requests against at most 500 roles an acyclic realm stays acyclic |
| RolesService.LargeRealmCanLoop | src/app/core/roles_service.py:295-367 | in the realm of 501 roles the guard passes an update that closes a cycle |
| RolesService.UpdateLands | src/app/core/roles_service.py:350-375 | adding what is missing and removing what is too much leaves exactly the requested members |
| RolesService.RealmRoles.ReachesRole | src/app/core/roles_service.py:295-308 | the loop over the queue and the seen set computes the bounded walk |
| RolesService.RealmRoles.AnyLeadsBack | src/app/core/roles_service.py:358-367 | the guard is that no member to be added leads back to the role |
| RolesService.RealmRoles.CreateRole | src/app/core/roles_service.py:310-337 | which error comes first, and that the role exists with exactly the members asked for, or without them when the second call fails |
| RolesService.RealmRoles.UpdateRole | src/app/core/roles_service.py:339-376 | which error comes first, with the description written between the guard and the members; a completed update leaves exactly the members asked for, one that stops has only added; roles of clients among the members stay |
| RolesService.CrashesExactly | src/app/core/roles_service.py:339-376 | an accepted update fails on the lookup of a member to remove if and only if the role contains one of Keycloak's own and no earlier call failed |
| RolesService.HolderOfOwnRoleCrashes | src/app/core/roles_service.py:369-375 | a role that contains one of Keycloak's own and is to contain another instead ends up with both |
| RolesService.RealmRoles.DeleteRole | src/app/core/roles_service.py:378-387 | which error comes first, and that only a completed delete removes the role, everywhere, and no role of a client with it |
| Retention.NewestIsNewest | src/app/core/backups.py:162-177 | the newest successful point finished ok, holds the whole stack and has a time, none such is newer, and of equally new ones it is the first; there is none only if no point is such |
| Retention.CountIsWhatPruneDeletes | src/app/core/backups.py:198-205 | the number shown is the number a prune by the same rule takes away |
| Retention.PruneTakesTheOld | src/app/core/backups.py:198-205 | a prune takes exactly the points, good or not, with a known time more than the given days ago |
| Retention.MinRetentionIsTwoGaps | src/app/core/schedule.py:377-379 | the floor is the least whole number of days that covers two longest gaps |
| Retention.AcceptedSchedules | src/app/core/schedule.py:496-534 | a schedule is accepted exactly if its runs are an hour apart and its retention is 1 to 3650 days and covers two longest gaps; each refusal names what is wrong |
| Retention.HeldBackIsCatchupDue | src/app/core/schedule.py:668-720 | a configured retention is held back exactly when a missed run would be made up |
| Retention.PlannedByAge | src/app/core/schedule.py:668-720 | a missed run is made up exactly if no good point is at most one and a half gaps old; a configured retention is handed on exactly if one is, and otherwise held back for lack of a good point or of a recent one |
| Retention.AfterExactly | src/app/core/schedule.py:694-720 | what a run leaves: what was there and what it made, but for what its prune takes if one was planned |
| Retention.StepKeepsAGoodPoint | src/app/core/schedule.py:694-720 | a run, whatever it made, pruned at most half the longest gap after its plan, leaves a good point if there was one |
| Retention.NeverLosesTheLast | src/app/core/schedule.py:513-533 | over any run of scheduled backups, good or failed and under changing schedules, a catalogue with a good point keeps one |
| Retention.PruneDelayLimit | src/app/core/schedule.py:694-720 | a run that makes nothing keeps the last good point, in every catalogue, if and only if its prune follows the plan by no more than the retention exceeds the overdue limit |
| Retention.TwoPointsLimit | src/app/core/schedule.py:525-533 | two good points a gap apart survive a run that makes nothing if and only if the retention covers overdue limit, delay and gap |
| Retention.TwoPointsOverRuns | src/app/core/schedule.py:525-533 | over all runs of any length with good backups at most a gap apart there are always two good points if and only if the retention covers overdue limit, delay and gap |
| Retention.FailedRunLeavesOne | src/app/core/schedule.py:525-533 | a daily schedule with the shortest retention, a backup on each of the last two days and one failed run: one good point is left |
| Retention.GoodRunsKeepTwo | src/app/core/schedule.py:377-379 | a good run that follows any good point, however long after it, leaves at least two once it has pruned |
| Retention.EveryGoodRunLeavesTwo | src/app/core/schedule.py:513-533 | over any run of scheduled backups that starts with a good point, under changing schedules and with failed runs in between, there are at least two good points after every good run |
| Weekdays.AddRange | src/app/core/schedule.py:227 | the loop over a range adds exactly its steps, modulo seven |
| Weekdays.NormaliseWeekdays | src/app/core/schedule.py:192-230 | the loop over the parts computes the rewriting, or the error of the first part that cannot be read |
| Weekdays.PartIsMeant | src/app/core/schedule.py:179-227 | a part of the field is read exactly as what it says, which days from which to which by which step, and refused for the first reason that applies |
| Weekdays.TokenIsItsDay | src/app/core/schedule.py:179-189 | a token stands for the day it means and no other, and is rewritten as that day's name |
| Weekdays.NumberIsItsDay | src/app/core/schedule.py:179-230 | the number d stands for the day d of the week from Sunday, 7 being Sunday again, and comes out as its name |
| Weekdays.NameIsItsDay | src/app/core/schedule.py:179-230 | a name in any case stands for its own day |
| Weekdays.RangeSteps | src/app/core/schedule.py:205-227 | `a-b/n` stands for every n-th day from a to b, and one that ends on Sunday goes on to the end of the week |
| Weekdays.StarSteps | src/app/core/schedule.py:205-206 | `*/n` stands for every n-th day from Sunday |
| Weekdays.StepsAreTheRange | src/app/core/schedule.py:205-227 | a day is chosen if and only if some number of steps from the start lands on it, 0 and 7 both being Sunday |
| Weekdays.NormalisePreservesDays | src/app/core/schedule.py:192-230 | a field is refused exactly when one of its parts cannot be read, for what is wrong with the first such part, and the rewritten field stands for the same days, read independently of the parser |
| Weekdays.NormaliseIsNormalForm | src/app/core/schedule.py:192-230 | rewriting is idempotent, and two fields come out the same exactly when they stand for the same days |
| Weekdays.SpellReadsBack | src/app/core/schedule.py:228-230 | the names written for a set of days read back as that set |
| Presets.ReadAfterCompile | src/app/core/schedule.py:405-460 | a preset that compiles reads back as itself in normal form |
| Presets.CompileAfterRead | src/app/core/schedule.py:405-460 | compiling what an expression was read as is accepted and fires at the same minutes, hours and days; a refused expression is refused again for the same reason |
| Presets.PresetFires | src/app/core/schedule.py:405-437 | a preset that is accepted compiles to an expression that is accepted and fires exactly at the time and on the days, or every so many hours, that the preset asks for |
| Presets.RefusedPresets | src/app/core/schedule.py:398-437 | a preset is refused exactly for a time that is none, a name that is no day, no day at all, or an interval that is no choice |
| Presets.ParsedFields | src/app/core/schedule.py:233-259 | accepted fields are plain, restrict the day of the month or the weekday but not both, and have their weekdays in normal form |
| Presets.ClockReadsBack | src/app/core/schedule.py:398-402 | a padded time is read as its hour and minute |
| Presets.FieldBoundsCanBeMet | src/app/core/schedule.py:256-278 | what is assumed of the library's range checks is met by checks of the two ranges |
| Scheduler.StepKeepsInvariant | src/app/core/scheduler.py:108-267 | every step keeps: one live attempt for each chain, attempt numbers and times within bounds, nothing alive after a chain has ended |
| Scheduler.EveryRun | src/app/core/scheduler.py:154-231 | over every run: a chain starts at most one backup, makes at most six attempts, each at least ten minutes after the one before, a pending retry is the second to the sixth attempt, and each attempt comes to what its readings say |
| Scheduler.EveryAttempt | src/app/core/scheduler.py:154-231 | every attempt on record was fired and ended by events of the run; a backup was started exactly if it read an enabled schedule, a reachable directory, no runner and no job, it was disabled exactly if not enabled, and it gave up exactly if something was in the way at the sixth attempt; a retry is planned ten minutes later with the next number |
| Scheduler.NoAttemptIsLost | src/app/core/scheduler.py:148-199 | whatever fires is in flight or on record ever after |
| Scheduler.StoreIsCurrent | src/app/core/scheduler.py:108-267 | the slot is there exactly if the latest schedule is enabled; a retry or catch-up exactly if one was planned and has not fired, been dropped, or lost its schedule since |
| Scheduler.SlotChainsDoNotOverlap | src/app/core/scheduler.py:201-231 | on time and with slots an hour apart, no chain is alive when the next slot is due, no planned retry is replaced, and the sixth attempt comes fifty minutes after the slot |
| Scheduler.BackupScheduler.ApplySchedule | src/app/core/scheduler.py:108-134 | the slot is there if the new schedule is enabled, and whatever was pending is dropped |
| Scheduler.BackupScheduler.ScheduleCatchup | src/app/core/scheduler.py:235-267 | a catch-up is planned only under an enabled schedule that asks for it, and only if a run was missed |
| Scheduler.BackupScheduler.Fire | src/app/core/scheduler.py:154-199 | an attempt starts a backup, plans its successor, gives up or finds the schedule disabled, exactly as its readings and its number say |
| Scheduler.BackupScheduler.Skip | src/app/core/scheduler.py:201-231 | a skipped attempt plans the next one ten minutes later, replacing any pending one, unless it was the sixth |
| Snapshots.PruneBound | src/app/core/snapshots.py:278-322 | at most as many snapshots stay as the limit or the number of kept directories, and every kept directory stays |
| Snapshots.PruneFrame | src/app/core/snapshots.py:278-322 | other add-ons, other catalogs and directories elsewhere are untouched |
| Snapshots.PruneExactly | src/app/core/snapshots.py:278-322 | of the add-on's snapshots that nothing keeps exactly as many stay as the limit leaves after the kept ones, none older than one that goes; the older layout's directory stays only if kept; nothing else is touched |
| Snapshots.SurplusIsTheOldest | src/app/core/snapshots.py:306-316 | of the unprotected snapshots exactly as many stay as there is room for, and none that goes is newer than one that stays |
| Snapshots.StaysExactlyWithPlace | src/app/core/snapshots.py:278-322 | whatever is kept and whatever the limit, a directory survives a prune for every order of equally old ones if and only if it has such a place |
| Snapshots.Surplus | src/app/core/snapshots.py:308-316 | the loop that counts down the room picks those |
| Snapshots.SortedCandidates | src/app/core/snapshots.py:298-306 | the candidates, each once, the newest first |
| Snapshots.StepIsSafe | src/app/core/addon_upgrades.py:175-236 | staging, upgrading, rolling back and pruning each leave the registered directory and the rollback directory on disk |
| Snapshots.EveryOrderIsSafe | src/app/core/addon_upgrades.py:453-468 | in every order of those steps both directories stay on disk, whatever papaia-ctl exits with |
| Snapshots.StalePruneCanLose | src/app/core/addon_upgrades.py:453-468 | when an upgrade comes between reading what to keep and pruning, the new registration stays on disk in every outcome if and only if the new directory has a place: it is in the list read before, or fewer other loose snapshots are as new as there is room for |
| Snapshots.StalePruneLoses | src/app/core/addon_upgrades.py:453-468 | four directories, an upgrade between reading and pruning: the registered directory is gone |
| Snapshots.SnapshotStore.StageRevision | src/app/core/addon_upgrades.py:175-236 | exactly when staging succeeds; it then gives the directory that was reviewed, complete; a complete directory of a commit is never touched, and a refusal changes nothing unless a copy turned out to lack the manifest |
| Snapshots.SnapshotStore.PruneSnapshots | src/app/core/snapshots.py:278-334 | pruning in place has the specified effect, and reports exactly what it removed |
| Snapshots.SnapshotStore.PruneAfter | src/app/core/addon_upgrades.py:453-468 | pruning after an upgrade keeps the registered, the previous and the extra directory |
| AddonHistory.FirstOfIsFirst | src/app/core/addon_upgrades.py:437-441 | the entry a rollback looks up is the first of that version |
| AddonHistory.UpgradeIsRecorded | src/app/core/addon_upgrades.py:352-419 | after an upgrade the replaced version is first and the newest two before it follow; the same commit again leaves the history |
| AddonHistory.RollbackTakesTheEntry | src/app/core/addon_upgrades.py:422-450 | a rollback takes the first entry of its version, and no other, out of the history, with its commit; without one the commit is unknown |
| AddonHistory.RecordsStayRecords | src/app/core/snapshots.py:88-132 | records keep their cut history through upgrades and rollbacks |
| AddonHistory.RollbackUndoesUpgrade | src/app/core/addon_upgrades.py:352-450 | an upgrade to another commit and a rollback restore commit, version and the first two entries of the history |
| AddonHistory.RollbackOfSameCommit | src/app/core/addon_upgrades.py:352-361 | when the commit did not change, the rollback finds it again if and only if the history holds the version first with that commit, or it is the word for an unknown one |
| AddonHistory.LocalRollbackForgets | src/app/core/addon_upgrades.py:352-450 | a local add-on without a history comes back with an unknown commit |
| AclStore.AclPointIdInjective | src/app/core/rag_collections.py:83-84 | two point ids are the same only for the same role and collection |
| AclStore.NormaliseGrants | src/app/core/rag_collections.py:157-202 | accepted exactly if every trimmed role can be stored, is not the operator and is listed once and every access is r or rw; the result is the trimmed request, access unchanged, in role order; an error names the first grant that is wrong and why |
| AclStore.SetRolesLands | src/app/core/rag_collections.py:710-746 | the grants of the collection become exactly the request, roles that stay keep point and policy, new ones get the derived id and no policy, and every other point is as it was |
| AclStore.LandsExactlyWithoutDuplicates | src/app/core/rag_collections.py:710-746 | the request lands with one point for each role if and only if each role had at most one point |
| AclStore.GrantsLandExactly | src/app/core/rag_collections.py:710-746 | the collection's grants are exactly those requested if and only if the points that are not remembered grant only what is requested |
| AclStore.SpareGrantStays | src/app/core/rag_collections.py:710-746 | a role with two points, read and write: a request for read changes nothing and write stays granted |
| AclStore.FramesExactlyWithFreeIds | src/app/core/rag_collections.py:693-746 | the request lands and the rest stays if and only if the derived ids were free |
| AclStore.GlobalGrantIsOverwritten | src/app/core/rag_collections.py:693-746 | a global grant stored under a collection's derived id is replaced by the grant of the collection |
| AclStore.SpareStays | src/app/core/rag_collections.py:710-746 | a second point of a role is never touched, so the request does not land |
| CollectionStore.GrantedLands | src/app/core/rag_collections.py:596-607 | after setting roles the request has landed, the operator has a global grant, written under its derived id if there was none, and everything but these is as it was |
| CollectionStore.RemovedIsGone | src/app/core/rag_collections.py:579-594 | removing takes the collection, its description and the grants to read or write it, and nothing else; removing again changes nothing |
| CollectionStore.RecreateStartsFromNothing | src/app/core/rag_collections.py:579-594 | after a removal setting roles starts from no grants, so nothing is revived |
| CollectionStore.RecreateLands | src/app/core/rag_collections.py:527-594 | deleting a collection and creating it again leaves exactly the new grants, none with an old policy, and every grant of other collections |
| CollectionStore.DiscardUndoes | src/app/core/rag_collections.py:758-784 | purging whatever a half-made collection wrote gives the grants as before, apart from the operator's own |
| CollectionStore.DiscardRestores | src/app/core/rag_collections.py:527-577 | discarding a half-made collection leaves nothing of that name and the rest as it was |
| CollectionStore.Store.ReadCurrent | src/app/core/rag_collections.py:498-523 | the loop over the points remembers a managed grant for each role of the collection |
| CollectionStore.Store.FindOperator | src/app/core/rag_collections.py:748-756 | the search for the operator's global grant finds it exactly when there is one |
| CollectionStore.Store.ApplyGrants | src/app/core/rag_collections.py:710-746 | the two writes leave the reconciled grants, or the state before or between them when one fails |
| CollectionStore.Store.SetRoles | src/app/core/rag_collections.py:596-607 | the exact outcome for a failure at any call; done, the request and the operator's grant are written; failed, the grants are as far as the calls before got; unusable or missing, as they were |
| CollectionStore.Store.Discard | src/app/core/rag_collections.py:758-784 | the clean-up removes collection, description and grants |
| CollectionStore.Store.Delete | src/app/core/rag_collections.py:579-594 | a delete leaves nothing of the name, and one that stops early is finished by the next |
| CollectionStore.Store.Furnish | src/app/core/rag_collections.py:561-574 | how far the writes of a creation get before the one that fails |
| CollectionStore.Store.Create | src/app/core/rag_collections.py:527-577 | exactly when a creation is done, and then it has done everything; a failed first call leaves the collection there exactly if it took effect; any later failure leaves nothing of the name and the rest as it was |
| JobQueue.StepKeepsInvariant | src/app/core/jobs.py:98-212 | every step keeps the order of the jobs, the callbacks, the index and what was heard |
| JobQueue.EveryRun | src/app/core/jobs.py:98-212 | in every reachable state the jobs are finished ones, at most one running, queued ones; the index replays to each status; listeners heard a block of finished jobs in order |
| JobQueue.EveryJobHasItsCourse | src/app/core/jobs.py:98-212 | over every run: a job is succeeded with exit code 0 exactly through an end whose callback returned, failed with 1 through one that raised, with the times of its enqueueing, taking and end |
| JobQueue.EndDecides | src/app/core/jobs.py:182-201 | what the end of a job decided, status, exit code and time, stays |
| JobQueue.StepMovesAlong | src/app/core/jobs.py:167-212 | a step moves a job only along queued, running, finished, and the next one taken is the oldest waiting |
| JobQueue.EveryListenerHears | src/app/core/jobs.py:82-96 | between two points of a run a listener hears exactly the jobs that finished in between, each once and in order |
| JobQueue.ActiveIsTheRunningJob | src/app/core/jobs.py:131-145 | with jobs in the order of their times, the job shown is the running one, else the next one |
| JobQueue.RunIsCreatedInOrder | src/app/core/jobs.py:98-145 | with a clock that does not go back the jobs of every reachable state are in the order of their times |
| JobQueue.ActiveExactlyWhileBusy | src/app/core/jobs.py:131-145 | whatever the clock does, a job is shown exactly while one is queued or running |
| JobQueue.Queue.EnqueueJob | src/app/core/jobs.py:98-120 | a job is added, indexed and queued, and the invariant kept |
| JobQueue.Queue.TakeJob | src/app/core/jobs.py:167-180 | the worker takes the oldest job, marks and indexes it as running from now, and keeps the other jobs and the invariant |
| JobQueue.Queue.EndJob | src/app/core/jobs.py:184-212 | the running job becomes succeeded with 0 or failed with 1 by its callback's result, with this time, is indexed and told to every listener; the other jobs and the invariant stay |
| JobQueue.Queue.NotifyFinished | src/app/core/jobs.py:91-96 | every listener is told the job once |
| JobQueue.Queue.FindActiveJob | src/app/core/jobs.py:131-145 | the search returns the first unfinished job by creation time |
| TokenRefresh.StepKeepsInvariant | src/app/auth/deps.py:74-125 | with at most 512 locks every step keeps: waiting and exchanging requests hold the lock of the table, results are the latest successes |
| TokenRefresh.ExchangesNeverOverlap | src/app/auth/deps.py:74-105 | in every interleaving two exchanges of one token are one |
| TokenRefresh.LosersCopyTheWinner | src/app/auth/deps.py:74-105 | no exchange begins within a minute of the start of an earlier success, and who copies gets the payload of the latest success, no more than a minute old |
| TokenRefresh.CopiesExactlyWithinTheWindow | src/app/auth/deps.py:85-105 | from the events alone: a request that enters copies a payload if and only if that is the latest answer for its token and came of an exchange begun at most a minute before; else it exchanges |
| TokenRefresh.OthersStay | src/app/auth/deps.py:83-105 | an arrival waits, an exchange ends with its answer, and no step touches another request |
| TokenRefresh.LockTableLimit | src/app/auth/deps.py:74-125 | in all runs from the initial state with at most `n` locks whenever a request enters, no two exchanges of one token overlap, if and only if `n` is at most 512 |
| TokenRefresh.CrowdOverlaps | src/app/auth/deps.py:113-125 | the run of 514 requests with 513 tokens from the initial state in which one token is exchanged twice at once |
| TokenRefresh.RefreshState.LockFor | src/app/auth/deps.py:83-84 | a token has one lock, made when it is first asked for; it is the arrival of the transition system, and keeps its invariant |
| TokenRefresh.RefreshState.Prune | src/app/auth/deps.py:113-125 | results more than a minute old go, and with more than 512 locks exactly those without a result go |
| TokenRefresh.RefreshState.Enter | src/app/auth/deps.py:85-92 | inside the lock a recent result is copied, else the request exchanges; it is the entry of the transition system, and keeps its invariant within the limit of the table |
| TokenRefresh.RefreshState.Keep | src/app/auth/deps.py:99-105 | the answer of the transition system, and keeps its invariant; a success becomes the latest one of its token, which every request that enters within the window copies |
| Images.TagReadsBack | src/app/core/images.py:114-138 | a repository and tag handed to Docker mean the same again if and only if dropping the Hub's names once more changes nothing |
| Images.SplitTagReadsBack | src/app/core/images.py:125-130 | a colon after the last slash separates the tag |
| Images.RefIsRead | src/app/core/images.py:114-138 | whichever of the Hub's names a reference is written with, it is read as the repository without them, its tag and its digest, and `latest` if it has neither |
| Images.VerdictLists | src/app/core/images.py:268-299 | an image is listed if and only if no container uses it, none of its tags and digests is declared, and all its repositories, at least one, are |
| Images.ReportLists | src/app/core/images.py:268-301 | the report holds exactly the outdated images, the core's first, then by source and name, each under the first source that declares its least repository |
| Images.CollectDeclared | src/app/core/images.py:254-266 | the loops collect exactly the declared tags, digests and repositories, each repository with the first source that names it |
| Images.BuildReport | src/app/core/images.py:238-301 | the report is the sorted verdict, or nothing at all when there was an error |
| ImagePrune.SparingKeepsTheStack | src/app/core/images.py:542-579 | when only outdated images change, used images stay and every declared reference that resolved still does |
| ImagePrune.RmTakesFirstTag | src/app/core/images.py:572-579 | removing by an image's first tag takes that tag off that image and nothing else |
| ImagePrune.Docker.Remove | src/app/core/images.py:572-579 | removing an image touches no other one, succeeds exactly if every reference works, and then the image is gone |
| ImagePrune.Docker.RemoveWanted | src/app/core/images.py:562-568 | the loop over the wanted images partitions them into removed ones, which are gone, and failed ones, and changes outdated images only |
| ImagePrune.Docker.Prune | src/app/core/images.py:542-569 | a prune makes its own verdict, changes only outdated images, does nothing when there was an error, and its results partition what was asked for, removed being those whose references all work |
| ImagePrune.Docker.OutdatedNow | src/app/core/images.py:556-559 | an id is a candidate exactly when its image is there, unused and undeclared while its repositories are declared, and it comes with what is to be removed |
| SemVer.CompareIsPrecedence | src/app/core/semver.py:35-46 | comparing by keys is the precedence of section 11 of Semantic Versioning 2.0.0 |
| SemVer.CompareIsPreorder | src/app/core/semver.py:35-46 | comparing is a total preorder |
| SemVer.CompareTexts | src/app/core/semver.py:35-52 | texts compare exactly when both are versions, and newer is the other's lower |
| SemVer.ParseIsStated | src/app/core/semver.py:12-32 | a text is a version exactly if it is written by sections 2, 9 and 10 of Semantic Versioning 2.0.0, and the one it is read as is the one it states |
| SemVer.KeysFollowRules | src/app/core/semver.py:21-32 | lists of keys compare as pre-release identifiers do by section 11.4 |
| SemVer.BetweenIsExactly | src/app/core/addon_upgrades.py:148-152 | the sections that count are those above the installed and not above the candidate version |
| SemVer.ChangelogBetween | src/app/core/addon_upgrades.py:133-163 | what is shown is the longest beginning of those, in file order, with at most 6000 characters, or the first one cut |
| WidgetIds.IdsAreUnique | src/app/core/tiles.py:606-638 | every widget gets an id of its own; the first holder of a given id keeps it, the others get one derived from their type |
| WidgetIds.DerivedIsFirstFree | src/app/core/tiles.py:626-638 | a derived id is the first candidate of its type that no widget was given and none before it has got |
| WidgetIds.AssigningAgain | src/app/core/tiles.py:606-638 | ids stay as they are if and only if they are complete and unique, so assigning again changes nothing |
| WidgetIds.FindFree | src/app/core/tiles.py:630-635 | the search ends, at the first candidate that is not taken |
| WidgetIds.DropRepeats | src/app/core/tiles.py:618-624 | the first loop drops repeats in place and collects what stays |
| WidgetIds.AssignWidgetIds | src/app/core/tiles.py:606-638 | both loops in place compute the assignment |
| Tiles.TileReadsBack | src/app/core/tiles.py:568-603 | a tile survives writing and reading if and only if its icon is not empty and its id is empty or passes the pattern |
| Tiles.IdsThatPass | src/app/core/tiles.py:49 | the pattern lets through the ids that fit a URL path, and each of them with a line feed at the end |
| Tiles.LineFeedPasses | src/app/core/tiles.py:595 | an id with a line feed passes and does not fit |
| Tiles.WhoSeesATile | src/app/core/tiles.py:568-658 | a link is for everyone if it says so or says nothing, a widget only if it says so; anything else restricts the tile |
| Tiles.ConfigReadsBack | src/app/core/tiles.py:557-690 | a configuration that could have been loaded reads back as it was written |
| Tiles.LoadedAsRead | src/app/core/tiles.py:557-578 | loading keeps every mapping of the document in its place, read as a tile, with another id at most |
| Tiles.LoadsExactly | src/app/core/tiles.py:557-565 | a document is loaded exactly if its version, if there is one, is a number, and neither its groups nor the tiles of one are a number or the like |
| Tiles.SaveKeepsWhatWasLoaded | src/app/core/tiles.py:557-690 | whatever document is loaded has unique ids, and saving and loading it gives the same configuration |
| ModelUsage.ParseUsage | src/app/core/model_usage.py:174-199 | the loops over entries and models compute the sums |
| ModelUsage.UsageIsTheSum | src/app/core/model_usage.py:174-199 | what is kept of a model and a day is the sum of what the entries say, days outside the window left out |
| ModelUsage.UsageByField | src/app/core/model_usage.py:174-199 | each number kept of a model and a day is the total of what the readable, named entries of that day in the window tell, and something is kept exactly if one does |
| ModelUsage.UsageIsPageIndependent | src/app/core/model_usage.py:174-199 | any permutation or paging of the entries gives the same usage |
| ModelUsage.UsageIsAdditive | src/app/core/model_usage.py:174-199 | usage of two answers together is the sum of both |
| ModelUsage.ParsedIsWithin | src/app/core/model_usage.py:184-199 | usage has no days outside the window |
| ModelUsage.ModelTotalIsRowTotal | src/app/core/model_usage.py:341-374 | a model's total is the sum of its daily row |
| ModelUsage.ReportShows | src/app/core/model_usage.py:341-374 | the report lists every day of the window in order, and of every model what is kept of each day |
| ModelUsage.ReportConserves | src/app/core/model_usage.py:341-374 | the grand total is the sum over models and the sum over days |
| ModelSlots.SlotsGoToTheBusiest | src/app/core/model_usage.py:327-338 | no two models share a slot; up to seven models all have one, of more the seven slots are taken and no model without one is busier than one with |
| ModelSlots.SlotsFollowNames | src/app/core/model_usage.py:333-338 | the slots follow the caseless names |
| ModelSlots.SlotsAreStable | src/app/core/model_usage.py:327-338 | up to seven models of different caseless names keep their slots for any loads and any order |
| ModelSlots.SlotsAreStableExactly | src/app/core/model_usage.py:327-338 | up to seven models keep their slots for all loads and orders if and only if no two names differ in case alone |
| ModelSlots.CaselessTwinsSwap | src/app/core/model_usage.py:334-336 | of two models whose names differ in case alone, among any others, the one that comes first has the lower slot |
| Resolve.Collect | src/app/core/resolve.py:109-120 | the loops over catalogs and add-ons group every hit of an enabled catalog by name and version, in the order of the registry |
| Resolve.ShippedIsEnabled | src/app/core/resolve.py:109-120 | what is shipped are the add-ons of the enabled catalogs, with their manifests |
| Resolve.ShippedInOrder | src/app/core/resolve.py:109-120 | those of an earlier catalog come first |
| Resolve.ResolveCatalogAddons | src/app/core/resolve.py:97-163 | the loops over the groups list the resolution |
| Resolve.ResolutionConserves | src/app/core/resolve.py:97-163 | the catalogs that an add-on's entries come from or shadow are, with multiplicity, those that ship it |
| Resolve.EachShipperOnce | src/app/core/resolve.py:97-163 | each catalog that ships an add-on is in exactly one place of its entries, and no other is |
| Resolve.EntriesDiffer | src/app/core/resolve.py:136-161 | an add-on's entries state different versions, every version it is shipped in has one, the first and only the first is no variant, and there is one exactly when it is shipped |
| Resolve.InstalledCatalogIsPrimary | src/app/core/resolve.py:136-145 | the catalog an add-on was installed from, if it ships it, is one the first entry stands for |
| Resolve.EntryIsFirstHit | src/app/core/resolve.py:147-161 | an entry has catalog and manifest of the first catalog of the registry that ships its version |
| Resolve.FirstEntryByRegistry | src/app/core/resolve.py:136-146 | without an installed catalog that ships it, an add-on's first entry is what the first catalog that ships it has |
| Resolve.KeysAreDistinct | src/app/core/resolve.py:147-150 | a key names one entry, if no add-on name has an `@` |
| Resolve.OutdatedAddons | src/app/core/resolve.py:45-94 | an update is reported exactly for an installed and managed add-on whose first entry states a version that is higher by precedence, or differs if one of them is no version; with the installed version, that version and its catalog; once for each add-on |
| Resolve.ReportedOnce | src/app/core/resolve.py:45-94 | the updates are exactly those, and an add-on has at most one |
| UpgradePhases.AnnouncementIsFirst | src/app/core/upgrade.py:767-771 | a phase's announcement is the first line that matches it |
| UpgradePhases.OnePhaseEach | src/app/core/upgrade.py:679-750 | no line announces two phases, and what announces any begins like one of these |
| UpgradePhases.PhasesFromLog | src/app/core/upgrade.py:753-796 | the loops over lines and phases compute the states and details |
| UpgradePhases.PhaseStates | src/app/core/upgrade.py:772-792 | a phase is passed, as announced or skipped, exactly if a later one is announced or the upgrade says it is complete; in flight or failed exactly if it is the latest announced; else pending |
| UpgradePhases.PhasesHaveAShape | src/app/core/upgrade.py:778-792 | done or skipped phases, at most one running or failed, then pending ones; all passed once complete |
| UpgradePhases.PhasesMoveForward | src/app/core/upgrade.py:742-796 | reading more of a log from its beginning, wherever it was cut, never moves a phase backwards |
| UpgradePhases.ForwardExactly | src/app/core/upgrade.py:742-796 | between any two readings no phase moves backwards if and only if everything announced in the first is announced in the second |
| UpgradePhases.WindowMovesForwardExactly | src/app/core/upgrade.py:753-796 | with any number of lines lost at the front, no phase moves backwards if and only if each phase announced before, and the completion, is still announced in what is left |
| UpgradePhases.WindowLosesBackup | src/app/routers/ui.py:1503-1507 | with its announcement out of the window a finished backup reads as skipped |
| UpgradePhases.ImagesMoveForward | src/app/core/upgrade.py:799-821 | the cleanup phase moves forward as whole lines come in, and is settled when the container stops |
| UpgradePhases.WindowKeepsCleanupExactly | src/app/core/upgrade.py:799-821 | with lines lost at the front, a cleanup that was announced once only moves forward if and only if that line is still in the window |
| UpgradePhases.CutOutcomeMovesBackExactly | src/app/core/upgrade.py:799-821 | as the log grows the cleanup phase goes from done to skipped if and only if its outcome line is the last one, cut before it says that nothing was removed |
| UpgradePhases.CutOutcomeMovesBack | src/app/core/upgrade.py:815-821 | an outcome line cut short reads as done, the whole line as skipped |
| Services.WorstIsWorst | src/app/core/services.py:296-314 | the result is the most severe value but for completed ones, and the only such value |
| Services.WorstIsPick | src/app/core/services.py:146-154 | the worst is missing if anything is, else stopped, unhealthy, starting, unknown, healthy, in that order, and completed only if everything is |
| Services.OverallIsWorst | src/app/core/services.py:317-319 | a section's health is the worst of all its containers if and only if no empty module hides that all have completed or are healthy |
| Services.EmptyModuleHidesHealth | src/app/core/services.py:317-319 | a module with a healthy container and one with none read as unknown together |
| Services.MergeExpected | src/app/core/services.py:426-474 | the loops place, finish and sort the modules |
| Services.MergeKeepsContainers | src/app/core/services.py:426-474 | every reported container stays in its module, and exactly the placeholders of unreported services are added |
| Services.PlaceholdersSayMissing | src/app/core/services.py:448-468 | there is a placeholder, missing and without a name, for exactly the declared services of a module that were not reported |
| Services.MergeKeepsModules | src/app/core/services.py:426-474 | a module keeps its node, one is added for each that only missing services are declared for, and no other |
| Services.MergedIsListed | src/app/core/services.py:469-474 | modules worst first and then by name, containers by name, each module with the profiles of all that is declared for it |
| Services.MergeHasEveryService | src/app/core/services.py:448-468 | afterwards every declared service has a container |
| Services.MergingAgain | src/app/core/services.py:426-474 | merging the same declaration again changes nothing |

## Assumptions

These are named predicates that the lemmas require; nothing is assumed without being stated.

- `Presets.FieldBounds`: the scheduling library's range checks accept what presets compile to and
  no number that is not a minute or an hour. `Presets.FieldBoundsCanBeMet` shows that this is
  consistent.
- `WidgetIds.Apart`: as many candidate ids of a widget type that occurs differ from each other as
  are ever tried, and none is empty.
- `Tiles.KeepsNumbers`: `int` gives a whole number back; of its results on other values nothing is
  used.
- `ImagePrune.WellNamed`: no image id reads like a tag, a tag belongs to one image, and the tags
  Docker lists read the same when they are written back.
- `Resolve.IsRegistry`: catalogs have different names, and a catalog's add-ons have too.
- `Services.UniqueNames`: modules have different names, as those grouped from Docker's list do.
- `Snapshots`: no add-on is named like a revision.

## Left out

- Decoding of bytes to text and the trimming of line ends, timeouts and exit codes of streamed commands.
- RolesService.RealmRoles.UpdateRole: a description is only acceptable or not, and changed or not; its text is not modelled.
- Formatting of role rows, and cycles that lead through client roles, which the walk does not look at.
- Who else edits the realm, the collections or the images between two calls of one request.
- Manual backups with a retention of their own; the prune of a scheduled one deletes after its plan by a given delay.
- Time zones, daylight saving and the fire times of cron triggers: slots are a sequence of times.
- Digits and letters beyond ASCII: `isdigit`, `casefold` and `strip` are modelled for ASCII, `casefold` as a parameter.
- papaia-ctl: its effect on the registration is any that names an existing directory.
- Reading and deleting of a prune are one step, but for `Snapshots.StalePruneCanLose` and `Snapshots.StalePruneLoses`.
- Paging of Qdrant's lists, and the creation of missing system collections.
- Snapshots.SnapshotStore.StageRevision: a copy succeeds or fails as a whole; a failure between the two renames of its swap is not modelled.
- CollectionStore.Store.Create: a clean-up call that fails too is not modelled; a later delete removes what is left.
- JobQueue.EveryRun: cancellation of the worker, failing writes of the index and restarts of the process are not modelled.
- JobQueue: fields of index lines other than id and status.
- Images.BuildReport: creation times and how sizes are shown are not modelled.
- Images that no longer exist when they are removed, and the other daemons' commands.
- ModelUsage.ReportConserves: spend is a real number, so the rounding of floats is not modelled; the catalog's prices are not either.
- Parsing of YAML, JSON and changelog headings: parsed values are given.
- Tiles: placeholders, validation messages and visibility of tiles to a user.
- Services.MergeExpected: modules are values; that the caller's modules are changed in place is not modelled, and profiles are a set instead of a sorted tuple.
- UpgradePhases.PhasesFromLog: lines end at line feeds only, and labels are not translated.
- Resolve.ReportedOnce: a version that is no text is not modelled, and manifests are their version and the rest.
- Environment forms, settings, the audit log, notifications, host and Docker usage, node commands: single-branch reading and writing that would only add easy members.
