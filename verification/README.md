# Arcology in Dafny

A Dafny model of the parts of Arcology, a software-preservation archive, where a
simple promise is kept by code that works in another way, and the proofs that it
is kept. The model has seven parts.

* **Migration chain.** CI decides whether a bag of database migrations is one
  linear chain, whether filenames follow it, whether merging a branch keeps it
  linear, and which revision a branch switch must go down to.
* **Item forest, visibility and restrictions.** Guards walk up the item tree, list
  queries expand down from shares with a recursive query. They agree. Every
  request keeps the tree a forest and the inherited-privacy column right.
  Download restrictions follow derivation chains.
* **Analysis jobs.** Request, claim, heartbeat, finish, cancel, stale reset and
  retry, interleaved over a clock.
* **Resumable upload.** A client that crashes, retries and resumes, a network that
  delays and repeats, and server sessions that freeze once finalise is claimed.
* **File registration and hash-database import.** Incremental counters, answered
  ids and lazily filled caches against the rows they stand for.
* **Object keys and trees.** UTF-8 byte budgets (section 3 of RFC 3629), key
  compaction, and the round trip of a directory tree through object storage.
* **Status of root artefacts.** A breadth-first walk and a GROUP BY against a
  nearest-root definition.

Tables are maps from ids to rows. The parent-pointer theory that items, artefacts
and migrations share is in `ParentForest.dfy`. A handler that updates rows is a
class with those fields; what its methods do is a function of the old contents,
and the lemmas are about that function and about whole runs of it. What the
functions mean is told a second time from the rows, columns and octets alone, in
`Access.dfy`, `FileEffects.dfy`, `HashColumns.dfy`, `JobLaws.dfy`, `UploadMoves.dfy`
and `Utf8.dfy`.

`dafny verify dfyconfig.toml` checks everything.

## What the proofs found

Some promises hold only under a condition. Each condition is proved exact.

* The "heads" that the chain checker computes are the roots, so its head lines
  repeat its root lines (`HeadLinesRepeatRootLines`). The single head comes from
  the walk alone, and `SilentIffLinear` shows that this is enough.
* The merge guard is silent about a branch with a root of its own and about a
  branch built on a file whose name the target uses for another revision
  (`NewRootIsMissed`, `ReusedFilenameIsMissed`). A merge is one chain if and only if
  the guard is silent, no new migration is a root, and the parent of each is there
  (`MergeGuard.GuardExact`). Reuse alone does no harm (`ReusedFilenameMayDoNoHarm`).
* A worker's report reads the row first and writes columns of it later, by id. When
  each report is one step, a stale reset takes exactly the quiet jobs
  (`ResetsExactlyTheQuiet`). A heartbeat is stamped before it lands, and it may land
  on a row that was reset, or claimed again, or given a later time meanwhile; a
  failure report that read a failed row, and a second retry, can spoil a row too.
  Five runs at the end of `LateWrites.dfy` take a live job, one in each of these ways.
  No dead job escapes, and live ones are safe if and only if the row's time is not
  older than its claim or a beat that landed (`ResetsExactlyTheQuietIff`). Throughout
  a run they are safe if and only if each step passes a test on the one row it
  writes (`AlwaysRightIff`); `ClaimsStayBounded` and `PoisonStaysBounded` hold anyway.
* The web route's stale reset reads rows first and writes them later too. The late
  write can re-queue a job that finished in between and leave two active jobs for
  one piece of work (`FinishedJobIsRequeued`). `LateWriteExact`, `LateWriteCleansIff`
  and `LateWriteUniqueIff` say exactly when it does no harm, and `LateRetryExact`
  does for the retry.
* A row says success only after a success was reported since its last claim, when
  each request is one step. A late reset can put a finished job back with its
  success on the row, and the next claim keeps it (`OldSuccessIsClaimed`). Throughout
  a run success is fresh if and only if no claim finds a row that says so
  (`AlwaysFreshIff`); the status itself is deserved in every run (`StatusIsDeserved`).
* A manual retry keeps active work unique if and only if no other active job has
  the same key (`RetryKeepsOneActiveIff`); `RetryDoublesWork` is a run in which one has.
* The reparenting guard is exact for one move (`ItemForest.GuardExact`). Two moves
  checked against the same table leave a forest if and only if they do not put each
  item below the other (`TwoMovesIff`, `CrossingMovesCloseCycle`).
* The resume key of an upload holds the chunk count and not the chunk size. Every
  run over a set of chunk sizes is faithful if and only if no two of them share a
  count, of at least two chunks, that the server accepts (`FaithfulIffUnambiguous`).
* A chunk request empties its file before it fills it, also when the file was whole.
  A finalise run is faithful under all such writes if and only if no chunk that it
  has yet to read is empty or may be emptied (`FaithfulIffUnexposed`); at the claim,
  if and only if no admitted request is outstanding (`FaithfulIffNoneOutstanding`).
* Registered paths are cut to 1000 characters after the duplicate guard has run.
  Sending a batch again adds nothing if and only if all its nested paths fit
  (`ResubmissionAddsNothingIff`), and paths stay distinct if and only if the cut
  keeps them apart (`DistinctIffCutsApart`). The ids come back the same if and
  only if no file of the batch repeated a nested path (`ResubmissionReturnsSameIdsIff`).
  Runs from the empty tables in which each fails are in `FileWitnesses.dfy`.
* Truncation to a byte budget keeps the budget unless there is no room for the
  underscore (`TruncatedFitsIff`). Compaction always leaves room for it.
* An archive may hold a file where another one is compacted to. Two paths with
  distinct digests get one key if and only if they are such a pair
  (`CompactCollidesIff`), and a tree keeps its files apart if and only if it has none
  (`CompactedKeys`, `MappedCount`).

## Model

| member | source | states |
|---|---|---|
| ParentForest.AcyclicIffNoCycle | myapp/database.py:536-545 | a pointer table has no node above itself if and only if every upward walk ends |
| ParentForest.GroundedBound | myapp/database.py:536-545 | a walk that ends does so within one step more than the table has rows |
| ParentForest.WalkIsAtOrAbove | myapp/database.py:536-545 | the list an upward walk builds holds exactly the node and its ancestors |
| ParentForest.MoveKeepsAcyclic | myapp/blueprints/api.py:595-611 | re-pointing one node keeps an acyclic table acyclic if and only if the new parent is not the node or below it |
| ParentForest.DetachKeepsAcyclic | myapp/blueprints/api.py:595-611 | making a node a root keeps the table acyclic |
| MigrationChain.SilentIffLinear | ci/check_migration_sanity.py:147-228 | the checker reports nothing if and only if there is no migration, or all can be ordered as one chain |
| MigrationChain.HeadLinesRepeatRootLines | ci/check_migration_sanity.py:213-226 | "no head" appears exactly with "no root", and "multiple heads" names exactly the roots |
| MigrationChain.TrailKeyed | ci/check_migration_sanity.py:198-206 | the walk, which has no seen-check, never meets a revision twice |
| MigrationChain.EndedTrailVisits | ci/check_migration_sanity.py:198-211 | a walk that has ended visited exactly the revisions that descend from the root |
| MigrationChain.IntakeCleanIffKeyed | ci/check_migration_sanity.py:147-180 | filing reports nothing if and only if every migration has a revision of its own |
| MigrationChain.ChainChildren | ci/check_migration_sanity.py:147-211 | in a chain the only migration that extends a revision is the next one |
| MigrationSanity.FileMigrations | ci/check_migration_sanity.py:154-179 | the filing loop builds the first-by-revision map, the children map and the roots, and finds each missing or repeated revision |
| MigrationSanity.CheckRootsAndBranches | ci/check_migration_sanity.py:181-196 | root and branch findings, read off the maps |
| MigrationSanity.WalkChain | ci/check_migration_sanity.py:198-206 | the unguarded walk ends and visits exactly the descendants of the root |
| MigrationSanity.FindUnvisited | ci/check_migration_sanity.py:197-211 | what the walk leaves is exactly the set of orphans |
| MigrationSanity.FindHeads | ci/check_migration_sanity.py:213-226 | the computed heads are the roots |
| MigrationSanity.CheckChainIntegrity | ci/check_migration_sanity.py:147-228 | loops and maps compute the declarative report |
| FilenameOrder.OrderingUnique | ci/check_migration_sanity.py:231-292 | a bag of migrations has at most one chain order |
| FilenameOrder.LexLeIs | ci/check_migration_sanity.py:281 | one name is before another if and only if it ends, or has the lesser character, where they first differ |
| FilenameOrder.SortedAscends | ci/check_migration_sanity.py:231-292 | the sorted listing ascends and is a permutation |
| FilenameOrder.AscendingUnique | ci/check_migration_sanity.py:231-292 | two ascending listings of the same names are equal |
| FilenameOrder.FindChain | ci/check_migration_sanity.py:231-292 | a chain is found if and only if the migrations form one, and it is the chain order |
| FilenameOrder.ReadChain | ci/check_migration_sanity.py:268-280 | the guarded walk reads the chain, and its seen-check never fires |
| FilenameOrder.CheckFilenameOrder | ci/check_migration_sanity.py:231-292 | the warning fires if and only if there is a chain whose filenames do not ascend, and it shows both orders |
| MergeGuard.NewIs | ci/check_migration_conflict.py:103-115 | new is what shares neither its file name nor a revision, other than an empty one, with the target |
| MergeGuard.ClashIs | ci/check_migration_conflict.py:118-147 | a clash extends what the target extends, from no new migration |
| MergeGuard.NewMigrations | ci/check_migration_conflict.py:103-115 | the local migrations whose filename and revision the target lacks |
| MergeGuard.FindConflicts | ci/check_migration_conflict.py:118-147 | a conflict for exactly each new migration that extends, from outside the new ones, what the target extends already |
| MergeGuard.SilentGivesSegment | ci/check_migration_conflict.py:103-147 | when the guard is silent, no new migration is a root and no parent is gone, the new migrations form one segment on the target's head |
| MergeGuard.GuardExact | ci/check_migration_conflict.py:103-147 | for any two chains, target plus new migrations is one chain if and only if the guard is silent, no new migration is a root and no parent is gone |
| MergeGuard.SharedFilesLeaveParents | ci/check_migration_conflict.py:103-115 | when shared file names carry the same revision no parent is gone |
| MergeGuard.GuardExactOnSharedFiles | ci/check_migration_conflict.py:103-147 | then the guard and the absence of a new root decide |
| MergeGuard.NewRootIsMissed | ci/check_migration_conflict.py:118-147 | a silent guard and a merge with two roots |
| MergeGuard.ReusedFilenameIsMissed | ci/check_migration_conflict.py:103-147 | a silent guard, no new root, and a merge with a missing parent |
| MergeGuard.ReusedFilenameMayDoNoHarm | ci/check_migration_conflict.py:103-147 | two chains that reuse a file name and merge into one chain all the same |
| BranchSwitch.FindDowngradeTarget | devtools/db_branch_switch.py:56-78 | the first migration in insertion order that extends nothing of the set, or the fall-through exactly when there is none |
| BranchSwitch.SegmentTarget | devtools/db_branch_switch.py:65-78 | in a segment only its first migration can be picked |
| BranchSwitch.DowngradeFromSegment | devtools/db_branch_switch.py:56-78 | for a segment in any listing order the answer is what the segment stands on |
| BranchSwitch.GivesUpIffNoWalkEnds | devtools/db_branch_switch.py:72-78 | the fall-through is reached if and only if no walk down ends, so only for an empty or cyclic set |
| ItemForest.RunKeepsForest | myapp/blueprints/api.py:512-611 | every forest reached by creating and moving items is closed and acyclic |
| ItemForest.StepIs | myapp/blueprints/api.py:512-611 | which requests land on the tree, and what they leave of it |
| ItemForest.GuardExact | myapp/blueprints/api.py:595-611 | the reparenting guard lets a move pass if and only if it creates no cycle |
| ItemForest.TwoMovesIff | myapp/blueprints/api.py:595-611 | two moves that passed on one table keep it acyclic if and only if they do not put each item below the other |
| ItemForest.CrossingMovesCloseCycle | myapp/blueprints/api.py:595-611 | two roots moved below each other, each move allowed on the table both read |
| ItemForest.ResyncRestores | myapp/utils/privacy.py:20-31 | after a change to one row, recomputing its subtree makes the whole privacy column right |
| ItemForest.ChangeStaysBelow | myapp/utils/privacy.py:20-31 | a change to one row affects inherited privacy only at or below it |
| ItemForest.ChildrenCover | myapp/utils/privacy.py:20-31 | recomputing a node and its children's subtrees recomputes its subtree |
| ItemCatalogue.Ancestors | myapp/database.py:536-545 | the ancestors from the root down to the parent |
| ItemCatalogue.IsAncestorOf | myapp/database.py:572-579 | true exactly for a strict ancestor |
| ItemCatalogue.Catalogue.RecomputePrivacy | myapp/utils/privacy.py:20-31 | the recursion sets the column of exactly the subtree to own flag or any ancestor's |
| ItemCatalogue.Catalogue.RecomputeChildren | myapp/utils/privacy.py:29-31 | the loop over children does so for each child's subtree |
| ItemCatalogue.Catalogue.CreateItem | myapp/blueprints/api.py:512-543 | a refused request changes nothing and is refused for the right reason, an accepted one adds just the row with its columns, a viewer adds nothing to a private item, and the column stays right |
| ItemCatalogue.Catalogue.UpdateItem | myapp/blueprints/api.py:560-618 | accepted if and only if the caller may make each change asked for and the move is no cycle, 400 exactly when the cycle is the only fault, the row it leaves, and that forest and column stay right |
| ItemCatalogue.PlanUpdate | myapp/blueprints/api.py:562-611 | the checks in order: accepted, or 400, exactly then, and the row they allow |
| ItemCatalogue.PlanFlags | myapp/blueprints/api.py:579-594 | the owner change, and then the privacy change by who the row belongs to after it |
| ItemCatalogue.AllSeeingIsAccepted | myapp/blueprints/api.py:562-611 | corollary: a caller nothing is hidden from is refused only what is malformed |
| ItemCatalogue.StrangersCannotHide | myapp/blueprints/api.py:586-594 | corollary: who is neither owner nor administrator can change the flag of an owned item only if it is hidden already and shared with them to curate |
| ItemCatalogue.CheckNewParent | myapp/blueprints/api.py:520-531 | 404 for a parent that is missing or hidden and 403 for a private one the caller does not contribute to, told from the rows; a viewer is refused |
| ItemCatalogue.CreatedAlone | myapp/blueprints/api.py:512-543 | the new row's columns, and no other row differs |
| ItemCatalogue.AcceptsIs | myapp/blueprints/api.py:562-611 | the guards of update_item accept exactly what the owner, the flag, the shares at or above and the new parent allow |
| ItemCatalogue.OnlyCycleIs | myapp/blueprints/api.py:595-611 | when 400 is the answer, told from the rows |
| ItemCatalogue.ChangeOwner | myapp/blueprints/api.py:579-585 | owner change: refused unless owner or administrator, or for an unknown user |
| ItemCatalogue.ChangePrivacy | myapp/blueprints/api.py:586-594 | privacy change: who may, and that privatising an unowned item claims it |
| ItemCatalogue.MoveItem | myapp/blueprints/api.py:595-611 | accepted exactly for a parent that is there, open to the caller and no cycle; 400 exactly for an open parent that closes one |
| Visibility.ExpandDownIs | myapp/visibility.py:136-163 | the recursive query returns exactly the items at or below its anchors |
| Visibility.ExpandMeetsWalk | myapp/visibility.py:113-163 | an item is in the expansion if and only if its upward walk meets a share |
| Access.ShareAccessIs | myapp/visibility.py:97-133 | access at a level is a share at or above the item, given to the user or a group of theirs, at one of the permissions listed for the level |
| Access.ViewItemIs | myapp/visibility.py:166-181 | who sees an item, told from the rows |
| Access.ContributeIs | myapp/visibility.py:184-194 | who contributes to it |
| Access.CurateIs | myapp/visibility.py:197-209 | who curates it |
| Access.ClaimIs | myapp/visibility.py:75-89 | who gets an item that nobody owns by making it private |
| Access.OwnershipIs | myapp/visibility.py:58-72 | who may give an item away, and who may change its flag |
| Access.ViewArtefactIs | myapp/visibility.py:212-230 | who sees an artefact |
| Access.ConnectivesAre | myapp/visibility.py:321-363 | AND and OR of three-valued logic are the lesser and the greater |
| Access.ViewersOnlyView | myapp/visibility.py:97-133 | who has only viewer shares at or above an item neither contributes to it nor curates it |
| Visibility.ItemListedIffViewable | myapp/visibility.py:321-339 | the item clause is true of a row if and only if the guard lets the caller see the item |
| Visibility.ArtefactListedIffViewable | myapp/visibility.py:342-363 | the same for artefacts, with NULL owners in three-valued logic |
| Visibility.ShareDescends | myapp/visibility.py:113-133 | access through a share carries down the tree at every level |
| Restrictions.AncestorIds | myapp/database.py:755-769 | the ids of the artefact and all it derives from |
| Restrictions.EffectiveRestrictions | myapp/database.py:771-787 | exactly the types placed on the artefact or on something above it |
| Restrictions.GateIs | myapp/visibility.py:233-258 | the decision is: nothing restricted, or an administrator, or each type waived everywhere or on the chain |
| Restrictions.BypassIs | myapp/database.py:221-255 | each type must be granted everywhere or on one of the artefacts named; administrators need no grant |
| Restrictions.CheckDownload | myapp/database.py:221-255 | both walks and the decision together |
| Restrictions.PermissionCarriesDown | myapp/visibility.py:233-258 | who may download a source may download what derives from it and adds no type |
| Restrictions.RestrictionCarriesDown | myapp/visibility.py:233-258 | a restriction on a source stops everyone it is not waived for |
| JobProtocol.ResetsExactlyTheQuiet | myapp/blueprints/analysis.py:339-353 | after any run in which each request is one step, a stale reset takes a running job if and only if its last claim and every heartbeat since are too old |
| JobProtocol.OnlyRunningJobsBeat | myapp/blueprints/api.py:1352-1368 | in such a run a job that is not running carries no heartbeat time |
| JobProtocol.ClaimsAreBounded | myapp/blueprints/api.py:1293-1324 | successful claims never exceed one plus the resets, also of deleted jobs |
| JobProtocol.CancelSparesClaimed | myapp/blueprints/analysis.py:304-336 | cancel deletes a job only if every claim of it has been undone, and touches no other |
| JobProtocol.CancelAfterCheck | myapp/blueprints/analysis.py:304-336 | whatever runs between the check and the delete, the job goes if and only if it is pending at the delete, so never while a claim of it is not undone |
| JobProtocol.PoisonIsBounded | myapp/services/analysis_queue.py:219-300 | between manual resets a job is claimed at most once more than the cap on stale resets |
| JobProtocol.RunKeepsOneActive | myapp/blueprints/api.py:1044-1094 | without manual retries there is at most one active job per artefact, type and hints |
| JobProtocol.RetryKeepsOneActiveIff | myapp/blueprints/analysis.py:356-376 | a retry keeps that if and only if no other active job has the key |
| JobProtocol.RetryDoublesWork | myapp/blueprints/analysis.py:356-376 | a failed job, asked for again and then retried, is active twice |
| JobLaws.StatusMoves | myapp/blueprints/api.py:1293-1386 | a status changes only for the reason that fits the new one: a claim, a report, a spent budget, a reset or a retry |
| JobLaws.ReasonsMove | myapp/blueprints/api.py:1293-1386 | and each of these reasons does change it |
| JobLaws.RowsComeAndGo | myapp/blueprints/api.py:1044-1094 | rows come pending from requests, go only by cancelling pending jobs, and keep their key |
| JobLaws.HistoryMoves | myapp/blueprints/api.py:1293-1386 | what the claims, resets, last claim and beats of the other results count, step by step |
| JobLaws.HistoryComes | myapp/blueprints/api.py:1044-1094 | a history starts with its job and outlives it |
| JobLaws.StatusIsDeserved | myapp/services/analysis_queue.py:219-300 | in every run, late writes included, a job is completed only if a success was reported since its last claim, and failed only if a failure was or its budget of stale resets was spent |
| JobLaws.RunShowsOutcome | myapp/blueprints/api.py:1326-1386 | when each request is one step, success and completion time say what the status says |
| JobLaws.AlwaysFreshIff | myapp/blueprints/analysis.py:339-353 | with late writes, a row says success only for its last claim throughout if and only if no claim finds a row that says so |
| JobLaws.OldSuccessIsClaimed | myapp/blueprints/analysis.py:339-353 | a run in which one does |
| LateWrites.UndisturbedWrite | myapp/blueprints/api.py:1326-1386 | the column-wise write back of an unchanged row is the protocol's report, finish or retry step |
| LateWrites.RunKeepsLateInv | myapp/blueprints/api.py:1326-1386 | what every run keeps when heartbeats and results made of any earlier row, resets and retries land at any later time than they were stamped |
| LateWrites.ResetsExactlyTheQuietIff | myapp/blueprints/api.py:1326-1386 | after any such run every quiet job is stale at every cutoff, and only those are if and only if the row's time is not older than its claim or a beat that landed since |
| LateWrites.StepStaysRightIff | myapp/blueprints/api.py:1326-1386 | when all rows are dated rightly, a step keeps them so if and only if a test on its row and request passes |
| LateWrites.AlwaysRightIff | myapp/blueprints/api.py:1326-1386 | throughout a run stale resets would take exactly the quiet jobs if and only if every step passes that test |
| LateWrites.AlwaysRightFromEmpty | myapp/blueprints/api.py:1326-1386 | that for every run from an empty table |
| LateWrites.LateBeatExact | myapp/blueprints/api.py:1352-1368 | a late heartbeat keeps the protocol's invariant if and only if the job runs and shows no later sign of life than the stamp |
| LateWrites.LateResultKeepsBeatIff | myapp/blueprints/api.py:1326-1386 | when a late result changes the status, and that it leaves a heartbeat time exactly if the row was read without one |
| LateWrites.LateRetryExact | myapp/blueprints/analysis.py:356-376 | a late retry is the protocol's retry if and only if the job is failed still and every column clear then is clear |
| LateWrites.ClaimsStayBounded | myapp/blueprints/api.py:1293-1386 | with late writes too, claims never exceed one plus the resets |
| LateWrites.PoisonStaysBounded | myapp/services/analysis_queue.py:219-300 | with late writes too, claims between manual resets never exceed one plus the cap |
| LateWrites.LateBeatsAndResultsKeepOneActive | myapp/blueprints/api.py:1326-1386 | late heartbeats and results keep active work unique |
| LateWrites.LateBeatTakesLiveJob | myapp/blueprints/api.py:1352-1382 | a heartbeat lands on a reset row, and the next claim inherits its time |
| LateWrites.EarlyStampTakesLiveJob | myapp/blueprints/api.py:1352-1382 | a heartbeat stamped before the next claim lands after it |
| LateWrites.SwappedBeatsTakeLiveJob | myapp/blueprints/api.py:1352-1382 | two heartbeats of one claim land in the other order |
| LateWrites.RepeatedFailureTakesLiveJob | myapp/blueprints/api.py:1326-1386 | a failure report made of a failed row clears the beat of the job that runs again |
| LateWrites.SecondRetryTakesLiveJob | myapp/blueprints/analysis.py:356-376 | a second retry stops a running job and leaves its beat for the next claim |
| StaleRace.LateWriteExact | myapp/blueprints/analysis.py:339-353 | the late write re-queues a still quiet job if and only if its row kept the status and times it was read with |
| StaleRace.LateWriteCleansIff | myapp/blueprints/analysis.py:339-353 | corollary of the column-wise write: it leaves a clean pending row if and only if every column that was clear when read is clear still |
| StaleRace.LateWriteUniqueIff | myapp/blueprints/analysis.py:339-353 | the late write of a reset or a retry keeps active work unique if and only if the job is still active or nothing replaced it |
| StaleRace.FinishedJobIsRequeued | myapp/blueprints/analysis.py:339-353 | a run in which a finished job is re-queued beside its replacement |
| JobTable.Analyses.RequestAnalysis | myapp/blueprints/api.py:1044-1094 | one request step; a clean pending job is created if and only if no unfinished one has the key |
| JobTable.Analyses.ClaimJob | myapp/blueprints/api.py:1293-1324 | one claim step; it succeeds exactly on a pending job, whose status and start are all that changes |
| JobTable.Analyses.ReportProgress | myapp/blueprints/api.py:1326-1386 | one report step; the message, and a heartbeat for a running job, are all that changes |
| JobTable.Analyses.FinishJob | myapp/blueprints/api.py:1326-1386 | one finish step, column by column; a result given before is kept when none comes, and progress and heartbeat are cleared |
| JobTable.Analyses.CancelDeletePending | myapp/blueprints/analysis.py:304-336 | one cancel step; it deletes exactly a pending job, whose claims are all undone |
| JobTable.Analyses.Cancel | myapp/blueprints/analysis.py:304-336 | both phases with nothing in between are one cancel step |
| JobTable.Analyses.WebResetStale | myapp/blueprints/analysis.py:339-353 | the undisturbed web reset is one step; it clears exactly the silent running rows and counts them |
| JobTable.Analyses.ResetStaleCore | myapp/services/analysis_queue.py:219-300 | the two updates are one step; column by column, silent jobs that spent their budget fail, the others are cleared and counted, and no other row changes |
| JobTable.TwoUpdates | myapp/services/analysis_queue.py:219-300 | dead-lettering and re-queueing move each stale job exactly once |
| JobTable.Analyses.RetryJob | myapp/blueprints/analysis.py:356-376 | one retry step; it succeeds exactly on a failed job, which it clears |
| ChunkGeometry.SlicesMakeFile | cli/arccli/client.py:245-300 | cutting a file into chunks and concatenating them is the identity |
| ChunkGeometry.CutAlikeIff | cli/arccli/client.py:245-300 | two chunk sizes of one count cut a file alike if and only if they are equal or there is one chunk |
| ChunkGeometry.ChunksToSend | cli/arccli/client.py:293-305 | the loop sends exactly the chunks the server lacks, in order, each its own slice |
| ChunkGeometry.AssembleToStorage | myapp/services/chunked_upload.py:293-372 | buffered copying yields the concatenation, or is refused exactly when that is too large |
| UploadProtocol.RunKeepsInv | cli/arccli/client.py:245-310 | every step of any run keeps sessions, chunks in flight, and what the client believes, right |
| UploadMoves.PhaseMoves | myapp/services/chunked_upload.py:470-589 | which step changes the phase of a session, and to what |
| UploadMoves.ChunksMove | myapp/services/chunked_upload.py:257-270 | chunks change when an admitted one is written, and when those of a finished session are dropped |
| UploadMoves.RunnersMove | myapp/services/chunked_upload.py:293-372 | which step starts, moves on or ends a finalise run |
| UploadMoves.SessionsComeAndGo | myapp/blueprints/api.py:2429-2512 | sessions come empty under the next name, within the limit on chunks, and go when purged |
| UploadMoves.RequestsMove | cli/arccli/client.py:287-310 | which step sends a chunk or asks for the end, and just that |
| UploadMoves.AdmissionsMove | myapp/blueprints/api.py:2517-2541 | which step admits a chunk or counts it as stored, and just that |
| UploadMoves.StartMoves | cli/arccli/client.py:401-446 | a run takes up the earlier session as far as it got, or starts afresh |
| UploadMoves.FetchMoves | cli/arccli/client.py:407-446 | a resume goes on from what the server holds, or starts afresh |
| UploadMoves.LoopMoves | cli/arccli/client.py:287-310 | how the chunk loop goes on |
| UploadMoves.PollMoves | cli/arccli/client.py:354-397 | how polling ends |
| UploadProtocol.UploadIsFaithful | cli/arccli/client.py:245-310 | with one chunk size, each stored chunk is its slice, a claimed session has them all and they make the file, and what is published or returned is the file |
| UploadProtocol.AssemblingMeansReceived | cli/arccli/client.py:407-446 | a resume that finds an assembling session and sends nothing sees exactly the chunks held |
| UploadProtocol.CompleteIsNeverShort | myapp/blueprints/api.py:2648-2660 | no /complete of the client finds a chunk missing while its session lives |
| UploadProtocol.ClaimedIsFrozen | myapp/blueprints/api.py:2526-2541 | no step changes a chunk of an assembling session, opens a claimed one again, or admits a chunk to it |
| UploadMixed.FaithfulIffUnambiguous | cli/arccli/client.py:401-405 | all runs over some chunk sizes are faithful if and only if no two of them share a resume key and cut the file apart |
| UploadMixed.MixCorrupts | cli/arccli/client.py:401-446 | two such sizes, and a run that publishes something else than the file |
| TornChunks.AccessMoves | myapp/services/chunked_upload.py:257-350 | a request empties its file and then fills it; a read takes what is there from where it stands |
| TornChunks.FaithfulIffUnexposed | myapp/services/chunked_upload.py:257-350 | a run on track reads the file under all writes of outstanding requests if and only if no chunk still to be read is empty or may be emptied |
| TornChunks.FaithfulIffNoneOutstanding | myapp/services/chunked_upload.py:257-350 | in a claimed session of the protocol: if and only if no admitted request is outstanding or the file is empty |
| UploadServer.Sessions.Init | myapp/blueprints/api.py:2429-2512 | an empty session under a new name, or none for an absurd chunk count |
| UploadServer.Sessions.PostChunk | myapp/blueprints/api.py:2517-2541 | 404, 409 and 400 exactly for an unknown, a claimed and a too short session, else the chunk is stored and nothing more |
| UploadServer.Sessions.MissingChunks | myapp/services/chunked_upload.py:284-290 | the expected chunks that have not arrived, ascending |
| UploadServer.Sessions.GetStatus | myapp/blueprints/api.py:2546-2561 | the chunks that have arrived, ascending |
| UploadServer.Sessions.ClaimFinalize | myapp/services/chunked_upload.py:470-507 | compare-and-set: won exactly when open, or assembling and stale |
| UploadServer.Sessions.Complete | myapp/blueprints/api.py:2631-2680 | refused with the missing chunks, else one claim step of the protocol |
| UploadServer.Sessions.CompleteStatus | myapp/blueprints/api.py:2725-2775 | answers the state it read, and re-drives only a stale assembly |
| UploadServer.Sessions.RunFinalize | myapp/services/chunked_upload.py:536-589 | publishes the chunks in order, or fails an upload that is oversized or that storage or ingest does not take, and drops the chunks |
| UploadServer.ClaimTwice | myapp/services/chunked_upload.py:470-507 | of two claims in a row at most one wins, and one does exactly if the session was claimable |
| UploadServer.SendAll | cli/arccli/client.py:287-310 | every chunk to send arrives, and none that was there is lost or changed |
| UploadServer.UploadMissing | cli/arccli/client.py:287-310 | resuming into a session that holds some right chunks assembles to the file |
| RetryPolicy.UploadChunkWithRetry | cli/arccli/client.py:312-333 | at most six attempts, pauses of 0, 2, 4, 8, 16 and 30 seconds; the first answer that is neither a network error nor an API error outside 4xx decides |
| RetryPolicy.BackoffBound | cli/arccli/client.py:39-40 | the pauses sum to sixty seconds exactly after six attempts |
| RetryPolicy.PollsBeforeDeadline | cli/arccli/client.py:45-47 | the sleeps before a poll stay under the cap exactly for the first 1442 polls |
| RetryPolicy.PollFinalize | cli/arccli/client.py:354-397 | at most 1442 status requests, attained when nothing is decided and nothing takes longer; the first decisive reply is judged |
| FileEffects.IncomingAppends | myapp/blueprints/api.py:1943-1944 | records are taken one by one, in order |
| FileEffects.ListedWhere | myapp/blueprints/api.py:1969-1982 | a file of an archive is listed below it, with its own path once |
| FileEffects.BatchAdds | myapp/blueprints/api.py:2010-2079 | each file whose listed path is neither stored nor an earlier file's gets exactly one row, the next, with its own match; old rows stay and nothing else is added |
| FileEffects.BatchCounts | myapp/blueprints/api.py:2062-2071 | the counters move by those files and by the unmatched among them |
| FileEffects.BatchAnswers | myapp/blueprints/api.py:2010-2107 | files sent under different paths are answered each with a row of their path, or their own new one |
| FileEffects.RegisterReplaces | myapp/blueprints/api.py:1867-1905 | partitions of the index are gone with their rows, and a fresh one is there |
| FileEffects.FoundArchiveMarks | myapp/blueprints/api.py:1968-1982 | only the flag of the row changes |
| FileListing.NewOnesAre | myapp/blueprints/api.py:2016-2023 | the duplicate guard accepts each path that is not stored exactly once |
| FileListing.InsertExtends | myapp/blueprints/api.py:2031-2079 | inserting keeps old rows and files each accepted candidate under the next id |
| FileListing.CountersAreCounts | myapp/blueprints/api.py:2062-2071 | after any run the incremental counters are the row counts |
| FileListing.RunKeepsValid | myapp/blueprints/api.py:1867-2071 | every run keeps counters, references, path widths and one partition per artefact and index |
| FileResubmission.DistinctIffCutsApart | myapp/blueprints/api.py:1627-1644 | a batch keeps stored paths distinct if and only if the cut keeps its new paths apart from each other and from stored ones |
| FileResubmission.StoredPathsAreDistinct | myapp/blueprints/api.py:1918-2071 | while nested paths fit the column no run stores a path twice |
| FileResubmission.StoredAfter | myapp/blueprints/api.py:1627-1644 | after a batch a candidate's path is stored if and only if it fits |
| FileResubmission.ResubmissionAddsNothingIff | myapp/blueprints/api.py:1988-2060 | sending a batch again adds nothing if and only if all nested paths fit |
| FileRegistration.AnswerAt | myapp/blueprints/api.py:2010-2079 | a file is answered with its old row's id, its new row's id, or not at all |
| FileRegistration.ResubmissionReturnsSameIdsIff | myapp/blueprints/api.py:2010-2107 | with short and distinct paths the ids come back the same if and only if no file repeated a nested path of its batch |
| FileWitnesses.LongPathsCollide | myapp/blueprints/api.py:1627-1644 | any two paths over the limit that agree up to it are stored as one path twice |
| FileWitnesses.PathsAreStoredTwice | myapp/blueprints/api.py:1627-1644 | a run from empty tables that stores a path twice |
| FileWitnesses.LongPathAddedAgain | myapp/blueprints/api.py:1988-2060 | any path over the limit gets one more row when it is sent again |
| FileWitnesses.SameNestedPathTwice | myapp/blueprints/api.py:2010-2107 | below an archive, a file sent by its whole path and one sent by its path within are answered otherwise the second time |
| FileWitnesses.BatchIsAnsweredOtherwise | myapp/blueprints/api.py:2010-2107 | a run from empty tables after which a batch of distinct short paths is |
| FileTable.Listing.LookUp | myapp/blueprints/api.py:1985-2000 | some row for every stored path |
| FileTable.Listing.Sift | myapp/blueprints/api.py:2006-2060 | the loop accepts, counts and skips as specified |
| FileTable.Listing.Flush | myapp/blueprints/api.py:2072-2080 | rows get ids in order, and created ids override old ones in the answer |
| FileTable.Listing.AddFiles | myapp/blueprints/api.py:1918-2107 | the whole new state, file by file: rows, counters and answers; added plus skipped is the number of candidates |
| FileTable.Listing.RegisterPartition | myapp/blueprints/api.py:1867-1905 | a fresh partition replaces every older one of its index with its rows |
| HashImport.ImportIsUnion | myapp/blueprints/api.py:2998-3029 | the product of a title holds what it held and all that the payload asks for under the title |
| HashColumns.ResolveIs | myapp/blueprints/api.py:2978-2981 | a title's product is the last of that title |
| HashColumns.EveryEntryHasARow | myapp/blueprints/api.py:2905-2922 | after an import each named entry of a titled product has a row under the title's product, column by column |
| HashColumns.EveryRowIsAskedFor | myapp/blueprints/api.py:2905-2922 | and each added row is such an entry's |
| HashColumns.ImportMeetsPayload | myapp/blueprints/api.py:2974-3029 | both, and exactly the missing titles of the payload are added |
| HashColumns.TitledCount | myapp/blueprints/api.py:2998-3016 | products counted are those with a title |
| HashImport.OthersKeep | myapp/blueprints/api.py:2998-3029 | every other product keeps what it held |
| HashImport.ImportKeepsProducts | myapp/blueprints/api.py:2998-3016 | products keep ids and titles, and just the missing titles are added |
| HashImport.ImportAppends | myapp/blueprints/api.py:3017-3027 | rows are only appended, and none that is there already |
| HashImport.ImportAgain | myapp/blueprints/api.py:2974-3029 | importing the same payload again changes nothing |
| HashImporter.Importer.FileKeys | myapp/blueprints/api.py:2983-2993 | a cached key set equals what is stored and pending |
| HashImporter.Importer.FindProduct | myapp/blueprints/api.py:2998-3016 | the title's product, created if missing, with both caches kept right |
| HashImporter.Importer.AddAll | myapp/blueprints/api.py:3017-3027 | the loop over files adds what a fresh query would find missing |
| HashImporter.Importer.ImportKnownDatabase | myapp/blueprints/api.py:2955-3041 | the cached import computes the specified rows, which meet the payload column by column, and its three counts are right |
| HashImporter.ImportTwice | myapp/blueprints/api.py:2955-3041 | a second import reports nothing added |
| Utf8.DecodeEncode | arcology_shared/storage.py:55-67 | a decoder by the octet ranges of section 4 of RFC 3629 gives every encoded string back |
| Utf8.EncodeDecode | arcology_shared/storage.py:55-67 | and what it accepts is the encoding of what it gives |
| Utf8.ByteLenIsOctets | arcology_shared/storage.py:55-67 | a string takes one to four octets a character by the code-point bounds of section 3 of RFC 3629 |
| Utf8.NarrowIffAscii | arcology_shared/storage.py:55-67 | it takes as many octets as it has characters if and only if all are ASCII |
| Utf8.TruncatedIsLongest | arcology_shared/storage.py:55-67 | the longest prefix that fits, or an underscore |
| Utf8.TruncatedFitsIff | arcology_shared/storage.py:55-67 | the result fits if and only if one byte does, or nothing was to be truncated |
| Utf8.TruncateUtf8 | arcology_shared/storage.py:55-67 | the loop computes it |
| KeyCompaction.LStripIs | arcology_shared/storage.py:78 | exactly the leading slashes go |
| KeyCompaction.RStripIs | arcology_shared/storage.py:109 | exactly the trailing slashes go |
| KeyCompaction.BasenameIs | arcology_shared/storage.py:93 | what follows the last slash |
| KeyCompaction.CompactIs | arcology_shared/storage.py:70-102 | a path that fits is kept, any other becomes the reserved folder, its digest and the longest prefix of its last component that fits |
| KeyCompaction.KeyIs | arcology_shared/storage.py:105-112 | the key is the folder, a slash and the path compacted to the octets left, and it is within the limit in octets |
| KeyCompaction.CompactFitsIff | arcology_shared/storage.py:70-102 | when a path is refused, that the result fits, and that the last check never fails |
| KeyCompaction.CompactIsIdempotent | arcology_shared/storage.py:70-102 | compacting again at the same budget changes nothing |
| KeyCompaction.KeyFits | arcology_shared/storage.py:105-112 | a returned key fits the limit; when none is returned |
| KeyCompaction.CompactCollidesIff | arcology_shared/storage.py:70-102 | two paths with distinct digests are stored alike if and only if they are the same or one is the compacted form of the other |
| KeyCompaction.CompactIsInjective | arcology_shared/storage.py:70-102 | so distinct paths outside the reserved folder stay distinct |
| TreeStorage.S3Storage.CheckKeys | arcology_shared/storage.py:656-664 | all keys valid, or the whole tree is refused |
| TreeStorage.S3Storage.UploadAll | arcology_shared/storage.py:665-696 | what is uploaded when all goes well, and what may be there when an upload fails |
| TreeStorage.S3Storage.PutTree | arcology_shared/storage.py:651-696 | one invalid key leaves the store unchanged; otherwise every object is old or a file of the tree |
| TreeStorage.S3Storage.GetTree | arcology_shared/storage.py:697-713 | exactly the objects below the prefix |
| TreeStorage.UnmappedAcceptsIff | arcology_shared/storage.py:115-122 | with no mapper a tree is refused if and only if a key is over 479 octets |
| TreeStorage.RoundTripUnmapped | arcology_shared/storage.py:651-713 | with no mapper, what is uploaded to an empty prefix comes back |
| TreeStorage.RoundTripCompacted | arcology_shared/storage.py:651-713 | with compaction, each file comes back at its compacted path and nothing else does |
| TreeStorage.PutAndGetUnmapped | arcology_shared/storage.py:651-713 | put_tree and get_tree in a row: the tree when all was stored, nothing when it was refused, some of it when an upload failed |
| TreeStorage.PutAndGetCompacted | arcology_shared/storage.py:651-713 | with compaction: each file at its compacted path, and as many as there were |
| TreeStorage.MappedCount | worker/arcworker/analysis.py:474-497 | there are as many mapped paths as files if and only if no file lies where another one is compacted to |
| TreeStorage.CompactedKeys | worker/arcworker/analysis.py:474-497 | keys are distinct if and only if no file lies where another one is compacted to |
| TreeStorage.CompactedKey | worker/arcworker/analysis.py:586-605 | uploader and single-file reader name a file alike |
| TreeStorage.UnreservedIsNotCompacted | arcology_shared/storage.py:70-102 | corollary: a tree without files in the reserved folder has no such pair |
| TreeStorage.CompactionAcceptsIff | worker/arcworker/analysis.py:474-497 | a tree is refused if and only if its folder leaves a long path no room |
| TreeStorage.UploadExtraction | worker/arcworker/analysis.py:499-541 | after a stored upload of a tree without such a pair every file is found under its compact key with its content |
| StatusRollup.NextFrontier | myapp/blueprints/items.py:249-264 | the unmapped children of a frontier are exactly the artefacts one step further from their nearest root |
| StatusRollup.MapToRoots | myapp/blueprints/items.py:245-264 | the walk ends on any table and maps exactly the artefacts whose upward walk meets a root, each to the nearest |
| StatusRollup.Tally | myapp/blueprints/items.py:266-276 | the buckets hold the number of analyses of each root and status |
| StatusRollup.Report | myapp/blueprints/items.py:278-291 | the roots with an analysis, each with its worst status, how often it occurs, and the total |
| StatusRollup.TotalsConserved | myapp/blueprints/items.py:233-291 | the totals sum to the number of analyses of mapped artefacts |
| StatusRollup.ComputeStatus | myapp/blueprints/items.py:233-291 | all of it, from roots to report |

## Left out

- JobProtocol.ResetsExactlyTheQuiet: takes each request as one step; runs in which requests read before and write after others are in LateWrites.
- JobProtocol.OnlyRunningJobsBeat: the same.
- JobProtocol.RunKeepsOneActive: takes the web route's reset as one step; what happens when it is not is in StaleRace.
- StaleRace.LateWriteExact: the other requests are whole steps; that the object mapper refreshes a row within a session is not modelled.
- ItemForest.RunKeepsForest: requests come one after another; two moves that overlap are in TwoMovesIff, other overlapping requests are not modelled.
- JobTable.Analyses.ResetStaleCore: the error message is not modelled.
- JobTable.Analyses.ClaimJob: the deferred re-analysis that a claim also triggers, and the cap on heavy jobs, are not modelled.
- JobTable.Analyses.ReportProgress: one undisturbed step, late ones are in LateWrites; worker requests that set `pending`, or `running` without claiming, are accepted by the code and are no part of the protocol.
- UploadProtocol.UploadIsFaithful: a chunk is written at once, TornChunks has the two steps while a run reads; a first chunk file that counts as received before it is filled, and a file that changes between runs, are not modelled.
- UploadProtocol.ClaimedIsFrozen: the same; a request admitted before the claim may empty a chunk file in TornChunks.
- TornChunks.FaithfulIffUnexposed: one finalise run, and a request fills its file at once.
- UploadServer.Sessions.RunFinalize: whether storage and ingest take the assembled bytes is a parameter, and what they do with them, the heartbeat thread, locks between processes and the synchronous variant of /complete are not modelled; staleness is a parameter.
- ChunkGeometry.Total: integer ceiling; the code divides in floating point.
- RetryPolicy.PollFinalize: time is real numbers and sleeps last at least as long as asked.
- FileTable.Listing.AddFiles: what the known-file matcher answers is a parameter; file names and attributes that are cut too, row locks, the deadlock answer and the automatic restrictions are not modelled.
- FileTable.Listing.RegisterPartition: rows of other partitions that name a deleted row as parent are not modelled.
- HashImporter.Importer.ImportKnownDatabase: rows are read in a fixed order, so that the last of several products of one title stays the last; linking to the collection is not modelled.
- HashImport.ImportIsUnion: lower-casing and stripping are arbitrary functions.
- KeyCompaction.CompactCollidesIff: SHA-256 is an arbitrary function to 24 ASCII characters, distinct where stated.
- TreeStorage.S3Storage.PutTree: uploads one after another in any order; a thread pool's other uploads after one fails, and path normalisation on download, are not modelled.
- MigrationChain.SilentIffLinear: starts from parsed file name, revision and parent; a finding is one value, and a branch-point header with its lines is one.
- Visibility.ItemListedIffViewable: foreign keys hold and the item forest is acyclic, which ItemForest.RunKeepsForest shows of every reachable one.
- Restrictions.CheckDownload: derivation chains end; the code has no operation that re-points an artefact's parent.
- ItemCatalogue.Catalogue.UpdateItem: names, descriptions, tags, slugs and the audit trail are not modelled.
- Deleting items and artefacts, and the garbage collector.
- Flask routing, forms, templates, sessions, OIDC and API keys.
- Local-disk storage, range requests, presigned URLs and content types.
- Lookup tables and classifiers: archive formats, file types, extension labels, codecs.
- Hash matching, similarity search and the rescan jobs.
- Parsing of migration files, and the CI checks on autocommit, headers and downgrade bodies.
