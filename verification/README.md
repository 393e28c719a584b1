# A verified model of the DoltLite beads backend

Dafny 4.11 models of the parts of the backend whose correctness does not show in
any one function body, with proofs about all inputs, all runs or all reachable
states. `dafny verify dfyconfig.toml` checks the project.

SQL tables are sets and maps of rows, each `withConn` transaction is one atomic
step, and every object that the program updates in place is a class whose methods
are proved against a specification. What the outside world decides (row order,
failing reads, which select case is taken, the next commit hash, minted ids) is a
parameter or an arbitrary choice.

## The parts

**The blocked column** (`BlockedTables`, `ParentHeights`, `BlockedColumn`,
`Affected`, `BlockedMerge`, `BlockedMarks`, `Deletions`, `RepairState`, `RepairRuns`,
`MergeRepair`, `RepairScenarios`, `MarkScenario`). `is_blocked` caches a recursive predicate: a row is blocked if
it is open and has an open hard blocker, a blocked parent, or a closed waits-for
gate. `BlockedTables` defines the predicate as the mark and unmark updates read it,
and shows that over acyclic parent links exactly one column is consistent.
`BlockedColumn` is the mark/unmark loop: whatever the column held before and in
whatever groups an UPDATE evaluates its rows, the loop ends at that column within
two rounds more than the longest parent chain has links. `Affected` computes the
rows a change can affect and shows that no other row's staleness moves.
`BlockedMarks` shows that adding an edge which can only block needs marks alone.
`RepairState` is the post-merge protocol as a state machine: the working set, HEAD,
the commits seen, the failure marker, a merge in flight. A state is safe if the
window of the next repair reaches every stale row. Every step from a safe state is
shown to lead to a safe state exactly when a condition on the event and the state
before it holds, and only three kinds of step have a condition that can fail: a pull,
the end of a process with an unrecorded merge, and a mark-only write while a repair is
owed. In particular nothing whatever is asked of pulls as long as windows open on a
clean working set and no wisp changes while a repair is owed, and nothing of a
mark-only write that affects no stale row. `MergeRepair.Clone` is the code, each
method proved to be a step; `RepairScenarios` and `MarkScenario` are runs of it in
which each condition fails once.

**Cycle prevention** (`Paths`, `Dependencies`, `GraphApply`). Insertion of
dependencies in bulk with a check per edge or one check at the end, the
breadth-first search that renders a cycle, the depth-first walk of a graph plan
over planned and lazily loaded edges, the two preflight validators, and the edge
and parent passes of `applyGraph`.

**Sessions, transactions, hooks** (`Sessions`, `Handshake`, `Transactions`,
`HookEvents`). The manager's sections under its mutex as steps of a state machine;
the channels between a transaction's body and whoever finishes it; the bounded
retry that re-runs a body, and the hooks that fire after it.

**Traversals** (`WispDependents`, `Descendants`), **ids and the merge slot**
(`Base36`, `HierarchyIds`, `ChildIds`, `MergeSlot`).

## Where the code and its documentation part

- `CountIsBlockedInconsistenciesInTx` is documented as a lower bound on the rows a
  repair changes. It is zero exactly when nothing is stale, but it can exceed the
  number of wrong rows (`BlockedTables.StaleCountExceedsWrongRows`). A counted row is
  changed exactly when its parents' right flags give it the reason that the stored
  ones do (`CountedIsChangedIff`); the bound holds when no stale row has a stale
  ancestor (`CountIsLowerBound`).
- The scoped repair after a lost recompute can miss a wisp: when a local write has
  changed the wisp and a later pull takes the versioned rows back exactly, the diff
  from the marker is empty, and wisps are not versioned
  (`RepairScenarios.RevertStrandsAWisp`). A scoped retry is the full repair exactly
  when its diff reaches what is stale in the from-commit's rows beside today's wisps
  (`BlockedMerge.ScopedRetryIsFullIff`, `DiffRepairIsFullIff`).
- So can one after a mark-only write: adding a dependency while a repair is owed only
  marks, and if it takes the versioned rows back to those of the marker, a row that the
  marks do not mend is out of the diff's reach (`MarkScenario.MarksStrandAWisp`). The
  write loses nothing exactly when the diff it leaves reaches the affected rows that
  its marks do not mend (`RepairState.MarkedWriteIff`).
- A process that ends between a merge and its marker loses the window exactly when
  no older marker stands and something is stale (`RepairState.ForgottenIff`,
  `RepairScenarios.DyingStrandsAWisp`).
- The two bulk-add modes agree on every graph, not only on acyclic ones.
- A transaction body can be committed twice: on a connection opened for the
  attempt, a busy-database error from closing that connection, after the commit,
  is retried. `Transactions.AllOrNothing` gives the exact condition.
- A batch that holds only wisps is created without reconciling child counters, so a
  child number of a parent in `issues` may be handed out although a wisp has it
  (`ChildIds.WispBatchCollides`); k allocations in a row are free of this exactly when
  the other table holds none of the next k children (`FreshInBothTablesIff`).
- A waiter that is already queued for the merge slot is told the length of the queue.

## Model

| member | source | states |
|---|---|---|
| BlockedTables.RankedIffAcyclicParents | internal/storage/issueops/blocked_state.go:168-256 | the hypothesis used throughout, a ranking of the parent links, exists exactly when no row is its own ancestor |
| BlockedTables.FixpointUnique | internal/storage/issueops/blocked_consistency.go:191-228 | two fixpoints of mark and unmark over a scope that agree outside it are equal |
| BlockedTables.SettledIsFixpoint | internal/storage/issueops/blocked_consistency.go:191-228 | such a fixpoint exists for every scope and starting column, and leaves the rows outside as they were |
| BlockedTables.StaleIff | internal/storage/issueops/blocked_state.go:168-256 | the complete list of reasons, by edge type: a flag is right exactly when it says whether the row is open and has an open blocker over a blocks or conditional-blocks edge, a blocked parent, or a waits-for edge whose gate is shut |
| BlockedTables.WhatBlocks | internal/storage/issueops/blocked_state.go:168-256 | so after a recompute a closed or pinned row is not blocked, an open one is by an open target of either kind of blocking edge and by a blocked parent, and edges of other types block nothing |
| BlockedTables.WhatWaits | internal/storage/issueops/blocked_state.go:168-256 | and a waiter is blocked while the spawner has an open child; with the any-children gate only until it has a closed one |
| BlockedTables.TruthIsTheConsistentColumn | internal/storage/issueops/blocked_consistency.go:134-186 | with acyclic parents a column has no stale row exactly when it is the one that a full recompute produces |
| BlockedTables.MutualParentsAreAmbiguous | internal/storage/domain/dependency.go:152-161 | two rows that are each other's parent, which the cycle check lets in, admit two consistent columns |
| BlockedTables.StaleCountExceedsWrongRows | internal/storage/issueops/blocked_consistency.go:122-133 | the failing case: two rows are counted and one has to change |
| BlockedTables.CountedIsChangedIff | internal/storage/issueops/blocked_consistency.go:122-133 | a counted row is one that the repair changes exactly when its parents' right flags give it the reason that the stored ones give |
| BlockedTables.CountedAreChangedIff | internal/storage/issueops/blocked_consistency.go:122-133 | so all counted rows are changed exactly when that holds for each |
| BlockedTables.CountIsLowerBound | internal/storage/issueops/blocked_consistency.go:122-133 | if no stale row has a stale ancestor, every counted row is changed and the count is a lower bound |
| ParentHeights.HeightsRank | internal/storage/issueops/blocked_consistency.go:95-121 | with acyclic parents, one more than the highest parent is a ranking of the rows |
| ParentHeights.ChainsFit | internal/storage/issueops/blocked_consistency.go:95-121 | no chain of parent links from a row is longer than its height |
| ParentHeights.LongestChain | internal/storage/issueops/blocked_consistency.go:95-121 | and one is as long |
| ParentHeights.ChainHeightOf | internal/storage/issueops/blocked_consistency.go:95-121 | with acyclic parents the rows of any scope have a longest parent chain |
| BlockedTables.DifferCompose | internal/storage/issueops/blocked_consistency.go:95-121 | counts of flipped rows compose: parity exactly, size as a triangle inequality |
| BlockedColumn.BlockedStore.ExecUpdate | internal/storage/issueops/blocked_state.go:168-256 | one mark or unmark UPDATE, whatever groups of rows it evaluates together: rows affected are the rows changed, only eligible rows move, settled rows stay |
| BlockedColumn.BlockedStore.RunMarkUnmarkBatched | internal/storage/issueops/blocked_state.go:395-419 | the batches cover all ids, right rows stay right, and rows one rank above the settled part become right |
| BlockedColumn.BlockedStore.Recompute | internal/storage/issueops/blocked_state.go:69-92 | the fixpoint loop over any set of rows ends at the settled column, at most two rounds after as many as the longest parent chain above those rows has links; a row was flipped an odd number of times exactly when its value changed; the total is 0 exactly when nothing changed |
| BlockedColumn.BlockedStore.MarkRows | internal/storage/issueops/blocked_state.go:94-125 | the mark-only loop ends with no row left to mark, having marked only rows that have a reason, and nothing outside its rows |
| BlockedColumn.BlockedStore.RecomputeAll | internal/storage/issueops/blocked_consistency.go:80-121 | the full repair ends at the consistent column from any column, and returns 0 exactly when the column was consistent, so a second repair returns 0 |
| BlockedColumn.BlockedStore.CountInconsistencies | internal/storage/issueops/blocked_consistency.go:134-186 | the count is the number of stale rows, 0 exactly when the column is consistent |
| Affected.AffectedSet.ExpandByParentChildDescendants | internal/storage/issueops/blocked_state.go:627-708 | the two batched queues end, on cyclic graphs too, with the smallest set that holds the seeds and is closed under children of both tables |
| Affected.AffectedByStatusChange | internal/storage/issueops/blocked_state.go:441-469 | returns the closure of the row, its blocking dependers and the waiters over it or its parents |
| Affected.AffectedByDepChange | internal/storage/issueops/blocked_state.go:471-505 | returns the closure of the source and, for a parent link, of the waiters on the parent |
| Affected.StatusSeedsIff | internal/storage/issueops/blocked_state.go:441-469 | the rows seeded by a status change, by edge type: the row, the sources of blocks and conditional-blocks edges onto it, the waiters on a parent of it |
| Affected.EdgeSeedsIff | internal/storage/issueops/blocked_state.go:471-505 | the rows seeded by an edge: its source if the type can block, and for a parent link the waiters on the target in either table |
| Affected.ClosureUnique | internal/storage/issueops/blocked_state.go:627-708 | the closure of given seeds is one set, whatever the order of rows and batches |
| Affected.Untouched | internal/storage/issueops/blocked_state.go:434-505 | outside a closed set that holds the affected rows of every change, a row is stale after the change exactly when it was before |
| Affected.ClosedRepair | internal/storage/issueops/blocked_state.go:61-92 | repairing only a closed set gives every row of the column its full-recompute value exactly when the set holds all stale rows |
| BlockedMarks.MarkingMends | internal/storage/issueops/dependencies.go:231-275 | after adding a blocks, conditional-blocks or waits-for edge, the direct mark of the source and the mark loop leave no affected row stale if none was before, whatever the rest of the column holds |
| BlockedMarks.MarkingIsEnough | internal/storage/issueops/dependencies.go:231-275 | so they leave a consistent column consistent |
| BlockedMarks.MarksDetermined | internal/storage/issueops/dependencies.go:231-275 | the column after the marks is a function of the column, the edge and the affected rows before |
| BlockedMarks.LeftWasStale | internal/storage/issueops/dependencies.go:231-275 | an affected row that is stale after the marks was stale before, or is the source of a hard edge that stays unmarked |
| BlockedMarks.MarksKeepWindowIff | internal/storage/issueops/dependencies.go:231-275 | a mark-only write keeps the owed repair's window wide enough exactly when the diff it leaves reaches the affected rows that stay stale |
| BlockedMarks.MarksWithoutReverts | internal/storage/issueops/dependencies.go:231-275 | it does whenever it takes nothing back to what it was at the window's start |
| Deletions.DeletionIsLocal | internal/storage/issueops/blocked_state.go:566-625 | a deletion followed by the repair of the rows that hang off the deleted ones repairs everything that it affects |
| BlockedMerge.WindowCoversStaleIff | internal/storage/issueops/blocked_merge.go:80-113 | a window reaches every stale row exactly when it reaches those that are stale in its commit's rows beside today's wisps, which no pull changes |
| BlockedMerge.HashShape | internal/storage/issueops/blocked_merge.go:12-15 | a from-commit is a text of 32 base-32 digits, so neither empty nor the marker for a full repair |
| BlockedMerge.PullKeepsWindowIff | internal/storage/issueops/blocked_merge.go:80-113 | so a pull keeps the window wide enough exactly when its diff from the window's start reaches those rows |
| BlockedMerge.AnyPullKeepsWindow | internal/storage/issueops/blocked_merge.go:80-113 | every pull whatever does if there are none |
| BlockedMerge.MergeKeepsWindow | internal/storage/issueops/blocked_merge.go:24-36 | and any pull that takes nothing back to what it was at the window's start, from a state whose window is wide enough |
| BlockedMerge.LocalStepKeepsWindow | internal/storage/issueops/blocked_merge.go:80-113 | a local write that repairs what it affects keeps the owed repair's window wide enough |
| BlockedMerge.FirstMergeOpensWindow | internal/storage/issueops/blocked_merge.go:80-113 | the window from the pre-merge HEAD of a clean, consistent clone covers whatever the merge makes stale |
| BlockedMerge.CleanWindowIsConsistent | internal/storage/issueops/blocked_merge.go:115-130 | if the window covers the stale rows and nothing differs from its start, nothing is stale: the head == fromCommit skip is safe |
| BlockedMerge.ScopedEqualsFull | internal/storage/issueops/blocked_merge.go:115-153 | repairing a closed set that covers the window gives every row, inside and outside, the value of the full recompute |
| BlockedMerge.ScopedRetryIsFullIff | internal/storage/issueops/blocked_merge.go:115-153 | every such repair is the full one exactly when the diff reaches what is stale beside today's wisps |
| BlockedMerge.SeedsCoverWindow | internal/storage/issueops/blocked_merge.go:159-214 | a closed set that holds the seeds of the whole diff covers every change since the from-commit |
| BlockedMerge.DiffRepairIsFullIff | internal/storage/issueops/blocked_merge.go:159-214 | repairing the rows that the diff seeds leaves the column consistent exactly when they hold what is stale beside today's wisps |
| RepairState.ForgottenIff | internal/storage/issueops/blocked_merge.go:24-36 | from a safe state, a process that ends with a merge in flight leaves a safe one exactly when a marker stands, no merge is in flight, or nothing is stale |
| RepairState.PulledIff | internal/storage/issueops/blocked_merge.go:24-36 | a pull from a safe state leads to a safe one exactly when its diff reaches what is stale beside today's wisps, and it leaves no stale merge unrecorded behind a later window |
| RepairState.MarkedWriteIff | internal/storage/issueops/dependencies.go:231-275 | a mark-only write keeps a consistent column consistent, and a safe state safe exactly when, by the state before it, the diff it would leave reaches the affected rows that its marks would not mend |
| RepairState.SkipIsSafe | internal/storage/issueops/blocked_merge.go:129-143 | when HEAD is the from-commit and the working set is clean, the window covers what is stale exactly when nothing is stale |
| RepairState.SafeRepairIsFull | internal/storage/issueops/blocked_merge.go:89-111 | in a safe state a repair that succeeds, and could read the marker if there is one, leaves the whole column consistent, by every branch |
| RepairState.SucceedsIff | internal/storage/issueops/blocked_merge.go:89-180 | exactly when a repair goes through, from its from-commit and what fails alone: an unreadable diff or more than 1000 listed rows never stop it; a from-commit that is no hash, HEAD, an expansion, an update, the deletion of the marker, or a dead context can |
| RepairState.UselessDiffIsFull | internal/storage/issueops/blocked_merge.go:149-180 | when the diff cannot be read or lists more than 1000 rows, and HEAD or the working set has moved, success leaves the column consistent from any state, safe or not |
| RepairState.DiffLists | internal/storage/issueops/blocked_merge.go:220-276 | what the two diffs list and count: the rows whose status or flag differs, the edges on one side only, and twice each edge touched in other columns |
| RepairState.StepIff | internal/storage/issueops/blocked_merge.go:38-153 | every possible step from a safe state leads to a safe state exactly when the event and the state before are harmless; every step keeps what the protocol always keeps |
| RepairState.RunIsSafeIff | internal/storage/issueops/blocked_merge.go:38-153 | over any run of merges, failed and successful repairs, marker writes, deaths, local writes, commits and doctor repairs, all states are safe exactly when all steps are harmless: the pending marker names a commit no later than the pre-merge HEAD of the earliest unrepaired merge, or full, and its window reaches every stale row |
| RepairRuns.QuietStep | internal/storage/issueops/blocked_merge.go:38-153 | a step that changes no wisp while a repair is owed, opens a window only on a clean working set, and leaves no stale merge unrecorded is harmless, whatever a pull brings |
| RepairRuns.QuietRunIsSafe | internal/storage/issueops/blocked_merge.go:38-153 | so no hypothesis on pulls is needed in runs of such steps |
| RepairRuns.NoRevertIsHarmless | internal/storage/issueops/blocked_merge.go:24-36 | a pull that takes nothing back to what it was at the marker is harmless |
| RepairRuns.MendingIsHarmless | internal/storage/issueops/dependencies.go:231-275 | a mark-only write is harmless if no row that it affects is stale before it |
| RepairRuns.NoRevertMarksAreHarmless | internal/storage/issueops/dependencies.go:231-275 | and if it takes nothing back to what it was at the window's start |
| RepairRuns.RetryIsFullIff | internal/storage/issueops/blocked_merge.go:115-153 | at every point of every run, safe or not, a scoped repair that succeeds leaves the column right exactly when the rows that its diff seeds hold what is stale at its window's start beside the wisps of now |
| RepairState.StepKeepsConsistency | internal/storage/issueops/blocked_state.go:61-92 | a step that repairs what it affects keeps a consistent column consistent |
| RepairState.WhatIsWritten | internal/storage/issueops/dependencies.go:231-275 | a local write changes the tables as it says and leaves right the row whose status it sets, the rows blocked by it, and the source of the edge it removes; an added edge of either blocking kind between open rows marks its source, and takes no mark away |
| RepairScenarios.RevertStrandsAWisp | internal/storage/issueops/blocked_merge.go:89-214 | a run of one clone: a pull, a failed and marked repair, a local write, a pull back, and a repair that succeeds; every state up to the second pull is safe, that pull is not harmless, and at the end the marker is gone and a wisp wrongly blocked |
| MarkScenario.MarksStrandAWisp | internal/storage/issueops/dependencies.go:231-275 | a run of one clone: the same with a second pull that is harmless and then an added dependency that is not; at the end the marker is gone and a wisp wrongly blocked |
| RepairScenarios.DyingStrandsAWisp | internal/storage/issueops/blocked_merge.go:24-47 | a run of one clone: a pull, the end of the process before the marker, which is not harmless, and a repair that succeeds by skipping; at the end a wisp is wrongly unblocked |
| MergeRepair.Clone.ChangedIssueIDs | internal/storage/issueops/blocked_merge.go:220-239 | lists, each once, exactly the rows whose status or flag differs from the from-commit and those touched in other columns |
| MergeRepair.Clone.ChangedDependencyEdges | internal/storage/issueops/blocked_merge.go:252-276 | lists exactly the edges on one side only, once, and those touched in other columns, twice |
| MergeRepair.Clone.MergeAffectedSets | internal/storage/issueops/blocked_merge.go:159-214 | answers with scoped rows exactly when both diffs can be read, their entries number at most 1000 and the expansion succeeds, and asks for the full pass exactly as the code does; the rows are the least closed set that holds the seeds of the whole diff |
| MergeRepair.Clone.RecomputeForAll | internal/storage/issueops/blocked_merge.go:281-295 | the fallback ends with the whole column consistent, or changes nothing when an update fails |
| MergeRepair.Clone.RecomputeScoped | internal/storage/issueops/blocked_merge.go:115-153 | succeeds exactly when the route taken is not refused and its updates do not fail; the full route ends consistent, the skip changes nothing, the scoped route ends consistent if the window covers what is stale, and exactly when the seeded rows hold what is stale beside today's wisps |
| MergeRepair.Clone.RecomputeAfterMerge | internal/storage/issueops/blocked_merge.go:89-111 | succeeds exactly when its route is not refused and no write fails; in a safe state success leaves the column consistent and no marker, unless the marker could not be read, and then it stays; failure changes nothing |
| MergeRepair.Clone.MarkPending | internal/storage/issueops/blocked_merge.go:38-47 | an older marker wins; otherwise the from-commit, or full for a value that is not a commit hash |
| MergeRepair.Clone.Merge | internal/storage/issueops/blocked_merge.go:24-36 | any pull from a safe clone leaves it safe exactly when it is harmless, with the repair owed from the earliest unrepaired merge |
| MergeRepair.Clone.Die | internal/storage/issueops/blocked_merge.go:24-36 | the process ends: safe afterwards exactly when a marker stands, no merge was in flight, or nothing is stale |
| MergeRepair.Clone.RepairAll | internal/storage/issueops/blocked_consistency.go:80-121 | the doctor's full repair makes every clone safe, whatever was lost before |
| MergeRepair.Clone.LocalWrite | internal/storage/issueops/blocked_state.go:61-125 | a status change, a removed edge or a new parent link with its recompute keeps a safe clone safe; any other new edge with its marks does so exactly when harmless by the state before, and keeps a consistent column consistent |
| MergeRepair.Clone.AddMarked | internal/storage/issueops/dependencies.go:231-275 | after the insert: the source of a hard edge is marked directly and left out of the loop, the other affected rows are marked, nothing is unmarked |
| MergeRepair.Clone.Step | internal/storage/issueops/blocked_merge.go:38-153 | every event is a step of the protocol, safe exactly when harmless |
| MergeRepair.Clone.Run | internal/storage/issueops/blocked_merge.go:38-153 | any sequence of events is a run of the protocol, all of whose states are safe exactly when all its steps are harmless, and whose end is safe if all its steps are quiet |
| Paths.AcyclicIffRanked | internal/storage/storage.go:348-355 | a finite graph is acyclic exactly when its nodes can be ranked downhill along every edge |
| Dependencies.InsertedAllEdges | internal/storage/issueops/dependencies.go:194-227 | a list of accepted inserts adds exactly the edges asked for, of every class of types |
| Dependencies.InsertedAllRows | internal/storage/issueops/dependencies.go:194-227 | a list is refused exactly when it asks for another type than a row of the chosen table or of the list itself; otherwise that table gains exactly the rows asked for, with their types, and the other table none |
| Dependencies.BlockingPathIff | internal/storage/issueops/dependencies.go:336-390 | a path counts for the cycle checks exactly when each step is a row of type blocks or conditional-blocks, in either table |
| Dependencies.HasCycle | internal/storage/issueops/dependencies.go:336-390 | true exactly when the new edge's target reaches its source over blocking edges of both tables |
| Dependencies.ReachPath | internal/storage/issueops/cycles.go:140-169 | the breadth-first search returns a path from start to goal, and none exactly when there is none |
| Dependencies.CycleThroughEdges | internal/storage/issueops/cycles.go:84-136 | empty exactly when no listed edge lies on a blocking cycle, otherwise a cycle through a listed edge |
| Dependencies.BulkModesAgree | internal/storage/domain/dependency.go:444-488 | the check per edge accepts a list exactly when insert-all-then-check accepts it, on every graph |
| Dependencies.DependencyStore.AddBulk | internal/storage/domain/dependency.go:444-488 | both modes accept exactly the well-formed lists that close no cycle, with the same final tables; a refusal names the first entry at fault, or none when only the final check found a cycle |
| Dependencies.AcceptedKeepsAcyclic | internal/storage/domain/dependency.go:444-488 | an accepted list leaves an acyclic blocking graph acyclic |
| Dependencies.NewEdgesKeepAcyclic | internal/storage/domain/dependency.go:470-486 | new edges none of which lies on a cycle close no cycle anywhere in the graph |
| GraphApply.Walk.CachedDeps | internal/storage/domain/issue.go:1076-1130 | the cache always equals the store's edges of both tables, across calls that share it |
| GraphApply.Walk.GraphHasPath | internal/storage/domain/issue.go:1076-1130 | true exactly when the target is reachable over planned adjacency and followed existing edges; ends on cyclic graphs |
| GraphApply.ParentDepPairs | internal/storage/domain/issue.go:885-899 | the pairs that the nodes imply, with keys resolved |
| GraphApply.ValidatePlannedBlockingPaths | internal/storage/domain/issue.go:952-1007 | accepts exactly when no planned parent reaches its child over ready-affecting edges, reverse-of-parent edges left out |
| GraphApply.ValidatePlannedBlockingCycles | internal/storage/domain/issue.go:1017-1061 | accepts exactly when no planned blocking edge lies on a cycle of planned and existing blocking edges |
| GraphApply.ApplyGraph | internal/storage/domain/issue.go:727-879 | succeeds exactly for the plans that pass every check, and then the tables hold the old rows and exactly the planned ones |
| GraphApply.AcceptedIff | internal/storage/domain/issue.go:727-1061 | exactly which plans succeed, by the types they give: known ends, only parent links on an implied parent pair and no blocking or untyped edge against one, no path found by the checks, and one type for each pair, also with the rows that are there |
| GraphApply.AppliedRows | internal/storage/domain/issue.go:813-862 | after success the chosen table holds every edge with its own type, blocks for an edge without one, and every implied parent link, beside the old rows and nothing else; the other table is as it was |
| GraphApply.PlannedIff | internal/storage/domain/issue.go:952-1061 | which edges the two checks walk, by type: an edge without a type counts as blocks for both |
| GraphApply.OppositeEdgesRefused | internal/storage/domain/issue.go:1017-1061 | no plan with two edges in opposite directions, each blocking or without a type, is applied |
| GraphApply.EndsOf | internal/storage/domain/issue.go:885-943 | an end is the id minted for its key, or the id given; an unknown key gives none |
| GraphApply.LastNodeOfKey | internal/storage/domain/issue.go:727-879 | a key that several nodes have stands for the last of them |
| GraphApply.AppliedKeepsBlockingAcyclic | internal/storage/domain/issue.go:727-879 | a successful plan keeps the blocking graph of both tables acyclic |
| GraphApply.AppliedLinksOffReadyCycles | internal/storage/domain/issue.go:813-845 | after success no implied parent link lies on a cycle of ready-affecting edges, and the plan held none of the edges that the path check skips |
| GraphApply.DepPairKeyInjective | internal/storage/domain/issue.go:904-916 | two pairs share a key only if they are equal, when ids hold no NUL |
| GraphApply.DepPairIDs | internal/storage/domain/issue.go:909-916 | splits a key at its first NUL |
| WispDependents.FindWispDependentsRecursive | internal/storage/issueops/bulk_ops.go:276-332 | succeeds exactly when seeds and transitive dependents number at most 10000, and then returns the dependents without the seeds, whatever the batches and row order |
| WispDependents.CascadeIff | internal/storage/issueops/bulk_ops.go:276-332 | an id is in the cascade exactly when a chain of rows, each onto the id before, leads to it from a seed |
| WispDependents.CascadeInside | internal/storage/issueops/bulk_ops.go:276-332 | the cascade is the least set that holds the seeds and is closed under dependents |
| Descendants.VisitedIffOnPath | internal/storage/issueops/blocked.go:181-197 | for comma-free ids the INSTR test on the path text is the question whether the id is on the path |
| Descendants.TableHoldsTheTrails | internal/storage/issueops/blocked.go:168-199 | if no child below a path is hidden by the path's text, the recursive table holds exactly the paths from the root that repeat no id beyond the root's own loop, up to the depth limit |
| Descendants.TableHoldsAllTrailsIff | internal/storage/issueops/blocked.go:168-199 | without a limit it holds all of them exactly then |
| Descendants.CommaFreeIsUnhidden | internal/storage/issueops/blocked.go:181-197 | comma-free ids hide nothing |
| Descendants.QueryDescendants | internal/storage/issueops/blocked.go:167-223 | never returns anything but proper descendants; if nothing is hidden the flag is set exactly when a path reaches the limit, and otherwise every proper descendant is returned, on cyclic graphs too |
| Descendants.GetDescendantIDs | internal/storage/issueops/blocked.go:162-237 | the same for the call and the empty root: when nothing is hidden it lists exactly what can be reached downwards from the root, over the rows of both tables, or of `dependencies` alone without a wisp table |
| Descendants.DownBoth | internal/storage/issueops/blocked.go:162-199 | the links that the query follows are those of the rows of both tables, or of `dependencies` alone without a wisp table; without commas in their ids nothing is hidden |
| Descendants.ReachesDepthMeansChain | internal/storage/issueops/blocked.go:211-236 | the limit is met exactly when a simple chain of that many links hangs below the root, or one shorter if the root is its own parent |
| Descendants.CommaHides | internal/storage/issueops/blocked.go:181-197 | an id that the path text seems to hold already is a descendant that is never listed |
| Descendants.CommaCanHide | internal/storage/issueops/blocked.go:181-197 | such ids exist as soon as one holds a comma |
| Sessions.Manager.AcquireCachedSession | internal/provider/provider.go:193-211 | a session exactly when the key is cached, one reference more, every invariant kept |
| Sessions.Manager.InstallSession | internal/provider/provider.go:170-191 | the opener that lost the race joins the winner's entry and closes its own store; the first becomes the entry; a bootstrap session keeps its store to itself |
| Sessions.Manager.TakeSession | internal/provider/provider.go:223-238 | the first section of a close: a session leaves once, and its reference becomes a pending release |
| Sessions.Manager.ReleaseCachedStore | internal/provider/provider.go:240-250 | the store is to be closed exactly when no live session and no other pending close holds the entry |
| Sessions.Manager.CloseOwedStore | internal/provider/provider.go:223-250 | a store handed over for closing has not been closed before |
| Sessions.Manager.Close | internal/provider/provider.go:223-250 | when nothing gets between its sections: the store is closed exactly when no other session or close holds it |
| Sessions.Manager.CloseAllStores | internal/provider/provider.go:252-290 | every store of a session or a cached entry is closed, each once, and nothing else is |
| Sessions.StepKeepsInv | internal/provider/provider.go:126-290 | every step of every interleaving keeps counts, links and the one owner of each store |
| Sessions.RunKeepsInv | internal/provider/provider.go:126-290 | so the invariant holds at every point of every run |
| Sessions.LiveStoresAreOpen | internal/provider/provider.go:130-250 | no live session's store is closed or about to be, and sessions that share a key through the cache share one store |
| Sessions.OneStoreIff | internal/provider/provider.go:130-250 | at every point of every run two live sessions use one store exactly when neither is a bootstrap session and their keys are equal |
| Sessions.CountsAreRight | internal/provider/provider.go:130-250 | a cached entry's refs equal its live sessions plus the closes between their sections |
| Sessions.ClosedWithTheLastReference | internal/provider/provider.go:240-250 | a cached store is given up for closing exactly with its last reference |
| Sessions.EveryStoreIsClosedOnce | internal/provider/provider.go:126-290 | no store is closed twice, and once nothing is live or in flight every store opened has been closed |
| Handshake.RunKeepsInv | internal/provider/provider.go:292-401 | the invariant of worker, channels and outcome holds at every point of every run, with any number of finishers |
| Handshake.NilMeansCarriedOut | internal/provider/provider.go:387-401 | a nil report means that the decision the body took was carried out |
| Handshake.OneFinisherIsToldTheTruth | internal/provider/provider.go:361-401 | with one finisher, commit is reported successful only if the body returned nil and the store committed, rollback only if it did not commit |
| Handshake.AgreeingFinishersAreToldTheTruth | internal/provider/provider.go:387-401 | with any number of finishers whose decisions are all of one kind, a nil report is true of the caller's own decision |
| Handshake.ContestedCanMisreport | internal/provider/provider.go:387-401 | from every point where decisions of opposite kinds are on offer to a waiting body, a run reports nil to one whose decision's opposite was carried out |
| Handshake.TwoFinishersShareOneOutcome | internal/provider/provider.go:387-401 | a run in which a rollback is reported successful for a committed transaction |
| Handshake.RollbackNeverCommits | internal/provider/provider.go:311-319 | once the body has taken a rollback it never returns nil and nothing is committed |
| Handshake.CommitNeedsACall | internal/provider/provider.go:265-359 | over any run, the body returns nil and the store commits only if some caller asked for a commit |
| Handshake.WithdrawnNeverCommits | internal/provider/provider.go:265-359 | so a transaction finished only by a cancelled begin, by CloseAll, or by callers who want no commit is never committed |
| Handshake.FinalErrorExplained | internal/provider/provider.go:310-328 | the outcome is nil for a rollback carried out or a commit, and otherwise the error of the decision, the commit or the start that failed |
| Handshake.ClosedTakesNoCalls | internal/provider/provider.go:252-258 | once CloseAll has taken the id out of the map no further caller finds the transaction |
| Handshake.LastSendNeverBlocks | internal/provider/provider.go:320-327 | the worker's final send always finds room |
| Handshake.OutcomeAfterUnregister | internal/provider/provider.go:320-327 | the id is out of the map before anyone can receive an outcome |
| Handshake.WorkerRunsToTheEnd | internal/provider/provider.go:310-328 | the worker is held up only while no decision has been sent |
| Handshake.SoleFinisherIsServed | internal/provider/provider.go:387-401 | a sole finisher can receive the outcome as soon as the worker has ended |
| Handshake.ActiveTransaction.ReceiveDecision | internal/provider/provider.go:311-319 | the body returns nil exactly for a commit decision without an error |
| Handshake.ActiveTransaction.Deliver | internal/provider/provider.go:320-327 | from any reachable state the id leaves the map and then the outcome goes out without waiting |
| Transactions.Store.WithConnOnce | internal/storage/doltlite/store.go:336-372 | an attempt returns nil exactly when it commits and cleans up; its error is retryable exactly when one of the joined errors is |
| Transactions.Store.WithRetry | internal/storage/doltlite/store.go:382-414 | at most five attempts, each after the first following a retryable error, stopping at the first other answer, with the last attempt's error as the call's; the store's own connection is left for good exactly when the first attempt failed retryably |
| Transactions.TriedIsDetermined | internal/storage/doltlite/store.go:382-403 | the answers of the outside world determine the attempts made and their errors |
| Transactions.AttemptsIff | internal/storage/doltlite/store.go:336-372 | which attempt commits, which succeeds, and whose error asks for another, from its answers alone: only the first attempt can run on the store's own connection, so every later one is opened and cleaned up |
| Transactions.AttemptsMade | internal/storage/doltlite/store.go:382-403 | at most five attempts; another follows exactly those before the fifth that fail retryably and are not cancelled |
| Transactions.AllOrNothing | internal/storage/doltlite/store.go:325-414 | success with exactly one commit, by the last attempt, or an error with none: exactly when no attempt fails to clean up after its commit |
| Transactions.PersistentCommitIsFinal | internal/storage/doltlite/store.go:234-251 | an attempt on the store's own connection is never run again once it has committed |
| Transactions.BusyCleanupCommitsTwice | internal/storage/doltlite/store.go:349-351 | the failing case: a busy cleanup makes two attempts commit |
| Transactions.HookFiringStore.RunInTransaction | internal/storage/hook_decorator.go:194-208 | the hooks fired are exactly, in order, those recorded by the attempt that committed last, and none if the call returns an error, even one that follows a commit |
| Transactions.TrackingTransaction.CreateIssue | internal/storage/hook_decorator.go:432-438 | a successful creation records the issue's creation events, a failed one nothing |
| Transactions.TrackingTransaction.CreateIssues | internal/storage/hook_decorator.go:440-449 | the creations of all issues in order, then the dependency reports |
| HookEvents.CreateHookEvents | internal/storage/hook_decorator.go:249-280 | a label-free creation, then one update per distinct label in order of first occurrence, each with the labels so far |
| HookEvents.CreationEventsDetermined | internal/storage/hook_decorator.go:249-280 | that determines the events, and the last one carries every label once |
| HookEvents.Take | internal/storage/hook_decorator.go:347-369 | the first unused record that is the same dependency, or none if all such records are used |
| HookEvents.DependencyHookEvents | internal/storage/hook_decorator.go:285-326 | the k-th event answers the k-th request that finds a record and carries the records reported so far for its issue; no record is reported twice; each key is reported as often as asked for, or as often as persisted if that is less; earlier records first |
| HookEvents.ReportsDetermined | internal/storage/hook_decorator.go:285-326 | which determines the events |
| HookEvents.EventsAnswerDependencies | internal/storage/hook_decorator.go:285-345 | every event updates the issue that some dependency names, or stands under, and ends with the persisted record of that dependency |
| HookEvents.OneDependency | internal/storage/hook_decorator.go:285-369 | a single dependency is reported exactly when the record persisted under its issue is the same one |
| HookEvents.PrefixesGrow | internal/storage/hook_decorator.go:285-326 | of two events for one issue the later extends the earlier strictly |
| Base36.EncodeBase36 | internal/idgen/hash.go:16-50 | exactly `length` digits, whose base-36 value is the big-endian number modulo 36^length |
| Base36.NumeralsDiffer | internal/idgen/hash.go:16-50 | which determines the string |
| Base36.BigEndianHead | internal/idgen/hash.go:16-50 | the first byte weighs most |
| Base36.EncodedDigit | internal/idgen/hash.go:16-50 | the k-th character from the right is the k-th digit of the number, written 0 to 9 and then a to z |
| Base36.GenerateHashID | internal/idgen/hash.go:55-85 | the id is the prefix, a hyphen and the suffix of the bytes that the width table keeps |
| Base36.SameSuffix | internal/idgen/hash.go:16-50 | two byte strings share a suffix exactly when their numbers agree modulo 36^length |
| Base36.InjectiveIffRoom | internal/idgen/hash.go:62-82 | byte strings of one width keep distinct suffixes exactly when there are no more of them than suffixes |
| Base36.WidthTable | internal/idgen/hash.go:62-82 | under the width table that holds exactly from length 8 on, and collisions exist at every shorter length |
| Base36.WidthsAreLeast | internal/idgen/hash.go:62-82 | the table keeps the fewest bytes that reach every suffix of lengths 3 to 7, one fewer at 8, and three at lengths it does not name |
| HierarchyIds.ParseHierarchicalID | internal/types/id_generator.go:60-90 | depth is the number of dots, parent what precedes the last, root what precedes the first |
| HierarchyIds.CheckHierarchyDepth | internal/types/id_generator.go:110-127 | accepts exactly the parents shallower than the limit, which is 3 if given below 1 |
| HierarchyIds.GeneratedChild | internal/types/id_generator.go:48-50 | a generated id is one deeper than its parent, and its last dot gives back parent and number |
| HierarchyIds.ChildRoundTrip | internal/types/id_generator.go:48-127 | parsing a generated child gives its parent and depth + 1, within the limit exactly when the check accepted the parent |
| HierarchyIds.ScanDecimal | internal/storage/issueops/create.go:465-476 | scanning a printed 64-bit number gives it back |
| HierarchyIds.CanonicalChildIsScanned | internal/storage/doltlite/child_id.go:29-33 | the two LIKE patterns select every canonical child, whatever wildcards the parent's id holds |
| HierarchyIds.GrandchildIsNotScanned | internal/storage/doltlite/child_id.go:29-33 | and leave out every child of a child |
| ChildIds.Store.GetNextChildID | internal/storage/doltlite/child_id.go:13-63 | the new number follows the largest of the counter and the scanned children, in the parent's table |
| ChildIds.Store.ReconcileChildCounters | internal/storage/issueops/create.go:768-843 | every parent named by the created issues has its counter raised, never lowered, to its largest named child; nothing else changes |
| ChildIds.AllocatedNumber | internal/storage/doltlite/child_id.go:51-60 | the new number exceeds counter and children, except at the end of the 64-bit range, where it wraps |
| ChildIds.CountersByKind | internal/storage/doltlite/child_id.go:13-63 | the counter written is that of the table the parent is in, and no other counter changes |
| ChildIds.AllocatedIsFresh | internal/storage/doltlite/child_id.go:28-49 | the new id is not in the parent's own table, even if the counter lags |
| ChildIds.CounterOnlyRises | internal/storage/issueops/create.go:808-843 | no allocation, creation or deletion lowers the counter of a parent that stays |
| ChildIds.AllocationsIncrease | internal/storage/doltlite/child_id.go:13-63 | over any run in which a parent stays in one table its numbers strictly increase, and no id is handed out twice or exists in that table |
| ChildIds.FreshInBothTablesIff | internal/storage/doltlite/child_id.go:13-63 | the ids of k allocations in a row exist in neither table exactly when the table that the parent is not in holds none of the next k children |
| ChildIds.CountedIsFreshEverywhere | internal/storage/doltlite/child_id.go:13-63 | which is so for every k as long as the counter covers the children in both tables |
| ChildIds.StepKeepsCounted | internal/storage/doltlite/create_issue.go:24-45 | creation that reconciles, allocation and deletion keep it so |
| ChildIds.WispBatchKeepsCounted | internal/storage/doltlite/create_issue.go:60-77 | a batch of wisps keeps it so exactly when no new child outruns the counter |
| ChildIds.WispBatchCollides | internal/storage/doltlite/create_issue.go:60-77 | otherwise the allocator can return the id of an existing wisp |
| MergeSlot.SlotStore.MergeSlotAcquire | internal/storage/merge_slot.go:83-150 | the slot's whole new state and the whole answer, in each case |
| MergeSlot.RunKeepsGood | internal/storage/merge_slot.go:83-186 | over any run the status is in_progress exactly when a holder is recorded, and the queue stays duplicate-free and grows only at its end |
| MergeSlot.OneHolderAtATime | internal/storage/merge_slot.go:83-186 | between two successful acquires a release took effect, and one of them ended the first holder's tenure |
| MergeSlot.HeldUntilFreed | internal/storage/merge_slot.go:153-186 | until then the first holder keeps the slot |
| MergeSlot.HeldSlotAnswers | internal/storage/merge_slot.go:101-186 | while it is held, every acquire is told the holder and changes nothing unless it waits, a release naming another changes nothing, and one by the holder takes effect |
| MergeSlot.PositionTold | internal/storage/merge_slot.go:105-129 | a new waiter is told its 1-based place; one already queued is told the length of the queue, its place only if it is last |
| MergeSlot.ReleasingAnOpenSlot | internal/storage/merge_slot.go:166-173 | a named release of an open slot is an error, the unnamed one is repeatable, and neither changes it |
| MergeSlot.CheckTellsAcquire | internal/storage/merge_slot.go:64-150 | the slot is reported available exactly when an acquire made at that moment would be granted, and otherwise with the holder that the acquire is told |
| MergeSlot.CreatedSlotIsFree | internal/storage/merge_slot.go:37-60 | creating the slot again changes nothing, and a new slot goes to the first agent who asks |
| MergeSlot.ReleaseUndoesAcquire | internal/storage/merge_slot.go:83-186 | the first release by the holder, or unnamed, undoes the acquire: the slot is as before, but for those who asked to wait in between |
| MergeSlot.WaitersStayListed | internal/storage/merge_slot.go:130-147 | whoever once waited stays in the queue at the place it was told, even after it gets the slot |

## Left out

- The request dispatchers, protocol structs, JSON, tracing, telemetry, and DoltLite's version-control calls: no state of their own to prove anything about.
- SQL text, drivers, schema migrations, table-missing errors other than a missing wisp table in `GetDescendantIDs`: rows and atomic updates stand for them.
- Creation of rows by local writes, after which the code repairs the created rows and the sources of their edges, is no step of the modelled runs. Deletions are covered by `Deletions.DeletionIsLocal`, beside the runs. A pull may add and remove issues.
- MergeRepair.Clone.LocalWrite: adding an edge that is there already, with other gate metadata, is not modelled; the code stores the metadata and writes no flag.
- MergeRepair.Clone.Merge: parent links are acyclic after the pull, and the pull's from-commit is HEAD or unknown.
- RepairState.StepIff: safety asks that every set which the differences affect holds the stale rows, since local writes keep that; the seeds of a retry also hold the dependers of rows of which only the flag differs, so a retry from an unsafe state can still repair everything, exactly as `RepairRuns.RetryIsFullIff` says.
- Deletions.DeletionIsLocal: asks that a target id names one row of one table.
- GraphApply.ApplyGraph: passes that set assignees, metadata and labels, and failing reads and inserts of the database, are not modelled; ids minted by the first pass are parameters.
- Dependencies.CycleThroughEdges: the cycle is the list of its nodes, not the rendered text.
- Dependencies.DependencyStore.Insert: the metadata of an edge that is accepted again is not modelled.
- Sessions.Manager.CloseAllStores: the rollback of open transactions and the joined errors are not part of it.
- Sessions.StepKeepsInv: entries are reached by identifiers, not references; session ids are fresh; CloseAll may not overlap a half-done close, since that close would remove whatever entry the key has by then.
- Handshake.OneFinisherIsToldTheTruth: the body is entered once, as a re-run by the retry loop would close the ready channel twice; the store returns nil only if it committed.
- Transactions.HookFiringStore.RunInTransaction: waiting times, the runner and hook processes are not modelled; a failed commit is taken not to have applied.
- HookEvents.DependencyHookEvents: the state per issue is a value in a map, not an object; reads in the loop see one snapshot per issue.
- Base36.GenerateHashID: hashing is not modelled; the 32 bytes are a parameter.
- ChildIds.AllocationsIncrease: a parent that is deleted or changes tables may lose its counter, so the theorem asks that it stays.
- MergeSlot.SlotStore.MergeSlotAcquire: metadata is modelled parsed, so names that JSON does not preserve are not covered.
