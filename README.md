# Legion task context bookkeeping, modelled in Dafny

This project models the per-task control block of the Legion runtime:
`TaskContext`, `InnerContext`, `TopLevelContext` and `RemoteContext` in
`runtime/legion/legion_context.cc`. A task context is the runtime's record
of one running task. It keeps:

- **Resource ledgers.** The logical regions, fields, field spaces, index
  spaces and index partitions the task created. It also keeps the ones it
  deleted but did not create, so the parent can finalise them.
- **The requirement table.** This is the task's own region requirements,
  followed by the created requirements it made for regions it created, with
  a parallel list of `returnable` flags and the physical regions. The
  privilege checks, the dependence check and the parent-requirement search
  all read this table.
- **Child tracking.** The three sets of executing, executed and complete
  child operations. From these it decides when to report "children
  complete" and "children committed" to the owner task.
- **Flow control.** The window that limits outstanding children, the queue
  of frame markers, the activation gate that tells the scheduler whether the
  context is starved of work, and the mapper's configuration.
- **Caches.** The version-owner cache for region-tree nodes, with
  deduplicated remote requests on top-level and remote contexts. Also the
  top-view cache per instance manager, and the safe-cast domain memo.
- **Traces and virtual mapping.** The trace being recorded, and the
  virtual-mapping flags that travel to a remote copy of the context.

## How the model is structured

The files follow the groups above:

- `types.dfy` (`LegionTypes`): handles, privileges as 32-bit masks, region
  requirements, error codes, and the queries the context puts to the region
  forest. The forest is a parameter: a record of relations and functions.
- `ledger.dfy` (`Ledger`): creation and deletion for every kind of resource.
- `requirements.dfy` (`Requirements`): the combined table, the index-space
  and region privilege checks, the parent search, the dependence test, and
  the "created requirement deleted" test.
- `lifecycle.dfy` (`Lifecycle`): the child-set transitions and the two
  reports, with lemmas over whole runs of events.
- `flowcontrol.dfy` (`FlowControl`): configuration, window, frames, and the
  activation gate.
- `caches.dfy` (`Caches`): the version-owner cache and the top-view cache.
- `extras.dfy` (`Extras`): packing virtual-mapping flags, safe-cast
  memoisation, and trace nesting.
- `context.dfy` (`Context`): the class `TaskContext`, with one field per
  piece of runtime state. Each runtime entry point becomes a method that
  changes only the fields that entry point changes. Each method's `ensures`
  ties the new state to the pure transition of the old state in the modules
  above, where the lemmas about it are proved. The class invariant comes in
  parts, each reading only its own fields. `Valid` covers the requirement
  table, the child sets and the virtual-mapping flags. `OwnersValid`,
  `ViewsValid` and `TracesValid` cover the caches and the traces, and are
  kept by the methods that change those fields. No other method writes
  those fields.

The loops of the source stay loops in the class, proved against the pure
specification functions:

- the privilege checks;
- the parent search;
- batch creation of regions and fields;
- batch deletions;
- unmapping at the end of the task;
- packing and unpacking the virtual-mapping flags.

Each critical section is one atomic method; locks are not modelled. A wait
becomes a result that names the event the caller must wait on. Fresh
events, domains of index spaces and owner spaces of nodes are supplied by
the caller.

Where the code differs from what its comments and callers suggest, the model
follows the code:

- **The window.** With window size W, the W-th outstanding registrant waits,
  because the count is compared after its increment. The count goes down
  when a child finishes *executing* (or is unregistered), not when it
  completes.
- **The region privilege check.** Any returnable created requirement that
  the check reaches after a BAD_PARENT_REGION makes the whole check succeed,
  whatever fields remain.
- **`end_trace`.** It ends the current trace without looking at its
  identifier.
- **Frames.** A frame issuer waits on the queue entry `n - max_outstanding_frames`.
- **Unregistering a child.** It never triggers either report.
- **`bad_field`.** `check_privilege_internal` declares this result variable
  and never writes it, so the model has no such output.

## Model

| member | source | states |
|---|---|---|
| LegionTypes.CreatedRequirement | runtime/legion/legion_context.cc:240 | the requirement for a created region is read-write, exclusive, on the region itself, with no fields |
| LegionTypes.WithinIsNotExceeds | runtime/legion/legion_context.cc:1783-1784 | a requested privilege fits a parent's exactly when it asks for no bit outside it |
| Ledger.Create | runtime/legion/legion_context.cc:284-296 | creation adds exactly the new handle to the created set and leaves the deleted set alone |
| Ledger.Delete | runtime/legion/legion_context.cc:299-321 | deleting a created handle erases it and asks for finalisation; any other handle joins the deleted set, and the created set is unchanged |
| Ledger.CreateAll | runtime/legion/legion_context.cc:516-530 | a batch creation adds the whole batch to the created set |
| Ledger.DeleteAll | runtime/legion/legion_context.cc:533-559 | a batch deletion, handle by handle: created handles leave the created set and are the ones finalised; the rest join the deleted set |
| Ledger.CreateThenDelete | runtime/legion/legion_context.cc:290-321 | creating and then deleting a handle leaves the ledger as it was, and the handle is finalised here |
| Ledger.DeleteTwiceFinalizesOnce | runtime/legion/legion_context.cc:305-317 | a second deletion of the same handle never finalises it; the handle is then in the deleted set |
| Ledger.FieldsOf | runtime/legion/legion_context.cc:1609-1618 | the created fields of one field space, exactly |
| Ledger.DropFieldsOfSpace | runtime/legion/legion_context.cc:396-407 | deleting a field space drops every created field of that space and no other |
| Ledger.FieldPairs | runtime/legion/legion_context.cc:336-376 | the (space, field) handles of fields of one space, exactly, as field creation and deletion record them |
| Requirements.CombinedRequirement | runtime/legion/legion_context.cc:1561-1575 | index `idx` of the combined table is the task's own requirement below `regions.size()` and the created one after |
| Requirements.FirstIndexParent | runtime/legion/legion_context.cc:1772-1779 | the first index requirement that names the parent, or none |
| Requirements.CheckIndexPrivilege | runtime/legion/legion_context.cc:1766-1806 | a verified request passes; BAD_PARENT_INDEX exactly when no index requirement and no created index space names the parent; a missing path is never NO_ERROR; a privilege error names a requirement whose privilege it exceeds; success names the path and a justifying parent; BAD_INDEX_PATH means the path is missing, and a missing path with a parent found gives it; the first index requirement naming the parent decides success |
| Requirements.PrivilegeInternal | runtime/legion/legion_context.cc:1870-1933 | one binding: path error when the path is missing, privilege error when a shared field's privilege is not admitted (WRITE_DISCARD and skipping admit all), otherwise the matched fields leave the working set, and NO_ERROR exactly when it empties |
| Requirements.ScanFacts | runtime/legion/legion_context.cc:1818-1856 | trying bindings with one shared working set: the result is success, a hard error, or the fields left over; success means the bindings jointly granted every field or a returnable binding was reached; without hard errors, coverage or a returnable binding gives success |
| Requirements.ScanPrivilegeError | runtime/legion/legion_context.cc:1882-1900 | a privilege error names a binding that names the parent, shares a requested field and does not admit the privilege |
| Requirements.ScanSkipsPrefix | runtime/legion/legion_context.cc:1875-1877 | bindings on other regions are skipped without changing the working set |
| Requirements.ScanBindings | runtime/legion/legion_context.cc:1818-1851 | trying bindings in order on one working set ends in success, the path or privilege error, or the fields still to grant, never more than it started with and never none once a binding was tried |
| Requirements.AllFieldsCreated | runtime/legion/legion_context.cc:1854-1863 | every requested field is one the context created in the region's field space |
| Requirements.CheckRegionPrivilege | runtime/legion/legion_context.cc:1809-1867 | the region check: a verified request passes, and the result is NO_ERROR, BAD_PARENT_REGION, or the path or privilege error of the handle type (the lemmas below give each case) |
| Requirements.CheckRegionPrivilegeSound | runtime/legion/legion_context.cc:1809-1867 | NO_ERROR only when the request is verified, the bindings jointly grant every field, a returnable created requirement exists, or every field was created by the context |
| Requirements.CheckRegionPrivilegeBadParent | runtime/legion/legion_context.cc:1809-1867 | BAD_PARENT_REGION rules out every such justification |
| Requirements.CheckRegionPrivilegeBadParentConverse | runtime/legion/legion_context.cc:1809-1867 | without path or privilege errors, the absence of every justification gives BAD_PARENT_REGION; with the lemma above, BAD_PARENT_REGION exactly when no justification holds |
| Requirements.CheckRegionPrivilegeComplete | runtime/legion/legion_context.cc:1809-1867 | without path or privilege errors, any justification gives NO_ERROR |
| Requirements.CheckRegionPrivilegeHardError | runtime/legion/legion_context.cc:1809-1867 | every other error is the path or privilege error of the request's handle type, and a privilege error names the binding at fault |
| Requirements.CheckRegionPrivilegeExceeds | runtime/legion/legion_context.cc:1882-1900 | requested bits outside the first parent binding's privilege give BAD_REGION_PRIVILEGES/BAD_PARTITION_PRIVILEGES unless it is WRITE_DISCARD or the check is skipped |
| Requirements.DominatesOriginal | runtime/legion/legion_context.cc:1586-1607 | a dominating task requirement asks for no privilege bit outside its own when privileges are checked, and holds every requested field |
| Requirements.FirstDominating | runtime/legion/legion_context.cc:1584-1600 | the first task requirement on the parent that grants the privilege and holds every requested field, or none |
| Requirements.WidenFields | runtime/legion/legion_context.cc:1637-1658 | walking requested fields in ascending order: success exactly when each is held or created; created fields are added up to the first failure, and they stay added |
| Requirements.ScanCreatedParent | runtime/legion/legion_context.cc:1602-1668 | the created-requirement walk keeps the table's length; a found position names the parent, grants the privilege and holds every requested field |
| Requirements.ScanCreatedParentShape | runtime/legion/legion_context.cc:1602-1668 | the walk changes only field sets, only at or after its start, only widening them within the requested fields (non-returnable ones only by created fields) |
| Requirements.ScanCreatedParentNone | runtime/legion/legion_context.cc:1609-1667 | the walk finds nothing only when no created requirement qualifies: none names the parent with the privilege and is returnable or holds or can be given every requested field |
| Requirements.ScanCreatedParentFirst | runtime/legion/legion_context.cc:1609-1667 | a position the walk returns is the first qualifying created requirement |
| Requirements.FindParentRegionReq | runtime/legion/legion_context.cc:1578-1692 | the index returned holds every requested field; the first dominating task requirement wins; -1 only when the context did not create every field; the synthesised requirement is on the tree root, appends `false` and an unmapped physical region, at index `regions.size()+created.size()-1`; the table otherwise keeps its length |
| Requirements.FindParentRegionReqFirstCreated | runtime/legion/legion_context.cc:1602-1692 | with no dominating task requirement, the first qualifying created requirement is returned; -1 or a synthesised requirement only when no created requirement qualifies |
| Requirements.FailedMatchStillWidens | runtime/legion/legion_context.cc:1637-1658 | a failed match against a non-returnable created requirement keeps the created field it inserted (fields {3, 5}, only 3 created: result -1, requirement now holds {3}) |
| Requirements.CheckRegionDependence | runtime/legion/legion_context.cc:1454-1511 | the conflict test of a mapped requirement against another one; each of its conditions is necessary, and together they suffice |
| Requirements.DependenceGrowsWithFields | runtime/legion/legion_context.cc:1485-1495 | asking for more fields on either side, all else equal, never removes a conflict |
| Requirements.ReadersNeverConflict | runtime/legion/legion_context.cc:1496-1510 | when the dependence analysis lets two readers through, a read-only request never conflicts with a read-only mapped requirement, whatever the trees, paths and fields; it follows in one step from that hypothesis on the analysis |
| Requirements.WasCreatedRequirementDeleted | runtime/legion/legion_context.cc:496-513 | live exactly when the region is still created, or the requirement names one field that is still created |
| Lifecycle.Initial | runtime/legion/legion_context.cc:33-38 | a fresh context has no children and has reported nothing |
| Lifecycle.AddChild | runtime/legion/legion_context.cc:2434-2442 | a tracking operation becomes executing |
| Lifecycle.ChildExecuted | runtime/legion/legion_context.cc:2481-2494 | an executing child becomes executed |
| Lifecycle.ChildComplete | runtime/legion/legion_context.cc:2514-2539 | the child becomes complete; children complete is reported exactly when the task body is done, it was the last executing or executed child, and it was not reported before |
| Lifecycle.ChildCommitAsWritten | runtime/legion/legion_context.cc:2542-2566 | the test as written: commit is reported exactly when no child remains and it was not reported before, whatever the task body's state; the sets other than `complete` and the task flag are unchanged; the commit flag is set by a report, and the complete flag is untouched |
| Lifecycle.ChildCommit | runtime/legion/legion_context.cc:2542-2566 | the corrected test: commit is reported exactly when the task body is done, no child remains, and it was not reported before |
| Lifecycle.Unregister | runtime/legion/legion_context.cc:2569-2596 | unregistering removes the child from every set and changes no flag |
| Lifecycle.EndTask | runtime/legion/legion_context.cc:3734-3754 | the task is marked executed; complete is due exactly when nothing is executing or executed and it was not reported, and commit when, in addition, nothing is complete |
| Lifecycle.AttemptComplete | runtime/legion/legion_context.cc:3519-3530 | reports exactly when due, and sets the flag |
| Lifecycle.AttemptCommit | runtime/legion/legion_context.cc:3533-3545 | reports exactly when due, and sets the flag |
| Lifecycle.LeafAttempt | runtime/legion/legion_context.cc:4552-4575 | a leaf context reports the first attempt of each kind only |
| Lifecycle.StepFlags | runtime/legion/legion_context.cc:2514-2566 | a report needs its flag clear and sets it; no step clears a flag |
| Lifecycle.StepTriggersSound | runtime/legion/legion_context.cc:2529-2535 | a report is made only when the task body is done and the relevant sets are empty |
| Lifecycle.StepKeepsDisjoint | runtime/legion/legion_context.cc:2437-2441 | every step keeps a child in at most one set |
| Lifecycle.StepStages | runtime/legion/legion_context.cc:2475-2596 | a child moves only executing, executed, complete, removed (or is removed by unregistering), and no other child moves |
| Lifecycle.RunReportsAtMostOnce | runtime/legion/legion_context.cc:2529-2561 | over any run, each report is made at most once, never after its flag was set |
| Lifecycle.FreshRunReportsAtMostOnce | runtime/legion/legion_context.cc:2529-2561 | from a fresh context each report is made at most once |
| Lifecycle.StepKeepsSettled | runtime/legion/legion_context.cc:3741-3755 | every step except unregistering keeps due reports made |
| Lifecycle.RunReportsWhenDue | runtime/legion/legion_context.cc:3741-3755 | from a settled state and without unregistrations, both reports have been made once they are due |
| Lifecycle.FreshRunReportsWhenDue | runtime/legion/legion_context.cc:3741-3755 | the same from a fresh context |
| Lifecycle.CommitAsWrittenBeforeTaskExecuted | runtime/legion/legion_context.cc:2556-2558 | as written, the last commit reports while the task body still runs, and ending the task then no longer reports |
| Lifecycle.CommitReportsOnlyAfterTaskExecuted | runtime/legion/legion_context.cc:3537-3539 | with the corrected test, a commit report needs the task body done |
| FlowControl.Configure | runtime/legion/legion_context.cc:3140-3164 | an error exactly when both minima are zero; otherwise exactly one discipline, with frames taking precedence |
| FlowControl.ConfigureIdempotent | runtime/legion/legion_context.cc:3160-3163 | a checked configuration passes the check again unchanged |
| FlowControl.RegisterChild | runtime/legion/legion_context.cc:2341-2410 | the count goes up; the registrant waits exactly when not counting frames, the window is positive and the new count reaches it, on a new valid wait event |
| FlowControl.LowWater | runtime/legion/legion_context.cc:2500-2503 | the low-water mark is `hysteresis*window/100` rounded down, and at most the window for a percentage up to 100 |
| FlowControl.ChildLeaves | runtime/legion/legion_context.cc:2495-2507 | the count goes down; the wait event is released and invalidated exactly when it is valid, the window is positive and the count is at most `hysteresis*window/100` |
| FlowControl.WindowSteps | runtime/legion/legion_context.cc:2347-2405 | with the window active, the count never exceeds the window size, and is below it while no registrant waits |
| FlowControl.EmptyWindow | runtime/legion/legion_context.cc:2341-2353 | the window starts empty with no waiter |
| FlowControl.WindowScenario | runtime/legion/legion_context.cc:2347-2353 | window 4 at 50%: the fourth registrant waits and the second departure releases it |
| FlowControl.IssueFrame | runtime/legion/legion_context.cc:2800-2819 | the marker is appended; the previous marker is the old last one; the issuer waits exactly when more than the limit are queued, on entry `n - max` |
| FlowControl.IssueWaitBounds | runtime/legion/legion_context.cc:2810-2813 | the awaited marker is followed by exactly `max` markers ending with the new one |
| FlowControl.FinishFrame | runtime/legion/legion_context.cc:2822-2834 | with frames throttled, finishing needs the head to be the frame and pops it; otherwise the queue is untouched |
| FlowControl.FramesFifo | runtime/legion/legion_context.cc:2800-2834 | the markers completed are the queue's markers and the ones issued, in the same order |
| FlowControl.FramesCompleteInIssueOrder | runtime/legion/legion_context.cc:2800-2834 | starting empty, the completed markers are a prefix of the issued ones |
| FlowControl.Flip | runtime/legion/legion_context.cc:2855-2858 | a transition waits on the old order event and installs its own as the next |
| FlowControl.IncrementOutstanding | runtime/legion/legion_context.cc:2837-2871 | activates exactly an inactive starved context with no outstanding subtasks |
| FlowControl.DecrementOutstanding | runtime/legion/legion_context.cc:2874-2911 | deactivates exactly an active starved context whose last outstanding subtask this was |
| FlowControl.IncrementPending | runtime/legion/legion_context.cc:2914-2940 | when counting tasks, deactivates exactly when the pending count reaches the minimum with subtasks outstanding |
| FlowControl.DecrementPending | runtime/legion/legion_context.cc:2943-2986 | when counting tasks, activates exactly when the pending count drops below the minimum with subtasks outstanding |
| FlowControl.IncrementFrame | runtime/legion/legion_context.cc:2989-3015 | the same for frames |
| FlowControl.DecrementFrame | runtime/legion/legion_context.cc:3018-3047 | the same for frames |
| FlowControl.GateStepFacts | runtime/legion/legion_context.cc:2837-3047 | every step keeps "active exactly when subtasks are outstanding and the context is starved"; a transition flips the state and chains on the order event |
| FlowControl.GateRunChains | runtime/legion/legion_context.cc:2837-3047 | the transitions of any run form one chain of alternating activations and deactivations |
| Caches.AssignOwner | runtime/legion/legion_context.cc:2138-2154 | a recorded owner is kept and its remote-only flag can only be cleared; a new node is assigned to the source, remote only when the source is not local |
| Caches.GetVersionOwner | runtime/legion/legion_context.cc:4076-4140 | answered locally on the owner space; otherwise a record answers, then a pending request is waited on, and a request is sent exactly when neither exists |
| Caches.VersionOwnerResponse | runtime/legion/legion_context.cc:3851-3873 | the answer is recorded as not remote only, and the pending request is erased and triggered |
| Caches.LookupKeepsRecords | runtime/legion/legion_context.cc:2138-2154 | a recorded owner never changes; the remote-only flag is only cleared |
| Caches.OwnerStepFacts | runtime/legion/legion_context.cc:4089-4110 | every lookup or response keeps the cache invariant and every record |
| Caches.OneRequestPerNode | runtime/legion/legion_context.cc:4096-4110 | over any run, at most one remote request per node, and none for a node already recorded or pending |
| Caches.LookupsAgree | runtime/legion/legion_context.cc:4076-4140 | every owner answered for a node is the owner finally recorded |
| Caches.RequestTopView | runtime/legion/legion_context.cc:3312-3372 | non-owners forward; a cached view is returned; the first owner-side requester makes the view; later ones wait on one shared event |
| Caches.RecordTopView | runtime/legion/legion_context.cc:3381-3399 | the view is recorded, the pending entry is erased, and its event is triggered |
| Caches.NotifyInstanceDeletion | runtime/legion/legion_context.cc:3404-3420 | the deleted instance's view leaves the cache |
| Caches.ViewStepFacts | runtime/legion/legion_context.cc:3342-3399 | each step keeps "never both recorded and being made", and requests and records drop no manager |
| Caches.OneMakerPerManager | runtime/legion/legion_context.cc:3344-3397 | without deletions, at most one requester makes a manager's view, and none when it is recorded or pending |
| Extras.VirtualIndexes | runtime/legion/legion_context.cc:2272-2280 | the packed list is the ascending positions of the true flags |
| Extras.VirtualMapped | runtime/legion/legion_context.cc:4458-4466 | unpacking gives one flag per requirement, true exactly at the listed positions |
| Extras.UnpackPack | runtime/legion/legion_context.cc:2272-2280 | unpacking the packed list gives back the flags |
| Extras.PackUnpack | runtime/legion/legion_context.cc:4458-4466 | packing the unpacked flags of an ascending in-range list gives back the list |
| Extras.SafeCast | runtime/legion/legion_context.cc:190-233 | the domain is fetched once and memoised; the point is returned exactly when the domain contains it |
| Extras.SafeCastMatchesDirect | runtime/legion/legion_context.cc:190-233 | with a memo that agrees with the runtime, the cast answers as a direct lookup and the memo keeps agreeing |
| Extras.SafeCastRepeat | runtime/legion/legion_context.cc:195-201 | a repeated cast gives the same answer without consulting the runtime |
| Extras.BeginTrace | runtime/legion/legion_context.cc:2714-2743 | nested traces are refused; a new trace is recorded unfixed; replaying a known one issues a mapping fence |
| Extras.EndTrace | runtime/legion/legion_context.cc:2746-2777 | ending outside a trace is refused; an unfixed trace is captured and fixed, a fixed one completed |
| Extras.TracesSucceedIffAlternating | runtime/legion/legion_context.cc:2714-2777 | a sequence of begins and ends succeeds exactly when they alternate |
| Extras.TraceReplay | runtime/legion/legion_context.cc:2729-2774 | the first pass captures; the replay fences and completes |
| Context.AddCreated | runtime/legion/legion_context.cc:236-255 | one created region appends its created requirement and `true`, and an unmapped physical region while the task body runs; what was there stays |
| Context.AddCreatedAll | runtime/legion/legion_context.cc:516-530 | a batch grows the created requirements and flags by its size, and the physical regions too while the task body runs |
| Context.AddCreatedAllShape | runtime/legion/legion_context.cc:516-530 | a batch appends one field-less returnable created requirement per region, in batch order, and an unmapped physical region each while the task runs |
| Context.MappedRegions | runtime/legion/legion_context.cc:3761-3765 | the mapped physical regions, each of them |
| Context.AllUnmapped | runtime/legion/legion_context.cc:3769-3773 | every physical region, unmapped |
| Context.TaskContext.constructor | runtime/legion/legion_context.cc:2032-2058 | a fresh context: empty ledgers, table and caches, one physical region per task requirement, no child and nothing reported (lines 33-38), and the runtime's initial window, hysteresis and task minimum with frames switched off |
| Context.TaskContext.AddCreatedRegion | runtime/legion/legion_context.cc:236-255 | appends the created requirement, `true`, and an unmapped physical region while the task runs; keeps the parallel lengths |
| Context.TaskContext.CloneRequirement | runtime/legion/legion_context.cc:1561-1575 | the requirement at a combined index |
| Context.TaskContext.FindParentPrivilegeMode | runtime/legion/legion_context.cc:1752-1763 | the privilege at a combined index |
| Context.TaskContext.FindLogicalRegion | runtime/legion/legion_context.cc:1936-1947 | the region at a combined index |
| Context.TaskContext.RegisterRegionCreation | runtime/legion/legion_context.cc:284-296 | ledger creation plus the created requirement |
| Context.TaskContext.RegisterRegionDeletion | runtime/legion/legion_context.cc:299-321 | ledger deletion; returns whether to finalise |
| Context.TaskContext.RegisterRegionCreations | runtime/legion/legion_context.cc:516-530 | batch creation; one created requirement per region in the order walked |
| Context.TaskContext.RegisterRegionDeletions | runtime/legion/legion_context.cc:533-559 | batch deletion; returns the regions to finalise |
| Context.TaskContext.RegisterFieldCreation | runtime/legion/legion_context.cc:324-333 | the field joins the created fields |
| Context.TaskContext.RegisterFieldCreations | runtime/legion/legion_context.cc:336-349 | every field of the list joins the created fields |
| Context.TaskContext.RegisterFieldDeletions | runtime/legion/legion_context.cc:352-376 | field deletion per pair; returns the fields to finalise |
| Context.TaskContext.RegisterFieldPairCreations | runtime/legion/legion_context.cc:562-575 | every pair joins the created fields |
| Context.TaskContext.RegisterFieldPairDeletions | runtime/legion/legion_context.cc:578-607 | batch field deletion; returns the pairs to finalise |
| Context.TaskContext.RegisterFieldSpaceCreation | runtime/legion/legion_context.cc:379-387 | the space joins the created spaces |
| Context.TaskContext.RegisterFieldSpaceCreations | runtime/legion/legion_context.cc:610-623 | the batch joins the created spaces |
| Context.TaskContext.RegisterFieldSpaceDeletion | runtime/legion/legion_context.cc:390-420 | drops the space's created fields, then deletes the space |
| Context.TaskContext.RegisterFieldSpaceDeletions | runtime/legion/legion_context.cc:626-664 | the same for each space of a batch |
| Context.TaskContext.RegisterIndexSpaceCreation | runtime/legion/legion_context.cc:431-439 | ledger creation |
| Context.TaskContext.RegisterIndexSpaceCreations | runtime/legion/legion_context.cc:667-680 | batch creation |
| Context.TaskContext.RegisterIndexSpaceDeletion | runtime/legion/legion_context.cc:442-460 | ledger deletion |
| Context.TaskContext.RegisterIndexSpaceDeletions | runtime/legion/legion_context.cc:683-710 | batch deletion |
| Context.TaskContext.RegisterIndexPartitionCreation | runtime/legion/legion_context.cc:463-472 | ledger creation |
| Context.TaskContext.RegisterIndexPartitionCreations | runtime/legion/legion_context.cc:713-727 | batch creation |
| Context.TaskContext.RegisterIndexPartitionDeletion | runtime/legion/legion_context.cc:475-493 | ledger deletion |
| Context.TaskContext.RegisterIndexPartitionDeletions | runtime/legion/legion_context.cc:730-757 | batch deletion |
| Context.TaskContext.CheckIndexPrivilege | runtime/legion/legion_context.cc:1766-1806 | the loop computes `Requirements.CheckIndexPrivilege` |
| Context.TaskContext.CheckPrivilegeInternal | runtime/legion/legion_context.cc:1870-1933 | the field loop computes `Requirements.PrivilegeInternal` |
| Context.TaskContext.CheckRegionPrivilege | runtime/legion/legion_context.cc:1809-1867 | the three loops compute `Requirements.CheckRegionPrivilege`, so its lemmas apply |
| Context.TaskContext.ScanCreated | runtime/legion/legion_context.cc:1834-1851 | the created-requirement loop computes `Requirements.ScanBindings` on the created requirements and their returnable flags |
| Context.TaskContext.AllFieldsCreated | runtime/legion/legion_context.cc:1854-1863 | the field loop decides `Requirements.AllFieldsCreated` |
| Context.TaskContext.FindOriginalParent | runtime/legion/legion_context.cc:1584-1600 | the loop computes `Requirements.FirstDominating` |
| Context.TaskContext.FindCreatedParent | runtime/legion/legion_context.cc:1602-1668 | the loop computes `Requirements.ScanCreatedParent`, widening in place, so it returns the first qualifying created requirement (`ScanCreatedParentFirst`, `ScanCreatedParentNone`) |
| Context.TaskContext.FindParentRegionReq | runtime/legion/legion_context.cc:1578-1692 | the index returned and the new table are those of `Requirements.FindParentRegionReq`, so its contract and `Requirements.FindParentRegionReqFirstCreated` apply: first dominating task requirement, else first qualifying created one, else -1 or the synthesised root requirement |
| Context.TaskContext.AppendSynthesizedParent | runtime/legion/legion_context.cc:1673-1691 | appends the read-write, exclusive requirement on the tree root with the requested fields, `false`, and an unmapped physical region while the task runs; returns its combined index |
| Context.TaskContext.AddToDependenceQueue | runtime/legion/legion_context.cc:2413-2472 | a tracking operation becomes executing; others change nothing |
| Context.TaskContext.RegisterNewChildOperation | runtime/legion/legion_context.cc:2341-2410 | the next child index; the trace mark with "still recording"; the window step of `FlowControl.RegisterChild` |
| Context.TaskContext.RegisterNewCloseOperation | runtime/legion/legion_context.cc:2380-2389 | the next close index |
| Context.TaskContext.RegisterChildExecuted | runtime/legion/legion_context.cc:2475-2511 | `Lifecycle.ChildExecuted` and `FlowControl.ChildLeaves` |
| Context.TaskContext.RegisterChildComplete | runtime/legion/legion_context.cc:2514-2539 | `Lifecycle.ChildComplete` |
| Context.TaskContext.RegisterChildCommit | runtime/legion/legion_context.cc:2542-2566 | the corrected `Lifecycle.ChildCommit` |
| Context.TaskContext.UnregisterChildOperation | runtime/legion/legion_context.cc:2569-2596 | `Lifecycle.Unregister` and `FlowControl.ChildLeaves` |
| Context.TaskContext.AttemptChildrenComplete | runtime/legion/legion_context.cc:3519-3530 | `Lifecycle.AttemptComplete` |
| Context.TaskContext.AttemptChildrenCommit | runtime/legion/legion_context.cc:3533-3545 | `Lifecycle.AttemptCommit` |
| Context.TaskContext.PostEndTask | runtime/legion/legion_context.cc:3656-3786 | `Lifecycle.EndTask`; one physical region per table entry before; the mapped ones are returned and everything is unmapped |
| Context.TaskContext.UnmapPhysicalRegions | runtime/legion/legion_context.cc:3756-3773 | returns the mapped physical regions in order and unmaps every one |
| Context.TaskContext.PerformFrameIssue | runtime/legion/legion_context.cc:2800-2819 | `FlowControl.IssueFrame` on the frame queue |
| Context.TaskContext.IssueFrame | runtime/legion/legion_context.cc:2780-2797 | nothing unless frames are throttled, else `PerformFrameIssue` |
| Context.TaskContext.FinishFrame | runtime/legion/legion_context.cc:2822-2834 | `FlowControl.FinishFrame` |
| Context.TaskContext.IncrementOutstanding | runtime/legion/legion_context.cc:2837-2871 | `FlowControl.IncrementOutstanding`; keeps the gate invariant |
| Context.TaskContext.DecrementOutstanding | runtime/legion/legion_context.cc:2874-2911 | `FlowControl.DecrementOutstanding`; keeps the gate invariant |
| Context.TaskContext.IncrementPending | runtime/legion/legion_context.cc:2914-2940 | `FlowControl.IncrementPending`; keeps the gate invariant |
| Context.TaskContext.DecrementPending | runtime/legion/legion_context.cc:2943-2986 | `FlowControl.DecrementPending`; keeps the gate invariant |
| Context.TaskContext.IncrementFrame | runtime/legion/legion_context.cc:2989-3015 | `FlowControl.IncrementFrame`; keeps the gate invariant |
| Context.TaskContext.DecrementFrame | runtime/legion/legion_context.cc:3018-3047 | `FlowControl.DecrementFrame`; keeps the gate invariant |
| Context.TaskContext.ConfigureContext | runtime/legion/legion_context.cc:3140-3164 | `FlowControl.Configure`: the error leaves the configuration, success installs the checked one |
| Context.TaskContext.GetVersionOwner | runtime/legion/legion_context.cc:2134-2155 | `Caches.GetVersionOwner` for this context's kind, with the node's owner space; keeps the cache invariant |
| Context.TaskContext.ProcessVersionOwnerResponse | runtime/legion/legion_context.cc:3851-3873 | `Caches.VersionOwnerResponse` |
| Context.TaskContext.CreateInstanceTopView | runtime/legion/legion_context.cc:3312-3372 | `Caches.RequestTopView` |
| Context.TaskContext.RecordTopView | runtime/legion/legion_context.cc:3381-3399 | `Caches.RecordTopView` |
| Context.TaskContext.NotifyInstanceDeletion | runtime/legion/legion_context.cc:3404-3420 | `Caches.NotifyInstanceDeletion`; returns the view removed |
| Context.TaskContext.PerformSafeCast | runtime/legion/legion_context.cc:190-233 | `Extras.SafeCast` on the memo |
| Context.TaskContext.BeginTrace | runtime/legion/legion_context.cc:2714-2743 | `Extras.BeginTrace`; an error leaves the traces unchanged |
| Context.TaskContext.EndTrace | runtime/legion/legion_context.cc:2746-2777 | `Extras.EndTrace`; an error leaves the traces unchanged |
| Context.TaskContext.PackVirtualIndexes | runtime/legion/legion_context.cc:2272-2280 | the loop computes `Extras.VirtualIndexes` |
| Context.TaskContext.UnpackVirtualMapped | runtime/legion/legion_context.cc:4458-4466 | the loop computes `Extras.VirtualMapped` |

## Left out

- Locks, runtime meta-tasks, event creation, waits and triggers, and the
  atomic counter updates. Each critical section is one step, and a wait is
  returned as the event to wait on.
- Logging, LegionSpy output, profiling, and the `exit` calls after errors.
  Errors are returned as results.
- The wire format. Of `pack_remote_context` and `unpack_remote_context`,
  only the virtual-mapping index list is modelled.
  `send_back_created_state`, `send_remote_context` and the handler of remote
  top-view requests are not part of this model.
- The region-tree forest. Its path, root and dependence queries are
  relations passed in.
- The destruction analyses (`analyze_destroy_*`) and the conflict searches
  (`has_conflicting_*`, `find_conflicting_*`).
- The internals of mapping and unmapping physical regions. A physical region
  is its requirement and a mapped flag.
- View references, `LegionTrace` objects and their recording, fences,
  `inline_child_task`, `select_inline_variant`, and mapper calls. The
  mapper's configuration is a parameter of `ConfigureContext`, and the
  runtime's initial window settings are parameters of the constructor.
- The two `perform_safe_cast` overloads (`ptr_t` and `DomainPoint`). Both are
  modelled as one operation on an integer point.
- Iteration over `std::set` handles in batch operations. Those results do not
  depend on the order. Batch region creation returns the order it used.
  Field widening walks fields in ascending order, as `std::set<FieldID>`
  does.
- `owner_task == NULL` contexts. The reports are returned to the caller,
  which would skip them for such contexts.
- The leaf-task branch of `post_end_task`. It computes the same state change
  and also a merged mapped event, which is not modelled.
- FlowControl.ChildLeaves: the hysteresis bound
  `hysteresis_percentage * max_window_size / 100` is computed on unbounded
  naturals, so an overflow of the unsigned product is not modelled.
- Debug-only `assert`s of the source are preconditions. These cover:
  - a created handle not being created twice;
  - the child-set membership asserts;
  - the window count being positive on departure;
  - no valid wait event when a registrant must wait;
  - the frame being at the queue head on finish;
  - the task body not having ended yet in `PostEndTask` (lines 3696 and 3737);
  - positive subtask and frame counts on the decrements (lines 2888, 2966
    and 3029);
  - exactly one scheduling discipline in `IncrementOutstanding` and
    `DecrementOutstanding` (lines 2841-2844). `IncrementPending`,
    `DecrementPending`, `IncrementFrame` and `DecrementFrame` require it too
    without an assert of their own: `ConfigureContext` establishes it for
    every configuration it accepts;
  - the lookup of a pending owner request or pending top view.
- Context.TaskContext.UnpackVirtualMapped: it rebuilds the whole flag vector.
  The source only resizes the vector of a fresh remote context, which starts
  empty.

## Findings

| source | as written | input that shows it | evidently intended | confidence | as-written member | corrected member |
|---|---|---|---|---|---|---|
| runtime/legion/legion_context.cc:2556-2558 | `register_child_commit` reports children committed when no child remains, without testing `task_executed` | one complete child committing while the task body still runs: the report is made, and the later `post_end_task` no longer makes it | report only once the task body is done, as `attempt_children_commit` (line 3537) and `post_end_task` (lines 3742-3753) do | not executed | Lifecycle.ChildCommitAsWritten, Lifecycle.CommitAsWrittenBeforeTaskExecuted | Lifecycle.ChildCommit, Lifecycle.CommitReportsOnlyAfterTaskExecuted |
