# Verification of the fuzzer's stateful core

A Dafny 4.11 model of the parts of the fuzzer that keep state, with proofs of what they are meant to guarantee.
`dafny verify dfyconfig.toml` checks everything.

- **Programs** (`ProgramModel`, `ResourceTracking`, `LiveResources`, `RefRepair`, `ProgramEdits`, `Mutation`,
  `ProducerSearch`, `ProducersInScope`). A program is a list of calls; an argument may refer to a result of an earlier
  call, and `close` ends the life of what it is given. Being in scope is defined on the list of calls itself: the result
  is produced by an earlier call, is of the wanted kind, and no call since its producer closes it. The tables that
  generation, mutation and repair carry along are proved to list exactly what is in scope. Repair is proved to reach a
  well-scoped program and to change nothing exactly when there is nothing to repair; every mutation, for every draw,
  ends in a sound program of one to ten calls; and for each edit it is stated exactly when it needs no repair.
- **Inline objects** (`Alignment`, `InlineLayout`, `InlineContents`). Nested arrays and variable-length structs become
  one byte string with slots for pointers and recorded field ranges. Ranges and slots are proved ordered, disjoint, in
  bounds and aligned, no pointer is lost or exchanged, and where every scalar of a shape comes to lie is told from the
  shape alone, as is when building fails.
- **The repro queue** (`ReproEntry`, `ReproOutcomes`, `QueueSteps`, `ReproQueue`, `QueueLookup`, `QueueSafety`,
  `QueueHistory`, `QueueOrder`). Claims, leases, backoffs, attempts and rebuilds, over every run in which time does not
  run backwards. `QueueSteps` is the specification of the operations on the stored list, `ReproQueue.QueueFile` the
  object that performs them in place, and `QueueLookup.Next` describes each step a second time, from the point of view
  of one entry.
- **Crash summaries** (`Text`, `SummaryNormalizer`, `SummaryEquality`). The rewriting scanner reaches a normal form in
  one pass.
- **Type and resource definitions** (`TypeResolution`, `ResourceResolution`, `TemplateSubstitution`). The round-based
  loops that resolve forward references, and the simultaneous substitution of template parameters.
- **Timeout avoidance** (`FailureCounts`, `Avoidance`, `AvoidanceHistory`). Failure counts with decay, compaction and
  pruning, independent of the order in which hash maps are walked.

`Ordering` holds comparisons and the stable sort, `MachineInts` the integer widths, `Wrappers` optional values.

## What turned out to hold only under a condition

- Marking kinds makes the search for producers lose nothing, over given resource descriptions, exactly when
  descriptions of one kind have one lineage (`ProducerSearch.MarksLoseNothingExactly`); a description that does not
  accept another of its kind can hide a producer (`ProducerSearch.MarksCanHide`). Descriptions that come from a resolved
  table always have one lineage (`ResourceResolution.CoherentTableLosesNothing`).
- `claim` scans the stored order and `peek` the current one. They pick the same entry exactly when nothing that became
  claimable since the last sort overtakes the first claimable entry of the stored order
  (`QueueOrder.ClaimAgreesWithPeekExactly`); they can differ (`QueueOrder.ClaimCanMissPeek`).
- A worker's leases are stable exactly when the worker's name is not empty
  (`QueueSafety.LeasesAreStableExactlyForNamed`); a lease under the empty name counts as no lease at all.
- Generation takes closed results out of its table before it enters new ones, the other loops do it the other way
  round. One step of either gives the same table exactly when the call does not close a result of its own
  (`ResourceTracking.OrderMattersOnlyForOwnResults`), which holds in sound programs.
- Shifting references for a removal loses the references to the removed call, so inserting it again restores the program
  exactly when no other call refers to it (`ProgramEdits.InsertionUndoesRemovalExactly`).
- Placeholders hide numbers and addresses only where they do not join what is before them: `ab` followed by `123` and by
  `123456` gives different summaries, and so does `123` followed by `0x12` and by `0x345`. The exact conditions are in
  `SummaryNormalizer.NumbersAreHiddenExactly` and `SummaryNormalizer.AddressesAreHiddenExactly`.
- Removing an inserted call restores the program exactly when no reference has the largest index, which wraps around to
  zero (`ProgramEdits.RemovalUndoesInsertionExactly`).
- Rounding offsets with a mask aligns every offset exactly when the alignment is a power of two
  (`Alignment.AlignsExactlyPowersOfTwo`).
- Whether resources resolve never depends on their order (`ResourceResolution.SuccessIsUnordered`). Under given new names
  the result never depends on it exactly when no name is spelled like a scalar type, or there is only that one name
  (`ResourceResolution.OrderNeverMattersExactly`).
- Type resolution keeps every pointer to another type exactly when there is no cycle through values and pointers together
  (`TypeResolution.KeepsPointersExactly`). When there is one, pointers off the cycle can be lost too
  (`TypeResolution.PointersIntoCyclesAreLost`).
- Two substitutions compose exactly when no replacement leaves a string literal open
  (`TemplateSubstitution.ComposesExactlyWhenClosed`).
- The count and epoch maps stay in step exactly as long as no count of 2^32 - 1 is raised
  (`Avoidance.RunKeepsPairedExactly`).
- Weighted cooling capped at one is stale cooling by one, except that the saturated cutoff of stale cooling also reaches
  entries of epoch zero while the learning epoch is below the idle time (`FailureCounts.GradedByOneIsStaleExactly`).

## Model

| member | source | states |
|---|---|---|
| `ResourceTracking.TableListsScope` | src/fuzzer.rs:2478-2502 | After any calls, a result is listed under a kind exactly when an earlier call produced it, its lineage has that kind, and no call since has closed it |
| `ResourceTracking.OrderMattersOnlyForOwnResults` | src/fuzzer.rs:304-317 | Consuming before registering and registering before consuming give the same table if and only if the call closes none of its own results |
| `ResourceTracking.LoopsAgree` | src/fuzzer.rs:288-320 | The table carried by generation equals the recomputed one for every program whose calls do not close their own results |
| `ResourceTracking.LoopsAgreeExactly` | src/fuzzer.rs:288-320 | The two tables agree at every call if and only if no call closes a result of its own |
| `ResourceTracking.TableIsChronological` | src/fuzzer.rs:2478-2502 | Every list of the table is in the order in which its results were produced |
| `ResourceTracking.SoundNeverClosesOwn` | src/fuzzer.rs:427-440 | In a sound program references name earlier calls, so no call closes its own results |
| `LiveResources.AvailableResources.Register` | src/program.rs:2315-2327 | The reference is appended under every kind of the lineage, in order |
| `LiveResources.AvailableResources.RegisterOutputs` | src/fuzzer.rs:307-316 | All results of a call are entered in order |
| `LiveResources.AvailableResources.Invalidate` | src/fuzzer.rs:417-425 | The reference is gone from every list, emptied kinds are gone, whatever order the kinds are visited in |
| `LiveResources.AvailableResources.Consume` | src/fuzzer.rs:427-440 | Only `close` takes references out, and then all it was given |
| `LiveResources.AvailableBefore` | src/fuzzer.rs:2478-2502 | The recomputation up to a call is the table of the calls before it |
| `RefRepair.RepairScopes` | src/fuzzer.rs:2531-2564 | Whatever the program, after repair every reference in a resource argument is in scope |
| `RefRepair.RepairFixesExactlyTheBroken` | src/fuzzer.rs:2531-2564 | Repair changes nothing if and only if the program was well scoped |
| `RefRepair.RepairKeepsScopedPrefix` | src/fuzzer.rs:2531-2564 | A well-scoped beginning is left as it is, whatever follows |
| `RefRepair.RepairIsIdempotent` | src/fuzzer.rs:2531-2564 | Repairing twice is repairing once |
| `RefRepair.RepairIsMinimal` | src/fuzzer.rs:2535-2551 | Only references in resource arguments change; one still in scope stays; otherwise the latest live result of the kind replaces it, and the first special value, or 0 without any, only when no such result exists |
| `RefRepair.RepairKeepsCalls` | src/fuzzer.rs:2531-2564 | The calls and their numbers of arguments stay |
| `RefRepair.RepairKeepsTypes` | src/fuzzer.rs:2531-2564 | A program with references only where resources are taken stays so |
| `RefRepair.ScopedIsValid` | src/program.rs:3500-3575 | In a well-scoped program every reference passes the validator's check, if lineages cohere |
| `ProgramEdits.ShiftsUndoExactly` | src/fuzzer.rs:2504-2529 | On one reference, remove-shift undoes insert-shift if and only if the index does not wrap, and insert-shift undoes remove-shift if and only if the reference is not to the removed call |
| `ProgramEdits.RemovalUndoesInsertion` | src/fuzzer.rs:2504-2529 | If no reference has the largest index, removing an inserted call gives back the whole program |
| `ProgramEdits.RemovalUndoesInsertionExactly` | src/fuzzer.rs:2504-2529 | For references without the mark of a removed call, removing an inserted call gives back the whole program if and only if no reference has the largest index |
| `ProgramEdits.InsertionUndoesRemovalExactly` | src/fuzzer.rs:2034-2041 | Inserting a removed call again gives back the program if and only if no other call refers to it |
| `ProgramEdits.InsertKeepsProducer` | src/fuzzer.rs:2504-2514 | A renumbered reference names the same result of the same call |
| `ProgramEdits.RemovalKeepsProducer` | src/fuzzer.rs:2516-2529 | The same after a removal, for references to other calls |
| `ProgramEdits.ScopeAfterInsert` | src/fuzzer.rs:2000-2031 | A reference stays in scope across an insertion if and only if the new call does not close it |
| `ProgramEdits.InsertNeedsNoRepair` | src/fuzzer.rs:2000-2031 | An insertion into a well-scoped program is well scoped if and only if the new call is in scope where it lands and closes nothing referred to later |
| `ProgramEdits.RemovalNeedsNoRepair` | src/fuzzer.rs:2034-2041 | A removal from a well-scoped program is well scoped if and only if nothing used the removed call |
| `Mutation.GenerateArg` | src/fuzzer.rs:580-610 | A generated reference is one of the live results of the argument's kind, a required resource is a reference whenever one is live, and otherwise a resource gets one of its special values or 0 |
| `Mutation.GenerateArgs` | src/fuzzer.rs:472-484 | For every argument a reference to a live result or, in resource places, a special value, a required one only if nothing is live; also after derived values are filled in |
| `Mutation.Generate` | src/fuzzer.rs:282-331 | One to ten enabled calls, sound as generated, so repair would change nothing, and required resources are references wherever something is in scope |
| `Mutation.GenerationStep` | src/fuzzer.rs:304-317 | Consuming and then registering one more call of a sound program yields the recomputed table |
| `Mutation.RepairArgs` | src/fuzzer.rs:2535-2551 | The in-place loop over one call's arguments does what repair specifies |
| `Mutation.Program.ShiftRefsForInsert` | src/fuzzer.rs:2504-2514 | Every reference at or after the position moves up, all else stays |
| `Mutation.Program.ShiftRefsForRemoval` | src/fuzzer.rs:2516-2529 | References to the removed call are marked, later ones move down, all else stays |
| `Mutation.Program.RepairRefs` | src/fuzzer.rs:2531-2564 | The program becomes its repair |
| `Mutation.Program.InsertCall` | src/fuzzer.rs:2000-2031 | Nothing at ten calls; otherwise one enabled call, with arguments filled from what is in scope where it lands, is inserted with all references renumbered |
| `Mutation.Program.RemoveCall` | src/fuzzer.rs:2034-2041 | Nothing at one call; otherwise one call is removed with all references renumbered |
| `Mutation.Program.ReplaceArgs` | src/fuzzer.rs:2044-2053 | At most one call changes, to arguments filled from what is in scope where it stands |
| `Mutation.Program.RetouchArg` | src/fuzzer.rs:2056-2166 | Integer and buffer mutations leave calls and references as they are |
| `Mutation.Program.Splice` | src/fuzzer.rs:2239-2257 | A non-empty program becomes the repair of some beginning of it followed by some end of a generated program, and is sound; an empty one stays |
| `Mutation.SpliceKeepsPrefix` | src/fuzzer.rs:2239-2257 | Splicing a sound program keeps its calls before the split as they are, and the rest are the generated calls |
| `Mutation.Program.ApplyMutation` | src/fuzzer.rs:1951-1980 | One insertion, removal, replacement of arguments, change of values or splice happens, and arguments stay typed |
| `Mutation.Program.Mutate` | src/fuzzer.rs:1951-1997 | For every kind and every draw the result is a sound program of one to ten calls, the repair of one edit of a non-empty program cut to ten calls |
| `Mutation.InsertSurvivesRepair` | src/fuzzer.rs:2000-2031 | Final repair leaves an insertion alone if and only if the new call closes nothing used later; always if it is no `close` |
| `Mutation.RemovalSurvivesRepair` | src/fuzzer.rs:2034-2041 | Final repair leaves a removal alone if and only if nothing used the removed call |
| `Mutation.ReplaceSurvivesRepair` | src/fuzzer.rs:2044-2053 | Final repair leaves fresh arguments alone if and only if they close nothing used later |
| `Mutation.RetouchSurvivesRepair` | src/fuzzer.rs:2056-2166 | Final repair never changes anything after integer and buffer mutations |
| `ProducerSearch.Search.Collect` | src/fuzzer.rs:2341-2392 | The search ends on cyclic dependencies, restores its marks, and adds exactly the calls found along unmarked chains without repeated kinds |
| `ProducerSearch.Search.Explore` | src/fuzzer.rs:2356-2389 | One constructor is taken if nothing it needs is missing, otherwise what it misses is searched for |
| `ProducerSearch.ProducersForMissingInputs` | src/fuzzer.rs:2316-2339 | No producer is returned twice, and exactly those found from some input are returned |
| `ProducersInScope.MissingIsOutOfScope` | src/fuzzer.rs:2350-2368 | After any calls a resource counts as missing if and only if no result of its kind is in scope |
| `ProducersInScope.ProducersLeadToInputs` | src/fuzzer.rs:2316-2392 | With one lineage per kind exactly the calls are returned that have all inputs in scope and lead, through resources with nothing in scope, to an input of the target |
| `ProducersInScope.SatisfiedGetsNothing` | src/fuzzer.rs:2350-2355 | A target whose inputs all have a result in scope gets no producer |
| `ProducersInScope.OutOfScopeGetsItsMakers` | src/fuzzer.rs:2357-2377 | An input with nothing in scope gets every enabled call that makes it and whose own inputs are all in scope |
| `ProducersInScope.ReturnedIsRunnable` | src/fuzzer.rs:2362-2377 | Whatever is returned is enabled and has all inputs in scope, and some input of the target has nothing in scope |
| `ProducerSearch.MarksLoseNothing` | src/fuzzer.rs:2341-2392 | With one lineage per kind, those are exactly the enabled ready calls that construct something reachable from a missing input along any chain |
| `ProducerSearch.MarksCanHide` | src/fuzzer.rs:2350-2354 | For any two descriptions of one kind of which one does not accept the other, a reachable producer that the search does not return |
| `ProducerSearch.MarksLoseNothingExactly` | src/fuzzer.rs:2341-2392 | Over given descriptions no search ever loses a producer if and only if descriptions of one kind have one lineage |
| `ProducerSearch.ConstructorsFrom` | src/program.rs:1837-1848 | Exactly the descriptions with an output the resource accepts |
| `Alignment.AlignUpBounds` | src/fuzzer.rs:43-51 | The result is not smaller than the offset and less than one alignment above it |
| `Alignment.AlignUpAligns` | src/fuzzer.rs:43-51 | For powers of two the result is a multiple of the alignment |
| `Alignment.AlignsExactlyPowersOfTwo` | src/fuzzer.rs:43-51 | The mask aligns every offset if and only if the alignment is a power of two |
| `InlineLayout.BuildObject` | src/fuzzer.rs:913-1122 | The recursive builder computes the specified object, or fails exactly where that fails |
| `InlineLayout.BuildArray` | src/fuzzer.rs:958-986 | The array case, element by element |
| `InlineLayout.BuildStructFields` | src/fuzzer.rs:1081-1098 | The fields of a variable-length struct, one by one |
| `InlineLayout.AddFieldLays` | src/fuzzer.rs:67-90 | Aligning, writing and merging one more field leaves the fields before it in their places and puts the new one, with its bytes, slots and layouts, at an aligned range after them with only zeros in between |
| `InlineLayout.BuildIsWellLaid` | src/fuzzer.rs:913-1122 | In every object that can be built the pointer slots are eight zero bytes each, in bounds and disjoint, and every recorded layout is ordered and in bounds |
| `InlineLayout.StructIsLaidOut` | src/fuzzer.rs:1009-1122 | Fields are ordered, disjoint, in bounds and aligned, hold their own bytes, have only zeros between them and move their slots and layouts along; the size is aligned; ranges are recorded unless they can be recomputed |
| `InlineLayout.EveryStructIsLaidOut` | src/fuzzer.rs:76-90 | At every depth each struct has its field bytes at its ranges moved to its absolute place, and the layouts of the whole object are exactly these ranges of the structs for which they cannot be recomputed |
| `InlineContents.ObjectShowsItsLeaves` | src/fuzzer.rs:913-1122 | There is an object if and only if all alignments are known and all sizes fit; then, at every depth, each scalar has its bytes and each pointer eight zeros at the place that sizes and alignments give it, in order and apart, everything else is zero, and every pointer that is not null has a slot there with its target |
| `InlineContents.LeavesAreAligned` | src/fuzzer.rs:43-65 | Without packing, with scalars in multiples of power-of-two alignments and no alignment forced below that of a part, every scalar and pointer is at a multiple of its own alignment in the whole object |
| `InlineContents.PackedIsTight` | src/fuzzer.rs:53-65 | A packed struct lies like an array of its fields, with no padding inside or at its end |
| `InlineLayout.SlotsHoldTheTargets` | src/fuzzer.rs:76-90 | The slots hold exactly the non-null pointers in order, however deeply nested |
| `InlineLayout.NaturalIsAligned` | src/fuzzer.rs:53-65 | Without packing and forced alignments, with none over eight and sizes of eight-byte aligned scalars in multiples of eight, every pointer slot is eight-byte aligned in the whole object |
| `InlineLayout.ArrayArgValue` | src/fuzzer.rs:218-244 | The loop that joins elements computes the specified array value |
| `InlineLayout.SizesCutTheArray` | src/fuzzer.rs:218-244 | The recorded sizes cut the joined bytes back into the bytes of each element |
| `InlineLayout.JoinedIsBuilt` | src/fuzzer.rs:218-244 | Joining elements built separately gives what the array case builds in place |
| `ReproEntry.CanonicalIsIdempotent` | src/crash.rs:1236-1245 | An outcome that was made canonical once is not renamed again |
| `ReproEntry.OutcomeRank` | src/crash.rs:1118-1126 | Ranks are 0 to 3, and 0 means that there is no outcome |
| `ReproEntry.BackoffSecs` | src/crash.rs:1222-1234 | A wait, if there is one, lies between 60 and 3000 seconds |
| `ReproEntry.BackoffGrowsWithAttempts` | src/crash.rs:1222-1234 | For a fixed outcome the wait never shrinks with attempts and grows strictly up to ten; renaming does not change it |
| `ReproOutcomes.OutcomesByWord` | src/crash.rs:1236-1245 | An outcome is a success, a timeout or a failure if and only if it spells one of the listed words in any capitalization with any white space around it; a blank one is a failure, any other is kept in small letters |
| `ReproOutcomes.WaitsByWord` | src/crash.rs:1222-1234 | Sixty seconds after a failure, three hundred after a timeout and a hundred and twenty otherwise, for each attempt up to ten; none after a success |
| `ReproOutcomes.PriorityIsLexicographic` | src/crash.rs:1247-1272 | Priorities compare crashes first, then repros, then logs; the score of shape, profile and occurrences decides the rest |
| `ReproEntry.ChainIsLexicographic` | src/crash.rs:1156-1190 | The thirteen chained comparisons are the lexicographic order of rank vector, type and signature |
| `ReproOutcomes.OrderIsLexicographic` | src/crash.rs:1156-1190 | Of two entries the first is decided by the first of thirteen stored facts in which they differ, each in its own direction |
| `ReproEntry.QueueOrderIsTotal` | src/crash.rs:1156-1190 | At every time the comparator is a total preorder that ties only on equal keys |
| `ReproEntry.DropExpiredKeepsView` | src/crash.rs:1371-1384 | Erasing what has expired changes neither an entry's place nor whether it can be claimed |
| `ReproQueue.Summarize` | src/crash.rs:1192-1220 | The counting loop counts each class of entries |
| `ReproQueue.QueueFile.Claim` | src/crash.rs:1434-1472 | The new queue and the returned entry are the specified ones; nothing is touched when nothing is claimed |
| `ReproQueue.QueueFile.Release` | src/crash.rs:1489-1512 | Succeeds exactly for the recorded owner, and then clears the lease of that entry only |
| `ReproQueue.QueueFile.Requeue` | src/crash.rs:1531-1555 | Succeeds exactly for the recorded owner, and then applies the outcome to that entry only |
| `ReproQueue.QueueFile.Record` | src/crash.rs:1343-1362 | Applies the outcome to the entry whoever owns it |
| `ReproQueue.QueueFile.Rebuild` | src/crash.rs:1051-1069 | The queue is the sorted list of entries built from the catalog |
| `ReproQueue.QueueFile.Peek` | src/crash.rs:1411-1419 | The first free entry of the materialized queue, with nothing stored |
| `ReproQueue.QueueFile.Snapshot` | src/crash.rs:1386-1405 | The summary of the whole materialized queue and its first entries up to the limit |
| `QueueLookup.StepLookups` | src/crash.rs:1333-1362 | Every step keeps keys unique and does to each entry exactly what the entry-wise description says |
| `QueueLookup.SortKeepsLookups` | src/crash.rs:1156-1190 | Sorting keeps every entry under its key |
| `QueueHistory.ClaimPicksTheFirst` | src/crash.rs:1443-1471 | A claim returns the first entry on which the worker's lease still runs, or else the first that is neither backed off nor leased to anybody with a name, and nothing if and only if there is neither |
| `QueueHistory.ClaimLasts` | src/crash.rs:1441-1469 | What a named worker is returned is leased to it for exactly the seconds it asked for, at least one, whether granted or renewed, and is otherwise an entry of the queue as it was, without a backoff that is over |
| `QueueHistory.ClaimIsKept` | src/crash.rs:1434-1555 | Through every run of others' steps the worker keeps the entry for exactly those seconds |
| `QueueHistory.ClaimIsExclusive` | src/crash.rs:1434-1472 | All that time nobody else's claim returns it |
| `QueueHistory.AttemptWaits` | src/crash.rs:1333-1341 | An attempt ends the lease, and the entry is claimable again exactly once the wait for its outcome and number of attempts is over, at once after a success |
| `QueueHistory.ReleaseFrees` | src/crash.rs:1489-1512 | A release takes away the lease of its own worker and changes nothing else |
| `QueueHistory.HistoryIsExact` | src/crash.rs:1051-1112 | After any run that keeps the key in the catalogs an entry counts exactly the attempts made in the run, remembers time and outcome of the last, and describes the artifact as it was last listed |
| `QueueHistory.SummaryCounts` | src/crash.rs:1192-1220 | Each number of a summary is the number of entries leased, backed off, neither, or with such a last outcome; unknown outcomes count as failures |
| `QueueSafety.ReachableShape` | src/crash.rs:1333-1341 | In every run no entry has both a lease and a backoff, and attempts are 0 exactly when no outcome is recorded |
| `QueueSafety.SummaryAddsUpExactly` | src/crash.rs:1192-1220 | Claimable, leased and backed-off entries add up to the total if and only if no entry is leased and backed off at once |
| `QueueSafety.ReachableSummaryAddsUp` | src/crash.rs:1192-1220 | In every reachable queue at any time they add up, and the outcomes add up to the entries attempted |
| `QueueSafety.HoldersComeFromClaims` | src/crash.rs:1434-1472 | Whoever holds an entry after a step held it before or has just claimed it while holding nothing |
| `QueueSafety.OneLiveLeasePerWorker` | src/crash.rs:1434-1472 | In every run with non-decreasing time no worker holds two live leases |
| `QueueSafety.LeaseIsStable` | src/crash.rs:1434-1554 | Until expiry no other worker's step and no rebuild that keeps the key changes owner, expiry or attempts |
| `QueueSafety.EmptyNameIsUnprotected` | src/crash.rs:1132-1137 | A lease under an empty worker name protects nothing: the next claim takes the entry over |
| `QueueSafety.LeasesAreStableExactlyForNamed` | src/crash.rs:1434-1554 | Leases of a worker survive all others' steps, in all queues and runs until expiry, if and only if the worker's name is not empty |
| `QueueSafety.RunKeepsBlocked` | src/crash.rs:1458-1469 | An entry in backoff stays unleased and backed off until its time, over any run through claims |
| `QueueSafety.AttemptsAreSpaced` | src/crash.rs:1222-1234 | After an unsuccessful requeue the next requeue of the entry comes no earlier than the backoff allows, and at least 60 seconds later, rebuilds included |
| `QueueSafety.RebuildKeepsState` | src/crash.rs:1071-1112 | A rebuild keeps attempts, canonical outcome, live lease and live backoff of every key still listed, starts new keys afresh and drops the rest |
| `QueueSafety.RebuildIsIdempotent` | src/crash.rs:1051-1112 | Rebuilding twice at the same time is rebuilding once, for any catalog |
| `QueueOrder.SortIsCanonical` | src/crash.rs:1156-1190 | With unique keys every permutation sorts to the same list |
| `QueueOrder.DropCommutesWithSort` | src/crash.rs:1371-1384 | Erasing expired leases and backoffs commutes with sorting |
| `QueueOrder.PeekIsLeastClaimable` | src/crash.rs:1411-1419 | Peeking finds an entry if and only if one is claimable, and it is the least of those |
| `QueueOrder.ClaimGetsSomethingWhenPeekDoes` | src/crash.rs:1458-1471 | A worker without a live lease gets a claimable entry if and only if peeking finds one |
| `QueueOrder.ClaimAgreesWithPeekExactly` | src/crash.rs:1458-1471 | Claim and peek pick the same entry if and only if nothing newly claimable overtakes the first claimable entry of the stored order |
| `QueueOrder.ClaimAgreesWithPeek` | src/crash.rs:1458-1471 | They agree when the queue was sorted at the same time |
| `QueueOrder.ClaimCanMissPeek` | src/crash.rs:1458-1471 | A sorted queue on which they differ later |
| `QueueOrder.TurnAttemptsUntried` | src/crash.rs:1531-1554 | While an entry was never attempted, a claim-and-requeue turn attempts such an entry, whatever the outcome and the times |
| `QueueOrder.TurnsAttemptEverything` | src/crash.rs:1531-1554 | As many turns as there were unattempted entries leave every entry attempted and lose none |
| `QueueOrder.SortedMeansUntriedFirst` | src/crash.rs:1173 | A sorted queue without leases has its unattempted entries in front |
| `SummaryNormalizer.EndOfRun` | src/crash.rs:634-637 | The inner loops stop at the end of the run of the class |
| `SummaryNormalizer.ReadPiece` | src/crash.rs:629-668 | One round of the scanner takes the specified piece |
| `SummaryNormalizer.NormalizeToken` | src/crash.rs:625-671 | The scanner computes the specified rewriting |
| `SummaryNormalizer.RewriteSettles` | src/crash.rs:625-671 | What one pass writes contains nothing another pass would replace |
| `SummaryNormalizer.FixedExactlyWhenSettled` | src/crash.rs:625-671 | A token is left alone if and only if it has no 0x before a hex digit, no three digits in a row and no eight hex digits in a row; one pass is enough |
| `SummaryNormalizer.QuietIsSettled` | src/crash.rs:629-668 | The scanner's own tests at each position find exactly those three patterns |
| `SummaryNormalizer.NormalizeIsIdempotent` | src/crash.rs:616-623 | Normalizing a summary twice is normalizing it once |
| `SummaryNormalizer.NormalizedIsSettled` | src/crash.rs:616-623 | Nowhere in a normalized summary, not even across words, is anything left to replace |
| `SummaryNormalizer.RewriteSplits` | src/crash.rs:625-671 | Text that ends in no hex digit and leaves no 0x open is rewritten independently of what follows |
| `SummaryNormalizer.RewriteSplitsExactly` | src/crash.rs:625-671 | Text is rewritten independently of whatever follows if and only if it ends so |
| `SummaryNormalizer.NumbersAreHidden` | src/crash.rs:645-655 | After text that ends so, texts that differ in one number of three or more digits become equal |
| `SummaryNormalizer.NumbersAreHiddenExactly` | src/crash.rs:629-668 | Every number after a text is replaced as a whole, and nothing else with it, if and only if the text ends so |
| `SummaryNormalizer.AddressesAreHidden` | src/crash.rs:630-644 | After text that leaves a following zero alone, texts that differ in one address after 0x become equal |
| `SummaryNormalizer.AddressesAreHiddenExactly` | src/crash.rs:629-668 | Every address after a text is replaced as a whole, and nothing else with it, if and only if the text leaves a following zero alone |
| `SummaryEquality.BareAddressesAreHidden` | src/crash.rs:656-665 | After text that ends in no hex digit and leaves no 0x open, eight hex digits or more that do not begin with three decimal ones are replaced as a whole |
| `SummaryEquality.CapitalsAreIgnored` | src/crash.rs:616-671 | Summaries that differ only in capitalization become the same |
| `SummaryEquality.SpacingIsIgnored` | src/crash.rs:616-623 | However its words are spaced, a summary becomes its rewritten words in small letters, one space apart |
| `TypeResolution.Round` | src/description.rs:929-943 | One strict or relaxed round enters and leaves over exactly what it should, and reports whether anything parsed |
| `TypeResolution.ResolveDefinitions` | src/description.rs:906-1042 | The loop ends and computes the specified outcome |
| `TypeResolution.RoundIsUnordered` | src/description.rs:929-943 | A round does not depend on the order of the definitions |
| `TypeResolution.ListMatchesMap` | src/description.rs:906-1042 | With unique names the loop over lists computes what resolution of the unordered definitions computes |
| `TypeResolution.OrderDoesNotMatter` | src/description.rs:906-1042 | The outcome, types included, is the same for every order of the pending list |
| `TypeResolution.RoundKeepsResolvable` | src/description.rs:929-985 | What a strict or relaxed round leaves over is resolvable if and only if what it started from was |
| `TypeResolution.StuckMeansCyclic` | src/description.rs:986-1035 | If every pending definition waits for another by value, there is a cycle by value |
| `TypeResolution.SucceedsExactlyWhenResolvable` | src/description.rs:906-1042 | Resolution succeeds if and only if every referenced name is defined and no type holds itself by value; pointer cycles are always broken |
| `TypeResolution.ListSucceedsExactlyWhenResolvable` | src/description.rs:906-1042 | The same for the loop over the pending list |
| `TypeResolution.ResolvedNames` | src/description.rs:906-1042 | On success exactly the known and the defined names are defined |
| `TypeResolution.ResolvedIsFaithful` | src/description.rs:3931-3956 | A resolved type holds the final types it names, and points to the final type exactly where that was resolved in an earlier round, and to nothing everywhere else |
| `TypeResolution.KeepsPointersExactly` | src/description.rs:944-985 | Resolution succeeds and no pointer but those of types to themselves goes to nothing if and only if the definitions still resolve with these pointers held by value |
| `TypeResolution.PartKeepsPointers` | src/description.rs:906-1042 | Definitions that resolve on their own with pointers held by value are resolved and keep their pointers, whatever the other definitions do and even if resolution fails |
| `TypeResolution.PointersIntoCyclesAreLost` | src/description.rs:944-985 | A type on no cycle whose pointer goes to nothing because it points into a pointer cycle |
| `ResourceResolution.ResolveDeclarations` | src/description.rs:1286-1312 | The loop ends and computes the specified outcome |
| `ResourceResolution.SucceedsExactlyWhenGrounded` | src/description.rs:1286-1312 | For kinds declared once and not known before it succeeds if and only if every base chain reaches a scalar or a known resource |
| `ResourceResolution.SuccessIsUnordered` | src/description.rs:1286-1312 | For such declarations whether it succeeds never depends on their order |
| `ResourceResolution.AlongSpellsTheChain` | src/description.rs:1863-1883 | The lineage of a chain is the chain root first ending in the resource itself, and its size is that of the root |
| `ResourceResolution.ValuesAlongTheChain` | src/description.rs:1887-1896 | Its special values are those of the first declaration of the chain that lists any, else those of the known resource at its end, and none at a scalar |
| `ResourceResolution.ChainIsUnique` | src/description.rs:1863-1883 | There is at most one chain from a declaration |
| `ResourceResolution.ResolvedAlongTheChain` | src/description.rs:1841-1907 | Every resolved resource is what its chain yields, and known resources are kept |
| `ResourceResolution.OrderDoesNotMatter` | src/description.rs:1286-1312 | For new names, of which none spelled like a scalar is the base of another, the outcome is the same for every order |
| `ResourceResolution.ScalarNamesMakeOrderMatter` | src/description.rs:1863-1883 | For a name spelled like a scalar and any other name, two orders of the same declarations with different results |
| `ResourceResolution.OrderNeverMattersExactly` | src/description.rs:1286-1312 | For given new names, every two orders of every list have the same outcome if and only if no name but a lone one is spelled like a scalar |
| `ResourceResolution.ResolveKeepsCoherent` | src/description.rs:1286-1312 | Every name in a lineage of the resulting table is a resource of it whose own lineage leads up to it |
| `ResourceResolution.CoherentTableCoheres` | src/program.rs:192-194 | Descriptions drawn from such a table have coherent lineages, as the validator needs |
| `ResourceResolution.CoherentTableLosesNothing` | src/fuzzer.rs:2341-2392 | With descriptions drawn from such a table, cyclic dependencies or not, the search for producers loses nothing |
| `TemplateSubstitution.Substitute` | src/description.rs:4795-4845 | The loop writes out the lexemes of the text with bound tokens replaced |
| `TemplateSubstitution.ReadingLosesNothing` | src/description.rs:4795-4845 | Writing the lexemes back without bindings gives the text |
| `TemplateSubstitution.ReadingFindsWholeTokens` | src/description.rs:4821-4829 | Tokens are whole runs: never empty, and no token directly follows another |
| `TemplateSubstitution.ReplacementsStayInPlace` | src/description.rs:4795-4845 | If replacements close their literals, the result reads as the original with each bound token replaced by the lexemes of its replacement, so nothing joins a neighbour and literals stay |
| `TemplateSubstitution.ReplacementsStayInPlaceExactly` | src/description.rs:4795-4845 | That holds for every text if and only if no replacement leaves a literal open |
| `TemplateSubstitution.IdentifiersAreReplacedWhole` | src/description.rs:4821-4829 | An identifier of letters, digits, underscores and dollar signs that stands alone is replaced as a whole or left alone, whatever parts of it are bound |
| `TemplateSubstitution.LiteralsStay` | src/description.rs:4802-4819 | A string literal, escapes included, stays as it is, and the text around it is substituted without regard to it |
| `TemplateSubstitution.OpenLiteralSwallows` | src/description.rs:4802-4812 | A replacement that leaves a literal open breaks composition for some text |
| `TemplateSubstitution.ComposesExactlyWhenClosed` | src/description.rs:4795-4845 | Substituting twice is substituting once with composed bindings, for all texts and second bindings, if and only if no replacement leaves a literal open |
| `TemplateSubstitution.ComposeKeepsClosed` | src/description.rs:4795-4845 | Composed bindings close their literals again, so nested instantiations compose |
| `FailureCounts.LoadedExactly` | src/avoidance.rs:80-114 | Exactly the entries with failures and a name that is not blank are loaded, a missing epoch being now; what is loaded is always paired, and a table survives if and only if it is paired and has no blank name |
| `FailureCounts.NotingKeepsPairedExactly` | src/avoidance.rs:168-178 | One more failure keeps counts positive if and only if the count is not the largest 32-bit number |
| `FailureCounts.GradedDecayCountsIdlePeriods` | src/avoidance.rs:377-383 | The amount is the number of full idle periods, capped |
| `FailureCounts.DecayFailureCounts` | src/avoidance.rs:298-315 | Whatever the order of keys, every entry is lowered or dropped; the flag says whether anything changed |
| `FailureCounts.DecayStaleFailureCounts` | src/avoidance.rs:317-342 | The same for exactly the stale entries |
| `FailureCounts.DecayStaleFailureCountsWeighted` | src/avoidance.rs:344-375 | The same with the graded amounts |
| `FailureCounts.CompactFailureCounts` | src/avoidance.rs:385-410 | Exactly the idle entries below the threshold go, in both maps, whatever the order of keys |
| `FailureCounts.PruneWeakFailureCounts` | src/avoidance.rs:412-457 | Whatever the order of keys, exactly those weak entries go that have at least the budgeted number of others before them |
| `FailureCounts.RankIsPosition` | src/avoidance.rs:436-440 | In the sorted list the entries before a position are exactly those that come before by count, recency and name |
| `FailureCounts.PruneKeepsTheStrongest` | src/avoidance.rs:412-457 | Every weak entry that stays has more failures than every one that goes, or as many and a later one, or is first by name |
| `FailureCounts.PruneUsesTheBudget` | src/avoidance.rs:412-457 | As many weak entries stay as the budget allows and there were |
| `FailureCounts.PruneIsIdempotent` | src/avoidance.rs:412-457 | Pruning twice is pruning once |
| `FailureCounts.TrimmingKeepsBlocked` | src/avoidance.rs:385-457 | Neither compaction nor pruning touches blocked entries or their counts |
| `FailureCounts.CoolingAddsUp` | src/avoidance.rs:298-342 | Two flat or two stale passes with one cutoff are one pass by the sum |
| `FailureCounts.GradedByOneIsStaleExactly` | src/avoidance.rs:317-383 | Weighted cooling capped at one is stale cooling by one if and only if the idle time has passed at all or no entry is of epoch zero |
| `Avoidance.AvoidanceState.NoteEdgeFailure` | src/avoidance.rs:168-178 | Count, epoch and learning epoch are updated, the syscall table is not |
| `Avoidance.AvoidanceState.NoteSyscallFailure` | src/avoidance.rs:180-190 | The same for syscalls |
| `Avoidance.AvoidanceState.DecayAll` | src/avoidance.rs:192-207 | Both tables are cooled; nothing happens for amount 0; the flag says whether anything changed |
| `Avoidance.AvoidanceState.DecayStaleOnes` | src/avoidance.rs:209-227 | The same for stale entries |
| `Avoidance.AvoidanceState.DecayStaleWeighted` | src/avoidance.rs:229-248 | The same with graded amounts |
| `Avoidance.AvoidanceState.CompactAll` | src/avoidance.rs:250-271 | Both tables are compacted, each with its own threshold |
| `Avoidance.AvoidanceState.PruneWeakEntries` | src/avoidance.rs:273-295 | Both tables are pruned, each with its own threshold and budget |
| `Avoidance.StepKeepsPairedExactly` | src/avoidance.rs:168-295 | Every step keeps both pairs of maps in step and positive if and only if it does not raise a largest count |
| `Avoidance.RunKeepsPairedExactly` | src/avoidance.rs:168-295 | The maps stay in step throughout a run if and only if no count overflows in it |
| `Avoidance.ShortRunsStayPaired` | src/avoidance.rs:168-295 | From an empty state runs of fewer than 2^32 steps never overflow |
| `Avoidance.RunKeepsCurrent` | src/avoidance.rs:168-190 | The learning epoch never goes back and no recorded failure is ahead of it |
| `Avoidance.OnlyFailuresBlock` | src/avoidance.rs:148-166 | Only a new failure can add to the blocked edges and syscalls |
| `Avoidance.CompactThenPruneIsStable` | src/manager.rs:1558-1582 | Compacting and pruning a second time changes nothing, and blocked entries stay as they were |
| `AvoidanceHistory.CompactionSparesExactly` | src/avoidance.rs:385-410 | In either table exactly the entries stay that have failures enough or whose last failure plus the idle time is later than the learning epoch, with count and epoch unchanged |
| `AvoidanceHistory.RecentFailuresSurvive` | src/avoidance.rs:385-410 | A failure within the idle time of where learning ends up survives every compaction of a run without cooling and pruning, and all failures since are counted |
| `AvoidanceHistory.EpochsAreExact` | src/avoidance.rs:168-190 | After any run the learning epoch is the latest of all failures noted, and each recorded epoch is that of the last failure of its key |
| `AvoidanceHistory.CountsAreNotes` | src/avoidance.rs:168-190 | From an empty state, without cooling and trimming, each count is the number of failures noted |
| `AvoidanceHistory.CoolingLowersExactly` | src/avoidance.rs:298-375 | In either table every count loses the fixed amount, the amount if it is stale, or one for each whole idle period up to the cap, and goes when nothing is left |
| `AvoidanceHistory.PruningSparesTheStrongest` | src/avoidance.rs:412-457 | In either table entries with failures enough stay, and of the rest the strongest, exactly as many as its budget has room for |

## Left out

- Files, JSON, directories and the clock: the queue, the catalog, the snapshot and the time are inputs, and corrupt-file fallbacks are not modelled.
- `detect_crash`, crash signatures and artifact saving in `src/crash.rs`: they would only add easy members.
- Text and path fields of artifacts are one field `text`; of the optional paths only their presence is kept, since only that is used.
- ReproQueue.QueueFile.Requeue: the attempt counter is unbounded here; its overflow after 2^64 attempts is not modelled.
- Mutation.ChooseSyscall: weights and preferences are not modelled, only that the choice is an enabled system call; the enabled list is not empty, as building a choice table insists.
- Mutation.Program.RetouchArg: what integer and buffer mutations write is any value that is not a reference; random draws are arbitrary choices throughout.
- Nested arguments in programs: only top-level references are renumbered and repaired by the source, so other values are opaque, and inputs and outputs of a description are given as lists.
- Overlays, bitfields, unions, fixed-size struct offsets, length fields and reserved objects of inline objects; the layout that can be recomputed from a struct's type is a parameter.
- The type grammar, constants, aliases, unions, templates as pending definitions and malformed definitions: a definition is its name with the names it holds by value and points to, and only unresolved references make it fail.
- Explicit sizes and scalar names as resource bases are one table of sizes; a base that is neither an identifier nor a number is not modelled.
- Arithmetic overflow panics of debug builds: indices and counts wrap around as in release builds.
- `src/corpus.rs`, `src/config.rs`, the executor protocol and the syzkaller id tool: plumbing.
