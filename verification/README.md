# ctxfs and ctxd: a verified model

ctxd mirrors local folders into ctxfs.  ctxfs keeps a catalog of entries and a tree of files in step,
serves paged grep over the tree, and issues machine credentials from a second database.  This project
models the parts of both where state is changed in several places at once, and proves what they keep.
`dafny verify dfyconfig.toml` checks all of it.

**The submission engine** (`Paths`, `MoveGraph`, `MoveOrder`, `Catalog`, `Disk`, `Batch`, `Stages`,
`Preflight`, `Exactness`, `Store`, `Agreement`).  A submission of puts, moves, deletes and decisions is
reordered, run dry, and applied to a catalog and a file tree with a journal of undo actions.  `Store.CtxfsStore` follows
the source statement by statement; any primitive may fail at any time, as the schedule `fails` decides.
`Catalog` says what a submission means, identity by identity, without order, journal or files.  The main
results: a submission is applied as a whole or not at all at every fault, a rollback failing only for a
second fault while it runs; when nothing but known entries is lost and no primitive fails, exactly the
applicable submissions are applied; a batch of moves is a simultaneous renaming that never renames over a
live file; as long as no rollback fails, tree and catalog agree, the entries known to be lost aside, and
an entry is lost exactly by being moved onto the path it already has, until a delete or new content; the
dry run is exact but for what it does not look at; writers never touch each other's entries or files.

**Grep** (`Grep`, `LegacyGrep`, `Order`, `Framing`, `PathEncoding`).  ripgrep is an arbitrary fixed
sequence of records.  Pages cut by any limits and any timeouts, chained through their cursors, deliver a
prefix of one unbounded scan, and all of it when a page reports completion; the draining loop is never
silently short.  The legacy continuation, which keeps limit + 1 candidates of a stream in another order,
delivers exactly what sorting the whole stream would, and its answer is determined for every tree, cursor,
limit and cut.  Records do not depend on how the byte stream was cut into reads, and the encoding of paths
on disk is invertible and keeps the order of components.

**Machine credentials** (`Enrollment`, `EnrollmentRuns`, `Rotation`, `ConfirmRetry`, `Coordinator`,
`MachineIdentity`, `MachineKey`).  A call commits to the catalog while a transaction on the credential
tables is open, so a crash keeps one change and loses the other.  `Enrollment` is the protocol as a state
machine with crash points between the commits; `Coordinator` is the imperative code, each method proved equal to its step.
Over all runs: at most two active credentials for a machine; one enrollment key, one machine; retries
finish what a crash interrupted, a confirmation exactly if nothing disturbed it; after a revocation only
the cleanup route is open; and a client's registration converges on one credential that it, the catalog
and the ledger agree on.

**The tracker and the queue** (`Tracker`, `Acceptance`, `Sync`, `Service`).  A synchronisation submits the
difference between a scan and the saved state; when it is acknowledged, the store's entries are those
scanned, an incomplete scan has deleted nothing, no file was lost, and the saved state says so; when it is
not, it stopped at one batch for a stated reason, with the folders applied mirroring the new state and the
others the old.  When the store accepts a difference is stated on the scan.  Draining attempts each
waiting submission once, and on a store that agrees but for lost entries one fails only for a fault during
its own attempt or as not applicable.  A destructive delete of a prefix that gets as far as the entries,
followed by draining the queue, leaves no entry under the prefix.  `Utf8` covers the cutting of content
that is read in part.

## Claims that fail, and when

- The guards at src/ctxfs/store.py:1993, 2203 and 2284 treat a move onto an entry's own path as a no-op.
  It is not one: the cycle finder reports it as a cycle of one, its file is parked and never renamed
  back.  `Agreement.SelfMoveLosesFile` gives the case, `Agreement.AgreementKeptIff` the exact condition.
- A submission that is applied but whose acknowledgement is lost is sent again, and then every move in
  it is such a move: `Tracker.ResendLosesTheMoved`.
- The dry run is not exact.  `Exactness.AcceptableIff`: every check of the engine holds exactly if a plan
  passes and expects the right hashes, puts no NUL, moves to paths that are distinct and each free or
  vacated, and puts nothing where a forgotten move went while its entry is still there.  A move is
  forgotten if its path is a later move's source: exactly the first-run moves of cycles
  (`Exactness.ForgottenRunFirst`).  Inputs that pass and are refused: `Preflight.TwoMovesToOnePathPass`,
  `Exactness.SwapThenPutPasses`, `Exactness.WrongHashPasses`.
- Nor are all such plans applied, even when no primitive fails.  `Exactness.AppliedIff`: exactly those are
  in which no put would rename a file that was lost before, or that a self-move of the same plan loses,
  and no move goes to the path of a lost entry that a later move is to take away.  Such a move is the
  first-run move of a cycle (`Exactness.MeetsLostRunsFirst`).  Inputs: `Exactness.SelfMoveThenPutPasses`,
  `Exactness.LostPutPasses`, and the swap of `Exactness.SwapWithLostDependsOnOrder`, which is refused
  or applied depending on which of its two moves is listed first.
- What the tracker sends is not always accepted.  `Acceptance.DifferenceAcceptedIff` gives the exact
  condition on scan and store; a file renamed onto the path of an entry whose own file was edited is
  refused at every synchronisation that finds the two so (`Acceptance.RenameOntoEditedIsRefused`).
- A crashed confirmation cannot always be finished.  `ConfirmRetry.ConfirmRetryIff`: after any run of
  commands the retry is confirmed exactly if an admin or the replacement asks, no registration,
  confirmation or revocation has rebound the machine, and no rotation was prepared before some retry
  finished it.  `Rotation.ConfirmRetryAfterPrepareFails` gives a case.
- A plain revocation leaves a prepared replacement active, for the cleanup route only
  (`Rotation.RevocationSparesThePrepared`).
- An admin's registration that crashes before the ledger commits shuts out every enrollment key
  (`EnrollmentRuns.AdminFirstShutsOutTheKey`).
- Plain string order on logical paths is not the order of the tree: the two disagree exactly if, where the
  paths first differ, one has a slash and the other a character below it (`PathEncoding.OrdersDisagreeIff`);
  `PathEncoding.LogicalOrderDiffers` gives a pair.
- Suffix 1 and a later one may give one machine key: exactly if the base has 62 or 63 characters, ends in
  the later suffix, and has nothing or no dash before it (`MachineKey.CoincideIff`).  Allocation needs an
  attempt to spare only then.
- A queued operation with a malformed path stops a destructive delete half-way, and so does a commit that
  fails: what is done by then stays done, the entries even when only the deletion's record is missing
  (`Service.CtxfsService.DeletePrefix`).

## Model

| member | source | states |
|---|---|---|
| Paths.SharedPathMeansOverlap | src/ctxfs/store.py:2797-2806 | prefixes that share a path overlap, so disjoint prefixes share no path |
| Paths.OverlapIff | src/ctxfs/store.py:2797-2806 | prefixes overlap exactly if they are one or one continues the other after a slash, and then they share a path |
| Paths.WithinIff | src/ctxfs/store.py:2797-2802 | a path lies under a prefix exactly if it is the prefix or the prefix, a slash and more |
| Paths.PathOfParts | src/ctxfs/store.py:2711-2731 | components joined by slashes are accepted exactly if each is non-empty, neither dot nor dots, free of control characters, and the first names no drive |
| MoveGraph.FollowMoves | src/ctxfs/store.py:2775-2794 | a walk ends off the graph, at a node seen before, or by closing exactly one cycle |
| MoveGraph.MoveCycles | src/ctxfs/store.py:2775-2794 | every cycle of any finite map is returned once, no other list of nodes is, and each begins where the key order first enters it |
| MoveGraph.CycleImage | src/ctxfs/store.py:1960-1968 | a cycle of moves is a cycle of their paths |
| MoveGraph.FirstRunNamesParked | src/ctxfs/store.py:2045-2071 | the first move run of a cycle is the cycle's first node, whose destination is the file parked |
| MoveGraph.LaterSuccessorIff | src/ctxfs/store.py:2239-2293 | in the order the moves run, a node's successor comes later exactly if the node is the first of its cycle |
| MoveOrder.Sorter.Visit | src/ctxfs/store.py:2276-2288 | a visit keeps every finished move after the move that vacates its path, except where that closes a cycle |
| MoveOrder.SortMoves | src/ctxfs/store.py:2239-2293 | the ordering is a permutation of the moves that runs successors first, cycles aside, and is determined by the order in which they are listed |
| Catalog.MovesEffect | src/ctxfs/store.py:1991-2024 | in a batch each row depends on its own move alone |
| Catalog.AcceptedInAnyMoveOrder | src/ctxfs/store.py:2239-2293 | reordering the moves changes neither what is accepted nor its outcome |
| Catalog.AcceptedEffect | src/ctxfs/store.py:818-855 | the final row of an identity read off the submission: the last put wins, then the move, then a delete |
| Catalog.AcceptedTakesEffect | src/ctxfs/store.py:818-855 | the same for all identities at once, as its callers use it |
| Catalog.AppliedColumns | src/ctxfs/store.py:1831-2024 | an applied submission column by column: the last put sets path, version, format and the hash of its text, a move path and version only, a delete removes, the rest stays |
| Catalog.AcceptedIsPermitted | src/ctxfs/store.py:2375-2395 | whatever path an accepted submission writes or decides on is a path under a prefix granted to its writer; no text has a NUL; what is moved is there with the content expected |
| Catalog.AuthorizedIff | src/ctxfs/store.py:2375-2395 | a writer may write a path exactly if it was granted it or a prefix that it continues after a slash |
| Catalog.GrantableIff | src/ctxfs/store.py:755-781 | a prefix is free for a writer exactly if no other has it, a continuation of it, or one it continues |
| Catalog.NormalTextIsKept | src/ctxfs/store.py:2827-2830 | text without carriage returns is stored as it is, and none is stored with one |
| Catalog.LineEndsBecomeNewlines | src/ctxfs/store.py:2827-2830 | CR LF becomes one newline, and so does a CR alone, wherever they stand |
| Catalog.LastDecisionWins | src/ctxfs/store.py:2094-2141 | the last decision of a submission for a key is the one on record |
| Catalog.UndecidedAreKept | src/ctxfs/store.py:2094-2141 | keys a submission does not decide keep their decision |
| Catalog.MovesKeepPathsUniqueIff | src/ctxfs/store.py:1991-2024 | a batch keeps paths unique exactly if destinations differ and each is free or vacated by the batch |
| Catalog.AcceptedLosesExactly | src/ctxfs/store.py:1991-2010 | the entries without a file afterwards are exactly those moved onto their own path, or lost before and not deleted, and given no new content |
| Catalog.NoSelfMovesFindFiles | src/ctxfs/store.py:1831-1925 | with no file lost and no move onto an entry's own path, every put finds the file it renames and no file is lost |
| Disk.RenameUndoes | src/ctxfs/store.py:2588-2602 | undoing a rename restores every file, what it overwrote included |
| Disk.RenameMovesInTree | src/ctxfs/store.py:2509-2533 | whatever is kept aside, the tree after a rename is the tree with the file moved |
| Disk.ReplaceUndoes | src/ctxfs/store.py:2575-2586 | undoing a replacement restores every file |
| Disk.RemoveUndoes | src/ctxfs/store.py:2604-2608 | undoing a removal restores every file |
| Disk.JournalStep | src/ctxfs/store.py:783-889 | a step with an undo action that inverts it keeps the journal able to restore the base tree |
| Disk.JunkIsHarmless | src/ctxfs/store.py:2462-2488 | files left over from failed steps do not disturb the journal |
| Disk.PutKeepsAgreement | src/ctxfs/store.py:1831-1925 | the file side and the row side of a put keep tree and catalog in agreement |
| Disk.MoveKeepsAgreement | src/ctxfs/store.py:1991-2024 | so do the two sides of one move of a batch, the files lost aside |
| Disk.DeleteKeepsAgreement | src/ctxfs/store.py:2073-2092 | so do the two sides of a delete |
| Batch.OrderedMovesAreDependencyOrdered | src/ctxfs/store.py:2239-2293 | the order of moves is an order of paths in which each destination is vacated first, or lies on a cycle first met there |
| Batch.DestinationVacated | src/ctxfs/store.py:1991-2024 | when a move's turn comes, the rows at its destination are exactly those of lost entries that it or a later move is to take away; with no file lost there is none |
| Batch.NextMoveKeepsPathsUniqueIff | src/ctxfs/store.py:1991-2024 | the next move of an acceptable batch collides exactly if it goes to a lost entry's path that a later move vacates |
| Batch.LaterSourceIsParked | src/ctxfs/store.py:2045-2071 | a destination still to be vacated is parked exactly if its entry is not lost |
| Batch.ParkingLeavesNoTrace | src/ctxfs/store.py:1975-2024 | once every move has run, parking has left no trace in the rows |
| Batch.SelfMoveIsNamed | src/ctxfs/store.py:2045-2071 | a move onto its own path is a cycle of one, and the file named for parking is its own |
| Preflight.SourcePathMaps | src/ctxfs/store.py:2295-2309 | the two maps are those of the rows and each other's inverse |
| Preflight.DryStepTracks | src/ctxfs/store.py:2164-2223 | the dry run's maps follow the rows, and what it refuses is a failed check or an occupied path |
| Preflight.PreflightSubmission | src/ctxfs/store.py:2164-2223 | the dry run passes exactly the plans its simulation carries to the end, and refuses nothing that would be applied |
| Preflight.RejectionIsRight | src/ctxfs/store.py:2164-2223 | what the dry run refuses the engine would refuse |
| Preflight.AcceptableRuns | src/ctxfs/store.py:2164-2223 | from maps that follow the rows, the dry run of an acceptable plan comes to its end |
| Exactness.AcceptableIff | src/ctxfs/store.py:2164-2223 | every check of the engine holds exactly if the plan passes the dry run, expects the right hashes, puts no NUL, moves to distinct paths that are free or vacated, and puts nothing where a forgotten move's entry still is |
| Exactness.AppliedIff | src/ctxfs/store.py:818-864 | the engine applies exactly those of them that rename no file lost before or by a self-move of the plan, and move to no lost entry's path before it is vacated |
| Exactness.MeetsLostRunsFirst | src/ctxfs/store.py:2045-2071 | a move meets a lost entry exactly if it runs first of its cycle and goes to that entry's path |
| Exactness.SelfMoveThenPutPasses | src/ctxfs/store.py:1849-1857 | a self-move, then the recorded content put elsewhere: every check holds, and the rename finds no file |
| Exactness.LostPutPasses | src/ctxfs/store.py:1849-1857 | the recorded content of a lost entry put elsewhere: every check holds, and the rename finds no file |
| Exactness.SwapWithLostDependsOnOrder | src/ctxfs/store.py:2054-2071 | a swap with a lost entry is accepted in either order of listing, and applied in one of them only |
| Exactness.ForgottenRunFirst | src/ctxfs/store.py:2203-2206 | the moves whose destination the dry run forgets are exactly those run first of their cycle |
| Exactness.SwapThenPutPasses | src/ctxfs/store.py:2178-2206 | two entries swap, a third is put where the first went: it passes and cannot be applied |
| Exactness.WrongHashPasses | src/ctxfs/store.py:2188-2206 | a move that expects another hash passes and cannot be applied |
| Exactness.ExactWithoutMoves | src/ctxfs/store.py:2164-2223 | without moves, and without a NUL in a text, exactly what passes and renames no lost file is applied; with no file lost, exactly what passes |
| Preflight.TwoMovesToOnePathPass | src/ctxfs/store.py:2188-2206 | two moves to one path pass the dry run and cannot be applied |
| Store.CtxfsStore.BackupTreeEntry | src/ctxfs/store.py:2564-2569 | a copy is linked aside exactly if there is a file, and nothing else changes |
| Store.CtxfsStore.RenameTreeFile | src/ctxfs/store.py:2509-2533 | the file is moved, the journal still restores the base, and what was kept aside is marked for cleanup; a failure is a fault or a missing source |
| Store.CtxfsStore.ReplaceTreeEntry | src/ctxfs/store.py:2462-2488 | the tree holds the object's content at the target, the journal still restores the base, and what was kept aside is marked for cleanup |
| Store.CtxfsStore.RemoveTreeEntry | src/ctxfs/store.py:2535-2556 | the target is gone from the tree, missing or not, the journal still restores the base, and what was kept aside is marked for cleanup |
| Store.CtxfsStore.PutEntry | src/ctxfs/store.py:1831-1925 | the rows take the put's step, agreement is kept, and a failure means a fault, a failed check or an occupied path |
| Store.CtxfsStore.DeleteEntry | src/ctxfs/store.py:2073-2092 | the same for a delete, whose missing entry is no error |
| Store.CtxfsStore.RecordDecision | src/ctxfs/store.py:2094-2141 | the decision row is replaced exactly if its path may be written |
| Store.CtxfsStore.BreakMoveCycles | src/ctxfs/store.py:2045-2071 | exactly one existing file of each cycle is parked, and nothing is overwritten |
| Store.CtxfsStore.MoveEntry | src/ctxfs/store.py:1991-2024 | one move relocates file and row together; without a source the entry is lost |
| Store.CtxfsStore.RunMoves | src/ctxfs/store.py:1991-2024 | the ordered moves run without meeting an occupied path; on an acceptable batch no file is overwritten, cut short or not, and only a fault or a lost entry in the way can cut it |
| Store.CtxfsStore.MoveBatch | src/ctxfs/store.py:1937-2024 | a batch is the simultaneous renaming of its rows; an acceptable one overwrites no file, and fails only at a fault or exactly if a move meets a lost entry |
| Store.CtxfsStore.RejectDuplicateMoveSources | src/ctxfs/store.py:2225-2237 | a submission passes exactly if its moves have distinct source keys |
| Store.CtxfsStore.OrderMoves | src/ctxfs/store.py:2239-2293 | the same moves, in the one depth-first order that vacates destinations first |
| Store.CtxfsStore.ApplyOrdered | src/ctxfs/store.py:818-864 | all stages are applied, and the plan is applicable, or the failure has a fault or the plan to blame |
| Store.CtxfsStore.UndoStep | src/ctxfs/store.py:2575-2608 | without a fault an undo action does what the journal takes it to do |
| Store.CtxfsStore.Rollback | src/ctxfs/store.py:3225-3238 | undoing from the end restores the base tree exactly, unless undoing meets a fault |
| Store.CtxfsStore.Cleanup | src/ctxfs/store.py:3241-3256 | without a fault everything no longer needed is removed, and the tree never changes |
| Store.CtxfsStore.Submit | src/ctxfs/store.py:783-889 | applied with the accepted outcome, or failed with rows, decisions and tree as before, at every fault; on a store that agrees but for lost entries, applied only if applicable, and failing only for a fault before undoing began or as not applicable; a failed rollback needs a further fault while undoing; never left queued |
| Store.CtxfsStore.RegisterPrefix | src/ctxfs/store.py:755-781 | a prefix is granted exactly if it overlaps none of another writer; agreement is kept |
| Store.CtxfsStore.Read | src/ctxfs/store.py:1196-1216 | in any state an answer is what the entry's row and file say; while tree and catalog agree but for lost entries, exactly the entries not lost are found and no hash mismatches |
| Agreement.BatchRenamesSimultaneously | src/ctxfs/store.py:1937-2024 | without self-moves each moved file's content is at its destination, all else is where it was, and nothing else is there |
| Agreement.AgreementKeptIff | src/ctxfs/store.py:1991-2010 | after an applied submission tree and catalog agree exactly if no entry was moved onto its own path and left so, and none lost before still is |
| Agreement.NewContentRestores | src/ctxfs/store.py:1831-1925 | a put of new content gives a lost entry its file again |
| Agreement.PutTextIsStored | src/ctxfs/store.py:1831-1925 | the last put for a key has its normalised text in the tree, which is the text as sent if it has no carriage return |
| Agreement.SelfMoveLosesFile | src/ctxfs/store.py:1991-2010 | a self-move alone is accepted, applied, and loses the file |
| Agreement.OtherWritersKeepFiles | src/ctxfs/store.py:783-889 | a submission leaves every other writer's entries and files unchanged |
| Agreement.WritersShareNoPath | src/ctxfs/store.py:755-781 | no path is open to two writers |
| Grep.CursorHasOnePosition | src/ctxfs/store.py:2911-2927 | a cursor stands at one place in the scan |
| Grep.TimeoutIsResumable | src/ctxfs/store.py:1532-1547 | wherever time runs out, the cursor stands after what was delivered |
| Grep.ScanTree | src/ctxfs/store.py:1381-1772 | a scan continues from its cursor without gap, stops for a mismatch or a size only where the stream has one and for time only where it was cut, and without finding its anchor answers nothing |
| Grep.Grep | src/ctxfs/store.py:1249-1356 | the same for a page, from the start or from any cursor a page emitted |
| Grep.ChainedPagesHaveNoGaps | src/ctxfs/store.py:1381-1772 | for all limits and timeouts, chained pages deliver a prefix of one unbounded scan, all of it once complete |
| Grep.DrainGrep | src/ctxd/local_ctxfs_server.py:590-635 | a drain returns all matches, or exactly the first so many, or raises for a reason that the last page it followed gives |
| Grep.NextPage | src/ctxd/ctxfs_client.py:163-201 | one turn of the draining loop extends the matches held by the next ones of the scan |
| Order.StringLessIsTotal | src/ctxfs/store.py:1616-1617 | of two paths exactly one is less, or they are equal |
| Order.StringLessIff | src/ctxfs/store.py:1616-1617 | one path is less if it ends where the other goes on, or has the smaller character at the first difference |
| LegacyGrep.BisectRight | src/ctxfs/store.py:1669-1672 | the insertion point: nothing before it is greater, everything from it on is |
| LegacyGrep.BeforeIs | src/ctxfs/store.py:1669-1672 | the logical order goes by path, then line, then start, then end |
| LegacyGrep.InsertionKeepsTheFirst | src/ctxfs/store.py:1660-1676 | inserting and dropping the greatest of limit + 2 keeps the least limit + 1 of all candidates so far |
| LegacyGrep.ResumeLegacy | src/ctxfs/store.py:1446-1483 | for every tree, cursor, limit and cut the answer: out of time exactly if cut before the stop, stale exactly if the anchor was not reached by then, else the least matches after the anchor in logical order, and whether more follow |
| LegacyGrep.LegacyPagesDeliverInOrder | src/ctxfs/store.py:1756-1769 | chained pages deliver the matches after the first anchor in logical order, each once, all of them once complete |
| Framing.RecordsAreTheLines | src/ctxfs/store.py:1708-1732 | the records hold every byte in order and no newline |
| Framing.ConsumeIs | src/ctxfs/store.py:1708-1732 | a record over a million bytes ends the stream, any other is handed to the consumer |
| Framing.ReadRecords | src/ctxfs/store.py:1708-1732 | for every cutting into reads the outcome is that of the whole stream split at newlines, the oversized stop included |
| PathEncoding.ComponentRoundTrip | src/ctxfs/store.py:2855-2879 | decoding a component's name gives the component |
| PathEncoding.ComponentNameIs | src/ctxfs/store.py:2855-2856 | a component's name is p- and two lower-case hexadecimal digits for each byte |
| PathEncoding.PathRoundTrip | src/ctxfs/store.py:2859-2870 | decoding an encoded path gives the path |
| PathEncoding.HexKeepsOrder | src/ctxfs/store.py:2855-2856 | hexadecimal names, ended by a slash or nothing, sort as their bytes |
| PathEncoding.TreeOrder | src/ctxfs/store.py:2397-2400 | the string order of encoded paths is the lexicographic order of components |
| PathEncoding.OrdersDisagreeIff | src/ctxfs/store.py:1439-1445 | the catalog's order and the tree's disagree exactly if at the first difference one path has a slash and the other a character below it |
| PathEncoding.LogicalOrderDiffers | src/ctxfs/store.py:1439-1445 | a-x and a/b sort one way in the catalog and the other in the tree |
| Enrollment.RegisterKeepsInv | src/ctxfs/enrollment.py:47-133 | a registration, crashed anywhere, keeps index, bindings, uses and the bound of two |
| Enrollment.PrepareKeepsInv | src/ctxfs/enrollment.py:135-160 | so does a preparation |
| Enrollment.ConfirmKeepsInv | src/ctxfs/enrollment.py:161-222 | so does a confirmation, the refused one that has already rebound included |
| Enrollment.ClearKeepsInv | src/ctxfs/enrollment.py:224-254 | so does a revocation |
| Enrollment.StepKeepsInv | src/ctxfs/enrollment.py:47-254 | every call, from any principal and with any crash, keeps the invariant |
| EnrollmentRuns.AtMostTwoActiveAlways | src/ctxfs/enrollment.py:47-254 | in every reachable state a machine has at most two active credentials |
| EnrollmentRuns.RunExtends | src/ctxfs/store.py:419-451 | over every run requests, enrollments once set and uses of keys never change |
| EnrollmentRuns.RegistrationConverges | src/ctxfs/enrollment.py:47-133 | without a crash a registration succeeds exactly when allowed, and then its credential is the bound and only active one |
| EnrollmentRuns.RefusalIs | src/ctxfs/enrollment.py:47-90 | which refusal a registration meets: the caller's kind, a key used for another request, or a conflict |
| EnrollmentRuns.RegisteredMachineIs | src/ctxfs/store.py:419-451 | which machine a registration enters or finds, and the catalog after it |
| EnrollmentRuns.RegisteredLedgerIs | src/ctxfs/enrollment.py:91-133 | the credential issued, and which credentials are revoked, the one bound until then in favour of it |
| EnrollmentRuns.RecoveryIs | src/ctxfs/enrollment.py:55-90 | a registration is a recovery exactly if its machine, or before there is one its key, was there for it |
| EnrollmentRuns.CrashedRegistrationIs | src/ctxfs/enrollment.py:91-133 | what each crash of a registration leaves in the catalog, and that the ledger is as before |
| EnrollmentRuns.RetriesConverge | src/ctxfs/enrollment.py:55-127 | after any crashes, with one request from one key throughout, the next call without a crash succeeds, and so does an admin's |
| EnrollmentRuns.OneKeyOneMachine | src/ctxfs/credentials.py:322-361 | all credentials registered under one enrollment key, however far apart, are one machine's |
| EnrollmentRuns.OneMachineOneKey | src/ctxfs/store.py:427-451 | a machine bound to one enrollment key is never registered by another |
| EnrollmentRuns.AdminFirstShutsOutTheKey | src/ctxfs/store.py:445-450 | after an admin's crashed registration an enrollment key is refused |
| Rotation.ConfirmationRotates | src/ctxfs/enrollment.py:161-222 | a confirmed replacement is bound, and its predecessor is revoked in its favour |
| Rotation.OthersAreRefused | src/ctxfs/enrollment.py:284-305 | only an admin or the bound credential may rotate or revoke, and of an unbound machine any credential of its own may revoke; all others are refused with nothing changed |
| Rotation.PreparationIs | src/ctxfs/enrollment.py:135-160 | a preparation issues a fresh active credential that succeeds the bound one and leaves no other active; the binding stays |
| Rotation.PreparedCanBeConfirmed | src/ctxfs/enrollment.py:152-222 | a prepared replacement can be confirmed at once by an admin or the credential still bound |
| Rotation.ConfirmationIs | src/ctxfs/enrollment.py:206-222 | a confirmation binds the replacement and revokes its predecessor in its favour, and changes nothing else |
| Rotation.RevocationIs | src/ctxfs/enrollment.py:224-254 | a revocation unbinds the machine and revokes what was bound, or, of an unbound one, all it has |
| Rotation.CrashesAre | src/ctxfs/enrollment.py:135-254 | a crash keeps the catalog's commits that were made and loses the ledger's |
| Rotation.AdmittedIff | src/ctxd/local_ctxfs_server.py:505-522 | the active bound credential is admitted on every route, an active one of an unbound machine on the cleanup route, no other |
| Rotation.ConfirmRetryFinishes | src/ctxfs/enrollment.py:173-205 | an immediate retry of a crashed confirmation ends as the confirmation would have |
| Rotation.ConfirmRetryAfterPrepareFails | src/ctxfs/enrollment.py:186-197 | a preparation in between makes the retry fail |
| ConfirmRetry.ConfirmRetryIff | src/ctxfs/enrollment.py:161-222 | after any run of commands, a crashed confirmation's retry is confirmed exactly if an admin or the replacement asks, nothing rebound the machine, and nothing was prepared before a retry finished it |
| ConfirmRetry.FinishableIff | src/ctxfs/enrollment.py:173-197 | along a run, a confirmation stays open to finishing exactly while undisturbed, and once too late is so for good |
| Rotation.RevokeRetryFinishes | src/ctxfs/enrollment.py:235-247 | the same caller's retry of a crashed revocation leaves no credential active |
| Rotation.UnboundStaysShut | src/ctxd/local_ctxfs_server.py:505-522 | after a completed revocation, over every run without a new registration, no credential of the machine is admitted but on the cleanup route |
| Rotation.RevocationSparesThePrepared | src/ctxfs/enrollment.py:249-254 | a prepared replacement survives a plain revocation, for the cleanup route only, and revokes itself there |
| Rotation.StepLeavesOthers | src/ctxfs/enrollment.py:47-254 | a machine's record and credentials change only by calls that name it |
| Coordinator.MachineCredentialCoordinator.ConsumeEnrollment | src/ctxfs/credentials.py:322-348 | a fresh key is recorded, a repeated request recognised, any other refused |
| Coordinator.MachineCredentialCoordinator.RevokeAllBut | src/ctxfs/enrollment.py:105-109 | the loop revokes exactly the machine's active credentials but one |
| Coordinator.MachineCredentialCoordinator.RegisterMachine | src/ctxfs/store.py:419-451 | the registration's machine is found or created, or the call refused with nothing changed |
| Coordinator.MachineCredentialCoordinator.Register | src/ctxfs/enrollment.py:47-133 | the code takes the protocol's step, rollback and crash included |
| Coordinator.MachineCredentialCoordinator.PrepareRotation | src/ctxfs/enrollment.py:135-160 | the code takes the protocol's step |
| Coordinator.MachineCredentialCoordinator.ConfirmRotation | src/ctxfs/enrollment.py:161-222 | the code takes the protocol's step |
| Coordinator.MachineCredentialCoordinator.RevokeCredential | src/ctxfs/enrollment.py:224-254 | the code takes the protocol's step |
| MachineIdentity.Installation.LoadOrCreate | src/ctxd/machine_identity.py:63-82 | an unproved identity is replaced, name and description kept |
| MachineIdentity.Installation.Configure | src/ctxd/machine_identity.py:85-110 | renaming never unfreezes a request |
| MachineIdentity.Installation.RegisterMachine | src/ctxd/machine_identity.py:113-159 | wherever it is cut short, all requests of one installation are one, made from its identity when first sent; a call not cut short comes to what the server answers, succeeds always for an admin and for the one key used so far, and then client, catalog and ledger agree on one credential |
| MachineIdentity.OthersKeepTouch | src/ctxd/machine_identity.py:113-159 | calls of others, under registrations and keys of their own, never stand in the way of this installation's |
| MachineKey.SuffixesDiffer | src/ctxfs/store.py:3292-3296 | suffixes from two up give different keys |
| MachineKey.SuffixedIs | src/ctxfs/store.py:3292-3296 | a suffixed key is the base, cut to fit 63 characters and without dashes at its end, a dash and the suffix |
| MachineKey.DigitsAreDecimal | src/ctxfs/store.py:3292-3296 | the suffix is written in decimal, without a zero in front |
| MachineKey.CoincideIff | src/ctxfs/store.py:3292-3296 | suffix one and a later one give one key exactly if the base has 62 or 63 characters, ends in the later suffix, and has nothing or no dash before it |
| MachineKey.AllocateKey | src/ctxfs/store.py:452-524 | a free, non-empty key of at most 63 characters is found, the first free one, within n + 1 attempts for n taken keys, or n + 2 if the base coincides with a suffix tried |
| Tracker.ScanFolder | src/ctxd/tracker.py:353-433 | what a scan remembers, and that its operations are exactly those the files call for |
| Tracker.DeletesFor | src/ctxd/tracker.py:101-111 | deletes for exactly what was remembered and not found |
| Tracker.DifferenceMirrors | src/ctxd/tracker.py:76-144 | applying the difference makes the store agree with what will be remembered |
| Tracker.CompleteScanIsMirrored | src/ctxd/tracker.py:93-113 | after a complete scan the folder's entries are exactly the files scanned, each at prefix, slash and relative path, with its version, format and normalised hash |
| Tracker.ChangeIs | src/ctxd/tracker.py:385-433 | an unchanged file calls for nothing, a renamed one for a move, any other for a put of its text |
| Tracker.MergedIs | src/ctxd/tracker.py:93-99 | what is remembered: all that was found, and of an incomplete scan also what was not |
| Sync.SyncedFolder | src/ctxd/tracker.py:76-144 | the same of a folder of a synchronisation whose state is mirrored |
| Tracker.IncompleteScanDeletesNothing | src/ctxd/tracker.py:93-113 | after an incomplete scan every entry is still there |
| Tracker.NoFileIsLost | src/ctxd/tracker.py:385-415 | while state and store agree, no move of the difference is onto its entry's own path, so none loses a file |
| Tracker.ResendLosesTheMoved | src/ctxd/tracker.py:129-139 | sending an applied submission again loses exactly the files it moved |
| Sync.FolderTracker.PlanSync | src/ctxd/tracker.py:88-127 | one batch for each folder that differs, folders removed included, and the state to be saved |
| Sync.FolderTracker.SubmitBatch | src/ctxd/tracker.py:457-492 | a batch is applied with the accepted outcome or leaves the entries alone: its prefix overlaps another writer's, exactly then refused; the submission failed, on a store that agrees but for lost entries only for a fault during it or as not applicable; or the reply was lost |
| Sync.FolderTracker.SyncOnce | src/ctxd/tracker.py:76-144 | an acknowledged synchronisation leaves every folder mirrored, the saved state agreeing, tree and catalog agreeing, and other writers' entries untouched; otherwise it stopped at the first batch not acknowledged, for a cause of that batch's own, the saved state stays, and the folders of the batches applied mirror the new state, the others the old |
| Acceptance.DifferenceAcceptedIff | src/ctxfs/store.py:2164-2223 | the store accepts a folder's difference exactly if every path concerned may be written and left, no two changed files have one path, and whoever has a changed file's path is deleted, moved, or, for a put, put earlier in the scan |
| Acceptance.RenameOntoEditedIsRefused | src/ctxfs/store.py:2196-2202 | a file renamed onto the path of an entry whose own file was edited is refused in every state that agrees with the tracker |
| Service.CtxfsService.Submit | src/ctxfs/service.py:176-214 | a submission joins the queue and nothing else changes |
| Service.CtxfsService.ApplyNext | src/ctxfs/service.py:220-241 | the submission that came first, with the smaller id on a tie, is attempted: applied with the accepted outcome, or failed with the entries unchanged, and on a store that agrees but for lost entries only for a fault during the attempt or as not applicable |
| Service.FirstCameFirst | src/ctxfs/service.py:220-227 | the first in line came no later than any other, and has the smaller id on a tie |
| Service.CtxfsService.DrainedInOrder | src/ctxfs/service.py:220-252 | draining attempts in ascending order of time of arrival and id |
| Service.CtxfsService.DrainedBeforeWaiting | src/ctxfs/service.py:220-252 | what was drained came before all that still waits |
| Service.CtxfsService.Drain | src/ctxfs/service.py:243-252 | draining ends; each waiting submission is attempted once, in order of arrival, the attempts forming one chain from the store before to the store after, each failure with its cause; a prefix that the queue is clear of stays empty |
| Service.SparedKeepsOrder | src/ctxfs/service.py:562-588 | exactly the operations not struck are kept, in their order |
| Service.StrikesExactly | src/ctxfs/service.py:562-588 | which operations are struck, kind by kind: a put and a decision by path, a delete by key, a move by either; what keeps none is discarded |
| Service.QueueWellFormedIff | src/ctxfs/service.py:680-694 | striking a queue is stopped exactly by a path in it that is none |
| Service.EntriesUnderIff | src/ctxfs/service.py:337-352 | the entries deleted are the writer's at the prefix or under it |
| Service.CtxfsService.StrikeQueue | src/ctxfs/service.py:562-588 | exactly the writer's waiting submissions are struck, unless a malformed path or a failing write stops it |
| Service.CtxfsService.RemoveFiles | src/ctxfs/service.py:502-511 | the files of exactly the entries removed are gone from the tree; all are removed unless a primitive failed |
| Service.CtxfsService.DeletePrefix | src/ctxfs/service.py:337-378 | exactly the writer's entries under the prefix go, with their files; nothing under the prefix is left or waiting; every refusal has its exact condition, a faulty end needs a fault, and what was committed by then is stated stage by stage, a missing deletion record included |
| Service.RemovalKeepsAgreement | src/ctxfs/service.py:502-521 | removing entries with their files keeps tree and catalog in agreement, lost entries aside |
| Utf8.BoundaryIsNear | src/ctxfs/store.py:2833-2842 | well-formed data has a character boundary within three bytes before any cut |
| Utf8.EncodedIsWellFormed | src/ctxfs/store.py:2833-2842 | every encoding of characters decodes |
| Utf8.WellFormedIsEncoded | src/ctxfs/store.py:2833-2842 | what decodes is the encoding of some characters, none of them a surrogate |
| Utf8.Truncate | src/ctxfs/store.py:2833-2842 | the longest well-formed prefix within the bound, three bytes short of it at most on well-formed data |

## Left out

- The user dimension of every table: all state is one user's.
- Timestamps, document classes, provenance, sizes and line counts of entries.
- Path normalisation beyond validity: on an accepted path it is the identity, so it is a predicate here.
- Hashes are taken to be injective and fresh ids to be unused; cursors are constructors, not base64 text, and a page is asked for with the pattern and prefix of its cursor.
- Directories and hard links: the tree is a flat map from paths to content, and a clash of file and directory is one more primitive that fails.
- A failing primitive is taken to change nothing, and recording a submission, its failure, or its place and outcome in the queue is taken to succeed.
- The parked file and the parked row of a cycle share one fresh id; the source draws two.
- The objects directory is not restored when a submission fails: superseded objects are removed by the cleanup, and those of deleted entries never are. Claims are about tree and catalog.
- SQLite itself: transactions commit or roll back as a whole, and unique constraints raise.
- Legacy migrations, the search index and the writer of migrated entries.
- The ripgrep process, selectors and clocks; validation of patterns; verification of a match against a file's bytes. Each record arrives with its outcome.
- Cursors of version 2 in mode `file_start`, which replay the tree from a file.
- LegacyGrep.ResumeLegacy: the answer is stated for a stream that one unchanging tree yields, no match twice and one hash for each file; the anchor's file is snapshot once, and its outcome is a parameter; the tree is taken not to change between pages.
- PathEncoding.OrdersDisagreeIff: a plain path is written one character for each byte of its UTF-8 form, which keeps the order of code points (section 1 of RFC 3629).
- Enrollment.StepKeepsInv: expiry of credentials, since machine credentials have none, and the trimming of request texts.
- Coordinator.MachineCredentialCoordinator.Register: the prefix and scopes of an issued credential, which are always those its confirmation asks for, and the allocation of the machine key, which MachineKey models alone.
- MachineIdentity.Installation.RegisterMachine: one endpoint; the checks on stored records written by other programs.
- MachineKey.AllocateKey: concurrent writers, and suffixes of more than 62 digits.
- Tracker.ScanFolder: the walk of the directory, which yields files with distinct inodes or reports that it is incomplete.
- Sync.FolderTracker.SyncOnce: a saved state that cannot be read counts as empty, and then agrees with the store only if the store has nothing of those folders.
- Service.CtxfsService.DeletePrefix: which decisions it deletes, since they are matched by the database's pattern matching, is a parameter.
- Deleting an integration or a user, health records, folder names, scope tables, listings, and everything about HTTP, processes and the command line.
