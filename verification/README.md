# PyScoped in Dafny

A model of the tenant isolation, auditing and bookkeeping logic of PyScoped, with proofs of what that
logic is for. Django, SQLAlchemy and the storage backends appear as maps and sequences with unique keys
and atomic transactions; SHA-256 and HMAC (section 2 of RFC 2104) as functions that are parameters, with
collision freedom or unforgeability stated where a proof needs it; clocks, generated ids and values
computed by SQL as parameters. `dafny verify dfyconfig.toml` checks the whole project.

| Files | What they cover |
|---|---|
| `ScopedQuery`, `ScopedAnswers` | the rewriting of queries: managers, nested and correlated subqueries, scoped joins, the compiler that swaps joins in its alias map and puts them back; and what a caller gets, said on rows and columns |
| `EventChain` | the hash chain of one record's history and its verification |
| `TrackedWrites`, `TrackedHistory`, `TrackedAnswers`, `TrackedStore`, `Recovery` | save, update, bulk_create, bulk_update, delete, backfill and restore: as functions on the whole database, over every run, said on the rows and events before and after, and as methods over stored tables |
| `AuditTrail`, `AuditTampering`, `AuditWriters`, `AuditRetention` | the older audit chain shared by several processes: chunked verification, what edits it reveals, racing writers, retention and compaction |
| `Walks`, `Principals`, `Relatives`, `Paths` | breadth-first search over the principal graph |
| `ParentChains`, `ManifestSchema`, `ManifestValidator`, `ScopeOrder`, `ManifestLoader`, `ManifestAnswers` | accepting and loading manifests |
| `SignedMessages`, `Federation` | signed messages and replay protection |
| `Urns`, `RegistryIndex` | resource names and the registry that indexes them |
| `Deployments` | deployment versions and rollback chains |
| `Contexts`, `Text`, `Wrappers` | contexts, decimal numbers, separators, options and results |

The main results, hardest first:

* A query built under a scope returns, row for row, what its author's query returns on a database cut
  down to that scope: INNER and LEFT joins with arbitrary conditions, three-valued logic, and nested
  correlated subqueries included (`ScopedQueryMeansTenantQuery`). Rows of other tenants cannot interfere.
  This needs every query to start from an enforced model or to read no enforced table. The rule cannot be
  dropped: for every unenforced root and enforced table some query that joins the two leaks
  (`UnguardedJoinLeaks`), though not every such query does. Whatever its joins, a query on an enforced model
  yields no row of another scope, as its root or joined from an enforced table (`ScopedRowsAreOwn`).
* Every run of tracked writes keeps each history verified, continuous and ending at the live row, keeps
  every record in one scope for good, and keeps references inside a scope; a step under one scope leaves
  all others alone (`RunKeepsInvariant`, `ScopeNeverChanges`, `OtherTenantsUntouched`). Each operation is
  accepted exactly when its rows are allowed, and then leaves exactly the rows and events it should
  (`UpdateExactly`, `SaveExactly`, `BulkCreateExactly`, `DeleteExactly`).
* Under a collision-free digest a retained head accepts one history only (`TamperEvident`).
* Every interleaving of any number of audit writers leaves one gap-free chain
  (`EveryInterleavingChains`), provided retention never empties the table nor overtakes the whole of a batch
  in flight, which is exactly what the chain needs (`SafePruneExactly`). Chunked verification gives the
  result of a plain scan (`AuditQuery.VerifyChain`).
* Rows of the audit trail that end in a retained hash verify exactly when they are the last rows of the
  trail in every hashed column (`TrailTamperEvident`), for entries whose digested string belongs to no
  others; which entries those are is decided by their bars (`PayloadDeterminesExactly`).
* A manifest the validator accepts loads completely exactly when its rule bindings do not name
  environments and bindings of unknown types name a scope (`ManifestLoader.Load`).
* The signing string of a message determines it exactly when no bar occurs in its ids and type: a JSON text
  cannot continue another one after a bar, so the *other* message may hold any bars
  (`SigningDeterminesExactly`). So a receiver accepts created messages only, each at most once, whatever the
  network does.

Where the code and its documentation disagree, the model follows the code:

* `find_path` documents that nothing longer than `max_depth` is found; the loop expands trails of
  `max_depth` edges and so finds paths of `max_depth + 1`.
* `compute_hash` documents that changing any historical entry breaks the chain; scope, states, metadata
  and parent are not hashed (`UncoveredEditsUnseen`), a field that contains a bar can be shifted
  (`PayloadTwin`), and the newest row can be rewritten unless its hash is kept elsewhere
  (`NewestRowNeedsRetainedHash`). Among entries that cannot be shifted, under a retained last hash, every
  edit of a hashed column is reported (`TrailTamperEvident`).
* `ManifestLoader` documents one transaction for a load; `load` opens none. A failed load leaves the
  principals, scopes, memberships and objects, and the rules up to and including the one it stopped at, so
  never nothing (`ManifestLoader.Load`).
* The manifest validator accepts rule bindings to environments; rules load before environments, so such a
  manifest never loads (`AcceptedButUnloadable`).
* `verify_chain` with a chunk size of 0 reads nothing and reports a valid chain.
* Archiving a registry entry a second time takes the name away from an entry registered since
  (`ArchivedAgain`).
* A registry entry moved to or from ARCHIVED by `transition`, or registered as archived, is indexed as before;
  in every other run the indexes list exactly what is not archived (`RunStaysCurrent`).
* Retention documents that the remaining entries keep their integrity. Age deletion keeps the chain
  verifiable exactly when it leaves no gap (`AgeDeletionVerifiesIffNoGap`), and later entries continue it
  exactly when the newest row stays and no batch in flight is overtaken (`SafePruneExactly`).

## Model

| member | source | states |
|---|---|---|
| `ScopedQuery.ScopedQueryMeansTenantQuery` | pyscoped/query.py:293-303 | a scoped queryset evaluated in its own context returns exactly its author's query on the tenant's database, in the same order; in another context it is refused as a violation, in none as a missing context |
| `ScopedQuery.QueryMeaning` | pyscoped/query.py:13-57 | under any outer rows, the emitted query (scope in ON for joins, in WHERE for the root, at every nesting level) evaluates as the author's query on the tenant's database |
| `ScopedQuery.PredMeaning` | pyscoped/query.py:60-71 | a condition keeps its three-valued truth value when the subqueries inside it are emitted |
| `ScopedQuery.JoinOneMeaning` | pyscoped/query.py:14-26 | the scope predicate in ON joins exactly the tenant's rows, and a LEFT join without any still keeps its parent, extended with NULLs |
| `ScopedQuery.RootMeaning` | pyscoped/query.py:293-303 | the root's scope tested after all joins selects what joining only the tenant's root rows gives |
| `ScopedQuery.ScopeBeforeJoins` | pyscoped/query.py:24-26 | a scope test on an earlier table commutes with any list of INNER and LEFT joins |
| `ScopedQuery.ContextFixed` | pyscoped/query.py:60-71 | a built query passes its checks exactly in the context that built it, or if no enforced root occurs in it or in its subqueries |
| `ScopedQuery.OtherTenantsCannotInterfere` | pyscoped/query.py:34-57 | two databases with the same rows for a tenant give that tenant the same results |
| `ScopedQuery.UnguardedJoinLeaks` | pyscoped/query.py:34-37 | for every unenforced root and enforced table some join of the two distinguishes such databases, so the guard on queries cannot be dropped |
| `ScopedAnswers.ScopedRowsAreOwn` | pyscoped/query.py:14-57 | a queryset of an enforced model, whatever it joins, yields only rows whose root is a stored row carrying the context's scope and whose slots of enforced tables are empty or carry it |
| `ScopedAnswers.EmittedRowsAreOwn` | pyscoped/query.py:293-303 | the same for every compiled subquery under any outer row |
| `ScopedAnswers.TenantRowExactly` | pyscoped/query.py:36-40 | a tenant sees of an enforced table exactly the rows that carry its scope, and every other table as it is |
| `ScopedAnswers.TenantTableSplits` | pyscoped/query.py:36-40 | in their order and as often as they occur |
| `ScopedAnswers.ScopedJoinExactly` | pyscoped/query.py:14-26 | a compiled join into an enforced table gives one row for each of the tenant's partners, and a LEFT join without any the parent alone |
| `ScopedAnswers.JoinExactly` | pyscoped/query.py:24-26 | a join gives one row for each partner, a LEFT join without any the parent alone |
| `ScopedAnswers.ListingExactly` | pyscoped/query.py:293-303 | a plain listing returns exactly the scope's rows |
| `ScopedQuery.SwappedJoinsEmit` | pyscoped/query.py:43-55 | emitting the swapped joins yields the scope predicate on exactly the protected ones, or the refusal when a protected join is rendered in another context or in none |
| `ScopedQuery.CheckedCompiler.WrapJoins` | pyscoped/query.py:43-54 | the loop wraps exactly the joins into tables registered as enforced, on their own scope column, and remembers every entry it replaced |
| `ScopedQuery.CheckedCompiler.GetFromClause` | pyscoped/query.py:34-57 | emits the scoped joins and leaves the alias map as it was, also when it fails |
| `EventChain.VerifyEvents` | pyscoped/history.py:47-71 | valid exactly when every event is linked and the head matches; otherwise names the first event that is not linked |
| `EventChain.TamperEvident` | pyscoped/history.py:47-71 | with a collision-free digest a head that accepts the produced history accepts no other list: no edit, swap, insertion, deletion or truncation passes |
| `EventChain.HeadPinsScopeAndKey` | pyscoped/audit.py:74-95 | a nonempty history cannot be passed off under another record or another scope either |
| `EventChain.AppendAccepted` | pyscoped/audit.py:112-129 | appending an event and advancing the head keeps the history accepted |
| `TrackedHistory.AppendKeepsHistory` | pyscoped/audit.py:98-130 | one append extends one history by one truthful event, keeps its scope and touches no other |
| `TrackedHistory.RecordAllCompletes` | pyscoped/query.py:172-192 | the recording loop brings every written row's history up to date, with the right before and after, after checking scope and relations |
| `TrackedHistory.SaveGood` | pyscoped/registry.py:135-177 | a save that succeeds leaves every history consistent and writes only under the caller's scope |
| `TrackedHistory.WriteFieldsGood` | pyscoped/query.py:194-211 | the same for queryset updates and bulk updates of any selection |
| `TrackedHistory.BulkCreateGood` | pyscoped/query.py:220-249 | the same for bulk creation |
| `TrackedHistory.DeleteGood` | pyscoped/registry.py:218-233 | the same for deletion, which ends each history with a state of none |
| `TrackedHistory.BaselineGood` | pyscoped/history.py:99-129 | the same for one row of a backfill |
| `TrackedHistory.TransactKeepsInvariant` | pyscoped/audit.py:98-130 | every committed operation keeps histories verified, continuous and ending at the live row, foreign keys intact and references inside scopes |
| `TrackedHistory.RunKeepsInvariant` | pyscoped/registry.py:143-177 | so does every run, failed requests changing nothing |
| `TrackedHistory.ReferencesStayInScope` | pyscoped/audit.py:51-71 | checking the written rows alone keeps all references between enforced rows within one scope |
| `TrackedHistory.TransactIsolates` | pyscoped/audit.py:39-48 | a step under one scope leaves every row and history known under another one untouched, and no scope changes |
| `TrackedHistory.ScopeNeverChanges` | pyscoped/audit.py:107-111 | over every run a key once known keeps its scope, even when deleted and created again, and its history only grows |
| `TrackedHistory.OtherTenantsUntouched` | pyscoped/registry.py:146-149 | a run under other scopes leaves a tenant's rows and histories exactly as they were |
| `TrackedHistory.NoHistoryMeansNoWrite` | pyscoped/registry.py:158-176 | a row whose record never got a history was never written |
| `TrackedHistory.AdoptedTablesStayAccounted` | pyscoped/audit.py:112-129 | over tables that held rows before, every run leaves each row unwritten or with a verified, continuous history of as many events as its revision, ending at the row |
| `TrackedAnswers.CheckRowExactly` | pyscoped/audit.py:33-71 | the checks pass exactly for a row of a proper scope that in enforce mode is the context's and refers to no enforced row of another scope |
| `TrackedAnswers.RecordAllExactly` | pyscoped/query.py:172-192 | recording succeeds exactly if each written row is allowed and fits its history; each then has one event of the given action showing its row before and after |
| `TrackedAnswers.UpdateExactly` | pyscoped/query.py:194-211 | refused if the scope is named; otherwise accepted exactly if each visible matching row, as assigned, is allowed; then those rows hold the assigned values in the named fields and their old ones elsewhere, all other rows are unchanged |
| `TrackedAnswers.UpdateWrites` | pyscoped/query.py:194-211 | for each key: the assigned row and one "update" event from the old row to it, or nothing changed |
| `TrackedAnswers.BulkUpdateExactly` | pyscoped/query.py:251-286 | accepted exactly if the rows given for all belong to the context, the keys differ, and each chosen row, as assigned, is allowed |
| `TrackedAnswers.BulkUpdateWrites` | pyscoped/query.py:251-286 | for each key: the fields of the object given for it and one "update" event, or nothing changed |
| `TrackedAnswers.SaveExactly` | pyscoped/registry.py:135-177 | exactly when a save is accepted; it leaves the persisted row and one "create" or "update" event from the row before to it |
| `TrackedAnswers.BulkCreateExactly` | pyscoped/query.py:220-249 | accepted exactly if the objects are allowed, their keys different and new, and the stored rows allowed; it leaves them and one "create" event each |
| `TrackedAnswers.DeleteExactly` | pyscoped/registry.py:218-233 | accepted exactly if the stored rows gathered belong to the context; those rows are gone, no others, and each has one "delete" event |
| `TrackedAnswers.BaselineExactly` | pyscoped/history.py:99-129 | a stored row of the context without history gets one "baseline" event of its state, otherwise nothing changes |
| `TrackedAnswers.RestoreWrites` | pyscoped/history.py:133-172 | a restore sets the scalar fields to the decoded values of the revision, keeps all others and records one "restore" event |
| `TrackedAnswers.RestoreTargetExactly` | pyscoped/history.py:138-165 | exactly which revisions can be restored |
| `TrackedAnswers.RestoreRefuses` | pyscoped/history.py:138-166 | what a restore refuses, in order, and as what |
| `TrackedAnswers.CommitExactly` | pyscoped/registry.py:143-177 | a transaction commits exactly if every foreign key names a stored row |
| `TrackedStore.Store.Append` | pyscoped/audit.py:98-130 | the stored resource and event settle as the specification says, or nothing changes |
| `TrackedStore.Store.SaveBase` | pyscoped/registry.py:135-177 | the save's reads, checks, write and event in order, committed whole or rolled back |
| `TrackedStore.Store.RecordBulk` | pyscoped/query.py:172-192 | the loop over written keys computes the specified recording or its first error |
| `TrackedStore.Store.UpdateRows` | pyscoped/query.py:194-211 | queryset update, whole or not at all |
| `TrackedStore.Store.BulkCreateRows` | pyscoped/query.py:220-249 | bulk creation, whole or not at all |
| `TrackedStore.Store.BulkUpdateRows` | pyscoped/query.py:251-286 | bulk update, refused for foreign persisted rows, whole or not at all |
| `TrackedStore.Store.DeleteRows` | pyscoped/registry.py:218-233 | deletion with its events, whole or not at all |
| `TrackedStore.Store.VerifyHistory` | pyscoped/history.py:47-71 | reports a valid history exactly when the stored one is, and refuses another scope before revealing anything |
| `TrackedStore.Store.Backfill` | pyscoped/history.py:83-130 | the four counters are right, a dry run changes nothing and counts what applying creates, an error stops after a prefix of the rows |
| `TrackedStore.Store.RestoreRow` | pyscoped/history.py:133-172 | the refusals in order, then the scalar fields saved as one restore |
| `Recovery.RestoreReachesTarget` | pyscoped/history.py:133-172 | a restore keeps the old history as a prefix, adds one restore event at expected_revision + 1, touches no other key, and reaches the target's state exactly if its values survive decoding and encoding |
| `Recovery.RestoreTwiceConflicts` | pyscoped/history.py:143-145 | the same expected revision never works twice |
| `Recovery.RestoreIsUndone` | pyscoped/history.py:149-169 | restoring the former head is always accepted and brings back the very row exactly if every scalar value decodes from its encoding |
| `Recovery.BackfillBaselines` | pyscoped/history.py:98-130 | exactly the listed rows without history get one baseline of their current state; nothing else changes |
| `Recovery.BackfillSucceeds` | pyscoped/history.py:106-128 | on rows of the caller's scope a backfill cannot fail |
| `Recovery.BackfillIdempotent` | pyscoped/history.py:107-117 | a further run creates nothing |
| `Recovery.BackfillResumes` | pyscoped/history.py:84-84 | stopping after any row and running again, with other clock readings, gives exactly the listed rows without history one baseline each and changes nothing else |
| `Recovery.BackfillResumesAlike` | pyscoped/history.py:84-84 | with the same clock readings the two runs end in the very state of one |
| `AuditTampering.PayloadDetermines` | legacy/v1/scoped/audit/models.py:82-88 | an entry without bars after its sequence, whose id hides no number behind a bar, shares its hashed text with no entry that differs in a hashed field, whatever that other entry holds |
| `AuditTampering.PayloadTwin` | legacy/v1/scoped/audit/models.py:82-88 | every other entry has the same hashed text as some entry with different hashed fields, made by moving one bar |
| `AuditTampering.PayloadDeterminesExactly` | legacy/v1/scoped/audit/models.py:82-88 | so that condition on the entry is exact |
| `AuditTampering.BarFreePairDetermines` | legacy/v1/scoped/audit/models.py:82-88 | of two entries without bars in the fields the hashed text determines every hashed field, whatever the previous hashes |
| `AuditTampering.TrailTamperEvident` | legacy/v1/scoped/audit/models.py:78-80 | with a collision-free digest, no more rows than before ending in the retained hash verify exactly when they are the last rows in every hashed column |
| `AuditTampering.NothingBeforeTheFirst` | legacy/v1/scoped/audit/query.py:237-275 | nothing can be put before a trail that starts without a previous hash |
| `AuditTampering.NewestRowNeedsRetainedHash` | legacy/v1/scoped/audit/query.py:237-275 | without a retained hash the newest row can be replaced and every check still passes |
| `AuditTrail.HashIgnoresDetails` | legacy/v1/scoped/audit/models.py:63-88 | scope, states, metadata and parent do not enter the hash |
| `AuditTrail.PlainScanMeaning` | legacy/v1/scoped/audit/query.py:237-275 | the scan's five fields are determined; valid exactly if every row rehashes and every adjacent pair is linked, else the first offender is reported |
| `AuditTrail.AuditQuery.CheckChunk` | legacy/v1/scoped/audit/query.py:237-275 | the inner loop finds the first offender of a chunk, carrying the previous chunk's last hash |
| `AuditTrail.AuditQuery.VerifyChain` | legacy/v1/scoped/audit/query.py:194-294 | for every table, range and chunk size from 1 on it terminates with the five fields of one plain scan: valid exactly if every row between the bounds, both included, rehashes and names its predecessor's hash, with their number, else the first that does not; size 0 reports an empty valid chain |
| `AuditTrail.PayloadJoins` | legacy/v1/scoped/audit/models.py:82-85 | the hashed text is the eight parts in their order with bars between |
| `AuditTrail.RangeIsStretch` | legacy/v1/scoped/audit/query.py:203-228 | the range is the stretch of rows whose sequence lies between the bounds, both included |
| `AuditTrail.ContinueAfter` | legacy/v1/scoped/audit/query.py:282-282 | reading on from the last sequence plus one continues exactly where the range was left |
| `AuditTrail.UncoveredEditsUnseen` | legacy/v1/scoped/audit/query.py:47-57 | edits outside the hashed columns change no verification result |
| `AuditWriters.EveryInterleavingChains` | legacy/v1/scoped/audit/writer.py:75-86 | from an empty table, every interleaving of opening, reseeding, preparing, committing and pruning, where pruning keeps the newest row and overtakes no batch in flight entirely, leaves sequences without gaps, each entry linked to the one before, verification valid, and every writer remembering a real entry or (0, "") |
| `AuditWriters.StepKeepsOk` | legacy/v1/scoped/audit/writer.py:187-252 | one step of any process keeps that, and the log only grows |
| `AuditWriters.RunKeepsOk` | legacy/v1/scoped/audit/writer.py:187-252 | the same over any run from any such state |
| `AuditWriters.StaleBatchCollides` | legacy/v1/scoped/audit/writer.py:197-241 | a batch prepared from a memory that is no longer the newest always violates the unique sequence, so it is rejected whole |
| `AuditWriters.SafePruneExactly` | legacy/v1/scoped/audit/retention.py:81-137 | in every state the writers reach, deleting the oldest rows keeps all later runs on one chain exactly if the newest row stays and each batch in flight keeps a number above the deleted ones |
| `AuditWriters.OvertakenBatchFallsBehind` | legacy/v1/scoped/audit/writer.py:198-240 | a batch whose numbers were all deleted meanwhile collides with nothing and is inserted behind higher numbers |
| `AuditWriters.EmptyingRestarts` | legacy/v1/scoped/audit/writer.py:64-73 | after emptying any table the next process gives out number 1 a second time |
| `AuditWriters.EmptyingTheTableForks` | legacy/v1/scoped/audit/writer.py:64-73 | after emptying, a writer that restarts at 0 and one that remembers 1 leave unlinked neighbours in the table itself |
| `AuditWriters.AuditTable.Transaction` | legacy/v1/scoped/audit/writer.py:198-240 | a batch is inserted whole exactly if nothing failed and no sequence is taken; then the writer was up to date |
| `AuditWriters.AuditWriter.ReseedIfStale` | legacy/v1/scoped/audit/writer.py:75-86 | afterwards the writer remembers the newest entry |
| `AuditWriters.AuditWriter.Record` | legacy/v1/scoped/audit/writer.py:110-172 | while other processes write before and after each reseeding, the table grows by their rows and, on success within the permitted attempts, by the returned entry; on failure by their rows alone; it reports a collision only after the others took a number in each of four attempts, any other failure ends it at once |
| `AuditWriters.AuditWriter.RecordBatch` | legacy/v1/scoped/audit/writer.py:174-257 | the table grows by the other processes' rows and, on success, by the whole batch in order; on failure by their rows alone, the memory rolled back; it retries and gives up as a single record does |
| `AuditWriters.AuditWriter.AdvanceThrough` | legacy/v1/scoped/audit/writer.py:199-238 | the loop builds consecutive linked entries and advances the memory to the last |
| `AuditRetention.Retention.Estimate` | legacy/v1/scoped/audit/retention.py:53-79 | the estimate is the number of entries applying the policy would delete |
| `AuditRetention.Retention.Apply` | legacy/v1/scoped/audit/retention.py:81-137 | deletes that many, keeps the survivors in order, compacts exactly those, and counts both |
| `AuditRetention.Retention.DeleteOldest` | legacy/v1/scoped/audit/retention.py:104-121 | what is left is exactly the newest entries up to the limit |
| `AuditRetention.Retention.Compact` | legacy/v1/scoped/audit/retention.py:139-197 | clears the chosen states of the chosen entries and counts the entries that had any |
| `AuditRetention.AgeDeletionVerifiesIffNoGap` | legacy/v1/scoped/audit/retention.py:95-102 | after age deletion a chain still verifies exactly when the kept entries have no expired one between them |
| `AuditRetention.MonotoneTimesLeaveNoGap` | legacy/v1/scoped/audit/retention.py:95-102 | timestamps that do not decrease leave no gap |
| `AuditRetention.MonotoneTimesLeaveSuffix` | legacy/v1/scoped/audit/retention.py:95-102 | then what age deletion leaves is a suffix of the table |
| `AuditRetention.UnexpiredSplits` | legacy/v1/scoped/audit/retention.py:95-102 | row by row, a row stays unless its timestamp comes before the cutoff as text |
| `AuditRetention.LessExactly` | legacy/v1/scoped/audit/retention.py:95-102 | which texts come first |
| `AuditRetention.CompactedExactly` | legacy/v1/scoped/audit/retention.py:139-197 | compaction changes the chosen states of the rows within the bound and nothing else |
| `AuditRetention.CountStatesGrows` | legacy/v1/scoped/audit/retention.py:139-197 | and counts each row within the bound that had such a state once |
| `AuditRetention.ChainHashesDistinct` | legacy/v1/scoped/audit/models.py:82-88 | entries of a chain have different hashes when the digest is collision free and their text fields have no bars |
| `AuditRetention.CompactionUnseen` | legacy/v1/scoped/audit/query.py:47-57 | compaction changes no verification result on any range |
| `AuditRetention.RetentionKeepsChain` | legacy/v1/scoped/audit/retention.py:81-137 | a policy whose age limit leaves no gap keeps the chain verified |
| `Principals.PrincipalStore.AddRelationship` | legacy/v1/scoped/identity/principal.py:318-357 | refused unless both ends exist, so every edge keeps joining existing principals |
| `Principals.PrincipalStore.GetRelationships` | legacy/v1/scoped/identity/principal.py:370-405 | in both directions, exactly the edges at one end of which the principal stands and, if given, with that label |
| `Principals.EdgesFrom` | legacy/v1/scoped/identity/principal.py:370-405 | exactly the edges whose child, or whose parent, is the principal and, if given and not empty, with that label |
| `Relatives.PrincipalResolver.Collect` | legacy/v1/scoped/identity/resolver.py:55-75 | the search terminates on cyclic graphs and lists, each once and nearest first, exactly what nonempty walks within the depth reach |
| `Relatives.PrincipalResolver.Ancestors` | legacy/v1/scoped/identity/resolver.py:43-75 | that result along parent edges, with the default depth 20 for none and for 0: exactly the principals at the end of a walk of that many edges at most, each from a child to its parent and with the label given |
| `Relatives.PrincipalResolver.Descendants` | legacy/v1/scoped/identity/resolver.py:79-109 | the same from parents to children |
| `Relatives.PrincipalResolver.AllRelatedIds` | legacy/v1/scoped/identity/resolver.py:206-223 | the principal itself and everything reached upwards or downwards |
| `Relatives.ListedMeansReached` | legacy/v1/scoped/identity/resolver.py:55-75 | a principal is listed exactly if some nonempty walk within the depth reaches it, and only once |
| `Relatives.ListedNearestFirst` | legacy/v1/scoped/identity/resolver.py:55-75 | the list never decreases in distance: an earlier entry is reached by a walk no longer than any to a later one |
| `Relatives.AncestorDescendantDuality` | legacy/v1/scoped/identity/resolver.py:43-109 | q is an ancestor of p exactly if p is a descendant of q, for the same depth and label |
| `Paths.PathFinder.FindPath` | legacy/v1/scoped/identity/resolver.py:137-185 | a result is a real path with the reported labels and no nonempty connection is shorter; none means there is no connection of up to max_depth + 1 edges |
| `Paths.PathFinder.IsRelated` | legacy/v1/scoped/identity/resolver.py:189-202 | true exactly if some path of 1 to max_depth + 1 stored edges connects the two |
| `Paths.ApartExactly` | legacy/v1/scoped/identity/resolver.py:151-185 | no connection of up to so many edges means that no path of stored edges, in either direction and with the label given, is as short |
| `Paths.TrailIsWalk` | legacy/v1/scoped/identity/resolver.py:172-183 | a reported path is a walk that ignores the direction of edges |
| `ParentChains.FollowParents` | legacy/v1/scoped/manifest/validator.py:167-175 | the walk from one name terminates; it reports only names on a cycle, the start itself if it is on one |
| `ManifestValidator.ValidateManifest` | legacy/v1/scoped/manifest/validator.py:9-141 | exactly the problems that are there are reported: every repeated name, every reference that names nothing, every scope above itself; so none exactly for sound manifests |
| `ManifestValidator.Validator.CheckDuplicates` | legacy/v1/scoped/manifest/validator.py:151-160 | reports exactly when a name repeats, and returns the names |
| `ManifestValidator.Validator.CheckScopeCycles` | legacy/v1/scoped/manifest/validator.py:163-175 | reports exactly when the parent map has a cycle |
| `ManifestValidator.Validator.CheckRules` | legacy/v1/scoped/manifest/validator.py:82-100 | reports exactly when a creator, or a target of a binding to a scope, principal or object, is missing |
| `ManifestAnswers.ReferencesExactly` | legacy/v1/scoped/manifest/validator.py:43-139 | what a sound manifest's entries must name, kind by kind |
| `ManifestAnswers.BindingLoadsExactly` | legacy/v1/scoped/manifest/loader.py:252-263 | which bindings load, and the section a binding of each type is looked up in |
| `ManifestAnswers.NamesExactly` | legacy/v1/scoped/manifest/validator.py:18-41 | the names a section holds |
| `ManifestAnswers.MembershipLooksUp` | legacy/v1/scoped/manifest/loader.py:155-191 | what a membership looks up, by default its granter being the owner of the first scope of that name |
| `ManifestAnswers.ObjectLooksUp` | legacy/v1/scoped/manifest/loader.py:193-220 | what an object looks up |
| `ManifestAnswers.RuleLooksUp` | legacy/v1/scoped/manifest/loader.py:222-270 | what a rule looks up |
| `ManifestSchema.ParentMapMeaning` | legacy/v1/scoped/manifest/validator.py:165-165 | the parent map holds a declared parent for every scope that has one, and nothing else |
| `ScopeOrder.TopoSortScopes` | legacy/v1/scoped/manifest/loader.py:386-404 | for every document each name comes out once; without cycles every parent comes before its children |
| `ScopeOrder.Visit` | legacy/v1/scoped/manifest/loader.py:392-399 | one visit terminates, places the name after its missing ancestors and leaves the visits in progress as they were |
| `ScopeOrder.SortedScopesAreTheScopes` | legacy/v1/scoped/manifest/loader.py:386-404 | with unique names the sorted list holds exactly the declared scopes |
| `ManifestLoader.Load` | legacy/v1/scoped/manifest/loader.py:49-93 | refused as invalid exactly when unsound; a sound manifest loads everything exactly when its bindings can; otherwise it stops at the first blocked rule, and the sections before the rules and the rules up to that one stay; what is registered is what was created or skipped |
| `ManifestLoader.RuleLoadsExactly` | legacy/v1/scoped/manifest/loader.py:222-270 | in a sound manifest a rule resolves exactly if none of its bindings names an environment and those of unknown types name scopes |
| `ManifestLoader.RulesLoadExactly` | legacy/v1/scoped/manifest/loader.py:252-263 | in a sound manifest the rules load exactly if no binding names an environment and every binding of an unknown type names a scope |
| `ManifestLoader.EverythingMeaning` | legacy/v1/scoped/manifest/loader.py:77-87 | a full load registers every name of the manifest, secrets only where a value was given |
| `ManifestLoader.AcceptedButUnloadable` | legacy/v1/scoped/manifest/validator.py:87-100 | a sound manifest whose first rule is bound to a declared environment and so blocks every load |
| `ManifestLoader.SortedScopeResolves` | legacy/v1/scoped/manifest/loader.py:131-137 | when a sorted scope's turn comes its owner and parent are registered |
| `ManifestLoader.ManifestLoader.LoadScopes` | legacy/v1/scoped/manifest/loader.py:125-153 | all scopes are registered, or a reference is reported that is not registered, which cannot happen when owners exist, parents are declared and none is above itself |
| `ManifestLoader.ManifestLoader.LoadMemberships` | legacy/v1/scoped/manifest/loader.py:155-191 | succeeds exactly if scope, principal and granter (by default the scope's owner) resolve |
| `ManifestLoader.ManifestLoader.LoadObjects` | legacy/v1/scoped/manifest/loader.py:193-220 | succeeds exactly if owners and projection scopes resolve |
| `ManifestLoader.ManifestLoader.LoadRules` | legacy/v1/scoped/manifest/loader.py:222-270 | succeeds exactly if creators and all binding targets resolve; otherwise names one that does not |
| `ManifestLoader.ManifestLoader.LoadSecrets` | legacy/v1/scoped/manifest/loader.py:334-359 | a secret without a value is reported, in order, and not registered |
| `ManifestLoader.ReferenceResolver.Resolve` | legacy/v1/scoped/manifest/resolver.py:23-34 | the id of the last registration under section and name in the order they were made; none exactly if there was no such registration |
| `SignedMessages.SigningDetermines` | legacy/v1/scoped/connector/protocol.py:137-149 | two messages with one signing string are equal up to the signature if the ids and type of either contain no bar, payloads with bars included |
| `SignedMessages.SigningJoins` | legacy/v1/scoped/connector/protocol.py:137-149 | the signing string is the eight fields in their order with bars between |
| `SignedMessages.NoJsonAfterBar` | legacy/v1/scoped/connector/protocol.py:145-145 | what follows a bar inside JSON text is never JSON text |
| `SignedMessages.BarsAreAmbiguous` | legacy/v1/scoped/connector/protocol.py:139-149 | every message with a bar in an id or the type shares its signing string with a different one, made by moving that bar |
| `SignedMessages.SigningDeterminesExactly` | legacy/v1/scoped/connector/protocol.py:137-149 | a message is determined by its signing string, up to the signature, exactly if its ids and type contain no bar |
| `Federation.FederationProtocol.NextSequence` | legacy/v1/scoped/connector/protocol.py:153-189 | the next number of this connector, no other counter changed |
| `Federation.FederationProtocol.CreateMessage` | legacy/v1/scoped/connector/protocol.py:248-289 | the message holds each field as given and the next sequence of the connector, signed over exactly these |
| `Federation.FederationProtocol.AcceptMessage` | legacy/v1/scoped/connector/protocol.py:323-331 | accepted exactly if its code is that of its own fields and its connector, sender and sequence are new; only then are these recorded |
| `Federation.AcceptedOnceAndCreated` | legacy/v1/scoped/connector/protocol.py:204-244 | under loss, duplication, reordering and invention the receiver accepts created messages only, each at most once |
| `Federation.SequencesIncrease` | legacy/v1/scoped/connector/protocol.py:153-189 | sequences on one connector strictly increase |
| `Federation.CreatedIsAcceptedWhenDelivered` | legacy/v1/scoped/connector/protocol.py:323-331 | a created message is accepted on its first delivery, and a repeated one changes nothing |
| `Federation.BarsForge` | legacy/v1/scoped/connector/protocol.py:137-149 | from every created message with a bar in an id or the type one can be made that the receiver accepts although nobody created it |
| `Urns.RoundTrip` | legacy/v1/scoped/types.py:77-92 | parsing undoes printing exactly for names whose kind and namespace contain no colon, whatever the name and version |
| `Urns.PrintExactly` | legacy/v1/scoped/types.py:77-78 | the printed name is the five parts in their order with colons between |
| `Urns.ParseRefuses` | legacy/v1/scoped/types.py:80-92 | what is refused, and as what |
| `Urns.NumeralExactly` | legacy/v1/scoped/types.py:86-90 | a version is read from digits with single underscores between them |
| `Urns.StripExactly` | legacy/v1/scoped/types.py:86-90 | white space around it does not matter |
| `Urns.PrintInjective` | legacy/v1/scoped/types.py:77-78 | on such names printing is injective |
| `Urns.ParsedNamesAreStable` | legacy/v1/scoped/types.py:80-92 | whatever text was parsed, printing gives a canonical text of the same name |
| `Urns.Make` | legacy/v1/scoped/types.py:67-75 | construction succeeds exactly for nonempty fields and versions from 1 on |
| `RegistryIndex.Registry.Register` | legacy/v1/scoped/registry/base.py:148-217 | refused exactly when frozen, malformed or the name is active; otherwise the entry is added to the active ones and to every index |
| `RegistryIndex.Registry.FindByUrn` | legacy/v1/scoped/registry/base.py:258-261 | the one active entry with that name, or none if there is none |
| `RegistryIndex.Registry.ByKind` | legacy/v1/scoped/registry/base.py:271-283 | the page of the active entries of a kind in the order of registration |
| `RegistryIndex.Registry.ByNamespace` | legacy/v1/scoped/registry/base.py:285-296 | the same for a namespace |
| `RegistryIndex.Registry.Transition` | legacy/v1/scoped/registry/base.py:359-380 | changes the entry and its lifecycle in place and no index, also for ARCHIVED |
| `RegistryIndex.Registry.Archive` | legacy/v1/scoped/registry/base.py:409-437 | takes the entry out of the indexes; they stay right exactly if it was active or its name is free |
| `RegistryIndex.RegisteringAgrees` | legacy/v1/scoped/registry/base.py:206-220 | indexing a new entry keeps every index equal to a filter of the active entries |
| `RegistryIndex.ArchivingAgrees` | legacy/v1/scoped/registry/base.py:427-434 | the exact condition under which archiving keeps them so |
| `RegistryIndex.ArchivedAgain` | legacy/v1/scoped/registry/base.py:427-428 | archiving an entry again hides an active entry registered under its name |
| `RegistryIndex.SuccessorRegistered` | legacy/v1/scoped/registry/base.py:148-204 | the state in which that happens is reached by register, archive, register |
| `RegistryIndex.StepStaysCurrent` | legacy/v1/scoped/registry/base.py:359-437 | if the indexes list, in the order of registration, exactly what is not archived, they still do after a call exactly if it neither registers as archived nor moves an entry to or from ARCHIVED by a transition |
| `RegistryIndex.RunStaysCurrent` | legacy/v1/scoped/registry/base.py:148-437 | over any run they do so all the time exactly if every call is of that kind |
| `RegistryIndex.TargetsExactly` | legacy/v1/scoped/registry/base.py:219-220 | the entry registered is the one found by its target, all other targets lead where they did |
| `RegistryIndex.PageExactly` | legacy/v1/scoped/registry/base.py:78-84 | the entries of a page, with and without a limit, negative bounds included |
| `RegistryIndex.PagesConcatenate` | legacy/v1/scoped/registry/base.py:78-84 | consecutive pages concatenate to the front of the list, in the end to all of it |
| `Deployments.DeploymentExecutor.CreateDeployment` | legacy/v1/scoped/deployments/executor.py:160-236 | the refusals in order, otherwise exactly one row more: pending, with the fields asked for and the next version on its target |
| `Deployments.DeploymentExecutor.TransitionState` | legacy/v1/scoped/deployments/executor.py:261-314 | succeeds exactly for an existing deployment in the one state that leads to the new one, and changes that state of that row only |
| `Deployments.DeploymentExecutor.ExecuteDeployment` | legacy/v1/scoped/deployments/executor.py:316-377 | runs exactly for pending deployments to active targets whose gates all passed, and ends deployed or failed; otherwise the refusals in order, with the number of failed gates |
| `Deployments.DeploymentExecutor.RollbackDeployment` | legacy/v1/scoped/deployments/rollback.py:57-112 | marks the original as rolled back and adds a pending deployment of the same object to the same target that names it, or refuses in order and changes nothing |
| `Deployments.DeploymentExecutor.GetRollbackChain` | legacy/v1/scoped/deployments/rollback.py:114-141 | in every consistent store ends without the cycle error, from the deployment through the earliest rollbacks to one that has none, versions strictly increasing on one target |
| `Deployments.ArchivingRefuses` | legacy/v1/scoped/deployments/executor.py:160-172 | an archived target refuses every deployment from then on, and no other is affected |
| `Deployments.GatePermits` | legacy/v1/scoped/deployments/executor.py:345-361 | a gate is one condition more for its deployment and none for any other |
| `Deployments.RunConsistent` | legacy/v1/scoped/deployments/executor.py:195-222 | every run of operations leaves a consistent store |
| `Deployments.VersionsAreConsecutive` | legacy/v1/scoped/deployments/executor.py:195-202 | the versions on a target are exactly 1 to the highest |
| `Deployments.VersionsAreUnique` | legacy/v1/scoped/deployments/executor.py:195-202 | no two deployments to a target share a version |
| `Deployments.RollbackIsLater` | legacy/v1/scoped/deployments/executor.py:178-193 | a rollback names an existing deployment to the same target with a lower version |
| `Deployments.RunEvolves` | legacy/v1/scoped/deployments/executor.py:37-43 | over any run deployments keep everything but their state, which only moves forwards |
| `Deployments.EarliestMeaning` | legacy/v1/scoped/deployments/rollback.py:131-139 | the next link is the rollback with the lowest version, absent exactly if there is none |

## Left out

- Django and SQLAlchemy: SQL text, quoting, alias reference counts, chunked iterators, `union` and the other combinators, sliced querysets, descriptors, relation guards, asynchronous variants, middleware and management commands.
- Reading an enforced table through a join from an unregistered model: the library protects joins of scoped queries only; `Guarded` states this and `UnguardedJoinLeaks` shows it.
- Writes outside the tracked methods, nested saves from signal handlers, several databases and lock waits: every operation is one atomic step.
- Conversion of scope and primary key values by `to_python` and of identities with Unicode whitespace: both are texts compared as such.
- TrackedAnswers.UpdateExactly: naming the primary key in an update, which the code refuses as it refuses the scope, cannot be said in the model, where keys are not fields; sliced and combined querysets are not modelled.
- Foreign keys to a column other than the primary key: every relation names a row by its key.
- Audit mode in detail: unenforced models are recorded without the scope and relation checks, but their other options are not modelled.
- Encodings: JSON, ISO timestamps and digests are functions or texts; of JSON only the quoting rules of section 7 of RFC 8259 are used.
- AuditWriters.AuditWriter.Record: the entry's timestamp and id are chosen afresh on every attempt, which the model shows as one draft for each attempt; threads of one process are serialised by the lock and are one writer.
- AuditRetention.Retention.Apply: `max_entries` is a natural number; negative values, which the code does not refuse, are not modelled, nor is a clock that moves between `estimate` and `apply`.
- AuditTrail.AuditQuery.VerifyChain: negative chunk sizes, whose meaning depends on the database, are not modelled.
- AuditWriters.EveryInterleavingChains: pruning steps delete oldest rows under `SafePrune`, that is, they leave the newest row and overtake no batch in flight entirely; retention itself checks neither. `SafePruneExactly` shows that the condition is exact, `OvertakenBatchFallsBehind`, `EmptyingRestarts` and `EmptyingTheTableForks` what happens otherwise. Age deletion that leaves a gap is the subject of `AgeDeletionVerifiesIffNoGap`.
- AuditTampering.TrailTamperEvident: collision freedom of the digest is an assumption; where the retained hash is kept is up to the deployment, the code keeps none.
- Principals: lifecycle, metadata and removal; the searches see one state of the graph.
- ManifestLoader.Load: whether an entry already exists and which id it gets is up to the storage and left open; errors raised by the services themselves, roles, effects, pipeline stages and metadata are not modelled, and the problems are data rather than sentences. The partial result that comes with an unresolved reference stands for what storage holds after the exception.
- ManifestLoader.ManifestLoader.LoadOwned: one method stands for the loaders of environments, pipelines and deployment targets, which have the same shape.
- Federation.AcceptedOnceAndCreated: several processes that share one sender counter without a lock are not protected by the code; one sender numbers all messages. Unforgeability of the code is an assumption on the events of the run.
- Schema negotiation, transports, webhooks, schedules, notifications, secrets, rules, environments and the client: thin wrappers or small tables.
- Urns.ParsedNamesAreStable: digits and white space outside ASCII, which `int` also accepts, are not modelled.
- RegistryIndex.Registry.Register: after an entry is archived a second time under a successor the methods are not followed further; listeners, tags, metadata, `query` and locking; generated ids are assumed to be new. The five dictionaries are one record, replaced as a whole.
- Deployments.DeploymentExecutor.CreateDeployment: concurrent creation for one target, metadata and audit records; generated ids are assumed to be new.
