# Rucio replica catalog, modelled in Dafny

This project models the replica catalog of Rucio's core
(`lib/rucio/core/replica.py`). Rucio is a distributed data-management
system. Files are *data identifiers* (DIDs), named by scope and name. They
are grouped into datasets and containers, which are collections linked to
their contents by containment edges. A *replica* is the record that a
storage element (an RSE) holds a copy of a file. A replica row carries:

- the file's size and checksums;
- a storage path;
- a state: AVAILABLE, UNAVAILABLE or BEING_DELETED;
- a lock count: the number of replication rules that pin it;
- a tombstone: the time from which the garbage collector may delete it.

Each RSE also has a usage counter, the number and total bytes of its
replicas.

The catalog is the class `Catalog.ReplicaCatalog`. It holds the identifier
records, the containment edges, the replica rows and the counters. Every
database transaction of the source is one method that either completes or
leaves every field as it was. The methods are:

- registering files that have no record yet;
- bulk-inserting replicas at an RSE;
- deleting replicas, with the cascade that removes orphaned edges, empty
  closed collections and file records left without any replica;
- changing replica states;
- moving the lock count, which rewrites the tombstone in the same statement;
- the read operations: one replica; the garbage collector's list of unlocked,
  expired replicas; the deletion backlog of an RSE; and `list_replicas`,
  which resolves identifiers down to files and groups their replicas per file
  and RSE with one physical name per protocol.

The invariant `Catalog.Consistent` is what every operation keeps:

- each RSE counter equals the count and byte sum of that RSE's rows;
- a row has a tombstone exactly while its lock count is zero;
- every row belongs to a FILE record;
- every edge hangs below a collection record.

The modules follow the source's concerns:

- `ReplicaTypes` (types.dfy): records, states, errors.
- `Tally` (tally.dfy): row counts and byte sums per RSE.
- `Registration` (registration.dfy): `__bulk_add_new_file_dids` and
  `__bulk_add_file_dids`.
- `Insertion` (insertion.dfy): `__bulk_add_replicas` and the pfn step of
  `add_replicas`.
- `Cascade` (cascade.dfy): `delete_replicas`.
- `Locking` (locking.dfy): `update_replica_lock_counter`.
- `Transitions` (transitions.dfy): `update_replicas_states`.
- `GcSelection` (gc_selection.dfy): `list_unlocked_replicas`.
- `Listing` (listing.dfy): `list_replicas`.
- `Catalog` (catalog.dfy): the class and the consistency lemmas.

The following are parameters of the operations that use them:

- the clock ("now");
- the RSE manager's `parse_pfn`, `list_protocols` and `lfn2pfn`;
- the database's name hash used to partition garbage-collection work.

RSEs are identified by name; the RSE directory is a read-only map from name
to its `deterministic` flag.

## Model

| member | source | states |
|---|---|---|
| Registration.SaveFiles | lib/rucio/core/replica.py:122-133 | the loop stages one FILE record per entry, and the flush reports a conflict exactly when the model's conflict rule holds |
| Registration.Staged | lib/rucio/core/replica.py:122-126 | the staged table holds the old identifiers plus the identifiers of the entries, and nothing else |
| Registration.ConflictIff | lib/rucio/core/replica.py:126-132 | the flush fails exactly when some entry's identifier already has a record or two entries share an identifier |
| Registration.StagedKeepsExisting | lib/rucio/core/replica.py:122-128 | without a conflict, existing records are untouched and each entry's record is the FILE record built from it, owned by its own account when one is given and by the caller otherwise |
| Registration.AvailableRowsExactly | lib/rucio/core/replica.py:146-155 | the query returns exactly the requested identifiers that have a FILE record, once each, with the record's size and checksums |
| Registration.SplitNewFiles | lib/rucio/core/replica.py:156-164 | the nested search keeps, in request order, exactly the entries whose identifier is not among the returned rows |
| Registration.NewFilesMembers | lib/rucio/core/replica.py:156-164 | an entry is passed on for registration exactly when its identifier has no FILE record |
| Registration.RepeatedNewFileReachesInsertTwice | lib/rucio/core/replica.py:156-165 | an unregistered identifier named twice in one request is registered twice, so the flush fails |
| Registration.RegistrationEffect | lib/rucio/core/replica.py:137-166 | after a successful registration every requested identifier is a FILE record, existing records are unchanged and only requested identifiers were added |
| Insertion.SaveReplicas | lib/rucio/core/replica.py:180-189 | the loop stages one row per entry and counts the entries and their bytes; the flush reports a duplicate exactly when the model's key-collision rule holds |
| Insertion.InsertRows | lib/rucio/core/replica.py:184-186 | the rows after the insert are the old rows plus one (RSE, file) key per entry |
| Insertion.ReplicaConflictIff | lib/rucio/core/replica.py:184-195 | the insert hits the primary key exactly when some entry already has a row at the RSE or two entries name the same file |
| Insertion.InsertedRows | lib/rucio/core/replica.py:184-186 | each new row is AVAILABLE and unlocked, with the entry's size, path and checksums and with the entry's tombstone or now plus two weeks; old rows are untouched |
| Insertion.InsertRowsUsage | lib/rucio/core/replica.py:180-189 | the RSE's rows grow in number by the number of entries and in bytes by the entries' byte sum |
| Insertion.InsertRowsElsewhere | lib/rucio/core/replica.py:184-186 | the rows and usage of every other RSE are unchanged |
| Insertion.WithPaths | lib/rucio/core/replica.py:217-223 | on a non-deterministic RSE each entry's path is prefix, path and name from the parsed pfn (without the prefix when there is none); on a deterministic RSE the entries are unchanged |
| Insertion.ResolvePaths | lib/rucio/core/replica.py:217-223 | the pfn loop fails with UnsupportedOperation exactly when some entry has no pfn, and otherwise yields the entries with their derived paths |
| Insertion.SameFilesAgree | lib/rucio/core/replica.py:223-225 | rewriting paths changes neither the inserted keys, nor whether the insert collides, nor the byte total |
| Cascade.RemoveMatched | lib/rucio/core/replica.py:270-283 | the loop deletes exactly the matched rows and returns their count, their byte and file totals, and their identifiers |
| Cascade.EmptyRequest | lib/rucio/core/replica.py:264-299 | a request naming no file selects every row, so it goes ahead exactly when no row exists; it then removes every edge and exactly the closed collections that had one, and leaves every other record unchanged |
| Catalog.EmptyDeleteKeepsConsistent | lib/rucio/core/replica.py:264-327 | a request naming no file that goes ahead keeps the catalog consistent |
| Catalog.OrphanCleanup | lib/rucio/core/replica.py:290-324 | the edge, parent and record loops compute `DeleteOutcome`, and the result is consistent |
| Cascade.DeleteProceedsIff | lib/rucio/core/replica.py:264-286 | no more rows match than files were named, and as many match exactly when the names are distinct and each has a row at the RSE |
| Cascade.RemoveOrphanEdges | lib/rucio/core/replica.py:277-299 | the deleted edges are exactly those whose child is a deleted file left without any replica, and the parents collected are exactly their parents |
| Cascade.RemoveEmptyClosedParents | lib/rucio/core/replica.py:301-310 | of those parents, exactly the closed ones left without any child lose their record |
| Cascade.RemoveOrphanRecords | lib/rucio/core/replica.py:320-324 | exactly the deleted files left without any replica lose their record |
| Cascade.EdgeRemovedOnlyForOrphan | lib/rucio/core/replica.py:277-297 | an edge disappears only when its child was deleted here and has no replica left at any RSE |
| Cascade.OrphanEdgeRemoved | lib/rucio/core/replica.py:277-297 | every edge whose child was deleted here and has no replica left disappears |
| Cascade.RecordRemovedOnlyIfOrphanOrEmptyClosedParent | lib/rucio/core/replica.py:290-324 | a record disappears only when it is a deleted file without replicas, or a closed collection that lost an edge here and has no child left |
| Cascade.LastReplicaRemovesFile | lib/rucio/core/replica.py:320-324 | a deleted file's record disappears exactly when no other RSE holds a replica of it |
| Cascade.RemoveRowsUsage | lib/rucio/core/replica.py:273-283 | after the deletion the RSE's rows total what they totalled before minus the deleted rows |
| Cascade.RemoveRowsElsewhere | lib/rucio/core/replica.py:264-268 | the rows and usage of every other RSE are unchanged |
| Locking.ApplyLock | lib/rucio/core/replica.py:485-491 | the lock count moves by the given amount, the tombstone is now when the new count is zero and null otherwise, and nothing else changes |
| Locking.MysqlApplyLock | lib/rucio/core/replica.py:474-483 | the MySQL branch as written: the count moves by the amount and the tombstone is set exactly when the updated count plus the amount is negative |
| Locking.LockThenRelease | lib/rucio/core/replica.py:485-491 | taking and then releasing the same number of locks restores the lock count and whether a tombstone is set |
| Locking.MysqlAgreesOnUnitSteps | lib/rucio/core/replica.py:474-491 | for taking one lock, or releasing one held lock, the MySQL branch gives the same row as the other branch |
| Locking.MysqlTombstonesLockedReplica | lib/rucio/core/replica.py:476-483 | releasing two of three locks on MySQL sets the tombstone although a lock remains |
| Locking.MysqlUntombstonesUnlockedReplica | lib/rucio/core/replica.py:476-483 | a zero step on an unlocked row clears its tombstone on MySQL, while the other branch sets it to now |
| Transitions.ApplyUpdate | lib/rucio/core/replica.py:428-440 | one entry succeeds exactly when its RSE is known and its row exists and, for BEING_DELETED, is unlocked; on success only that row's state changes; otherwise the error is RSENotFound or UnsupportedOperation |
| Transitions.ApplyAll | lib/rucio/core/replica.py:425-440 | the loop, with its cache of RSE lookups, gives the result of applying the entries in order and stopping at the first failure |
| Transitions.ApplyUpdatesSpec | lib/rucio/core/replica.py:425-440 | the batch succeeds exactly when every entry names an existing row of a known RSE and no BEING_DELETED entry names a locked row; then only states change, each row ending in the state of the last entry naming it |
| Transitions.AsWrittenNeverMarksForDeletion | lib/rucio/core/replica.py:434-435 | as written, any batch holding a BEING_DELETED entry fails |
| Transitions.MarkUnlockedRow | lib/rucio/core/replica.py:434-437 | marking an unlocked row for deletion succeeds under the intended rule but fails as written |
| GcSelection.SortByTombstone | lib/rucio/core/replica.py:374 | the candidates are ordered by tombstone and none is lost or added |
| GcSelection.Take | lib/rucio/core/replica.py:385 | the limit keeps a prefix of the ordered candidates, of length limit or all of them when fewer, and everything when there is no limit |
| GcSelection.SelectionSpec | lib/rucio/core/replica.py:370-385 | the selection is capped by the limit, holds only candidates (expired, unlocked, tombstoned at the RSE, in the worker's share), holds each once in tombstone order, holds every candidate when under the limit, and never skips a candidate with an earlier tombstone than a selected one |
| GcSelection.UnlockedRowsSpec | lib/rucio/core/replica.py:370-393 | the returned rows are candidates of the RSE with their sizes, distinct, in tombstone order, capped by the limit, complete when under it, and no candidate left out has an older tombstone than a returned row, so the oldest candidates are the ones returned |
| GcSelection.WorkersDisjoint | lib/rucio/core/replica.py:377-383 | two different workers never share a name |
| GcSelection.WorkersCover | lib/rucio/core/replica.py:377-383 | every name falls in the share of some worker numbered 1 to total minus 1 |
| GcSelection.EdgeWorkers | lib/rucio/core/replica.py:377-383 | worker number total gets nothing, and worker number 0 (falsy, so unpartitioned) gets everything |
| Listing.ExpandCollection | lib/rucio/core/replica.py:59-76 | the work-list walk over the contents returns exactly the files below the collection |
| Listing.RequestFiles | lib/rucio/core/replica.py:42-76 | the request resolves exactly when every identifier has a record, to the files they name or contain; otherwise it fails on the first unknown identifier |
| Listing.PfnsSpec | lib/rucio/core/replica.py:98-101 | each RSE's list holds exactly the names of the protocols whose scheme is asked for: every name comes from such a protocol and every such protocol contributes its name; with no scheme given there is one name per protocol |
| Listing.LastSrm | lib/rucio/core/replica.py:102-106 | a space token is recorded exactly when a selected protocol is srm, and it is that protocol's token or none |
| Listing.AddProtocols | lib/rucio/core/replica.py:98-106 | the protocol loop yields the RSE's list of names and the space token of the last selected srm protocol, keeping the earlier token otherwise |
| Listing.NextEntry | lib/rucio/core/replica.py:91-106 | a file's entry is created on its first row and refreshed on later ones, describing every row read so far |
| Listing.GroupReplicas | lib/rucio/core/replica.py:87-108 | the grouped listing has one entry per file with a matching row; each entry holds the file's size and checksums and maps each RSE holding a matching row to its protocol names |
| Catalog.RegisterKeepsConsistent | lib/rucio/core/replica.py:113-133 | registering files keeps the catalog consistent |
| Catalog.InsertKeepsConsistent | lib/rucio/core/replica.py:225-226 | inserting rows for FILE records and raising the RSE counter by their count and bytes keeps the catalog consistent |
| Catalog.AddKeepsConsistent | lib/rucio/core/replica.py:202-227 | a successful add_replicas keeps the catalog consistent |
| Catalog.DeleteKeepsConsistent | lib/rucio/core/replica.py:254-327 | a delete with its cascade and the counter decrease keeps the catalog consistent |
| Catalog.DeleteKeepsRecords | lib/rucio/core/replica.py:290-324 | the cascade never removes the record of a file that keeps a replica, nor a collection that keeps an edge |
| Catalog.StatesKeepConsistent | lib/rucio/core/replica.py:437 | state changes leave counters, lock coupling and records consistent |
| Catalog.LockKeepsConsistent | lib/rucio/core/replica.py:485-491 | moving a lock count keeps the catalog consistent |
| Catalog.SingleFileError | lib/rucio/core/replica.py:231-250 | add_replica fails with RSENotFound, RucioException, UnsupportedOperation or Duplicate exactly in the single-file cases |
| Catalog.SingleFileEffect | lib/rucio/core/replica.py:231-250 | a successful add_replica adds exactly one row, AVAILABLE and unlocked, with the given size, checksums and tombstone (or now plus two weeks) and the path resolved from the pfn on a non-deterministic RSE; it leaves every other row and record unchanged, registers the file under the caller's account when it had no record, and returns the file's row |
| Catalog.BacklogWithinCounter | lib/rucio/core/replica.py:397-410 | the deletion backlog of an RSE never counts more files than the RSE's counter |
| Catalog.RequestFilesFails | lib/rucio/core/replica.py:42-46 | once an identifier in the request is unknown, the whole request fails on it |
| Catalog.ReplicaCatalog.BulkAddNewFileDids | lib/rucio/core/replica.py:113-133 | succeeds exactly without a conflict; then the records are the staged ones; on failure with RucioException nothing changes |
| Catalog.ReplicaCatalog.BulkAddFileDids | lib/rucio/core/replica.py:137-166 | registers exactly the entries without a FILE record and returns them followed by the existing rows; fails with RucioException exactly when those entries conflict |
| Catalog.ReplicaCatalog.BulkAddReplicas | lib/rucio/core/replica.py:170-198 | inserts the rows and returns the count and bytes, or fails with Duplicate and changes nothing |
| Catalog.ReplicaCatalog.AddReplicas | lib/rucio/core/replica.py:202-227 | fails exactly when, in order, the RSE is unknown, registration conflicts, a pfn is missing on a non-deterministic RSE, or a row collides, with that error and nothing changed; otherwise registers the files, inserts rows with resolved paths, raises the counter and returns the registration result |
| Catalog.ReplicaCatalog.InsertResolved | lib/rucio/core/replica.py:217-225 | resolves paths then inserts, failing with UnsupportedOperation or Duplicate exactly in those cases |
| Catalog.ReplicaCatalog.Increase | lib/rucio/core/replica.py:226 | the RSE counter gains the inserted files and bytes |
| Catalog.ReplicaCatalog.AddReplica | lib/rucio/core/replica.py:231-250 | fails exactly in the single-file error cases with nothing changed; otherwise adds exactly one row (AVAILABLE, unlocked, with the given size, checksums, tombstone and resolved path), leaves every other row and record unchanged, registers the file, returns its row and raises the counter by one file and its bytes |
| Catalog.ReplicaCatalog.DeleteReplicas | lib/rucio/core/replica.py:254-327 | fails with RSENotFound, or with ReplicaNotFound listing the selected files when the rows selected are not as many as the files named, changing nothing; a request naming no file selects every row, so it fails whenever any row exists; otherwise applies the deletion cascade (for a request naming no file, the removal of every edge and of the closed collections left empty) and lowers the counter by the deleted rows |
| Catalog.ReplicaCatalog.UnlinkOrphans | lib/rucio/core/replica.py:290-327 | after the matched rows are deleted, the edge, parent and record loops and the counter decrease give exactly `DeleteOutcome`, and the catalog stays consistent |
| Catalog.ReplicaCatalog.UnlinkAll | lib/rucio/core/replica.py:271-327 | with no row deleted the parent condition is empty and selects every edge: the loops give exactly `EmptyDeleteOutcome` and the catalog stays consistent |
| Catalog.ReplicaCatalog.Decrease | lib/rucio/core/replica.py:326-327 | the RSE counter loses the deleted files and bytes |
| Catalog.ReplicaCatalog.GetReplica | lib/rucio/core/replica.py:332-351 | returns the row when the RSE is known and the row exists, else RSENotFound or NoResultFound |
| Catalog.ReplicaCatalog.ListUnlockedReplicas | lib/rucio/core/replica.py:355-393 | fails exactly for an unknown RSE; otherwise returns candidate rows with their sizes, distinct, oldest tombstone first, capped by the limit, complete when under it, and with no left-out candidate older than a returned row |
| Catalog.ReplicaCatalog.GetSumCountBeingDeleted | lib/rucio/core/replica.py:397-410 | the total counts the RSE's tombstoned rows in BEING_DELETED, and is zero with zero bytes when there are none |
| Catalog.ReplicaCatalog.UpdateReplicasStates | lib/rucio/core/replica.py:414-440 | succeeds exactly when every entry is updatable; then only states change, each row ending in the last named state; on failure nothing changes and the error is the first failing entry's |
| Catalog.ReplicaCatalog.UpdateReplicaState | lib/rucio/core/replica.py:444-454 | succeeds exactly when the RSE is known and the row exists and, for BEING_DELETED, is unlocked; then only that row's state changes; otherwise RSENotFound or UnsupportedOperation and nothing changes |
| Catalog.ReplicaCatalog.UpdateReplicaLockCounter | lib/rucio/core/replica.py:456-493 | fails exactly for an unknown RSE; reports whether the row exists and, when it does, applies the lock rule to it alone |
| Catalog.ReplicaCatalog.ListReplicas | lib/rucio/core/replica.py:30-109 | succeeds exactly when every requested identifier has a record, else fails with the first unknown one; the listing describes exactly the rows of the resolved files in an allowed state |

## Left out

- Database errors other than the integrity errors named above (`DatabaseError`, the generic `RucioException` re-raise at lib/rucio/core/replica.py:196-198) are not modelled: the model has no failing database.
- The regular expressions that classify an integrity error as Duplicate (lib/rucio/core/replica.py:191-194) are not modelled: every key collision of the replica insert is a Duplicate.
- `delete_replicas` with an empty `files` list is modelled as SQLAlchemy renders an empty `or_()`: the empty disjunction is left out of the query, which then selects every row of every RSE (lib/rucio/core/replica.py:264-273), and the empty parent condition selects every edge (lib/rucio/core/replica.py:271, 291-292). The model follows the rendering of SQLAlchemy versions that drop an empty `or_()` without error; a version that rejects it is not modelled.
- Catalog.ReplicaCatalog.BulkAddFileDids: with an empty `files` list the unfiltered query at lib/rucio/core/replica.py:146-155 returns every identifier of any type, and the call returns all of them; the model returns no row there, because it lists the returned rows by their first mention in the request.
- Catalog.ReplicaCatalog.AddReplicas: with an empty `files` list it returns what `__bulk_add_file_dids` returns, so it differs from the source in the same way as the line above.
- Registration.AvailableRows: the query at lib/rucio/core/replica.py:146-155 has no ORDER BY, so the database may return the existing rows in any order; the model fixes one order, first mention in the request, and `BulkAddFileDids` and `AddReplicas` ensure that exact sequence.
- The `meta`, `rules` and `dsn` arguments of `add_replica` and the per-entry `meta` of `__bulk_add_new_file_dids` are not modelled: they set extra columns or are ignored.
- Catalog.ReplicaCatalog.AddReplica: on a non-deterministic RSE with no pfn, the source passes `'pfn': None` and reaches `parse_pfn(None)`; the model reports UnsupportedOperation, as for an entry without a pfn key.
- `parse_pfn`, `list_protocols`, `lfn2pfn`, the clock and the name hash of the worker partition are parameters: the RSE manager and the database functions are not part of this model.
- The space token: a protocol whose `extended_attributes` lacks `space_token` yields none; an `extended_attributes` that is itself null (a TypeError in the source) is not modelled.
- GcSelection.InShare: on Oracle, `ORA_HASH(name, N)` ranges over 0..N, not 0..N-1 like the MySQL and PostgreSQL `mod`; the model uses the `mod` form for all databases.
- The `rse_id` shortcuts of `get_replica`, `list_unlocked_replicas`, `update_replica_lock_counter` and `update_replicas_states` are not modelled: RSEs are named by one key.
- The `bytes` argument of `list_unlocked_replicas` is unused in the source and not modelled.
- Concurrency, isolation levels and the streaming (`yield_per`, generator) behaviour are not modelled.
- Listing.GroupReplicas: the listing is a map from file to entry; the source yields the entries in the order of its dictionary, which the model does not fix.
- `list_replicas` reads rows in batches of ten conditions; a file reached twice is read again and its entries reset, which the model's rule for a repeated row covers. The batch padding is not modelled.
- `list_replicas` and `add_replicas` write into the caller's dictionaries (the `path` key); the model returns new values instead.
- Catalog.ReplicaCatalog.ListReplicas: requires a rank that decreases along collection edges; on a cycle of collections the source's loop does not terminate, and the model does not cover that case.
- `delete_replicas` leaves edges from an outer container to a deleted collection in place (the ToDo at lib/rucio/core/replica.py:318); the model keeps those edges too, so the catalog invariant does not require an edge's child to exist.
- Foreign-key violations at commit after `delete_replicas` (the comment at lib/rucio/core/replica.py:328) are not modelled.
- The integer widths of sizes and counters are not modelled: counts and bytes are unbounded integers.

## Findings

| source | as written | input that shows it | evidently intended | confidence | as-written member | corrected member |
|---|---|---|---|---|---|---|
| lib/rucio/core/replica.py:476-483 | on MySQL the tombstone condition `lock_cnt + value < 0` is evaluated on the already updated count, so it tests old + 2 × value < 0 | a row with 3 locks and value −2: 1 lock remains and the tombstone is set; a row with 0 locks and value 0: the tombstone is cleared | the tombstone is set exactly when the new count is zero, as in the branch for the other databases | medium: relies on the driver behaviour the comment at line 474 describes; not executed | Locking.MysqlTombstonesLockedReplica | Locking.ApplyLock |
| lib/rucio/core/replica.py:434-435 | `query.filter(lock_cnt=0)` passes a keyword to `Query.filter`, which takes only positional criteria, so it raises TypeError | any batch holding an entry with state BEING_DELETED | restrict the update to rows whose lock count is zero (`filter_by(lock_cnt=0)`) | high for the call signature; not executed | Transitions.AsWrittenNeverMarksForDeletion | Transitions.ApplyUpdatesSpec |
