/**
  The replica catalog: the data-identifier records, their containment edges,
  the replica rows and the per-RSE counters, with the operations of
  `lib/rucio/core/replica.py` that read and change them. Every operation
  runs in one transaction: it either completes or leaves the catalog as it
  was.
 */
module Catalog {
  import opened ReplicaTypes
  import opened Tally
  import Registration
  import Insertion
  import Cascade
  import Collections
  import Locking
  import Transitions
  import GcSelection
  import Listing

  /**
    What every operation keeps: each RSE counter matches its rows, each
    row's tombstone is set exactly while it holds no lock, each row belongs
    to a FILE record, and each edge hangs below a collection record.
   */
  ghost predicate Consistent(dids: map<Did, DidRecord>, edges: set<Edge>,
                             rows: map<ReplicaKey, Replica>, counters: map<RseName, Usage>)
  {
    && CountersMatch(counters, rows)
    && (forall k :: k in rows ==> Locking.Coupled(rows[k]))
    && (forall k :: k in rows ==> Registration.IsFileRecord(dids, k.did))
    && (forall e :: e in edges ==> e.parent in dids && dids[e.parent].didType != FILE)
  }

  /** Registering new files keeps every existing record, so every row keeps its FILE record. */
  lemma RegisterKeepsConsistent(dids: map<Did, DidRecord>, edges: set<Edge>, rows: map<ReplicaKey, Replica>,
                                counters: map<RseName, Usage>, files: seq<FileSpec>, account: string)
    requires Consistent(dids, edges, rows, counters)
    requires !Registration.Conflict(dids, files)
    ensures Consistent(Registration.Staged(dids, files, account), edges, rows, counters)
  {
    Registration.StagedKeepsExisting(dids, files, account);
  }

  /**
    Inserting rows for registered files and raising the RSE counter by their
    number and bytes keeps the catalog consistent.
   */
  lemma InsertKeepsConsistent(dids: map<Did, DidRecord>, edges: set<Edge>, rows: map<ReplicaKey, Replica>,
                              counters: map<RseName, Usage>, rse: RseName, files: seq<FileSpec>, now: int)
    requires Consistent(dids, edges, rows, counters)
    requires forall f :: f in files ==> Registration.IsFileRecord(dids, f.did)
    requires !Insertion.ReplicaConflict(rows, rse, files)
    ensures Consistent(dids, edges, Insertion.InsertRows(rows, rse, files, now),
                       counters[rse := Plus(CounterOf(counters, rse), Usage(|files|, Insertion.SumBytes(files)))])
  {
    var rows' := Insertion.InsertRows(rows, rse, files, now);
    var counters' := counters[rse := Plus(CounterOf(counters, rse), Usage(|files|, Insertion.SumBytes(files)))];
    Insertion.InsertedRows(rows, rse, files, now);
    forall r ensures CounterOf(counters', r) == UsageAt(rows', r) {
      if r == rse {
        Insertion.InsertRowsUsage(rows, rse, files, now);
      } else {
        Insertion.InsertRowsElsewhere(rows, rse, files, now, r);
      }
    }
    forall k | k in rows' && k !in rows
      ensures Locking.Coupled(rows'[k]) && Registration.IsFileRecord(dids, k.did)
    {
      var f :| f in files && k == ReplicaKey(rse, f.did);
    }
  }

  /** Deleting replicas with the cascade and lowering the RSE counter keeps the catalog consistent. */
  lemma DeleteKeepsConsistent(dids: map<Did, DidRecord>, edges: set<Edge>, rows: map<ReplicaKey, Replica>,
                              counters: map<RseName, Usage>, rse: RseName, files: seq<Did>)
    requires Consistent(dids, edges, rows, counters)
    ensures var out := Cascade.DeleteOutcome(rows, edges, dids, rse, files);
            Consistent(out.dids, out.edges, out.rows, counters[rse := Minus(CounterOf(counters, rse), out.removed)])
  {
    var out := Cascade.DeleteOutcome(rows, edges, dids, rse, files);
    var matched := Cascade.MatchedKeys(rows, rse, files);
    var counters' := counters[rse := Minus(CounterOf(counters, rse), out.removed)];
    forall r ensures CounterOf(counters', r) == UsageAt(out.rows, r) {
      if r == rse {
        Cascade.RemoveRowsUsage(rows, matched, rse);
      } else {
        Cascade.RemoveRowsElsewhere(rows, matched, rse, r);
      }
    }
    DeleteKeepsRecords(dids, edges, rows, rse, files);
  }

  /** A request naming no file that goes ahead keeps the catalog consistent. */
  lemma EmptyDeleteKeepsConsistent(dids: map<Did, DidRecord>, edges: set<Edge>, rows: map<ReplicaKey, Replica>,
                                   counters: map<RseName, Usage>, rse: RseName)
    requires Consistent(dids, edges, rows, counters)
    requires rows == map[]
    ensures var out := Cascade.EmptyDeleteOutcome(edges, dids);
            Consistent(out.dids, out.edges, out.rows, counters[rse := Minus(CounterOf(counters, rse), out.removed)])
  {
    var out := Cascade.EmptyDeleteOutcome(edges, dids);
    var counters' := counters[rse := Minus(CounterOf(counters, rse), out.removed)];
    forall r ensures CounterOf(counters', r) == UsageAt(out.rows, r) {
      assert CounterOf(counters, r) == UsageAt(rows, r);
    }
  }

  /** The three cleanup loops of `delete_replicas` compute `DeleteOutcome`, which keeps the catalog consistent. */
  lemma OrphanCleanup(dids: map<Did, DidRecord>, edges: set<Edge>, rows: map<ReplicaKey, Replica>,
                      counters: map<RseName, Usage>, rse: RseName, files: seq<Did>,
                      kept: set<Edge>, parents: set<Did>, withoutParents: map<Did, DidRecord>, withoutFiles: map<Did, DidRecord>)
    requires Consistent(dids, edges, rows, counters)
    requires var matched := Cascade.MatchedKeys(rows, rse, files);
             var orphans := Cascade.Orphans(rows - matched, matched);
             && kept == Cascade.EdgesAfter(edges, orphans) && parents == Cascade.AffectedParents(edges, orphans)
             && withoutParents == dids - Cascade.DeletedParents(dids, kept, parents)
             && withoutFiles == withoutParents - (set d | d in DidsOf(matched) && !Cascade.HasReplica(rows - matched, d))
    ensures var matched := Cascade.MatchedKeys(rows, rse, files);
            var out := Cascade.DeleteOutcome(rows, edges, dids, rse, files);
            && out == Cascade.Outcome(rows - matched, kept, withoutFiles, Sum(rows, matched))
            && Consistent(withoutFiles, kept, rows - matched, counters[rse := Minus(CounterOf(counters, rse), Sum(rows, matched))])
  {
    var matched := Cascade.MatchedKeys(rows, rse, files);
    var orphans := Cascade.Orphans(rows - matched, matched);
    assert (set d | d in DidsOf(matched) && !Cascade.HasReplica(rows - matched, d)) == orphans;
    DeleteKeepsConsistent(dids, edges, rows, counters, rse, files);
  }

  /** The records the cascade removes are neither files that keep a row nor parents that keep an edge. */
  lemma DeleteKeepsRecords(dids: map<Did, DidRecord>, edges: set<Edge>, rows: map<ReplicaKey, Replica>,
                           rse: RseName, files: seq<Did>)
    requires forall k :: k in rows ==> Registration.IsFileRecord(dids, k.did)
    requires forall e :: e in edges ==> e.parent in dids && dids[e.parent].didType != FILE
    ensures var out := Cascade.DeleteOutcome(rows, edges, dids, rse, files);
            && (forall k :: k in out.rows ==> Registration.IsFileRecord(out.dids, k.did))
            && (forall e :: e in out.edges ==> e.parent in out.dids && out.dids[e.parent].didType != FILE)
  {
    var out := Cascade.DeleteOutcome(rows, edges, dids, rse, files);
    var matched := Cascade.MatchedKeys(rows, rse, files);
    var orphans := Cascade.Orphans(out.rows, matched);
    var parents := Cascade.AffectedParents(edges, orphans);
    var gone := Cascade.DeletedParents(dids, out.edges, parents);
    forall k | k in out.rows ensures Registration.IsFileRecord(out.dids, k.did) {
      assert k.did !in orphans;
      assert k.did !in gone;
    }
    forall e | e in out.edges ensures e.parent in out.dids && out.dids[e.parent].didType != FILE {
      assert e.parent !in gone;
      assert e.parent !in orphans;
    }
  }

  /** Changing only states keeps every counter, coupling and record. */
  lemma StatesKeepConsistent(dids: map<Did, DidRecord>, edges: set<Edge>, rows: map<ReplicaKey, Replica>,
                             rows': map<ReplicaKey, Replica>, counters: map<RseName, Usage>)
    requires Consistent(dids, edges, rows, counters)
    requires Transitions.SameButStates(rows, rows')
    ensures Consistent(dids, edges, rows', counters)
  {
    forall r ensures CounterOf(counters, r) == UsageAt(rows', r) {
      assert KeysAt(rows', r) == KeysAt(rows, r);
      SumFrame(rows', rows, KeysAt(rows, r));
    }
    forall k | k in rows' ensures Locking.Coupled(rows'[k]) {
      assert rows'[k] == rows[k].(state := rows'[k].state);
    }
  }

  /** Moving a lock count keeps the catalog consistent. */
  lemma LockKeepsConsistent(dids: map<Did, DidRecord>, edges: set<Edge>, rows: map<ReplicaKey, Replica>,
                            counters: map<RseName, Usage>, k: ReplicaKey, value: int, now: int)
    requires Consistent(dids, edges, rows, counters) && k in rows
    ensures Consistent(dids, edges, rows[k := Locking.ApplyLock(rows[k], value, now)], counters)
  {
    var row := Locking.ApplyLock(rows[k], value, now);
    forall r ensures CounterOf(counters, r) == UsageAt(rows[k := row], r) {
      UpdateUsage(rows, k, row, r);
    }
  }

  /**
    For a single file the error of `add_replica` reads off directly: unknown
    RSE, the identifier taken by a collection, no pfn for a non-deterministic
    RSE, or a replica already at the RSE.
   */
  lemma SingleFileError(rses: map<RseName, RseInfo>, dids: map<Did, DidRecord>, rows: map<ReplicaKey, Replica>,
                        rse: RseName, f: FileSpec)
    ensures Insertion.AddReplicasError(rses, dids, rows, rse, [f]) ==
            if rse !in rses then Some(RSENotFound)
            else if f.did in dids && dids[f.did].didType != FILE then Some(RucioException)
            else if !rses[rse].deterministic && f.pfn.None? then Some(UnsupportedOperation)
            else if ReplicaKey(rse, f.did) in rows then Some(Duplicate)
            else None
  {
    var nf := Registration.NewFiles(dids, [f]);
    var k := ReplicaKey(rse, f.did);
    assert [f][..0] == [] && [f][0] == f && f in [f];
    assert Registration.NewFiles(dids, []) == [];
    assert nf == if Registration.IsFileRecord(dids, f.did) then [] else [f];
    assert Registration.FileDids([]) == {};
    assert Registration.Conflict(dids, nf) <==> f.did in dids && dids[f.did].didType != FILE;
    assert Insertion.PfnMissing([f]) <==> f.pfn.None?;
    assert Insertion.KeysOf(rse, []) == {};
    assert Insertion.ReplicaConflict(rows, rse, [f]) <==> k in rows;
  }

  /**
    A successful `add_replicas` keeps the catalog consistent: the records it
    registers are FILE records, every inserted row belongs to one, and the
    counter grows by what was inserted.
   */
  lemma AddKeepsConsistent(dids: map<Did, DidRecord>, edges: set<Edge>, rows: map<ReplicaKey, Replica>,
                           counters: map<RseName, Usage>, rse: RseName, files: seq<FileSpec>, account: string,
                           deterministic: bool, parsePfn: (RseName, string) -> Insertion.PfnParts, now: int)
    requires Consistent(dids, edges, rows, counters)
    requires !Registration.Conflict(dids, Registration.NewFiles(dids, files))
    requires deterministic || !Insertion.PfnMissing(files)
    requires !Insertion.ReplicaConflict(rows, rse, files)
    ensures Consistent(Registration.Staged(dids, Registration.NewFiles(dids, files), account), edges,
                       Insertion.InsertRows(rows, rse, Insertion.WithPaths(rse, deterministic, files, parsePfn), now),
                       counters[rse := Plus(CounterOf(counters, rse), Usage(|files|, Insertion.SumBytes(files)))])
  {
    var staged := Registration.Staged(dids, Registration.NewFiles(dids, files), account);
    var paths := Insertion.WithPaths(rse, deterministic, files, parsePfn);
    Registration.RegistrationEffect(dids, files, account);
    RegisterKeepsConsistent(dids, edges, rows, counters, Registration.NewFiles(dids, files), account);
    Insertion.SameFilesAgree(rows, rse, paths, files);
    forall f | f in paths ensures Registration.IsFileRecord(staged, f.did) {
      var i :| 0 <= i < |paths| && paths[i] == f;
      assert files[i] in files;
    }
    InsertKeepsConsistent(staged, edges, rows, counters, rse, paths, now);
  }

  /** `rows'` is `rows` with one new row `row` under the fresh key `k`, every other row untouched. */
  predicate OneRowAdded(rows: map<ReplicaKey, Replica>, rows': map<ReplicaKey, Replica>, k: ReplicaKey, row: Replica)
  {
    && k !in rows
    && rows'.Keys == rows.Keys + {k}
    && rows'[k] == row
    && (forall j :: j in rows ==> rows'[j] == rows[j])
  }

  /**
    `dids'` is `dids` with `d` a FILE record, every other record untouched;
    when `d` had no record before, its record is `rec`.
   */
  predicate OneFileRegistered(dids: map<Did, DidRecord>, dids': map<Did, DidRecord>, d: Did, rec: DidRecord)
  {
    && dids'.Keys == dids.Keys + {d}
    && Registration.IsFileRecord(dids', d)
    && (forall x :: x in dids ==> dids'[x] == dids[x])
    && (d !in dids ==> dids'[d] == rec)
  }

  /**
    What `add_replica` adds: one row for the file carrying its size, checksums,
    path and tombstone, every other row untouched; the file registered with
    every other record untouched; and the file's row returned.
   */
  lemma SingleFileEffect(dids: map<Did, DidRecord>, rows: map<ReplicaKey, Replica>, rse: RseName, did: Did, bytes: int,
                         md5: Option<string>, adler32: Option<string>, pfn: Option<string>, tombstone: Option<int>,
                         account: string, deterministic: bool, parsePfn: (RseName, string) -> Insertion.PfnParts, now: int,
                         dids': map<Did, DidRecord>, rows': map<ReplicaKey, Replica>, out: seq<FileRow>)
    requires deterministic || pfn.Some?
    requires ReplicaKey(rse, did) !in rows
    requires var f := FileSpec(did, bytes, md5, adler32, None, pfn, None, tombstone);
             && !Registration.Conflict(dids, Registration.NewFiles(dids, [f]))
             && dids' == Registration.Staged(dids, Registration.NewFiles(dids, [f]), account)
             && rows' == Insertion.InsertRows(rows, rse, Insertion.WithPaths(rse, deterministic, [f], parsePfn), now)
             && out == Registration.SpecRows(Registration.NewFiles(dids, [f])) + Registration.AvailableRows(dids, [f])
    ensures OneRowAdded(rows, rows', ReplicaKey(rse, did),
                        Replica(bytes, if deterministic then None else Some(Insertion.PathOf(parsePfn(rse, pfn.value))),
                                AVAILABLE, md5, adler32, 0, Some(if tombstone.Some? then tombstone.value else now + TWO_WEEKS)))
    ensures Insertion.SumBytes([FileSpec(did, bytes, md5, adler32, None, pfn, None, tombstone)]) == bytes
    ensures OneFileRegistered(dids, dids', did, DidRecord(FILE, bytes, md5, adler32, account, true))
    ensures out == [if did in dids then Registration.RecordRow(did, dids[did]) else FileRow(did, bytes, md5, adler32)]
  {
    var f := FileSpec(did, bytes, md5, adler32, None, pfn, None, tombstone);
    SingleFileRow(rows, rse, f, deterministic, parsePfn, now);
    SingleFileRecord(dids, f, account);
    SingleFileReturned(dids, f);
  }

  /** The row half of `SingleFileEffect`. */
  lemma SingleFileRow(rows: map<ReplicaKey, Replica>, rse: RseName, f: FileSpec,
                      deterministic: bool, parsePfn: (RseName, string) -> Insertion.PfnParts, now: int)
    requires deterministic || f.pfn.Some?
    requires ReplicaKey(rse, f.did) !in rows
    ensures OneRowAdded(rows, Insertion.InsertRows(rows, rse, Insertion.WithPaths(rse, deterministic, [f], parsePfn), now),
                        ReplicaKey(rse, f.did),
                        Replica(f.bytes, if deterministic then f.path else Some(Insertion.PathOf(parsePfn(rse, f.pfn.value))),
                                AVAILABLE, f.md5, f.adler32, 0,
                                Some(if f.tombstone.Some? then f.tombstone.value else now + TWO_WEEKS)))
    ensures Insertion.SumBytes([f]) == f.bytes
  {
    assert f in [f] && [f][..0] == [];
    var paths := Insertion.WithPaths(rse, deterministic, [f], parsePfn);
    assert paths == [paths[0]] && paths[..0] == [];
    assert Insertion.KeysOf(rse, paths) == {ReplicaKey(rse, f.did)};
    Insertion.InsertedRows(rows, rse, paths, now);
    assert paths[0] in paths;
  }

  /** The record half of `SingleFileEffect`. */
  lemma SingleFileRecord(dids: map<Did, DidRecord>, f: FileSpec, account: string)
    requires !Registration.Conflict(dids, Registration.NewFiles(dids, [f]))
    ensures OneFileRegistered(dids, Registration.Staged(dids, Registration.NewFiles(dids, [f]), account),
                              f.did, Registration.NewRecord(f, account))
  {
    assert f in [f] && [f][..0] == [];
    Registration.RegistrationEffect(dids, [f], account);
    assert Registration.NewFiles(dids, []) == [];
    assert Registration.FileDids([f]) == {f.did};
  }

  /** What `add_replicas` returns for one entry: the existing FILE record, or the entry itself. */
  lemma SingleFileReturned(dids: map<Did, DidRecord>, f: FileSpec)
    requires !Registration.Conflict(dids, Registration.NewFiles(dids, [f]))
    ensures Registration.SpecRows(Registration.NewFiles(dids, [f])) + Registration.AvailableRows(dids, [f]) ==
            [if f.did in dids then Registration.RecordRow(f.did, dids[f.did]) else Registration.SpecRow(f)]
  {
    assert [f][..0] == [];
    assert Registration.NewFiles(dids, []) == [];
    assert Registration.AvailableRows(dids, []) == [];
    assert Registration.RowDids([]) == {};
  }

  /** The rows of one RSE that are being deleted and still carry a tombstone. */
  function BeingDeletedKeys(rows: map<ReplicaKey, Replica>, rse: RseName): set<ReplicaKey>
  {
    set k | k in rows && k.rse == rse && rows[k].tombstone.Some? && rows[k].state == BEING_DELETED
  }

  /** The deletion backlog of an RSE never counts more files than its counter. */
  lemma BacklogWithinCounter(dids: map<Did, DidRecord>, edges: set<Edge>, rows: map<ReplicaKey, Replica>,
                             counters: map<RseName, Usage>, rse: RseName)
    requires Consistent(dids, edges, rows, counters)
    ensures Sum(rows, BeingDeletedKeys(rows, rse)).files <= CounterOf(counters, rse).files
  {
    Collections.SubsetCard(BeingDeletedKeys(rows, rse), KeysAt(rows, rse));
  }

  class ReplicaCatalog {
    const rses: map<RseName, RseInfo>
    var dids: map<Did, DidRecord>
    var edges: set<Edge>
    var replicas: map<ReplicaKey, Replica>
    var counters: map<RseName, Usage>

    ghost predicate Valid()
      reads this
    {
      Consistent(dids, edges, replicas, counters)
    }

    /**
      A catalog over the given RSEs, identifiers and containment edges (which
      other parts of the system maintain), with no replica yet.
     */
    constructor (rses: map<RseName, RseInfo>, dids: map<Did, DidRecord>, edges: set<Edge>)
      requires forall e :: e in edges ==> e.parent in dids && dids[e.parent].didType != FILE
      ensures Valid()
      ensures this.rses == rses && this.dids == dids && this.edges == edges
      ensures replicas == map[] && counters == map[]
    {
      this.rses := rses;
      this.dids := dids;
      this.edges := edges;
      replicas := map[];
      counters := map[];
      new;
      forall r ensures CounterOf(counters, r) == UsageAt(replicas, r) {
        assert KeysAt(replicas, r) == {};
      }
    }

    /** `__bulk_add_new_file_dids`: save a FILE record per entry; a collision at flush fails the call. */
    method BulkAddNewFileDids(files: seq<FileSpec>, account: string) returns (err: Option<CatalogError>)
      requires Valid()
      modifies this
      ensures Valid()
      ensures err.None? <==> !Registration.Conflict(old(dids), files)
      ensures err.Some? ==> err.value == RucioException && dids == old(dids)
      ensures err.None? ==> dids == Registration.Staged(old(dids), files, account)
      ensures edges == old(edges) && replicas == old(replicas) && counters == old(counters)
    {
      var staged, conflict := Registration.SaveFiles(dids, files, account);
      if conflict {
        return Some(RucioException);
      }
      RegisterKeepsConsistent(dids, edges, replicas, counters, files, account);
      dids := staged;
      err := None;
    }

    /**
      `__bulk_add_file_dids`: find the requested identifiers that already
      have a FILE record, register the others, and return the new entries
      followed by the existing records.
     */
    method BulkAddFileDids(files: seq<FileSpec>, account: string) returns (r: Result<seq<FileRow>>)
      requires Valid()
      modifies this
      ensures Valid()
      ensures r.Ok? <==> !Registration.Conflict(old(dids), Registration.NewFiles(old(dids), files))
      ensures r.Err? ==> r.error == RucioException && dids == old(dids)
      ensures r.Ok? ==>
                && r.value == Registration.SpecRows(Registration.NewFiles(old(dids), files)) + Registration.AvailableRows(old(dids), files)
                && dids == Registration.Staged(old(dids), Registration.NewFiles(old(dids), files), account)
      ensures edges == old(edges) && replicas == old(replicas) && counters == old(counters)
    {
      var available := Registration.AvailableRows(dids, files);
      var newFiles := Registration.SplitNewFiles(dids, files, available);
      var err := BulkAddNewFileDids(newFiles, account);
      if err.Some? {
        return Err(err.value);
      }
      r := Ok(Registration.SpecRows(newFiles) + available);
    }

    /**
      `__bulk_add_replicas`: save an AVAILABLE row per entry and report the
      number of files and bytes; a key collision at flush is a Duplicate.
      The counters are the caller's to update.
     */
    method BulkAddReplicas(rse: RseName, files: seq<FileSpec>, now: int) returns (r: Result<Usage>)
      modifies this
      ensures r.Ok? <==> !Insertion.ReplicaConflict(old(replicas), rse, files)
      ensures r.Err? ==> r.error == Duplicate && replicas == old(replicas)
      ensures r.Ok? ==>
                && r.value == Usage(|files|, Insertion.SumBytes(files))
                && replicas == Insertion.InsertRows(old(replicas), rse, files, now)
      ensures dids == old(dids) && edges == old(edges) && counters == old(counters)
    {
      var staged, nbFiles, bytes, duplicate := Insertion.SaveReplicas(replicas, rse, files, now);
      if duplicate {
        return Err(Duplicate);
      }
      replicas := staged;
      r := Ok(Usage(nbFiles, bytes));
    }

    /**
      `add_replicas`: check the RSE, register the files, resolve paths on a
      non-deterministic RSE, insert the rows and raise the RSE counter; any
      failure leaves the catalog as it was.
     */
    method AddReplicas(rse: RseName, files: seq<FileSpec>, account: string, now: int,
                       parsePfn: (RseName, string) -> Insertion.PfnParts)
      returns (r: Result<seq<FileRow>>)
      requires Valid()
      modifies this
      ensures Valid()
      ensures r.Err? <==> Insertion.AddReplicasError(rses, old(dids), old(replicas), rse, files).Some?
      ensures r.Err? ==> Insertion.AddReplicasError(rses, old(dids), old(replicas), rse, files) == Some(r.error)
      ensures r.Err? ==> dids == old(dids) && replicas == old(replicas) && counters == old(counters)
      ensures r.Ok? ==>
                var newFiles := Registration.NewFiles(old(dids), files);
                && r.value == Registration.SpecRows(newFiles) + Registration.AvailableRows(old(dids), files)
                && dids == Registration.Staged(old(dids), newFiles, account)
                && replicas == Insertion.InsertRows(old(replicas), rse,
                                 Insertion.WithPaths(rse, rses[rse].deterministic, files, parsePfn), now)
                && counters == old(counters)[rse := Plus(CounterOf(old(counters), rse), Usage(|files|, Insertion.SumBytes(files)))]
      ensures edges == old(edges)
    {
      if rse !in rses {
        return Err(RSENotFound);
      }
      var snapshot := dids;
      var registered := BulkAddFileDids(files, account);
      if registered.Err? {
        return Err(registered.error);
      }
      var added := InsertResolved(rse, files, now, parsePfn);
      if added.Err? {
        dids := snapshot;
        return Err(added.error);
      }
      AddKeepsConsistent(snapshot, edges, old(replicas), counters, rse, files, account,
                         rses[rse].deterministic, parsePfn, now);
      Increase(rse, added.value);
      r := Ok(registered.value);
    }

    /**
      The second half of `add_replicas` on a known RSE: on a non-deterministic
      RSE derive each path from its pfn (an entry without a pfn fails the
      call), then insert the rows.
     */
    method InsertResolved(rse: RseName, files: seq<FileSpec>, now: int, parsePfn: (RseName, string) -> Insertion.PfnParts)
      returns (r: Result<Usage>)
      requires rse in rses
      modifies this
      ensures r.Err? <==> (!rses[rse].deterministic && Insertion.PfnMissing(files))
                          || Insertion.ReplicaConflict(old(replicas), rse, files)
      ensures r.Err? ==> replicas == old(replicas)
      ensures r.Err? ==> r.error == if !rses[rse].deterministic && Insertion.PfnMissing(files) then UnsupportedOperation else Duplicate
      ensures r.Ok? ==>
                && r.value == Usage(|files|, Insertion.SumBytes(files))
                && replicas == Insertion.InsertRows(old(replicas), rse,
                                 Insertion.WithPaths(rse, rses[rse].deterministic, files, parsePfn), now)
      ensures dids == old(dids) && edges == old(edges) && counters == old(counters)
    {
      var toInsert := files;
      if !rses[rse].deterministic {
        var resolved := Insertion.ResolvePaths(rse, files, parsePfn);
        if resolved.Err? {
          return Err(resolved.error);
        }
        toInsert := resolved.value;
      }
      assert toInsert == Insertion.WithPaths(rse, rses[rse].deterministic, files, parsePfn);
      Insertion.SameFilesAgree(replicas, rse, toInsert, files);
      r := BulkAddReplicas(rse, toInsert, now);
    }

    /** The counter update of `add_replicas`: the RSE gains the inserted files and bytes. */
    method Increase(rse: RseName, delta: Usage)
      modifies this
      ensures counters == old(counters)[rse := Plus(CounterOf(old(counters), rse), delta)]
      ensures dids == old(dids) && edges == old(edges) && replicas == old(replicas)
    {
      counters := counters[rse := Plus(CounterOf(counters, rse), delta)];
    }

    /** `add_replica`: `add_replicas` with one entry and no account of its own. */
    method AddReplica(rse: RseName, did: Did, bytes: int, account: string, md5: Option<string>, adler32: Option<string>,
                      pfn: Option<string>, tombstone: Option<int>, now: int,
                      parsePfn: (RseName, string) -> Insertion.PfnParts)
      returns (r: Result<seq<FileRow>>)
      requires Valid()
      modifies this
      ensures Valid()
      ensures r.Err? <==>
                || rse !in rses
                || (did in old(dids) && old(dids)[did].didType != FILE)
                || (!rses[rse].deterministic && pfn.None?)
                || ReplicaKey(rse, did) in old(replicas)
      ensures r.Err? ==> dids == old(dids) && replicas == old(replicas) && counters == old(counters)
      ensures r.Ok? ==>
                && OneRowAdded(old(replicas), replicas, ReplicaKey(rse, did),
                               Replica(bytes, if rses[rse].deterministic then None else Some(Insertion.PathOf(parsePfn(rse, pfn.value))),
                                       AVAILABLE, md5, adler32, 0, Some(if tombstone.Some? then tombstone.value else now + TWO_WEEKS)))
                && OneFileRegistered(old(dids), dids, did, DidRecord(FILE, bytes, md5, adler32, account, true))
                && r.value == [if did in old(dids) then Registration.RecordRow(did, old(dids)[did]) else FileRow(did, bytes, md5, adler32)]
                && counters == old(counters)[rse := Plus(CounterOf(old(counters), rse), Usage(1, bytes))]
      ensures edges == old(edges)
    {
      var f := FileSpec(did, bytes, md5, adler32, None, pfn, None, tombstone);
      SingleFileError(rses, dids, replicas, rse, f);
      r := AddReplicas(rse, [f], account, now, parsePfn);
      if r.Ok? {
        SingleFileEffect(old(dids), old(replicas), rse, did, bytes, md5, adler32, pfn, tombstone, account,
                         rses[rse].deterministic, parsePfn, now, dids, replicas, r.value);
      }
    }

    /**
      `delete_replicas`: delete the requested rows of one RSE; unless every
      requested identifier matched exactly one row the call fails. Then remove
      the edges of files left without any replica, the closed parents left
      empty, and the records of files left without any replica, and lower the
      RSE counter. A request naming no file selects every row of every RSE,
      because the empty condition is left out of the query.
     */
    method DeleteReplicas(rse: RseName, files: seq<Did>) returns (err: Option<CatalogError>)
      requires Valid()
      modifies this
      ensures Valid()
      ensures err.None? <==> rse in rses && |Cascade.RequestedKeys(old(replicas), rse, files)| == |files|
      ensures err.Some? ==>
                && dids == old(dids) && edges == old(edges) && replicas == old(replicas) && counters == old(counters)
                && err.value == if rse !in rses then RSENotFound
                                else ReplicaNotFound(DidsOf(Cascade.RequestedKeys(old(replicas), rse, files)))
      ensures err.None? ==>
                var out := if files == [] then Cascade.EmptyDeleteOutcome(old(edges), old(dids))
                           else Cascade.DeleteOutcome(old(replicas), old(edges), old(dids), rse, files);
                && replicas == out.rows && edges == out.edges && dids == out.dids
                && counters == old(counters)[rse := Minus(CounterOf(old(counters), rse), out.removed)]
    {
      if rse !in rses {
        return Some(RSENotFound);
      }
      var matched := Cascade.RequestedKeys(replicas, rse, files);
      var rowsAfter, removed, found, count := Cascade.RemoveMatched(replicas, matched);
      if count != |files| {
        return Some(ReplicaNotFound(found));
      }
      if count == 0 {
        UnlinkAll(rse);
      } else {
        UnlinkOrphans(rse, files, matched, rowsAfter, removed, found);
      }
      err := None;
    }

    /**
      The second half of `delete_replicas` when no row was deleted, which
      happens only for a request naming no file on a catalog without rows:
      the parent condition is an empty disjunction as well and selects every
      edge, so every edge is deleted, then the closed parents left empty.
     */
    method UnlinkAll(rse: RseName)
      requires Valid() && replicas == map[]
      modifies this
      ensures Valid()
      ensures var out := Cascade.EmptyDeleteOutcome(old(edges), old(dids));
              && replicas == out.rows && edges == out.edges && dids == out.dids
              && counters == old(counters)[rse := Minus(CounterOf(old(counters), rse), out.removed)]
    {
      var kept, parents := Cascade.RemoveOrphanEdges(edges, Cascade.ChildrenOf(edges));
      var withoutParents := Cascade.RemoveEmptyClosedParents(dids, kept, parents);
      var withoutFiles := Cascade.RemoveOrphanRecords(withoutParents, replicas, {});
      Cascade.EveryEdgeSelected(edges);
      assert withoutFiles == withoutParents;
      EmptyDeleteKeepsConsistent(dids, edges, replicas, counters, rse);
      edges, dids := kept, withoutFiles;
      Decrease(rse, Usage(0, 0));
    }

    /**
      The second half of `delete_replicas` once the matched rows are gone:
      delete the edges of deleted files left without any replica, then the
      closed parents left empty, then the records of those files, and lower
      the RSE counter.
     */
    method UnlinkOrphans(rse: RseName, files: seq<Did>, matched: set<ReplicaKey>, rowsAfter: map<ReplicaKey, Replica>,
                         removed: Usage, found: set<Did>)
      requires Valid() && files != []
      requires matched == Cascade.MatchedKeys(replicas, rse, files)
      requires rowsAfter == replicas - matched && removed == Sum(replicas, matched) && found == DidsOf(matched)
      modifies this
      ensures Valid()
      ensures var out := Cascade.DeleteOutcome(old(replicas), old(edges), old(dids), rse, files);
              && replicas == out.rows && edges == out.edges && dids == out.dids
              && counters == old(counters)[rse := Minus(CounterOf(old(counters), rse), out.removed)]
    {
      var orphans := Cascade.Orphans(rowsAfter, matched);
      var kept, parents := Cascade.RemoveOrphanEdges(edges, orphans);
      var withoutParents := Cascade.RemoveEmptyClosedParents(dids, kept, parents);
      var withoutFiles := Cascade.RemoveOrphanRecords(withoutParents, rowsAfter, found);
      OrphanCleanup(dids, edges, replicas, counters, rse, files, kept, parents, withoutParents, withoutFiles);
      replicas, edges, dids := rowsAfter, kept, withoutFiles;
      Decrease(rse, removed);
    }

    /** The counter update of `delete_replicas`: the RSE loses the deleted files and bytes. */
    method Decrease(rse: RseName, delta: Usage)
      modifies this
      ensures counters == old(counters)[rse := Minus(CounterOf(old(counters), rse), delta)]
      ensures dids == old(dids) && edges == old(edges) && replicas == old(replicas)
    {
      counters := counters[rse := Minus(CounterOf(counters, rse), delta)];
    }

    /** `get_replica`: the row of an identifier at an RSE. */
    function GetReplica(rse: RseName, did: Did): (r: Result<Replica>)
      reads this
      ensures r.Ok? <==> rse in rses && ReplicaKey(rse, did) in replicas
      ensures r.Err? ==> r.error == if rse !in rses then RSENotFound else NoResultFound
      ensures r.Ok? ==> r.value == replicas[ReplicaKey(rse, did)]
    {
      if rse !in rses then Err(RSENotFound)
      else if ReplicaKey(rse, did) !in replicas then Err(NoResultFound)
      else Ok(replicas[ReplicaKey(rse, did)])
    }

    /**
      `list_unlocked_replicas`: the garbage-collection candidates of an RSE,
      oldest tombstone first, capped at `limit` (so the oldest candidates are
      the ones returned), restricted to one worker's
      share when the worker arguments ask for it.
     */
    ghost function ListUnlockedReplicas(rse: RseName, limit: Option<nat>, worker: Option<int>, total: Option<int>,
                                        now: int, hash: string -> nat): (r: Result<seq<GcSelection.GcRow>>)
      reads this
      ensures r.Err? <==> rse !in rses
      ensures r.Err? ==> r.error == RSENotFound
      ensures r.Ok? ==>
                var out := r.value;
                var cands := GcSelection.Candidates(replicas, rse, now, hash, worker, total);
                && (limit.Some? ==> |out| <= limit.value)
                && (forall i :: 0 <= i < |out| ==> GcSelection.RowOfCandidate(replicas, rse, cands, out[i]))
                && (forall i, j :: 0 <= i < j < |out| ==> out[i].did != out[j].did)
                && (forall i, j :: 0 <= i < j < |out| ==>
                      replicas[ReplicaKey(rse, out[i].did)].tombstone.value <= replicas[ReplicaKey(rse, out[j].did)].tombstone.value)
                && ((limit.None? || |out| < limit.value) ==>
                      forall k :: k in cands ==> exists i :: 0 <= i < |out| && out[i].did == k.did)
                && GcSelection.OldestReturned(replicas, rse, cands, out)
    {
      if rse !in rses then Err(RSENotFound)
      else
        GcSelection.UnlockedRowsSpec(replicas, rse, now, limit, hash, worker, total);
        Ok(GcSelection.Rows(GcSelection.Selection(replicas, rse, now, limit, hash, worker, total)))
    }

    /**
      `get_sum_count_being_deleted`: the number and total size of the rows of
      an RSE that are being deleted and carry a tombstone; zero when there is
      none.
     */
    ghost function GetSumCountBeingDeleted(rse: RseName): (u: Usage)
      reads this
      ensures u.files == |BeingDeletedKeys(replicas, rse)|
      ensures BeingDeletedKeys(replicas, rse) == {} ==> u == Usage(0, 0)
    {
      Sum(replicas, BeingDeletedKeys(replicas, rse))
    }

    /**
      `update_replicas_states`: apply the entries in order; an unknown RSE,
      a missing row, or a locked row asked to enter BEING_DELETED fails the
      whole batch.
     */
    method UpdateReplicasStates(updates: seq<Transitions.StateUpdate>) returns (err: Option<CatalogError>)
      requires Valid()
      modifies this
      ensures Valid()
      ensures err.None? <==> Transitions.AllUpdatable(rses, old(replicas), updates)
      ensures err.Some? ==> replicas == old(replicas) && Transitions.ApplyUpdates(rses, old(replicas), updates) == Err(err.value)
      ensures err.None? ==>
                && Transitions.SameButStates(old(replicas), replicas)
                && forall k :: k in old(replicas) ==> replicas[k].state == Transitions.FinalState(updates, k, old(replicas)[k].state)
      ensures dids == old(dids) && edges == old(edges) && counters == old(counters)
    {
      Transitions.ApplyUpdatesSpec(rses, replicas, updates);
      var result := Transitions.ApplyAll(rses, replicas, updates);
      if result.Err? {
        return Some(result.error);
      }
      StatesKeepConsistent(dids, edges, replicas, result.value, counters);
      replicas := result.value;
      err := None;
    }

    /** `update_replica_state`: one entry. */
    method UpdateReplicaState(rse: RseName, did: Did, state: ReplicaState) returns (err: Option<CatalogError>)
      requires Valid()
      modifies this
      ensures Valid()
      ensures err.None? <==> rse in rses && Transitions.Updatable(old(replicas), Transitions.StateUpdate(rse, did, state))
      ensures err.Some? ==> replicas == old(replicas) && err.value == if rse !in rses then RSENotFound else UnsupportedOperation
      ensures err.None? ==>
                var k := ReplicaKey(rse, did);
                replicas == old(replicas)[k := old(replicas)[k].(state := state)]
      ensures dids == old(dids) && edges == old(edges) && counters == old(counters)
    {
      var u := Transitions.StateUpdate(rse, did, state);
      assert [u][1..] == [] && [u][..0] == [] && [u][0] == u;
      assert Transitions.AllUpdatable(rses, replicas, [u]) <==> rse in rses && Transitions.Updatable(replicas, u);
      err := UpdateReplicasStates([u]);
      if err.None? {
        var k := ReplicaKey(rse, did);
        forall j | j in old(replicas) ensures replicas[j] == old(replicas)[k := old(replicas)[k].(state := state)][j] {
          assert Transitions.FinalState([u], j, old(replicas)[j].state) == if j == k then state else old(replicas)[j].state;
          assert replicas[j] == old(replicas)[j].(state := Transitions.FinalState([u], j, old(replicas)[j].state));
        }
        assert replicas.Keys == old(replicas).Keys;
      }
    }

    /**
      `update_replica_lock_counter`: move the lock count by `value` and set the
      tombstone to now exactly when the count reaches zero; the result says
      whether a row was updated.
     */
    method UpdateReplicaLockCounter(rse: RseName, did: Did, value: int, now: int) returns (r: Result<bool>)
      requires Valid()
      modifies this
      ensures Valid()
      ensures r.Err? <==> rse !in rses
      ensures r.Err? ==> r.error == RSENotFound && replicas == old(replicas)
      ensures r.Ok? ==> (r.value <==> ReplicaKey(rse, did) in old(replicas))
      ensures r == Ok(true) ==>
                var k := ReplicaKey(rse, did);
                replicas == old(replicas)[k := Locking.ApplyLock(old(replicas)[k], value, now)]
      ensures r != Ok(true) ==> replicas == old(replicas)
      ensures dids == old(dids) && edges == old(edges) && counters == old(counters)
    {
      if rse !in rses {
        return Err(RSENotFound);
      }
      var k := ReplicaKey(rse, did);
      if k !in replicas {
        return Ok(false);
      }
      LockKeepsConsistent(dids, edges, replicas, counters, k, value, now);
      replicas := replicas[k := Locking.ApplyLock(replicas[k], value, now)];
      r := Ok(true);
    }

    /**
      `list_replicas`: resolve every requested identifier to files (the
      first unknown one fails the call), read the replica rows of those files
      in an allowed state, and group them per file and RSE with the names the
      RSE's protocols give.
     */
    method ListReplicas(request: seq<Did>, schemes: seq<string>, unavailable: bool,
                        protocols: RseName -> seq<Listing.Protocol>,
                        lfn2pfn: (RseName, Did, Listing.Protocol) -> string, ghost rank: Did -> nat)
      returns (r: Result<map<Did, Listing.FileEntry>>)
      requires Listing.Ranked(edges, rank)
      ensures r.Ok? <==> forall d :: d in request ==> d in dids
      ensures r.Err? ==> Listing.RequestFiles(dids, edges, rank, request) == Err(r.error)
      ensures r.Ok? ==>
                var hits := Listing.Hits(replicas, Listing.RequestFiles(dids, edges, rank, request).value, unavailable);
                Listing.Describes(r.value, replicas, hits, protocols, schemes, lfn2pfn)
    {
      var files: set<Did> := {};
      var i := 0;
      while i < |request|
        invariant 0 <= i <= |request|
        invariant Listing.RequestFiles(dids, edges, rank, request[..i]) == Ok(files)
      {
        var d := request[i];
        assert request[..i + 1][..i] == request[..i] && request[..i + 1][i] == d;
        if d !in dids {
          RequestFilesFails(dids, edges, rank, request, i);
          return Err(DataIdentifierNotFound(d));
        }
        if dids[d].didType == FILE {
          files := files + {d};
        } else {
          var below := Listing.ExpandCollection(edges, d, rank);
          files := files + below;
        }
        i := i + 1;
      }
      assert request[..i] == request;
      var hits := Listing.Hits(replicas, files, unavailable);
      var listing := Listing.GroupReplicas(replicas, hits, protocols, schemes, lfn2pfn);
      r := Ok(listing);
    }
  }

  /** Once a prefix fails, the whole request fails with the same error. */
  lemma {:induction false} RequestFilesFails(dids: map<Did, DidRecord>, edges: set<Edge>, rank: Did -> nat,
                                             request: seq<Did>, i: nat)
    requires i < |request| && request[i] !in dids
    requires Listing.RequestFiles(dids, edges, rank, request[..i]).Ok?
    ensures Listing.RequestFiles(dids, edges, rank, request) == Err(DataIdentifierNotFound(request[i]))
    decreases |request|
  {
    var n := |request| - 1;
    assert request[..i + 1][..i] == request[..i];
    if i < n {
      assert request[..n][..i] == request[..i] && request[..n][i] == request[i];
      RequestFilesFails(dids, edges, rank, request[..n], i);
    }
  }
}
