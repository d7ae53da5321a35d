/**
  Cascading deletion (`delete_replicas`): which rows a request matches, when
  the batch is refused, and what the cleanup removes one level up —
  containment edges of orphaned files, empty closed parents, orphaned file
  records — and what the RSE counter loses.
 */
module Cascade {
  import opened ReplicaTypes
  import opened Tally
  import opened Collections

  /** The rows at `rse` whose identifier is requested. */
  function MatchedKeys(rows: map<ReplicaKey, Replica>, rse: RseName, files: seq<Did>): set<ReplicaKey>
  {
    set k | k in rows && k.rse == rse && k.did in files
  }

  /**
    The rows the request's condition selects. The condition is a disjunction
    with one term per requested file; with no file it is an empty disjunction,
    which SQLAlchemy leaves out of the query, so then every row of every RSE
    is selected.
   */
  function RequestedKeys(rows: map<ReplicaKey, Replica>, rse: RseName, files: seq<Did>): set<ReplicaKey>
  {
    if files == [] then rows.Keys else MatchedKeys(rows, rse, files)
  }

  predicate HasReplica(rows: map<ReplicaKey, Replica>, d: Did)
  {
    exists k :: k in rows && k.did == d
  }

  predicate HasChildren(edges: set<Edge>, p: Did)
  {
    exists e :: e in edges && e.parent == p
  }

  /** Deleted identifiers that have no replica left on any RSE. */
  function Orphans(rowsAfter: map<ReplicaKey, Replica>, matched: set<ReplicaKey>): set<Did>
  {
    set k | k in matched && !HasReplica(rowsAfter, k.did) :: k.did
  }

  /** The edges left once every edge whose child is an orphan is gone (one level only). */
  function EdgesAfter(edges: set<Edge>, orphans: set<Did>): set<Edge>
  {
    set e | e in edges && e.child !in orphans
  }

  /** The parents of the removed edges. */
  function AffectedParents(edges: set<Edge>, orphans: set<Did>): set<Did>
  {
    set e | e in edges && e.child in orphans :: e.parent
  }

  /** Affected parents that are closed and have no edge left. */
  function DeletedParents(dids: map<Did, DidRecord>, edgesAfter: set<Edge>, parents: set<Did>): set<Did>
  {
    set p | p in parents && p in dids && !dids[p].isOpen && !HasChildren(edgesAfter, p)
  }

  /** The whole effect of a successful delete on rows, edges and records. */
  datatype Outcome = Outcome(
    rows: map<ReplicaKey, Replica>,
    edges: set<Edge>,
    dids: map<Did, DidRecord>,
    removed: Usage)

  ghost function DeleteOutcome(rows: map<ReplicaKey, Replica>, edges: set<Edge>, dids: map<Did, DidRecord>,
                               rse: RseName, files: seq<Did>): Outcome
  {
    var matched := MatchedKeys(rows, rse, files);
    var rowsAfter := rows - matched;
    var orphans := Orphans(rowsAfter, matched);
    var edgesAfter := EdgesAfter(edges, orphans);
    var parents := AffectedParents(edges, orphans);
    var gone := DeletedParents(dids, edgesAfter, parents);
    Outcome(rowsAfter, edgesAfter, dids - gone - orphans, Sum(rows, matched))
  }

  function ChildrenOf(edges: set<Edge>): set<Did>
  {
    set e | e in edges :: e.child
  }

  function ParentsOf(edges: set<Edge>): set<Did>
  {
    set e | e in edges :: e.parent
  }

  /**
    The effect of a request naming no file that goes ahead, which it does
    only when no row exists anywhere: no row is deleted, so the parent
    condition is an empty disjunction too and selects every edge. Every edge
    is deleted, then every closed parent of one, which is now empty.
   */
  ghost function EmptyDeleteOutcome(edges: set<Edge>, dids: map<Did, DidRecord>): Outcome
  {
    Outcome(map[], {}, dids - DeletedParents(dids, {}, ParentsOf(edges)), Usage(0, 0))
  }

  /**
    A request naming no file fails unless the catalog holds no row at all,
    and then it removes every edge and every closed collection that had one,
    and no other record.
   */
  lemma EmptyRequest(rows: map<ReplicaKey, Replica>, edges: set<Edge>, dids: map<Did, DidRecord>, rse: RseName)
    ensures |RequestedKeys(rows, rse, [])| == 0 <==> rows == map[]
    ensures DidsOf(RequestedKeys(rows, rse, [])) == set k | k in rows :: k.did
    ensures var out := EmptyDeleteOutcome(edges, dids);
            && out.edges == {}
            && (forall d :: d in dids ==>
                  (d !in out.dids <==> !dids[d].isOpen && exists e :: e in edges && e.parent == d))
            && (forall d :: d in out.dids ==> d in dids && out.dids[d] == dids[d])
  {
    if |rows.Keys| == 0 {
      assert rows.Keys == {};
    }
    var out := EmptyDeleteOutcome(edges, dids);
    forall d | d in dids && !dids[d].isOpen && exists e :: e in edges && e.parent == d
      ensures d !in out.dids
    {
      var e :| e in edges && e.parent == d;
      assert d in ParentsOf(edges);
    }
  }

  /** Treating every child as orphaned selects every edge: none is kept, and every parent is collected. */
  lemma EveryEdgeSelected(edges: set<Edge>)
    ensures EdgesAfter(edges, ChildrenOf(edges)) == {}
    ensures AffectedParents(edges, ChildrenOf(edges)) == ParentsOf(edges)
  {
    forall e | e in edges ensures e.child in ChildrenOf(edges) {
    }
  }

  /** Keys at one RSE and their identifiers are in one-to-one correspondence. */
  lemma {:induction false} KeysAtCard(keys: set<ReplicaKey>, rse: RseName)
    requires forall k :: k in keys ==> k.rse == rse
    ensures |set k | k in keys :: k.did| == |keys|
    decreases keys
  {
    if keys != {} {
      var k :| k in keys;
      KeysAtCard(keys - {k}, rse);
      assert (set j | j in keys :: j.did) == (set j | j in keys - {k} :: j.did) + {k.did};
      assert k.did !in (set j | j in keys - {k} :: j.did);
    }
  }

  /**
    The batch goes ahead exactly when the number of matched rows equals the
    number of requested entries, that is when every requested identifier has
    a row at the RSE and no identifier is requested twice.
   */
  lemma DeleteProceedsIff(rows: map<ReplicaKey, Replica>, rse: RseName, files: seq<Did>)
    ensures |MatchedKeys(rows, rse, files)| <= |files|
    ensures |MatchedKeys(rows, rse, files)| == |files| <==>
            Distinct(files) && forall d :: d in files ==> ReplicaKey(rse, d) in rows
  {
    var matched := MatchedKeys(rows, rse, files);
    var ids := set k | k in matched :: k.did;
    var requested := set d | d in files;
    KeysAtCard(matched, rse);
    CardSeqSet(files);
    assert ids <= requested;
    SubsetCard(ids, requested);
    if forall d :: d in files ==> ReplicaKey(rse, d) in rows {
      forall d | d in requested ensures d in ids {
        assert ReplicaKey(rse, d) in matched;
      }
      assert ids == requested;
    }
    if |matched| == |files| {
      assert |ids| == |requested| == |files|;
      assert ids == requested;
      forall d | d in files ensures ReplicaKey(rse, d) in rows {
        assert d in ids;
        var k :| k in matched && k.did == d;
      }
    }
  }

  /** A removed edge's child was deleted here and has no replica left on any RSE. */
  lemma EdgeRemovedOnlyForOrphan(rows: map<ReplicaKey, Replica>, edges: set<Edge>, dids: map<Did, DidRecord>,
                                 rse: RseName, files: seq<Did>, e: Edge)
    requires e in edges && e !in DeleteOutcome(rows, edges, dids, rse, files).edges
    ensures e.child in files && ReplicaKey(rse, e.child) in rows
    ensures !HasReplica(DeleteOutcome(rows, edges, dids, rse, files).rows, e.child)
  {
  }

  /** An edge whose child loses its last replica here is removed. */
  lemma OrphanEdgeRemoved(rows: map<ReplicaKey, Replica>, edges: set<Edge>, dids: map<Did, DidRecord>,
                          rse: RseName, files: seq<Did>, e: Edge)
    requires e in edges && e.child in files && ReplicaKey(rse, e.child) in rows
    requires !HasReplica(DeleteOutcome(rows, edges, dids, rse, files).rows, e.child)
    ensures e !in DeleteOutcome(rows, edges, dids, rse, files).edges
  {
    var matched := MatchedKeys(rows, rse, files);
    assert ReplicaKey(rse, e.child) in matched;
  }

  /**
    A record disappears only if it is an orphaned deleted file, or a closed
    parent of a removed edge that has no edge left.
   */
  lemma RecordRemovedOnlyIfOrphanOrEmptyClosedParent(rows: map<ReplicaKey, Replica>, edges: set<Edge>,
                                                     dids: map<Did, DidRecord>, rse: RseName, files: seq<Did>, d: Did)
    requires d in dids && d !in DeleteOutcome(rows, edges, dids, rse, files).dids
    ensures var out := DeleteOutcome(rows, edges, dids, rse, files);
            || (d in files && !HasReplica(out.rows, d))
            || (!dids[d].isOpen && !HasChildren(out.edges, d) && exists e :: e in edges && e !in out.edges && e.parent == d)
  {
  }

  /**
    Deleting a file's last replica removes its record; deleting one replica
    while another RSE still holds the file leaves the record, provided the
    file is not itself a parent in the containment graph.
   */
  lemma LastReplicaRemovesFile(rows: map<ReplicaKey, Replica>, edges: set<Edge>, dids: map<Did, DidRecord>,
                               rse: RseName, files: seq<Did>, d: Did)
    requires d in files && ReplicaKey(rse, d) in rows && d in dids
    requires !HasChildren(edges, d)
    ensures d !in DeleteOutcome(rows, edges, dids, rse, files).dids <==>
            forall k :: k in rows && k.did == d ==> k.rse == rse
  {
    var out := DeleteOutcome(rows, edges, dids, rse, files);
    var matched := MatchedKeys(rows, rse, files);
    if exists k :: k in rows && k.did == d && k.rse != rse {
      var k :| k in rows && k.did == d && k.rse != rse;
      assert k in out.rows;
      assert d !in AffectedParents(edges, Orphans(out.rows, matched));
    } else {
      assert ReplicaKey(rse, d) in matched;
      assert !HasReplica(out.rows, d);
    }
  }

  /** The RSE's aggregate drops by exactly the removed rows' count and bytes. */
  lemma {:induction false} RemoveRowsUsage(rows: map<ReplicaKey, Replica>, keys: set<ReplicaKey>, rse: RseName)
    requires keys <= rows.Keys && forall k :: k in keys ==> k.rse == rse
    ensures UsageAt(rows - keys, rse) == Minus(UsageAt(rows, rse), Sum(rows, keys))
    decreases keys
  {
    if keys == {} {
      EmptyRemoval(rows, keys, rse);
    } else {
      var k := Pick(keys);
      var rest := keys - {k};
      RemoveRowsUsage(rows, rest, rse);
      RemoveRowsStep(rows, keys, k, rse);
    }
  }

  lemma EmptyRemoval(rows: map<ReplicaKey, Replica>, keys: set<ReplicaKey>, rse: RseName)
    requires keys == {}
    ensures UsageAt(rows - keys, rse) == Minus(UsageAt(rows, rse), Sum(rows, keys))
  {
    assert rows - keys == rows;
  }

  lemma RemoveRowsStep(rows: map<ReplicaKey, Replica>, keys: set<ReplicaKey>, k: ReplicaKey, rse: RseName)
    requires keys <= rows.Keys && k in keys && k.rse == rse
    requires UsageAt(rows - (keys - {k}), rse) == Minus(UsageAt(rows, rse), Sum(rows, keys - {k}))
    ensures UsageAt(rows - keys, rse) == Minus(UsageAt(rows, rse), Sum(rows, keys))
  {
    var mid := rows - (keys - {k});
    MinusOneMore(rows, keys, k);
    SumRemove(rows, keys, k);
    RemoveStep(mid, k, rse, UsageAt(rows, rse), Sum(rows, keys - {k}));
  }

  lemma MinusOneMore(rows: map<ReplicaKey, Replica>, keys: set<ReplicaKey>, k: ReplicaKey)
    requires k in keys && k in rows
    ensures var mid := rows - (keys - {k});
            k in mid && mid - {k} == rows - keys && mid[k] == rows[k]
  {
    var mid := rows - (keys - {k});
    assert (mid - {k}).Keys == (rows - keys).Keys;
  }

  lemma RemoveStep(mid: map<ReplicaKey, Replica>, k: ReplicaKey, rse: RseName, base: Usage, gone: Usage)
    requires k in mid && k.rse == rse
    requires UsageAt(mid, rse) == Minus(base, gone)
    ensures UsageAt(mid - {k}, rse) == Minus(base, Plus(One(mid[k]), gone))
  {
    RemoveUsage(mid, k, rse);
  }

  /** Removing rows at `rse` leaves every other RSE's rows and aggregate as they were. */
  lemma RemoveRowsElsewhere(rows: map<ReplicaKey, Replica>, keys: set<ReplicaKey>, rse: RseName, other: RseName)
    requires other != rse && forall k :: k in keys ==> k.rse == rse
    ensures KeysAt(rows - keys, other) == KeysAt(rows, other)
    ensures UsageAt(rows - keys, other) == UsageAt(rows, other)
  {
    assert KeysAt(rows - keys, other) == KeysAt(rows, other);
    SumFrame(rows - keys, rows, KeysAt(rows, other));
  }

  /**
    The row loop of `delete_replicas`: delete each matched row, remember its
    identifier, count it and add up its bytes.
   */
  method RemoveMatched(rows: map<ReplicaKey, Replica>, matched: set<ReplicaKey>)
    returns (rowsAfter: map<ReplicaKey, Replica>, removed: Usage, found: set<Did>, count: nat)
    requires matched <= rows.Keys
    ensures rowsAfter == rows - matched
    ensures removed == Sum(rows, matched)
    ensures found == DidsOf(matched)
    ensures count == |matched|
  {
    rowsAfter, removed, found, count := rows, Usage(0, 0), {}, 0;
    var todo := matched;
    ghost var done: set<ReplicaKey> := {};
    while todo != {}
      invariant done <= matched && todo == matched - done
      invariant rowsAfter == rows - done
      invariant removed == Sum(rows, done)
      invariant found == DidsOf(done)
      invariant count == |done|
      decreases todo
    {
      var k :| k in todo;
      AddRow(rows, done, k);
      rowsAfter := rowsAfter - {k};
      removed := Usage(removed.files + 1, removed.bytes + rows[k].bytes);
      found := found + {k.did};
      count := count + 1;
      todo := todo - {k};
      done := done + {k};
    }
    assert done == matched;
  }

  lemma AddRow(rows: map<ReplicaKey, Replica>, done: set<ReplicaKey>, k: ReplicaKey)
    requires done <= rows.Keys && k in rows && k !in done
    ensures Sum(rows, done + {k}) == Plus(One(rows[k]), Sum(rows, done))
    ensures |done + {k}| == |done| + 1
    ensures DidsOf(done + {k}) == DidsOf(done) + {k.did}
    ensures rows - (done + {k}) == (rows - done) - {k}
  {
    SumRemove(rows, done + {k}, k);
    assert (done + {k}) - {k} == done;
  }

  /**
    The edge loop: delete each edge whose child lost its last replica and
    collect the distinct parents of the deleted edges.
   */
  method RemoveOrphanEdges(edges: set<Edge>, orphans: set<Did>) returns (kept: set<Edge>, parents: set<Did>)
    ensures kept == EdgesAfter(edges, orphans)
    ensures parents == AffectedParents(edges, orphans)
  {
    var hits := set e | e in edges && e.child in orphans;
    kept, parents := edges, {};
    var todo := hits;
    while todo != {}
      invariant todo <= hits
      invariant kept == edges - (hits - todo)
      invariant parents == set e | e in hits - todo :: e.parent
      decreases todo
    {
      var e :| e in todo;
      ghost var done := hits - todo;
      kept := kept - {e};
      parents := parents + {e.parent};
      todo := todo - {e};
      assert hits - todo == done + {e};
    }
    assert kept == EdgesAfter(edges, orphans);
  }

  /**
    The parent loop: delete each collected parent that is closed and has no
    content left.
   */
  method RemoveEmptyClosedParents(dids: map<Did, DidRecord>, edgesAfter: set<Edge>, parents: set<Did>)
    returns (dids': map<Did, DidRecord>)
    ensures dids' == dids - DeletedParents(dids, edgesAfter, parents)
  {
    dids' := dids;
    var todo := parents;
    while todo != {}
      invariant todo <= parents
      invariant dids' == dids - DeletedParents(dids, edgesAfter, parents - todo)
      decreases todo
    {
      var p :| p in todo;
      ghost var done := parents - todo;
      assert p !in DeletedParents(dids, edgesAfter, done);
      if p in dids' && !dids'[p].isOpen && !(exists e :: e in edgesAfter && e.parent == p) {
        dids' := dids' - {p};
        assert DeletedParents(dids, edgesAfter, done + {p}) == DeletedParents(dids, edgesAfter, done) + {p};
      } else {
        assert DeletedParents(dids, edgesAfter, done + {p}) == DeletedParents(dids, edgesAfter, done);
      }
      todo := todo - {p};
      assert parents - todo == done + {p};
    }
    assert parents - todo == parents;
  }

  /** The record loop: delete the record of each deleted identifier that has no replica left. */
  method RemoveOrphanRecords(dids: map<Did, DidRecord>, rowsAfter: map<ReplicaKey, Replica>, found: set<Did>)
    returns (dids': map<Did, DidRecord>)
    ensures dids' == dids - (set d | d in found && !HasReplica(rowsAfter, d))
  {
    dids' := dids;
    var todo := found;
    while todo != {}
      invariant todo <= found
      invariant dids' == dids - (set d | d in found - todo && !HasReplica(rowsAfter, d))
      decreases todo
    {
      var d :| d in todo;
      ghost var done := found - todo;
      if !(exists k :: k in rowsAfter && k.did == d) {
        dids' := dids' - {d};
        assert (set x | x in done + {d} && !HasReplica(rowsAfter, x)) == (set x | x in done && !HasReplica(rowsAfter, x)) + {d};
      } else {
        assert (set x | x in done + {d} && !HasReplica(rowsAfter, x)) == (set x | x in done && !HasReplica(rowsAfter, x));
      }
      todo := todo - {d};
      assert found - todo == done + {d};
    }
    assert found - todo == found;
  }
}
