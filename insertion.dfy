/**
  Bulk replica insertion (`__bulk_add_replicas`, `add_replicas`): the rows a
  request creates, when the flush reports a duplicate, and what the RSE
  counter gains.
 */
module Insertion {
  import opened ReplicaTypes
  import opened Tally
  import Registration

  /** The row created for one entry: AVAILABLE, unlocked, with the given tombstone or now + two weeks. */
  function NewReplica(f: FileSpec, now: int): Replica
  {
    Replica(f.bytes, f.path, AVAILABLE, f.md5, f.adler32, 0,
            Some(if f.tombstone.Some? then f.tombstone.value else now + TWO_WEEKS))
  }

  function KeysOf(rse: RseName, files: seq<FileSpec>): set<ReplicaKey>
  {
    set f | f in files :: ReplicaKey(rse, f.did)
  }

  /** The replica table after saving one row per entry at `rse` (later saves overwrite earlier ones). */
  function InsertRows(rows: map<ReplicaKey, Replica>, rse: RseName, files: seq<FileSpec>, now: int): (r: map<ReplicaKey, Replica>)
    ensures r.Keys == rows.Keys + KeysOf(rse, files)
  {
    if files == [] then rows
    else
      var last := files[|files| - 1];
      assert KeysOf(rse, files) == KeysOf(rse, files[..|files| - 1]) + {ReplicaKey(rse, last.did)};
      InsertRows(rows, rse, files[..|files| - 1], now)[ReplicaKey(rse, last.did) := NewReplica(last, now)]
  }

  /** The flush hits the (rse_id, scope, name) key: the row exists already or an earlier entry saved it. */
  predicate ReplicaConflict(rows: map<ReplicaKey, Replica>, rse: RseName, files: seq<FileSpec>)
  {
    files != [] &&
    var prefix := files[..|files| - 1];
    var k := ReplicaKey(rse, files[|files| - 1].did);
    (ReplicaConflict(rows, rse, prefix) || k in rows || k in KeysOf(rse, prefix))
  }

  function SumBytes(files: seq<FileSpec>): int
  {
    if files == [] then 0 else SumBytes(files[..|files| - 1]) + files[|files| - 1].bytes
  }

  predicate PfnMissing(files: seq<FileSpec>)
  {
    exists f :: f in files && f.pfn.None?
  }

  /** What the protocol layer's pfn parser returns: an optional prefix, a directory and a file name. */
  datatype PfnParts = PfnParts(prefix: Option<string>, path: string, name: string)

  /** The stored path: prefix, directory and name joined, the prefix only when present. */
  function PathOf(parts: PfnParts): string
  {
    if parts.prefix.Some? then parts.prefix.value + parts.path + parts.name else parts.path + parts.name
  }

  /** The entries as `add_replicas` hands them on: on a non-deterministic RSE the path comes from the pfn. */
  function WithPaths(rse: RseName, deterministic: bool, files: seq<FileSpec>, parsePfn: (RseName, string) -> PfnParts): (r: seq<FileSpec>)
    requires deterministic || !PfnMissing(files)
    ensures |r| == |files|
    ensures forall i :: 0 <= i < |files| ==> r[i].did == files[i].did && r[i].bytes == files[i].bytes
    ensures forall i :: 0 <= i < |files| ==>
              r[i] == if deterministic then files[i] else files[i].(path := Some(PathOf(parsePfn(rse, files[i].pfn.value))))
  {
    if deterministic then files
    else seq(|files|, i requires 0 <= i < |files| =>
               assert files[i] in files; files[i].(path := Some(PathOf(parsePfn(rse, files[i].pfn.value)))))
  }

  /** Two requests naming the same files with the same sizes, entry by entry. */
  predicate SameFiles(a: seq<FileSpec>, b: seq<FileSpec>)
  {
    |a| == |b| && forall i :: 0 <= i < |a| ==> a[i].did == b[i].did && a[i].bytes == b[i].bytes
  }

  /** Rewriting paths changes neither which keys collide nor how many bytes are added. */
  lemma SameFilesAgree(rows: map<ReplicaKey, Replica>, rse: RseName, a: seq<FileSpec>, b: seq<FileSpec>)
    requires SameFiles(a, b)
    ensures KeysOf(rse, a) == KeysOf(rse, b)
    ensures ReplicaConflict(rows, rse, a) == ReplicaConflict(rows, rse, b)
    ensures SumBytes(a) == SumBytes(b)
  {
    SameFilesKeys(rse, a, b);
    SameFilesConflict(rows, rse, a, b);
    SameFilesBytes(a, b);
  }

  lemma SameFilesKeys(rse: RseName, a: seq<FileSpec>, b: seq<FileSpec>)
    requires SameFiles(a, b)
    ensures KeysOf(rse, a) == KeysOf(rse, b)
  {
    forall k | k in KeysOf(rse, a) ensures k in KeysOf(rse, b) {
      var f :| f in a && k == ReplicaKey(rse, f.did);
      var i :| 0 <= i < |a| && a[i] == f;
      assert b[i] in b;
    }
    forall k | k in KeysOf(rse, b) ensures k in KeysOf(rse, a) {
      var f :| f in b && k == ReplicaKey(rse, f.did);
      var i :| 0 <= i < |b| && b[i] == f;
      assert a[i] in a;
    }
  }

  lemma {:induction false} SameFilesConflict(rows: map<ReplicaKey, Replica>, rse: RseName, a: seq<FileSpec>, b: seq<FileSpec>)
    requires SameFiles(a, b)
    ensures ReplicaConflict(rows, rse, a) == ReplicaConflict(rows, rse, b)
  {
    if a != [] {
      var n := |a| - 1;
      assert SameFiles(a[..n], b[..n]);
      SameFilesConflict(rows, rse, a[..n], b[..n]);
      SameFilesKeys(rse, a[..n], b[..n]);
    }
  }

  lemma {:induction false} SameFilesBytes(a: seq<FileSpec>, b: seq<FileSpec>)
    requires SameFiles(a, b)
    ensures SumBytes(a) == SumBytes(b)
  {
    if a != [] {
      var n := |a| - 1;
      assert SameFiles(a[..n], b[..n]);
      SameFilesBytes(a[..n], b[..n]);
    }
  }

  /**
    The pfn loop of `add_replicas` on a non-deterministic RSE: the first
    entry without a pfn aborts, every other entry gets its path from the
    parsed pfn.
   */
  method ResolvePaths(rse: RseName, files: seq<FileSpec>, parsePfn: (RseName, string) -> PfnParts)
    returns (r: Result<seq<FileSpec>>)
    ensures r.Ok? <==> !PfnMissing(files)
    ensures r.Err? ==> r.error == UnsupportedOperation
    ensures r.Ok? ==> r.value == WithPaths(rse, false, files, parsePfn)
  {
    var out := [];
    var i := 0;
    while i < |files|
      invariant 0 <= i <= |files| && |out| == i
      invariant forall j :: 0 <= j < i ==> files[j].pfn.Some?
      invariant forall j :: 0 <= j < i ==> out[j] == files[j].(path := Some(PathOf(parsePfn(rse, files[j].pfn.value))))
    {
      var f := files[i];
      if f.pfn.None? {
        assert f in files;
        return Err(UnsupportedOperation);
      }
      out := out + [f.(path := Some(PathOf(parsePfn(rse, f.pfn.value))))];
      i := i + 1;
    }
    assert !PfnMissing(files) by {
      forall f | f in files ensures f.pfn.Some? {
        var j :| 0 <= j < |files| && files[j] == f;
      }
    }
    r := Ok(out);
  }

  /**
    The save loop of `__bulk_add_replicas` and the flush after it: the rows
    staged, the file count and byte sum, and whether the flush hits the key.
   */
  method SaveReplicas(rows: map<ReplicaKey, Replica>, rse: RseName, files: seq<FileSpec>, now: int)
    returns (staged: map<ReplicaKey, Replica>, nbFiles: int, bytes: int, duplicate: bool)
    ensures staged == InsertRows(rows, rse, files, now)
    ensures nbFiles == |files| && bytes == SumBytes(files)
    ensures duplicate == ReplicaConflict(rows, rse, files)
  {
    staged, nbFiles, bytes, duplicate := rows, 0, 0, false;
    var i := 0;
    assert files[..0] == [];
    while i < |files|
      invariant 0 <= i <= |files|
      invariant staged == InsertRows(rows, rse, files[..i], now)
      invariant nbFiles == i && bytes == SumBytes(files[..i])
      invariant duplicate == ReplicaConflict(rows, rse, files[..i])
    {
      staged, bytes, duplicate := SaveOne(rows, rse, files, i, now, staged, bytes, duplicate);
      nbFiles := nbFiles + 1;
      i := i + 1;
    }
    assert files[..i] == files;
  }

  /** One turn of the loop: stage the entry's row, add its bytes, and note whether its key was taken. */
  method SaveOne(ghost rows: map<ReplicaKey, Replica>, rse: RseName, files: seq<FileSpec>, i: nat, now: int,
                 staged: map<ReplicaKey, Replica>, bytes: int, duplicate: bool)
    returns (staged': map<ReplicaKey, Replica>, bytes': int, duplicate': bool)
    requires i < |files|
    requires staged == InsertRows(rows, rse, files[..i], now)
    requires bytes == SumBytes(files[..i]) && duplicate == ReplicaConflict(rows, rse, files[..i])
    ensures staged' == InsertRows(rows, rse, files[..i + 1], now)
    ensures bytes' == SumBytes(files[..i + 1]) && duplicate' == ReplicaConflict(rows, rse, files[..i + 1])
  {
    var f := files[i];
    var k := ReplicaKey(rse, f.did);
    SaveStep(rows, rse, files, i, now, staged, bytes, duplicate);
    bytes' := bytes + f.bytes;
    duplicate' := duplicate || k in staged;
    staged' := staged[k := NewReplica(f, now)];
  }

  /** Saving one more entry, as the loop sees it. */
  lemma SaveStep(rows: map<ReplicaKey, Replica>, rse: RseName, files: seq<FileSpec>, i: nat, now: int,
                 staged: map<ReplicaKey, Replica>, bytes: int, duplicate: bool)
    requires i < |files|
    requires staged == InsertRows(rows, rse, files[..i], now)
    requires bytes == SumBytes(files[..i]) && duplicate == ReplicaConflict(rows, rse, files[..i])
    ensures var k := ReplicaKey(rse, files[i].did);
            && staged[k := NewReplica(files[i], now)] == InsertRows(rows, rse, files[..i + 1], now)
            && bytes + files[i].bytes == SumBytes(files[..i + 1])
            && (duplicate || k in staged) == ReplicaConflict(rows, rse, files[..i + 1])
  {
    assert files[..i + 1][..i] == files[..i] && files[..i + 1][i] == files[i];
  }

  /**
    Which error `add_replicas` raises, in the order the source meets them:
    unknown RSE, a registrar flush failure, a missing pfn on a
    non-deterministic RSE, then a replica key collision.
   */
  function AddReplicasError(rses: map<RseName, RseInfo>, dids: map<Did, DidRecord>, rows: map<ReplicaKey, Replica>,
                            rse: RseName, files: seq<FileSpec>): Option<CatalogError>
  {
    if rse !in rses then Some(RSENotFound)
    else if Registration.Conflict(dids, Registration.NewFiles(dids, files)) then Some(RucioException)
    else if !rses[rse].deterministic && PfnMissing(files) then Some(UnsupportedOperation)
    else if ReplicaConflict(rows, rse, files) then Some(Duplicate)
    else None
  }

  /** The key collides exactly when some entry's row exists already or two entries name the same file. */
  lemma {:induction false} ReplicaConflictIff(rows: map<ReplicaKey, Replica>, rse: RseName, files: seq<FileSpec>)
    ensures ReplicaConflict(rows, rse, files) <==>
            (exists f :: f in files && ReplicaKey(rse, f.did) in rows) || !Registration.DistinctDids(files)
  {
    if files != [] {
      var n := |files| - 1;
      var prefix := files[..n];
      ReplicaConflictIff(rows, rse, prefix);
      Registration.DistinctSplit(files);
      assert files == prefix + [files[n]];
      assert ReplicaKey(rse, files[n].did) in KeysOf(rse, prefix) <==> files[n].did in Registration.FileDids(prefix);
    }
  }

  /**
    Without a collision every entry gets its own new row, AVAILABLE and
    unlocked, with the supplied tombstone or now + two weeks; existing rows
    are untouched.
   */
  lemma {:induction false} InsertedRows(rows: map<ReplicaKey, Replica>, rse: RseName, files: seq<FileSpec>, now: int)
    requires !ReplicaConflict(rows, rse, files)
    ensures forall k :: k in rows ==> InsertRows(rows, rse, files, now)[k] == rows[k]
    ensures forall f :: f in files ==>
              var row := InsertRows(rows, rse, files, now)[ReplicaKey(rse, f.did)];
              && row == NewReplica(f, now)
              && row.state == AVAILABLE && row.lockCnt == 0 && row.bytes == f.bytes
              && row.tombstone == Some(if f.tombstone.Some? then f.tombstone.value else now + TWO_WEEKS)
  {
    if files != [] {
      var n := |files| - 1;
      var prefix := files[..n];
      var last := files[n];
      InsertedRows(rows, rse, prefix, now);
      forall f | f in files
        ensures InsertRows(rows, rse, files, now)[ReplicaKey(rse, f.did)] == NewReplica(f, now)
      {
        if f != last {
          var i :| 0 <= i < |files| && files[i] == f;
          assert i < n && prefix[i] == f;
          assert ReplicaKey(rse, f.did) in KeysOf(rse, prefix);
        }
      }
    }
  }

  /**
    Without a collision the RSE's aggregate rises by exactly the number of
    entries and the sum of their bytes.
   */
  lemma {:induction false} InsertRowsUsage(rows: map<ReplicaKey, Replica>, rse: RseName, files: seq<FileSpec>, now: int)
    requires !ReplicaConflict(rows, rse, files)
    ensures UsageAt(InsertRows(rows, rse, files, now), rse) == Plus(UsageAt(rows, rse), Usage(|files|, SumBytes(files)))
  {
    if files != [] {
      var prefix := files[..|files| - 1];
      var last := files[|files| - 1];
      InsertRowsUsage(rows, rse, prefix, now);
      LastRowUsage(rows, rse, files, now);
      AddOne(UsageAt(InsertRows(rows, rse, files, now), rse), UsageAt(InsertRows(rows, rse, prefix, now), rse),
             UsageAt(rows, rse), NewReplica(last, now), last, |prefix|, SumBytes(prefix), SumBytes(files));
    } else {
      assert InsertRows(rows, rse, files, now) == rows;
      assert SumBytes(files) == 0 && |files| == 0;
      EmptyUsage(rows, rse);
    }
  }

  lemma AddOne(after: Usage, before: Usage, base: Usage, row: Replica, f: FileSpec, n: int, bytes: int, bytes': int)
    requires after == Plus(One(row), before) && before == Plus(base, Usage(n, bytes))
    requires row.bytes == f.bytes && bytes' == bytes + f.bytes
    ensures after == Plus(base, Usage(n + 1, bytes'))
  {
  }

  /** The last entry's row adds one file and its bytes. */
  lemma LastRowUsage(rows: map<ReplicaKey, Replica>, rse: RseName, files: seq<FileSpec>, now: int)
    requires files != [] && !ReplicaConflict(rows, rse, files)
    ensures UsageAt(InsertRows(rows, rse, files, now), rse) ==
            Plus(One(NewReplica(files[|files| - 1], now)), UsageAt(InsertRows(rows, rse, files[..|files| - 1], now), rse))
  {
    var last := files[|files| - 1];
    InsertRowsLast(rows, rse, files, now);
    InsertUsage(InsertRows(rows, rse, files[..|files| - 1], now), ReplicaKey(rse, last.did), NewReplica(last, now), rse);
  }

  lemma EmptyUsage(rows: map<ReplicaKey, Replica>, rse: RseName)
    ensures Plus(UsageAt(rows, rse), Usage(0, 0)) == UsageAt(rows, rse)
  {
  }

  /** Inserting at `rse` leaves the rows of every other RSE as they were. */
  lemma {:induction false} InsertRowsElsewhere(rows: map<ReplicaKey, Replica>, rse: RseName, files: seq<FileSpec>, now: int, other: RseName)
    requires other != rse
    ensures KeysAt(InsertRows(rows, rse, files, now), other) == KeysAt(rows, other)
    ensures forall k :: k in KeysAt(rows, other) ==> InsertRows(rows, rse, files, now)[k] == rows[k]
    ensures UsageAt(InsertRows(rows, rse, files, now), other) == UsageAt(rows, other)
  {
    if files != [] {
      InsertRowsElsewhere(rows, rse, files[..|files| - 1], now, other);
    }
    SumFrame(InsertRows(rows, rse, files, now), rows, KeysAt(rows, other));
  }

  /** Peeling the last entry off a collision-free request. */
  lemma InsertRowsLast(rows: map<ReplicaKey, Replica>, rse: RseName, files: seq<FileSpec>, now: int)
    requires files != [] && !ReplicaConflict(rows, rse, files)
    ensures var prefix := files[..|files| - 1];
            var k := ReplicaKey(rse, files[|files| - 1].did);
            && !ReplicaConflict(rows, rse, prefix)
            && k !in InsertRows(rows, rse, prefix, now)
            && InsertRows(rows, rse, files, now) == InsertRows(rows, rse, prefix, now)[k := NewReplica(files[|files| - 1], now)]
            && |files| == |prefix| + 1
            && SumBytes(files) == SumBytes(prefix) + files[|files| - 1].bytes
  {
  }

}
