/**
  The file registrar (`__bulk_add_file_dids`, `__bulk_add_new_file_dids`):
  which entries of a request are new, which existing FILE records are
  reused, and when inserting the new ones collides at flush time.
 */
module Registration {
  import opened ReplicaTypes

  predicate IsFileRecord(dids: map<Did, DidRecord>, d: Did)
  {
    d in dids && dids[d].didType == FILE
  }

  function FileDids(files: seq<FileSpec>): set<Did>
  {
    set f | f in files :: f.did
  }

  function RowDids(rows: seq<FileRow>): set<Did>
  {
    set r | r in rows :: r.did
  }

  /** The entries that have no FILE record yet, in request order; repeated entries are all kept. */
  function NewFiles(dids: map<Did, DidRecord>, files: seq<FileSpec>): seq<FileSpec>
  {
    if files == [] then []
    else
      var last := files[|files| - 1];
      NewFiles(dids, files[..|files| - 1]) + (if IsFileRecord(dids, last.did) then [] else [last])
  }

  function RecordRow(d: Did, rec: DidRecord): FileRow
  {
    FileRow(d, rec.bytes, rec.md5, rec.adler32)
  }

  function SpecRow(f: FileSpec): FileRow
  {
    FileRow(f.did, f.bytes, f.md5, f.adler32)
  }

  function SpecRows(files: seq<FileSpec>): (r: seq<FileRow>)
    ensures |r| == |files|
    ensures forall i :: 0 <= i < |files| ==> r[i] == SpecRow(files[i])
  {
    if files == [] then [] else [SpecRow(files[0])] + SpecRows(files[1..])
  }

  /**
    The existing FILE records matched by the request, one per identifier.
    The database returns them in an unspecified order; the model lists them
    in order of first mention.
   */
  function AvailableRows(dids: map<Did, DidRecord>, files: seq<FileSpec>): seq<FileRow>
  {
    if files == [] then []
    else
      var prev := AvailableRows(dids, files[..|files| - 1]);
      var d := files[|files| - 1].did;
      if IsFileRecord(dids, d) && d !in RowDids(prev) then prev + [RecordRow(d, dids[d])] else prev
  }

  /** Owner of a new record: the entry's own account unless it is absent or empty. */
  function OwnerOf(f: FileSpec, account: string): string
  {
    if f.account.Some? && f.account.value != "" then f.account.value else account
  }

  function NewRecord(f: FileSpec, account: string): DidRecord
  {
    DidRecord(FILE, f.bytes, f.md5, f.adler32, OwnerOf(f, account), true)
  }

  /** The table after saving every entry of `files` (later saves overwrite earlier ones). */
  function Staged(dids: map<Did, DidRecord>, files: seq<FileSpec>, account: string): (r: map<Did, DidRecord>)
    ensures r.Keys == dids.Keys + FileDids(files)
  {
    if files == [] then dids
    else
      var last := files[|files| - 1];
      assert FileDids(files) == FileDids(files[..|files| - 1]) + {last.did};
      Staged(dids, files[..|files| - 1], account)[last.did := NewRecord(last, account)]
  }

  /** The flush fails when a saved identifier is already taken, by the table or by an earlier entry. */
  predicate Conflict(dids: map<Did, DidRecord>, files: seq<FileSpec>)
  {
    files != [] &&
    var prefix := files[..|files| - 1];
    (Conflict(dids, prefix) || files[|files| - 1].did in dids.Keys + FileDids(prefix))
  }

  predicate DistinctDids(files: seq<FileSpec>)
  {
    forall i, j :: 0 <= i < j < |files| ==> files[i].did != files[j].did
  }

  predicate SomeIdTaken(dids: map<Did, DidRecord>, files: seq<FileSpec>)
  {
    exists f :: f in files && f.did in dids
  }

  lemma SomeIdTakenSplit(dids: map<Did, DidRecord>, files: seq<FileSpec>)
    requires files != []
    ensures SomeIdTaken(dids, files) <==>
            SomeIdTaken(dids, files[..|files| - 1]) || files[|files| - 1].did in dids
  {
    var n := |files| - 1;
    assert files == files[..n] + [files[n]];
  }

  lemma DistinctSplit(files: seq<FileSpec>)
    requires files != []
    ensures DistinctDids(files) <==>
            DistinctDids(files[..|files| - 1]) && files[|files| - 1].did !in FileDids(files[..|files| - 1])
  {
    var n := |files| - 1;
    var prefix := files[..n];
    if files[n].did in FileDids(prefix) {
      var g :| g in prefix && g.did == files[n].did;
      var i :| 0 <= i < n && prefix[i] == g;
      assert files[i].did == files[n].did;
    }
    if !DistinctDids(prefix) {
      var i, j :| 0 <= i < j < n && prefix[i].did == prefix[j].did;
      assert files[i].did == files[j].did;
    }
    if !DistinctDids(files) && DistinctDids(prefix) {
      var i, j :| 0 <= i < j < |files| && files[i].did == files[j].did;
      assert prefix[i] == files[i];
    }
  }

  /** The insert collides exactly when an identifier exists already or is requested twice. */
  lemma {:induction false} ConflictIff(dids: map<Did, DidRecord>, files: seq<FileSpec>)
    ensures Conflict(dids, files) <==> SomeIdTaken(dids, files) || !DistinctDids(files)
  {
    if files != [] {
      ConflictIff(dids, files[..|files| - 1]);
      SomeIdTakenSplit(dids, files);
      DistinctSplit(files);
    }
  }

  /** An entry is new exactly when no FILE record carries its identifier. */
  lemma {:induction false} NewFilesMembers(dids: map<Did, DidRecord>, files: seq<FileSpec>)
    ensures forall f :: f in NewFiles(dids, files) <==> f in files && !IsFileRecord(dids, f.did)
  {
    if files != [] {
      var n := |files| - 1;
      NewFilesMembers(dids, files[..n]);
      assert files == files[..n] + [files[n]];
    }
  }

  /** A new file requested twice reaches the insert twice: duplicates within one call are not merged. */
  lemma RepeatedNewFileReachesInsertTwice(dids: map<Did, DidRecord>, files: seq<FileSpec>, i: nat, j: nat)
    requires i < j < |files| && files[i].did == files[j].did
    requires !IsFileRecord(dids, files[i].did)
    ensures !DistinctDids(NewFiles(dids, files))
    ensures Conflict(dids, NewFiles(dids, files))
  {
    RepeatedNewFileKept(dids, files, i, j);
    ConflictIff(dids, NewFiles(dids, files));
  }

  lemma {:induction false} RepeatedNewFileKept(dids: map<Did, DidRecord>, files: seq<FileSpec>, i: nat, j: nat)
    requires i < j < |files| && files[i].did == files[j].did
    requires !IsFileRecord(dids, files[i].did)
    ensures !DistinctDids(NewFiles(dids, files))
  {
    var n := |files| - 1;
    var prefix := files[..n];
    var before := NewFiles(dids, prefix);
    var after := NewFiles(dids, files);
    assert after == before + (if IsFileRecord(dids, files[n].did) then [] else [files[n]]);
    if j < n {
      RepeatedNewFileKept(dids, prefix, i, j);
      var p, q :| 0 <= p < q < |before| && before[p].did == before[q].did;
      assert after[p] == before[p] && after[q] == before[q];
    } else {
      NewFilesMembers(dids, prefix);
      assert prefix[i] == files[i];
      assert files[i] in before;
      var p :| 0 <= p < |before| && before[p] == files[i];
      assert after[p] == files[i] && after[|before|] == files[n];
    }
  }

  /** The reused rows are exactly the requested identifiers that have a FILE record, each once, as stored. */
  lemma {:induction false} AvailableRowsExactly(dids: map<Did, DidRecord>, files: seq<FileSpec>)
    ensures forall d :: d in RowDids(AvailableRows(dids, files)) <==> d in FileDids(files) && IsFileRecord(dids, d)
    ensures forall r :: r in AvailableRows(dids, files) ==> IsFileRecord(dids, r.did) && r == RecordRow(r.did, dids[r.did])
    ensures forall i, j :: 0 <= i < j < |AvailableRows(dids, files)| ==>
              AvailableRows(dids, files)[i].did != AvailableRows(dids, files)[j].did
  {
    if files != [] {
      var n := |files| - 1;
      var prefix := files[..n];
      AvailableRowsExactly(dids, prefix);
      assert FileDids(files) == FileDids(prefix) + {files[n].did} by {
        assert files == prefix + [files[n]];
      }
    }
  }

  /** Saving non-colliding entries keeps every existing record and adds one FILE record per new entry. */
  lemma {:induction false} StagedKeepsExisting(dids: map<Did, DidRecord>, files: seq<FileSpec>, account: string)
    requires !Conflict(dids, files)
    ensures forall d :: d in dids ==> Staged(dids, files, account)[d] == dids[d]
    ensures forall f :: f in files ==> Staged(dids, files, account)[f.did] == NewRecord(f, account)
  {
    if files != [] {
      var n := |files| - 1;
      var prefix := files[..n];
      var last := files[n];
      assert !Conflict(dids, prefix) && last.did !in dids && last.did !in FileDids(prefix);
      StagedKeepsExisting(dids, prefix, account);
      var before := Staged(dids, prefix, account);
      assert Staged(dids, files, account) == before[last.did := NewRecord(last, account)];
      forall f | f in files
        ensures Staged(dids, files, account)[f.did] == NewRecord(f, account)
      {
        if f != last {
          InPrefix(files, f);
        }
      }
    }
  }

  /** An entry other than the last one is an entry of the prefix. */
  lemma InPrefix(files: seq<FileSpec>, f: FileSpec)
    requires f in files && f != files[|files| - 1]
    ensures f in files[..|files| - 1] && f.did in FileDids(files[..|files| - 1])
  {
    var i :| 0 <= i < |files| && files[i] == f;
    assert files[..|files| - 1][i] == f;
  }

  /**
    A successful registration reuses every existing FILE record untouched,
    and afterwards every requested identifier has a FILE record; no other
    record is created.
   */
  lemma RegistrationEffect(dids: map<Did, DidRecord>, files: seq<FileSpec>, account: string)
    requires !Conflict(dids, NewFiles(dids, files))
    ensures var after := Staged(dids, NewFiles(dids, files), account);
            && (forall d :: d in dids ==> d in after && after[d] == dids[d])
            && (forall f :: f in files ==> IsFileRecord(after, f.did))
            && (forall d :: d in after ==> d in dids || d in FileDids(files))
  {
    var nf := NewFiles(dids, files);
    var after := Staged(dids, nf, account);
    NewFilesMembers(dids, files);
    StagedKeepsExisting(dids, nf, account);
    forall f | f in files
      ensures IsFileRecord(after, f.did)
    {
      if !IsFileRecord(dids, f.did) {
        assert f in nf;
      }
    }
    forall d | d in after
      ensures d in dids || d in FileDids(files)
    {
      if d !in dids {
        var g :| g in nf && g.did == d;
      }
    }
  }

  /**
    The save loop of `__bulk_add_new_file_dids` and the flush after it: the
    table with every entry saved, and whether the flush collides.
   */
  method SaveFiles(dids: map<Did, DidRecord>, files: seq<FileSpec>, account: string)
    returns (staged: map<Did, DidRecord>, conflict: bool)
    ensures staged == Staged(dids, files, account)
    ensures conflict == Conflict(dids, files)
  {
    staged, conflict := dids, false;
    var i := 0;
    while i < |files|
      invariant 0 <= i <= |files|
      invariant staged == Staged(dids, files[..i], account)
      invariant conflict == Conflict(dids, files[..i])
    {
      var f := files[i];
      SaveStep(dids, files, i, account);
      conflict := conflict || f.did in staged;
      staged := staged[f.did := NewRecord(f, account)];
      i := i + 1;
    }
    assert files[..i] == files;
  }

  lemma SaveStep(dids: map<Did, DidRecord>, files: seq<FileSpec>, i: nat, account: string)
    requires i < |files|
    ensures Staged(dids, files[..i + 1], account) == Staged(dids, files[..i], account)[files[i].did := NewRecord(files[i], account)]
    ensures Conflict(dids, files[..i + 1]) <==> Conflict(dids, files[..i]) || files[i].did in Staged(dids, files[..i], account)
  {
    assert files[..i + 1][..i] == files[..i] && files[..i + 1][i] == files[i];
  }

  /**
    The matching loop of `__bulk_add_file_dids`: an entry is new unless some
    returned FILE record has its scope and name.
   */
  method SplitNewFiles(ghost dids: map<Did, DidRecord>, files: seq<FileSpec>, available: seq<FileRow>)
    returns (newFiles: seq<FileSpec>)
    requires available == AvailableRows(dids, files)
    ensures newFiles == NewFiles(dids, files)
  {
    AvailableRowsExactly(dids, files);
    newFiles := [];
    var i := 0;
    while i < |files|
      invariant 0 <= i <= |files|
      invariant newFiles == NewFiles(dids, files[..i])
    {
      var f := files[i];
      var found := false;
      var j := 0;
      while j < |available| && !found
        invariant 0 <= j <= |available|
        invariant found ==> f.did in RowDids(available)
        invariant !found ==> forall m :: 0 <= m < j ==> available[m].did != f.did
      {
        if available[j].did == f.did {
          found := true;
        }
        j := j + 1;
      }
      assert f.did in FileDids(files);
      assert found <==> f.did in RowDids(available);
      if !found {
        newFiles := newFiles + [f];
      }
      NewFilesStep(dids, files, i);
      i := i + 1;
    }
    assert files[..i] == files;
  }

  lemma NewFilesStep(dids: map<Did, DidRecord>, files: seq<FileSpec>, i: nat)
    requires i < |files|
    ensures NewFiles(dids, files[..i + 1]) ==
            NewFiles(dids, files[..i]) + (if IsFileRecord(dids, files[i].did) then [] else [files[i]])
  {
    assert files[..i + 1][..i] == files[..i] && files[..i + 1][i] == files[i];
  }
}
