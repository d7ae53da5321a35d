/**
  Replica state changes (`update_replicas_states`, `update_replica_state`):
  each request entry names a row by RSE and identifier and a new state; a row
  may enter BEING_DELETED only while it holds no lock; an entry that updates
  no row fails the whole batch.
 */
module Transitions {
  import opened ReplicaTypes

  datatype StateUpdate = StateUpdate(rse: RseName, did: Did, state: ReplicaState)

  /** The row an entry is allowed to update: it exists and, for BEING_DELETED, is unlocked. */
  predicate Updatable(rows: map<ReplicaKey, Replica>, u: StateUpdate)
  {
    var k := ReplicaKey(u.rse, u.did);
    k in rows && (u.state == BEING_DELETED ==> rows[k].lockCnt == 0)
  }

  /** One entry: RSE lookup, then the filtered update; no updated row means UnsupportedOperation. */
  function ApplyUpdate(rses: map<RseName, RseInfo>, rows: map<ReplicaKey, Replica>, u: StateUpdate): (r: Result<map<ReplicaKey, Replica>>)
    ensures r.Ok? <==> u.rse in rses && Updatable(rows, u)
    ensures r.Err? ==> r.error == if u.rse !in rses then RSENotFound else UnsupportedOperation
    ensures r.Ok? ==> r.value.Keys == rows.Keys &&
                      forall k :: k in rows ==> r.value[k] == if k == ReplicaKey(u.rse, u.did) then rows[k].(state := u.state) else rows[k]
  {
    var k := ReplicaKey(u.rse, u.did);
    if u.rse !in rses then Err(RSENotFound)
    else if !Updatable(rows, u) then Err(UnsupportedOperation)
    else Ok(rows[k := rows[k].(state := u.state)])
  }

  /** The entries in request order; the first failing entry aborts the batch. */
  function ApplyUpdates(rses: map<RseName, RseInfo>, rows: map<ReplicaKey, Replica>, updates: seq<StateUpdate>): Result<map<ReplicaKey, Replica>>
  {
    if updates == [] then Ok(rows)
    else
      match ApplyUpdate(rses, rows, updates[0])
      case Err(e) => Err(e)
      case Ok(rows') => ApplyUpdates(rses, rows', updates[1..])
  }

  /**
    The loop of `update_replicas_states`: each entry's RSE is looked up once
    and remembered, then the entry's row is updated; the first failing entry
    aborts the batch.
   */
  method ApplyAll(rses: map<RseName, RseInfo>, rows: map<ReplicaKey, Replica>, updates: seq<StateUpdate>)
    returns (r: Result<map<ReplicaKey, Replica>>)
    ensures r == ApplyUpdates(rses, rows, updates)
  {
    var current := rows;
    var known: set<RseName> := {};
    var i := 0;
    while i < |updates|
      invariant 0 <= i <= |updates|
      invariant known <= rses.Keys
      invariant ApplyUpdates(rses, rows, updates) == ApplyUpdates(rses, current, updates[i..])
    {
      var u := updates[i];
      assert updates[i..][0] == u && updates[i..][1..] == updates[i + 1..];
      if u.rse !in known {
        if u.rse !in rses {
          return Err(RSENotFound);
        }
        known := known + {u.rse};
      }
      var k := ReplicaKey(u.rse, u.did);
      if !(k in current && (u.state == BEING_DELETED ==> current[k].lockCnt == 0)) {
        return Err(UnsupportedOperation);
      }
      current := current[k := current[k].(state := u.state)];
      i := i + 1;
    }
    return Ok(current);
  }

  /** Two tables that differ at most in the states of their rows. */
  predicate SameButStates(rows: map<ReplicaKey, Replica>, rows': map<ReplicaKey, Replica>)
  {
    rows'.Keys == rows.Keys &&
    forall k :: k in rows ==> rows'[k] == rows[k].(state := rows'[k].state)
  }

  /** The state an entry sequence leaves on row `k`: the last entry naming it wins. */
  function FinalState(updates: seq<StateUpdate>, k: ReplicaKey, current: ReplicaState): ReplicaState
  {
    if updates == [] then current
    else
      var u := updates[|updates| - 1];
      if ReplicaKey(u.rse, u.did) == k then u.state else FinalState(updates[..|updates| - 1], k, current)
  }

  predicate AllUpdatable(rses: map<RseName, RseInfo>, rows: map<ReplicaKey, Replica>, updates: seq<StateUpdate>)
  {
    forall i :: 0 <= i < |updates| ==> updates[i].rse in rses && Updatable(rows, updates[i])
  }

  /**
    The batch succeeds exactly when every entry names a row of a known RSE
    and no BEING_DELETED entry names a locked row; then only states change,
    each row ending in the state of the last entry naming it.
   */
  lemma {:induction false} ApplyUpdatesSpec(rses: map<RseName, RseInfo>, rows: map<ReplicaKey, Replica>, updates: seq<StateUpdate>)
    ensures ApplyUpdates(rses, rows, updates).Ok? <==> AllUpdatable(rses, rows, updates)
    ensures ApplyUpdates(rses, rows, updates).Ok? ==>
              var rows' := ApplyUpdates(rses, rows, updates).value;
              SameButStates(rows, rows') &&
              forall k :: k in rows ==> rows'[k].state == FinalState(updates, k, rows[k].state)
    decreases |updates|
  {
    if updates != [] {
      var u := updates[0];
      var first := ApplyUpdate(rses, rows, u);
      if first.Ok? {
        var mid := first.value;
        ApplyUpdatesSpec(rses, mid, updates[1..]);
        UpdatableAfterUpdate(rses, rows, mid, updates);
        if ApplyUpdates(rses, rows, updates).Ok? {
          var rows' := ApplyUpdates(rses, rows, updates).value;
          forall k | k in rows
            ensures rows'[k].state == FinalState(updates, k, rows[k].state)
          {
            FinalStateCons(updates, k, rows[k].state);
          }
        }
      } else {
        assert !(u.rse in rses && Updatable(rows, u));
      }
    }
  }

  /** Updating states changes neither keys nor lock counts, so updatability of later entries is unaffected. */
  lemma UpdatableAfterUpdate(rses: map<RseName, RseInfo>, rows: map<ReplicaKey, Replica>, mid: map<ReplicaKey, Replica>, updates: seq<StateUpdate>)
    requires updates != [] && ApplyUpdate(rses, rows, updates[0]) == Ok(mid)
    ensures AllUpdatable(rses, rows, updates) <==> AllUpdatable(rses, mid, updates[1..])
  {
    if AllUpdatable(rses, mid, updates[1..]) {
      forall i | 0 <= i < |updates|
        ensures updates[i].rse in rses && Updatable(rows, updates[i])
      {
        if i > 0 { assert updates[1..][i - 1] == updates[i]; }
      }
    }
    if AllUpdatable(rses, rows, updates) {
      forall i | 0 <= i < |updates[1..]|
        ensures updates[1..][i].rse in rses && Updatable(mid, updates[1..][i])
      {
        assert updates[1..][i] == updates[i + 1];
      }
    }
  }

  /** The last-entry-wins state seen from the front of the sequence. */
  lemma {:induction false} FinalStateCons(updates: seq<StateUpdate>, k: ReplicaKey, current: ReplicaState)
    requires updates != []
    ensures FinalState(updates, k, current) ==
            FinalState(updates[1..], k, if ReplicaKey(updates[0].rse, updates[0].did) == k then updates[0].state else current)
    decreases |updates|
  {
    var n := |updates| - 1;
    if n > 0 {
      FinalStateCons(updates[..n], k, current);
      assert updates[..n][1..] == updates[1..][..n - 1];
      assert updates[1..][n - 1] == updates[n];
    }
  }

  /**
    One entry as written: for BEING_DELETED the source narrows the query with
    a keyword argument that the query's filter method does not accept, so the
    call raises a TypeError before any row is touched.
   */
  function ApplyUpdateAsWritten(rses: map<RseName, RseInfo>, rows: map<ReplicaKey, Replica>, u: StateUpdate): Result<map<ReplicaKey, Replica>>
  {
    if u.rse !in rses then Err(RSENotFound)
    else if u.state == BEING_DELETED then Err(TypeError)
    else ApplyUpdate(rses, rows, u)
  }

  function ApplyUpdatesAsWritten(rses: map<RseName, RseInfo>, rows: map<ReplicaKey, Replica>, updates: seq<StateUpdate>): Result<map<ReplicaKey, Replica>>
  {
    if updates == [] then Ok(rows)
    else
      match ApplyUpdateAsWritten(rses, rows, updates[0])
      case Err(e) => Err(e)
      case Ok(rows') => ApplyUpdatesAsWritten(rses, rows', updates[1..])
  }

  /**
    As written, no batch that asks for BEING_DELETED on a known RSE ever
    succeeds, even for an existing unlocked row that the intended rule
    accepts.
   */
  lemma {:induction false} AsWrittenNeverMarksForDeletion(rses: map<RseName, RseInfo>, rows: map<ReplicaKey, Replica>, updates: seq<StateUpdate>, i: nat)
    requires i < |updates| && updates[i].state == BEING_DELETED
    ensures ApplyUpdatesAsWritten(rses, rows, updates).Err?
    decreases |updates|
  {
    var u := updates[0];
    if i > 0 && ApplyUpdateAsWritten(rses, rows, u).Ok? {
      AsWrittenNeverMarksForDeletion(rses, ApplyUpdateAsWritten(rses, rows, u).value, updates[1..], i - 1);
    }
  }

  /** A single existing, unlocked row: the intended rule marks it, the code as written fails. */
  lemma MarkUnlockedRow(rses: map<RseName, RseInfo>, rows: map<ReplicaKey, Replica>, u: StateUpdate)
    requires u.rse in rses && u.state == BEING_DELETED
    requires ReplicaKey(u.rse, u.did) in rows && rows[ReplicaKey(u.rse, u.did)].lockCnt == 0
    ensures ApplyUpdates(rses, rows, [u]).Ok?
    ensures ApplyUpdatesAsWritten(rses, rows, [u]) == Err(TypeError)
  {
    assert [u][1..] == [];
  }
}
