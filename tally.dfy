/**
  Aggregates over replica rows: the (count, bytes) of a set of rows. The
  per-RSE counters of the catalog must equal `UsageAt(rows, rse)`.
 */
module Tally {
  import opened ReplicaTypes

  ghost function Pick(keys: set<ReplicaKey>): (k: ReplicaKey)
    requires keys != {}
    ensures k in keys
  {
    var k :| k in keys; k
  }

  function One(row: Replica): Usage
  {
    Usage(1, row.bytes)
  }

  /** The number of rows in `keys` and the sum of their bytes. */
  ghost function Sum(rows: map<ReplicaKey, Replica>, keys: set<ReplicaKey>): (u: Usage)
    requires keys <= rows.Keys
    ensures u.files == |keys|
    decreases keys
  {
    if keys == {} then Usage(0, 0)
    else
      var k := Pick(keys);
      Plus(One(rows[k]), Sum(rows, keys - {k}))
  }

  /** Any row of the set may be taken out first. */
  lemma {:induction false} SumRemove(rows: map<ReplicaKey, Replica>, keys: set<ReplicaKey>, k: ReplicaKey)
    requires keys <= rows.Keys && k in keys
    ensures Sum(rows, keys) == Plus(One(rows[k]), Sum(rows, keys - {k}))
    decreases keys
  {
    var j := Pick(keys);
    if j != k {
      calc {
        Sum(rows, keys);
        Plus(One(rows[j]), Sum(rows, keys - {j}));
        { SumRemove(rows, keys - {j}, k); }
        Plus(One(rows[j]), Plus(One(rows[k]), Sum(rows, keys - {j} - {k})));
        { assert keys - {j} - {k} == keys - {k} - {j}; }
        Plus(One(rows[k]), Plus(One(rows[j]), Sum(rows, keys - {k} - {j})));
        { SumRemove(rows, keys - {k}, j); }
        Plus(One(rows[k]), Sum(rows, keys - {k}));
      }
    }
  }

  /** The sum only looks at the rows it adds up. */
  lemma {:induction false} SumFrame(rows: map<ReplicaKey, Replica>, rows': map<ReplicaKey, Replica>, keys: set<ReplicaKey>)
    requires keys <= rows.Keys && keys <= rows'.Keys
    requires forall k :: k in keys ==> rows[k].bytes == rows'[k].bytes
    ensures Sum(rows, keys) == Sum(rows', keys)
    decreases keys
  {
    if keys != {} {
      var k := Pick(keys);
      SumFrame(rows, rows', keys - {k});
      SumRemove(rows', keys, k);
    }
  }

  /** The keys of the rows held at one RSE. */
  function KeysAt(rows: map<ReplicaKey, Replica>, rse: RseName): set<ReplicaKey>
  {
    set k | k in rows && k.rse == rse
  }

  /** The (count, bytes) of the rows held at one RSE. */
  ghost function UsageAt(rows: map<ReplicaKey, Replica>, rse: RseName): Usage
  {
    Sum(rows, KeysAt(rows, rse))
  }

  /** A new row adds one file and its bytes to its own RSE and nothing elsewhere. */
  lemma InsertUsage(rows: map<ReplicaKey, Replica>, k: ReplicaKey, row: Replica, rse: RseName)
    requires k !in rows
    ensures UsageAt(rows[k := row], rse) ==
            if k.rse == rse then Plus(One(row), UsageAt(rows, rse)) else UsageAt(rows, rse)
  {
    var rows' := rows[k := row];
    if k.rse == rse {
      assert KeysAt(rows', rse) - {k} == KeysAt(rows, rse);
      SumRemove(rows', KeysAt(rows', rse), k);
      SumFrame(rows', rows, KeysAt(rows, rse));
    } else {
      assert KeysAt(rows', rse) == KeysAt(rows, rse);
      SumFrame(rows', rows, KeysAt(rows, rse));
    }
  }

  /** Removing a row takes one file and its bytes from its own RSE and nothing elsewhere. */
  lemma RemoveUsage(rows: map<ReplicaKey, Replica>, k: ReplicaKey, rse: RseName)
    requires k in rows
    ensures UsageAt(rows, rse) ==
            if k.rse == rse then Plus(One(rows[k]), UsageAt(rows - {k}, rse)) else UsageAt(rows - {k}, rse)
  {
    var rows' := rows - {k};
    assert rows'[k := rows[k]] == rows;
    InsertUsage(rows', k, rows[k], rse);
  }

  /** Rewriting rows in place without changing their sizes keeps every RSE's usage. */
  lemma UpdateUsage(rows: map<ReplicaKey, Replica>, k: ReplicaKey, row: Replica, rse: RseName)
    requires k in rows && row.bytes == rows[k].bytes
    ensures UsageAt(rows[k := row], rse) == UsageAt(rows, rse)
  {
    assert KeysAt(rows[k := row], rse) == KeysAt(rows, rse);
    SumFrame(rows[k := row], rows, KeysAt(rows, rse));
  }

  /** The counter value of an RSE; an RSE without a counter row counts as empty. */
  function CounterOf(counters: map<RseName, Usage>, rse: RseName): Usage
  {
    if rse in counters then counters[rse] else Usage(0, 0)
  }

  /** Every RSE counter equals the aggregate over the live rows at that RSE. */
  ghost predicate CountersMatch(counters: map<RseName, Usage>, rows: map<ReplicaKey, Replica>)
  {
    forall rse :: CounterOf(counters, rse) == UsageAt(rows, rse)
  }
}
