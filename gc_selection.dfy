/**
  Garbage-collection candidates (`list_unlocked_replicas`): the rows of one
  RSE that carry a tombstone in the past and hold no lock, oldest tombstone
  first, capped at a limit, optionally restricted to one worker's share of
  the name space.
 */
module GcSelection {
  import opened ReplicaTypes
  import opened Collections

  /** One returned row: identifier and size. */
  datatype GcRow = GcRow(did: Did, bytes: int)

  /** A candidate row with the tombstone it is ordered by. */
  datatype Entry = Entry(key: ReplicaKey, tombstone: int, bytes: int)

  /** Python truthiness of an optional integer argument: present and non-zero. */
  predicate Truthy(x: Option<int>)
  {
    x.Some? && x.value != 0
  }

  /** The share restriction applies only with a worker number, a worker total and more than one worker. */
  predicate Partitioned(worker: Option<int>, total: Option<int>)
  {
    Truthy(worker) && Truthy(total) && total.value - 1 > 0
  }

  /** Whether a name falls in the worker's share: hash(name) mod (total - 1) == worker - 1. */
  predicate InShare(hash: string -> nat, name: string, worker: Option<int>, total: Option<int>)
  {
    Partitioned(worker, total) ==> hash(name) % (total.value - 1) == worker.value - 1
  }

  /** Expired, unlocked, at the RSE, and in the worker's share. */
  predicate Candidate(rows: map<ReplicaKey, Replica>, rse: RseName, now: int,
                      hash: string -> nat, worker: Option<int>, total: Option<int>, k: ReplicaKey)
  {
    && k in rows && k.rse == rse
    && rows[k].tombstone.Some? && rows[k].tombstone.value < now
    && rows[k].lockCnt == 0
    && InShare(hash, k.did.name, worker, total)
  }

  function Candidates(rows: map<ReplicaKey, Replica>, rse: RseName, now: int,
                      hash: string -> nat, worker: Option<int>, total: Option<int>): set<ReplicaKey>
  {
    set k | k in rows && Candidate(rows, rse, now, hash, worker, total, k)
  }

  /** The rows of a set in some order the database chooses. */
  ghost function AsSeq(keys: set<ReplicaKey>): (r: seq<ReplicaKey>)
    ensures forall k :: k in r <==> k in keys
    ensures Distinct(r)
    decreases keys
  {
    if keys == {} then []
    else
      var k :| k in keys;
      [k] + AsSeq(keys - {k})
  }

  predicate Sorted(s: seq<Entry>)
  {
    forall i, j :: 0 <= i < j < |s| ==> s[i].tombstone <= s[j].tombstone
  }

  /** Puts `e` in front of the first entry with a tombstone no older than its own. */
  function Insert(e: Entry, s: seq<Entry>): (r: seq<Entry>)
    ensures multiset(r) == multiset(s) + multiset{e}
  {
    if s == [] || e.tombstone <= s[0].tombstone then [e] + s
    else
      assert s == [s[0]] + s[1..];
      [s[0]] + Insert(e, s[1..])
  }

  lemma {:induction false} InsertSorted(e: Entry, s: seq<Entry>)
    requires Sorted(s)
    ensures Sorted(Insert(e, s))
  {
    if s != [] && e.tombstone > s[0].tombstone {
      var rest := Insert(e, s[1..]);
      InsertSorted(e, s[1..]);
      forall j | 0 <= j < |rest| ensures s[0].tombstone <= rest[j].tombstone {
        assert rest[j] in multiset(rest);
        assert rest[j] in s[1..] || rest[j] == e;
      }
    }
  }

  /** Ascending by tombstone; rows with equal tombstones keep no particular order. */
  function SortByTombstone(s: seq<Entry>): (r: seq<Entry>)
    ensures Sorted(r)
    ensures multiset(r) == multiset(s)
  {
    if s == [] then []
    else
      assert s == [s[0]] + s[1..];
      var rest := SortByTombstone(s[1..]);
      InsertSorted(s[0], rest);
      Insert(s[0], rest)
  }

  /** A sequence without repeats is one in which every element occurs at most once. */
  lemma {:induction false} DistinctCounts(s: seq<Entry>)
    ensures Distinct(s) <==> forall x :: multiset(s)[x] <= 1
  {
    if s != [] {
      var t := s[1..];
      DistinctCounts(t);
      assert s == [s[0]] + t;
      assert multiset(s) == multiset{s[0]} + multiset(t);
      if Distinct(s) {
        assert Distinct(t) by {
          forall i, j | 0 <= i < j < |t| ensures t[i] != t[j] { assert t[i] == s[i + 1] && t[j] == s[j + 1]; }
        }
        assert s[0] !in t;
      } else {
        var i, j :| 0 <= i < j < |s| && s[i] == s[j];
        if i == 0 {
          assert s[j] == t[j - 1];
          assert multiset(s)[s[0]] >= 2;
        } else {
          assert t[i - 1] == t[j - 1];
          assert !Distinct(t);
          var x :| multiset(t)[x] > 1;
          assert multiset(s)[x] > 1;
        }
      }
    }
  }

  function Take(s: seq<Entry>, limit: Option<nat>): (r: seq<Entry>)
    ensures |r| <= |s| && r == s[..|r|]
    ensures limit.None? ==> r == s
    ensures limit.Some? ==> |r| == if |s| <= limit.value then |s| else limit.value
  {
    if limit.Some? && limit.value < |s| then s[..limit.value] else s
  }

  function EntryOf(rows: map<ReplicaKey, Replica>, k: ReplicaKey): Entry
    requires k in rows && rows[k].tombstone.Some?
  {
    Entry(k, rows[k].tombstone.value, rows[k].bytes)
  }

  function Entries(rows: map<ReplicaKey, Replica>, keys: seq<ReplicaKey>): (r: seq<Entry>)
    requires forall k :: k in keys ==> k in rows && rows[k].tombstone.Some?
    ensures |r| == |keys| && forall i :: 0 <= i < |keys| ==> r[i] == EntryOf(rows, keys[i])
  {
    if keys == [] then [] else [EntryOf(rows, keys[0])] + Entries(rows, keys[1..])
  }

  /** The ordered, capped selection of candidate entries. */
  ghost function Selection(rows: map<ReplicaKey, Replica>, rse: RseName, now: int, limit: Option<nat>,
                           hash: string -> nat, worker: Option<int>, total: Option<int>): seq<Entry>
  {
    var keys := AsSeq(Candidates(rows, rse, now, hash, worker, total));
    Take(SortByTombstone(Entries(rows, keys)), limit)
  }

  function RowOf(e: Entry): GcRow
  {
    GcRow(e.key.did, e.bytes)
  }

  function Rows(s: seq<Entry>): (r: seq<GcRow>)
    ensures |r| == |s| && forall i :: 0 <= i < |s| ==> r[i] == RowOf(s[i])
  {
    if s == [] then [] else [RowOf(s[0])] + Rows(s[1..])
  }

  /**
    What the selection promises: at most `limit` rows, each a candidate with
    its own tombstone and size, no row twice, ascending tombstones; fewer than
    `limit` rows only when every candidate is returned, and every candidate
    left out is no older than any returned one.
   */
  lemma SelectionSpec(rows: map<ReplicaKey, Replica>, rse: RseName, now: int, limit: Option<nat>,
                      hash: string -> nat, worker: Option<int>, total: Option<int>)
    ensures var sel := Selection(rows, rse, now, limit, hash, worker, total);
            var cands := Candidates(rows, rse, now, hash, worker, total);
            && (limit.Some? ==> |sel| <= limit.value)
            && (forall e :: e in sel ==> e.key in cands && e == EntryOf(rows, e.key))
            && Distinct(sel)
            && Sorted(sel)
            && (limit.None? || |sel| < limit.value ==> forall k :: k in cands ==> EntryOf(rows, k) in sel)
            && (forall k, e :: k in cands && EntryOf(rows, k) !in sel && e in sel ==> e.tombstone <= rows[k].tombstone.value)
  {
    var cands := Candidates(rows, rse, now, hash, worker, total);
    var keys := AsSeq(cands);
    var entries := Entries(rows, keys);
    var sorted := SortByTombstone(entries);
    EntriesOfCandidates(rows, cands, keys);
    SortKeeps(entries);
    TopK(sorted, limit);
  }

  /** The entries of the candidate rows: one per candidate, each with its own tombstone and size. */
  lemma EntriesOfCandidates(rows: map<ReplicaKey, Replica>, cands: set<ReplicaKey>, keys: seq<ReplicaKey>)
    requires forall k :: k in cands ==> k in rows && rows[k].tombstone.Some?
    requires (forall k :: k in keys <==> k in cands) && Distinct(keys)
    ensures var entries := Entries(rows, keys);
            && (forall x :: x in entries ==> x.key in cands && x == EntryOf(rows, x.key))
            && (forall k :: k in cands ==> EntryOf(rows, k) in entries)
            && Distinct(entries)
  {
    var entries := Entries(rows, keys);
    forall k | k in cands
      ensures EntryOf(rows, k) in entries
    {
      var i :| 0 <= i < |keys| && keys[i] == k;
      assert entries[i] == EntryOf(rows, k);
    }
    forall i, j | 0 <= i < j < |entries| ensures entries[i] != entries[j] {
      assert entries[i].key == keys[i] && entries[j].key == keys[j];
    }
  }

  /** Sorting keeps exactly the same entries, and no entry appears twice if none did. */
  lemma SortKeeps(s: seq<Entry>)
    ensures forall x :: x in SortByTombstone(s) <==> x in s
    ensures Distinct(s) ==> Distinct(SortByTombstone(s))
  {
    var r := SortByTombstone(s);
    forall x ensures x in r <==> x in s {
      assert x in r <==> x in multiset(r);
      assert x in s <==> x in multiset(s);
    }
    DistinctCounts(s);
    DistinctCounts(r);
  }

  /** Capping a sorted sequence keeps the oldest entries. */
  lemma TopK(sorted: seq<Entry>, limit: Option<nat>)
    requires Sorted(sorted) && Distinct(sorted)
    ensures var sel := Take(sorted, limit);
            && Sorted(sel) && Distinct(sel)
            && (forall x :: x in sel ==> x in sorted)
            && (limit.None? || |sel| < limit.value ==> forall x :: x in sorted ==> x in sel)
            && (forall x, e :: x in sorted && x !in sel && e in sel ==> e.tombstone <= x.tombstone)
  {
    var sel := Take(sorted, limit);
    forall x, e | x in sorted && x !in sel && e in sel
      ensures e.tombstone <= x.tombstone
    {
      var i :| 0 <= i < |sorted| && sorted[i] == x;
      var j :| 0 <= j < |sel| && sel[j] == e;
      assert sorted[j] == e;
    }
  }

  /** The returned row of a selected entry names a candidate of the RSE. */
  predicate RowOfCandidate(rows: map<ReplicaKey, Replica>, rse: RseName, cands: set<ReplicaKey>, row: GcRow)
  {
    var k := ReplicaKey(rse, row.did);
    k in cands && k in rows && row.bytes == rows[k].bytes
  }

  /**
    The selection as the caller sees it, one (identifier, size) row per
    replica: at most `limit` rows, each an expired unlocked replica of the
    RSE in the worker's share, no identifier twice, oldest tombstone first,
    every candidate returned unless the limit was reached, and no candidate
    left out that is older than a returned one: with a limit, the rows
    returned are the oldest candidates.
   */
  lemma UnlockedRowsSpec(rows: map<ReplicaKey, Replica>, rse: RseName, now: int, limit: Option<nat>,
                         hash: string -> nat, worker: Option<int>, total: Option<int>)
    ensures var out := Rows(Selection(rows, rse, now, limit, hash, worker, total));
            var cands := Candidates(rows, rse, now, hash, worker, total);
            && (limit.Some? ==> |out| <= limit.value)
            && (forall i :: 0 <= i < |out| ==> RowOfCandidate(rows, rse, cands, out[i]))
            && (forall i, j :: 0 <= i < j < |out| ==> out[i].did != out[j].did)
            && (forall i, j :: 0 <= i < j < |out| ==>
                  rows[ReplicaKey(rse, out[i].did)].tombstone.value <= rows[ReplicaKey(rse, out[j].did)].tombstone.value)
            && ((limit.None? || |out| < limit.value) ==>
                  forall k :: k in cands ==> exists i :: 0 <= i < |out| && out[i].did == k.did)
            && OldestReturned(rows, rse, cands, out)
  {
    var sel := Selection(rows, rse, now, limit, hash, worker, total);
    var cands := Candidates(rows, rse, now, hash, worker, total);
    SelectionSpec(rows, rse, now, limit, hash, worker, total);
    RowsOfSelection(rows, rse, cands, sel);
    RowsOfSelectionOldest(rows, rse, cands, sel);
  }

  /** Reading the entries of a selection back from the rows it returns. */
  lemma RowsOfSelection(rows: map<ReplicaKey, Replica>, rse: RseName, cands: set<ReplicaKey>, sel: seq<Entry>)
    requires forall k :: k in cands ==> k in rows && k.rse == rse && rows[k].tombstone.Some?
    requires forall e :: e in sel ==> e.key in cands && e == EntryOf(rows, e.key)
    requires Distinct(sel) && Sorted(sel)
    ensures var out := Rows(sel);
            && (forall i :: 0 <= i < |out| ==> RowOfCandidate(rows, rse, cands, out[i]))
            && (forall i, j :: 0 <= i < j < |out| ==> out[i].did != out[j].did)
            && (forall i, j :: 0 <= i < j < |out| ==>
                  rows[ReplicaKey(rse, out[i].did)].tombstone.value <= rows[ReplicaKey(rse, out[j].did)].tombstone.value)
            && (forall k :: k in cands && EntryOf(rows, k) in sel ==> exists i :: 0 <= i < |out| && out[i].did == k.did)
  {
    var out := Rows(sel);
    forall i | 0 <= i < |out| ensures sel[i].key == ReplicaKey(rse, out[i].did) && sel[i] == EntryOf(rows, sel[i].key) {
      assert sel[i] in sel;
    }
    forall k | k in cands && EntryOf(rows, k) in sel ensures exists i :: 0 <= i < |out| && out[i].did == k.did {
      var i :| 0 <= i < |sel| && sel[i] == EntryOf(rows, k);
      assert out[i].did == k.did;
    }
  }

  /**
    No candidate whose identifier is missing from `out` has an older
    tombstone than a row of `out`: the rows returned are the oldest candidates.
   */
  predicate OldestReturned(rows: map<ReplicaKey, Replica>, rse: RseName, cands: set<ReplicaKey>, out: seq<GcRow>)
  {
    forall k, i :: k in cands && 0 <= i < |out| && (forall j :: 0 <= j < |out| ==> out[j].did != k.did) ==>
      var r := ReplicaKey(rse, out[i].did);
      && k in rows && rows[k].tombstone.Some? && r in rows && rows[r].tombstone.Some?
      && rows[r].tombstone.value <= rows[k].tombstone.value
  }

  /** A candidate whose identifier is not among the rows returned is no older than any of them. */
  lemma RowsOfSelectionOldest(rows: map<ReplicaKey, Replica>, rse: RseName, cands: set<ReplicaKey>, sel: seq<Entry>)
    requires forall k :: k in cands ==> k in rows && k.rse == rse && rows[k].tombstone.Some?
    requires forall e :: e in sel ==> e.key in cands && e == EntryOf(rows, e.key)
    requires forall k, e :: k in cands && EntryOf(rows, k) !in sel && e in sel ==> e.tombstone <= rows[k].tombstone.value
    ensures OldestReturned(rows, rse, cands, Rows(sel))
  {
    var out := Rows(sel);
    forall k, i | k in cands && 0 <= i < |out| && (forall j :: 0 <= j < |out| ==> out[j].did != k.did)
      ensures && ReplicaKey(rse, out[i].did) in rows && rows[ReplicaKey(rse, out[i].did)].tombstone.Some?
              && rows[ReplicaKey(rse, out[i].did)].tombstone.value <= rows[k].tombstone.value
    {
      forall j | 0 <= j < |sel| ensures sel[j] != EntryOf(rows, k) {
        assert out[j].did != k.did;
      }
      assert sel[i] in sel;
    }
  }

  /** Two different workers of the same total never share a name. */
  lemma WorkersDisjoint(hash: string -> nat, name: string, w1: int, w2: int, total: int)
    requires w1 != 0 && w2 != 0 && total - 1 > 0 && w1 != w2
    ensures !(InShare(hash, name, Some(w1), Some(total)) && InShare(hash, name, Some(w2), Some(total)))
  {
  }

  /** Workers 1 .. total - 1 cover the name space: each name is in exactly one of their shares. */
  lemma WorkersCover(hash: string -> nat, name: string, total: int)
    requires total - 1 > 0
    ensures var w := hash(name) % (total - 1) + 1;
            1 <= w <= total - 1 && InShare(hash, name, Some(w), Some(total))
  {
  }

  /**
    With the modulus `total - 1`, worker number `total` never matches any
    name, and worker number 0 counts as no worker and selects every name.
   */
  lemma EdgeWorkers(hash: string -> nat, name: string, total: int)
    requires total - 1 > 0
    ensures !InShare(hash, name, Some(total), Some(total))
    ensures InShare(hash, name, Some(0), Some(total))
  {
  }
}
