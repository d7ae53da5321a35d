/**
  The lock counter of a replica (`update_replica_lock_counter`) and its
  coupling with the tombstone: a replica is eligible for garbage collection
  exactly while nothing locks it.
 */
module Locking {
  import opened ReplicaTypes

  /** A row whose tombstone is set exactly when its lock count is zero. */
  predicate Coupled(r: Replica)
  {
    r.tombstone.Some? <==> r.lockCnt == 0
  }

  /**
    The update applied to the row: the lock count moves by `value` and, in the
    same statement, the tombstone becomes `now` if the new count is zero and
    null otherwise.
   */
  function ApplyLock(r: Replica, value: int, now: int): (r': Replica)
    ensures r'.lockCnt == r.lockCnt + value
    ensures r'.tombstone == Some(now) <==> r'.lockCnt == 0
    ensures r'.tombstone.None? <==> r'.lockCnt != 0
    ensures Coupled(r')
    ensures r'.bytes == r.bytes && r'.state == r.state && r'.path == r.path
    ensures r'.md5 == r.md5 && r'.adler32 == r.adler32
  {
    var count := r.lockCnt + value;
    r.(lockCnt := count, tombstone := if count == 0 then Some(now) else None)
  }

  /**
    The MySQL branch as written. Per the driver behaviour the source
    describes, the tombstone expression reads the lock count that was already
    updated, so the condition `lock_cnt + value < 0` is evaluated on
    `old + value + value`.
   */
  function MysqlApplyLock(r: Replica, value: int, now: int): (r': Replica)
    ensures r'.lockCnt == r.lockCnt + value
    ensures r'.tombstone.Some? <==> r.lockCnt + value + value < 0
  {
    var count := r.lockCnt + value;
    r.(lockCnt := count, tombstone := if count + value < 0 then Some(now) else None)
  }

  /** Taking `value` locks and releasing them again restores the count and the tombstone's presence. */
  lemma LockThenRelease(r: Replica, value: int, t1: int, t2: int)
    requires Coupled(r)
    ensures ApplyLock(ApplyLock(r, value, t1), -value, t2).lockCnt == r.lockCnt
    ensures ApplyLock(ApplyLock(r, value, t1), -value, t2).tombstone.Some? == r.tombstone.Some?
  {
  }

  /**
    For the single-lock steps callers use on a non-negative count (take one,
    release one), the MySQL branch gives the same row as the rule of the
    other databases.
   */
  lemma MysqlAgreesOnUnitSteps(r: Replica, value: int, now: int)
    requires r.lockCnt >= 0
    requires value == 1 || (value == -1 && r.lockCnt >= 1)
    ensures MysqlApplyLock(r, value, now) == ApplyLock(r, value, now)
  {
  }

  /**
    Releasing two locks of a row that holds three: the MySQL branch leaves
    one lock in place yet sets the tombstone, so the row is locked and
    tombstoned at once. The garbage collector's own lock filter still skips
    it; what breaks is the coupling every other write keeps.
   */
  lemma MysqlTombstonesLockedReplica(r: Replica, now: int)
    requires r.lockCnt == 3
    ensures MysqlApplyLock(r, -2, now).lockCnt == 1
    ensures MysqlApplyLock(r, -2, now).tombstone == Some(now)
    ensures !Coupled(MysqlApplyLock(r, -2, now))
    ensures ApplyLock(r, -2, now).tombstone.None?
  {
  }

  /**
    A zero step on an unlocked row: the MySQL branch clears the tombstone of
    a row that nothing locks, so the garbage collector, which only takes
    tombstoned rows, never picks it again until another lock comes and goes.
   */
  lemma MysqlUntombstonesUnlockedReplica(r: Replica, now: int)
    requires r.lockCnt == 0
    ensures MysqlApplyLock(r, 0, now).lockCnt == 0
    ensures MysqlApplyLock(r, 0, now).tombstone.None?
    ensures !Coupled(MysqlApplyLock(r, 0, now))
    ensures ApplyLock(r, 0, now).tombstone == Some(now)
  {
  }
}
