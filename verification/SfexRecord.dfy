/** The lock record, its limits and its counter, as tools/sfex.h declares them. */
module SfexRecord {

  import opened Bytes

  type NodeName = seq<byte>

  const STATUS_UNLOCK: byte := 117  // 'u'
  const STATUS_LOCK: byte := 108    // 'l'
  const MAX_COUNT: int := 999

  datatype LockData = LockData(status: byte, count: int, nodename: NodeName)

  /** The test `status == LOCK && nodename == name` that every lock routine makes. */
  predicate LockedBy(r: LockData, name: NodeName) {
    r.status == STATUS_LOCK && r.nodename == name
  }

  function NextCount(c: int): int {
    if c >= MAX_COUNT then c - MAX_COUNT else c + 1
  }

  /** The counter after `k` heartbeats. */
  function Advance(c: int, k: nat): int {
    if k == 0 then c else NextCount(Advance(c, k - 1))
  }

  /** The heartbeat counter is addition modulo 1000 on its legal range. */
  lemma {:induction false} AdvanceIsModular(c: int, k: nat)
    requires 0 <= c <= MAX_COUNT
    ensures Advance(c, k) == (c + k) % 1000
  {
    if k > 0 {
      AdvanceIsModular(c, k - 1);
    }
  }

  /** A waiter that compares counters misses a change exactly on a whole number of cycles. */
  lemma ChangeMissed(c: int, k: nat)
    requires 0 <= c <= MAX_COUNT
    ensures Advance(c, k) == c <==> k % 1000 == 0
  {
    AdvanceIsModular(c, k);
  }
}
