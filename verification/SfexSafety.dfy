/** Mutual exclusion: the invariant of the lock protocol, kept by every step of every run. */
module SfexSafety {
  import opened SfexRecord
  import opened SfexProtocol

  predicate Clock(s: Sys) {
    && s.disk.count == s.ticks % 1000
    && s.claimAt <= s.leaseAt <= s.now
  }

  /** What holds of every node whatever its place in the code. */
  predicate Basics(s: Sys, p: Node) {
    var pc := p.code.pc;
    && (HasDue(p.code) ==> s.now <= p.due)
    && (pc.Waiting? ==> p.readAt <= s.now)
    && (pc.Extending? || pc.Sleeping? || pc.Updating? ==> p.code.won)
    && (p.code.won ==> pc.Extending? || pc.Sleeping? || pc.Updating? || pc.Quitting? || pc.Releasing?)
    && (pc.Waiting? || pc.Claiming? || pc.Colliding? || pc.Releasing? ==> p.code.ldata.count == p.ticks % 1000)
  }

  /** A waiter has not seen more than the record says; if it saw the same, the record is not much younger. */
  predicate WaiterInv(t: Params, s: Sys, p: Node) {
    && p.ticks <= s.ticks
    && (p.ticks == s.ticks ==>
          s.leaseAt <= p.readAt || (s.leaseAt == s.claimAt && s.leaseAt <= p.readAt + t.ioDelay))
  }

  /** A claimant decided before the last claim, or found the record free, its own, or expired. */
  predicate ClaimantInv(t: Params, s: Sys, n: NodeName, p: Node) {
    && p.due <= s.now + t.ioDelay
    && (|| p.due <= s.claimAt + t.ioDelay
        || (s.disk.status == STATUS_LOCK && s.disk.nodename != n ==> s.leaseAt + t.lockTimeout <= p.due))
  }

  /** A claim that is still on the disk is exactly what its writer remembers. */
  predicate ColliderInv(t: Params, s: Sys, n: NodeName, p: Node) {
    && p.code.ldata.nodename == n
    && (s.disk.nodename == n ==>
          && s.disk == p.code.ldata && s.disk.status == STATUS_LOCK && s.ticks == p.ticks
          && s.leaseAt == s.claimAt == p.wroteAt
          && p.due == p.wroteAt + t.claimToExtension)
  }

  /** A daemon that releases without having won read before the last claim, or its record is still there or unlocked. */
  predicate ReleaserInv(t: Params, s: Sys, n: NodeName, p: Node) {
    && p.due <= s.now + t.ioDelay
    && p.code.ldata.nodename == n
    && (p.due <= s.claimAt + t.ioDelay || s.disk == p.code.ldata || s.disk.status != STATUS_LOCK)
  }

  /** A holder owns the record and will write again before any waiter's sleep can end. */
  predicate HolderInv(t: Params, s: Sys, n: NodeName, p: Node) {
    && LockedBy(s.disk, n)
    && (Writes(p.code.pc) ==> p.code.ldata == s.disk && p.ticks == s.ticks)
    && s.claimAt < s.now
    && (|| (s.leaseAt == s.claimAt && p.due <= s.leaseAt + t.claimToExtension)
        || (s.claimAt < s.leaseAt && p.due <= s.leaseAt + t.heartbeatGap))
  }

  predicate NodeInv(t: Params, s: Sys, n: NodeName, p: Node) {
    && Basics(s, p)
    && (p.code.pc.Waiting? ==> WaiterInv(t, s, p))
    && (p.code.pc.Claiming? ==> ClaimantInv(t, s, n, p))
    && (p.code.pc.Colliding? ==> ColliderInv(t, s, n, p))
    && (p.code.pc.Releasing? && !p.code.won ==> ReleaserInv(t, s, n, p))
    && (p.code.won ==> HolderInv(t, s, n, p))
  }

  /** A write in flight that a holder would not survive. */
  predicate Rival(c: Code) {
    c.pc.Claiming? || (c.pc.Releasing? && !c.won)
  }

  /** No rival is beside a holder; a claimant that saw less than a waiter decided before the waiter read. */
  predicate PairInv(t: Params, p: Node, q: Node) {
    && (Rival(p.code) ==> !q.code.won)
    && (p.code.pc.Claiming? && q.code.pc.Waiting? ==> q.ticks <= p.ticks || p.due <= q.readAt + t.ioDelay)
  }

  predicate Inv(t: Params, s: Sys) {
    && Clock(s)
    && (forall n :: n in s.nodes ==> NodeInv(t, s, n, s.nodes[n]))
    && (forall n, m :: n in s.nodes && m in s.nodes ==> PairInv(t, s.nodes[n], s.nodes[m]))
  }

  // ----- The invariant is kept -----

  lemma TickKeeps(t: Params, s: Sys, e: Event)
    requires GoodTimes(t) && Inv(t, s) && e.Tick? && Allowed(FORWARD, t, s, e)
    ensures Inv(t, Apply(t, s, e))
  {
  }

  lemma OutsideEventNode(t: Params, s: Sys, e: Event, n: NodeName)
    requires GoodTimes(t) && Inv(t, s) && Allowed(FORWARD, t, s, e) && n in s.nodes
    requires e.Start? || e.Term? || e.Crash?
    ensures NodeInv(t, Apply(t, s, e), n, Apply(t, s, e).nodes[n])
  {
    assert NodeInv(t, s, n, s.nodes[n]);
  }

  /** Starting, signalling and crashing only forget what a daemon was about to do. */
  lemma OutsideEventKeeps(t: Params, s: Sys, e: Event)
    requires GoodTimes(t) && Inv(t, s) && Allowed(FORWARD, t, s, e)
    requires e.Start? || e.Term? || e.Crash?
    ensures Inv(t, Apply(t, s, e))
  {
    var s' := Apply(t, s, e);
    forall n | n in s'.nodes ensures NodeInv(t, s', n, s'.nodes[n]) {
      OutsideEventNode(t, s, e, n);
    }
    forall n, m | n in s'.nodes && m in s'.nodes ensures PairInv(t, s'.nodes[n], s'.nodes[m]) {
      assert PairInv(t, s.nodes[n], s.nodes[m]);
    }
  }

  /** A waiter whose sleep is over sees that a holder has moved the counter. */
  lemma WaiterSeesHolder(t: Params, s: Sys, n: NodeName, m: NodeName)
    requires GoodTimes(t) && Inv(t, s) && Allowed(FORWARD, t, s, Step(n))
    requires s.nodes[n].code.pc.Waiting? && m in s.nodes && s.nodes[m].code.won
    ensures s.nodes[n].code.ldata.count != s.disk.count
  {
    assert NodeInv(t, s, n, s.nodes[n]);
    assert NodeInv(t, s, m, s.nodes[m]);
  }

  /** A waiter that does not see a change has seen the current counter. */
  lemma WaiterIsCurrent(t: Params, s: Sys, n: NodeName)
    requires Inv(t, s) && Allowed(FORWARD, t, s, Step(n))
    requires s.nodes[n].code.pc.Waiting? && s.nodes[n].code.ldata.count == s.disk.count
    ensures s.nodes[n].ticks == s.ticks
  {
    assert NodeInv(t, s, n, s.nodes[n]);
  }

  lemma DecidingReadNode(t: Params, s: Sys, n: NodeName, m: NodeName)
    requires GoodTimes(t) && Inv(t, s) && Allowed(FORWARD, t, s, Step(n)) && m in s.nodes
    requires s.nodes[n].code.pc.Reading? || s.nodes[n].code.pc.Waiting?
    ensures NodeInv(t, Apply(t, s, Step(n)), m, Apply(t, s, Step(n)).nodes[m])
  {
    assert NodeInv(t, s, n, s.nodes[n]) && NodeInv(t, s, m, s.nodes[m]);
    if s.nodes[n].code.pc.Waiting? && s.nodes[n].code.ldata.count == s.disk.count {
      WaiterIsCurrent(t, s, n);
    }
  }

  lemma DecidingReadPair(t: Params, s: Sys, n: NodeName, m: NodeName, k: NodeName)
    requires GoodTimes(t) && Inv(t, s) && Allowed(FORWARD, t, s, Step(n)) && m in s.nodes && k in s.nodes
    requires s.nodes[n].code.pc.Reading? || s.nodes[n].code.pc.Waiting?
    ensures PairInv(t, Apply(t, s, Step(n)).nodes[m], Apply(t, s, Step(n)).nodes[k])
  {
    assert PairInv(t, s.nodes[m], s.nodes[k]);
    assert NodeInv(t, s, n, s.nodes[n]) && NodeInv(t, s, m, s.nodes[m]) && NodeInv(t, s, k, s.nodes[k]);
    if s.nodes[n].code.pc.Waiting? && NodeStep(t, s, n).code.pc.Claiming? {
      WaiterIsCurrent(t, s, n);
      if s.nodes[k].code.won {
        WaiterSeesHolder(t, s, n, k);
      }
    }
  }

  /** The two reads of acquire_lock that may lead to a claim. */
  lemma DecidingReadKeeps(t: Params, s: Sys, n: NodeName)
    requires GoodTimes(t) && Inv(t, s) && Allowed(FORWARD, t, s, Step(n))
    requires s.nodes[n].code.pc.Reading? || s.nodes[n].code.pc.Waiting?
    ensures Inv(t, Apply(t, s, Step(n)))
  {
    var s' := Apply(t, s, Step(n));
    forall m | m in s'.nodes ensures NodeInv(t, s', m, s'.nodes[m]) {
      DecidingReadNode(t, s, n, m);
    }
    forall m, k | m in s'.nodes && k in s'.nodes ensures PairInv(t, s'.nodes[m], s'.nodes[k]) {
      DecidingReadPair(t, s, n, m, k);
    }
  }

  lemma ClaimNode(t: Params, s: Sys, n: NodeName, m: NodeName)
    requires GoodTimes(t) && Inv(t, s) && Allowed(FORWARD, t, s, Step(n)) && m in s.nodes
    requires s.nodes[n].code.pc.Claiming?
    ensures NodeInv(t, Apply(t, s, Step(n)), m, Apply(t, s, Step(n)).nodes[m])
  {
    assert NodeInv(t, s, n, s.nodes[n]) && NodeInv(t, s, m, s.nodes[m]);
    assert PairInv(t, s.nodes[n], s.nodes[m]);
  }

  lemma ClaimKeeps(t: Params, s: Sys, n: NodeName)
    requires GoodTimes(t) && Inv(t, s) && Allowed(FORWARD, t, s, Step(n))
    requires s.nodes[n].code.pc.Claiming?
    ensures Inv(t, Apply(t, s, Step(n)))
  {
    var s' := Apply(t, s, Step(n));
    assert NodeInv(t, s, n, s.nodes[n]);
    forall m | m in s'.nodes ensures NodeInv(t, s', m, s'.nodes[m]) {
      ClaimNode(t, s, n, m);
    }
    forall m, k | m in s'.nodes && k in s'.nodes ensures PairInv(t, s'.nodes[m], s'.nodes[k]) {
      assert PairInv(t, s.nodes[m], s.nodes[k]);
    }
  }

  /** When a claim has survived the collision time, no write that could overwrite it is in flight. */
  lemma NoRival(t: Params, s: Sys, n: NodeName, m: NodeName)
    requires GoodTimes(t) && Inv(t, s) && Allowed(FORWARD, t, s, Step(n))
    requires s.nodes[n].code.pc.Colliding? && s.disk.nodename == n && m in s.nodes
    ensures !Rival(s.nodes[m].code)
  {
    assert NodeInv(t, s, n, s.nodes[n]);
    assert NodeInv(t, s, m, s.nodes[m]);
  }

  lemma OwnReadNode(t: Params, s: Sys, n: NodeName, m: NodeName)
    requires GoodTimes(t) && Inv(t, s) && Allowed(FORWARD, t, s, Step(n)) && m in s.nodes
    requires var pc := s.nodes[n].code.pc; pc.Colliding? || pc.Sleeping? || pc.Quitting?
    ensures NodeInv(t, Apply(t, s, Step(n)), m, Apply(t, s, Step(n)).nodes[m])
  {
    assert NodeInv(t, s, n, s.nodes[n]) && NodeInv(t, s, m, s.nodes[m]);
  }

  lemma OwnReadPair(t: Params, s: Sys, n: NodeName, m: NodeName, k: NodeName)
    requires GoodTimes(t) && Inv(t, s) && Allowed(FORWARD, t, s, Step(n)) && m in s.nodes && k in s.nodes
    requires var pc := s.nodes[n].code.pc; pc.Colliding? || pc.Sleeping? || pc.Quitting?
    ensures PairInv(t, Apply(t, s, Step(n)).nodes[m], Apply(t, s, Step(n)).nodes[k])
  {
    assert PairInv(t, s.nodes[m], s.nodes[k]);
    assert NodeInv(t, s, n, s.nodes[n]) && NodeInv(t, s, k, s.nodes[k]);
    if s.nodes[n].code.pc.Colliding? && s.disk.nodename == n {
      NoRival(t, s, n, m);
    }
  }

  /** The reads that look for the node's own name: collision check, heartbeat and release. */
  lemma OwnReadKeeps(t: Params, s: Sys, n: NodeName)
    requires GoodTimes(t) && Inv(t, s) && Allowed(FORWARD, t, s, Step(n))
    requires var pc := s.nodes[n].code.pc; pc.Colliding? || pc.Sleeping? || pc.Quitting?
    ensures Inv(t, Apply(t, s, Step(n)))
  {
    var s' := Apply(t, s, Step(n));
    forall m | m in s'.nodes ensures NodeInv(t, s', m, s'.nodes[m]) {
      OwnReadNode(t, s, n, m);
    }
    forall m, k | m in s'.nodes && k in s'.nodes ensures PairInv(t, s'.nodes[m], s'.nodes[k]) {
      OwnReadPair(t, s, n, m, k);
    }
  }

  /** The writes other than claims: extension, heartbeat and release. */
  lemma LaterWriteKeeps(t: Params, s: Sys, n: NodeName)
    requires GoodTimes(t) && Inv(t, s) && Allowed(FORWARD, t, s, Step(n))
    requires var pc := s.nodes[n].code.pc; pc.Extending? || pc.Updating? || pc.Releasing?
    ensures Inv(t, Apply(t, s, Step(n)))
  {
    var s' := Apply(t, s, Step(n));
    assert NodeInv(t, s, n, s.nodes[n]);
    forall m | m in s'.nodes ensures NodeInv(t, s', m, s'.nodes[m]) {
      assert NodeInv(t, s, m, s.nodes[m]);
      assert PairInv(t, s.nodes[m], s.nodes[n]) && PairInv(t, s.nodes[n], s.nodes[m]);
    }
    forall m, k | m in s'.nodes && k in s'.nodes ensures PairInv(t, s'.nodes[m], s'.nodes[k]) {
      assert PairInv(t, s.nodes[m], s.nodes[k]);
    }
  }

  lemma EventKeeps(t: Params, s: Sys, e: Event)
    requires GoodTimes(t) && Inv(t, s) && Allowed(FORWARD, t, s, e)
    ensures Inv(t, Apply(t, s, e))
  {
    match e
    case Tick(_) => TickKeeps(t, s, e);
    case Start(_) => OutsideEventKeeps(t, s, e);
    case Term(_) => OutsideEventKeeps(t, s, e);
    case Crash(_) => OutsideEventKeeps(t, s, e);
    case Step(n) =>
      match s.nodes[n].code.pc {
        case Reading | Waiting => DecidingReadKeeps(t, s, n);
        case Claiming => ClaimKeeps(t, s, n);
        case Colliding | Sleeping | Quitting => OwnReadKeeps(t, s, n);
        case Extending | Updating | Releasing => LaterWriteKeeps(t, s, n);
        case Down =>
      }
  }

  lemma {:induction false} RunKeeps(t: Params, s: Sys, es: seq<Event>)
    requires GoodTimes(t) && Inv(t, s) && Run(FORWARD, t, s, es)
    ensures Inv(t, Final(FORWARD, t, s, es))
    decreases |es|
  {
    if es != [] {
      EventKeeps(t, s, es[0]);
      RunKeeps(t, Apply(t, s, es[0]), es[1..]);
    }
  }

  lemma InitInv(t: Params, s: Sys)
    requires GoodTimes(t) && Init(s)
    ensures Inv(t, s)
  {
  }

  // ----- Main results -----

  /** In every state of every run at most one daemon holds the lock, and its name stays on the record. */
  lemma AtMostOneHolder(t: Params, s: Sys, es: seq<Event>)
    requires GoodTimes(t) && Init(s) && Run(FORWARD, t, s, es)
    ensures MutualExclusion(Final(FORWARD, t, s, es))
    ensures Undisturbed(Final(FORWARD, t, s, es))
  {
    InitInv(t, s);
    RunKeeps(t, s, es);
    var f := Final(FORWARD, t, s, es);
    forall n | Holds(f, n) ensures LockedBy(f.disk, n) {
      assert NodeInv(t, f, n, f.nodes[n]);
    }
  }

  /**
   * The next step of a holder goes on: its heartbeat and its release find its own name, and its
   * release unlocks the record.
   */
  predicate NotRefused(t: Params, s: Sys, n: NodeName)
    requires Enabled(t, s, Step(n))
  {
    var pc, pc' := s.nodes[n].code.pc, Apply(t, s, Step(n)).nodes[n].code.pc;
    if pc.Sleeping? then pc'.Updating?
    else if pc.Quitting? then pc'.Releasing?
    else if pc.Releasing? then pc'.Down? && Apply(t, s, Step(n)).disk.status == STATUS_UNLOCK
    else pc'.Sleeping?
  }

  /** A holder's heartbeat never fails, so no holder reboots its node, and its release succeeds. */
  lemma HolderIsNeverRefused(t: Params, s: Sys, es: seq<Event>, n: NodeName)
    requires GoodTimes(t) && Init(s) && Run(FORWARD, t, s, es)
    requires Holds(Final(FORWARD, t, s, es), n) && Allowed(FORWARD, t, Final(FORWARD, t, s, es), Step(n))
    ensures NotRefused(t, Final(FORWARD, t, s, es), n)
  {
    AtMostOneHolder(t, s, es);
    InitInv(t, s);
    RunKeeps(t, s, es);
    assert NodeInv(t, Final(FORWARD, t, s, es), n, Final(FORWARD, t, s, es).nodes[n]);
  }
}
