/**
 * The lock as an operator sees it: when daemons may be stopped and started so that the
 * counter never goes back, and that the lock can then always be obtained.
 */
module SfexDeployment {
  import opened SfexRecord
  import opened SfexProtocol
  import opened SfexSafety

  /** A claimant saw the current counter, or the one before a claim that is younger than its own read. */
  predicate ClaimantForward(t: Params, s: Sys, p: Node) {
    || p.ticks == s.ticks
    || (p.ticks + 1 == s.ticks && s.disk.status == STATUS_LOCK && p.due <= s.claimAt + t.ioDelay)
  }

  /** A daemon that releases without having won is about to write the current counter, before any waiter wakes. */
  predicate ReleaserForward(t: Params, s: Sys, n: NodeName, p: Node) {
    LockedBy(s.disk, n) && p.ticks == s.ticks && p.due + t.ioDelay < s.leaseAt + t.lockTimeout
  }

  predicate NodeForward(t: Params, s: Sys, n: NodeName, p: Node) {
    && (p.code.pc.Claiming? ==> ClaimantForward(t, s, p))
    && (p.code.pc.Releasing? && !p.code.won ==> ReleaserForward(t, s, n, p))
  }

  /** Claimants agree, and none is beside a daemon that releases. */
  predicate PairForward(p: Node, q: Node) {
    p.code.pc.Claiming? ==> !q.code.pc.Releasing? && (q.code.pc.Claiming? ==> q.ticks == p.ticks)
  }

  predicate Forward(t: Params, s: Sys) {
    && Inv(t, s)
    && (forall n :: n in s.nodes ==> NodeForward(t, s, n, s.nodes[n]))
    && (forall n, m :: n in s.nodes && m in s.nodes ==> PairForward(s.nodes[n], s.nodes[m]))
  }

  // ----- Careful events go forward -----

  lemma CarefulEventIsForward(t: Params, s: Sys, e: Event)
    requires Forward(t, s) && Allowed(CAREFUL, t, s, e)
    ensures Allowed(FORWARD, t, s, e)
  {
    if e.Step? {
      assert NodeForward(t, s, e.n, s.nodes[e.n]);
    }
  }

  lemma StepKeepsNodeForward(t: Params, s: Sys, n: NodeName, m: NodeName)
    requires GoodTimes(t) && Forward(t, s) && Allowed(CAREFUL, t, s, Step(n)) && m in s.nodes
    ensures NodeForward(t, Apply(t, s, Step(n)), m, Apply(t, s, Step(n)).nodes[m])
  {
    assert NodeForward(t, s, m, s.nodes[m]) && NodeForward(t, s, n, s.nodes[n]);
    assert NodeInv(t, s, m, s.nodes[m]) && NodeInv(t, s, n, s.nodes[n]);
    assert PairInv(t, s.nodes[m], s.nodes[n]);
    assert PairForward(s.nodes[m], s.nodes[n]) && PairForward(s.nodes[n], s.nodes[m]);
  }

  lemma NodeStaysForward(t: Params, s: Sys, e: Event, m: NodeName)
    requires GoodTimes(t) && Forward(t, s) && Allowed(CAREFUL, t, s, e) && m in s.nodes
    ensures NodeForward(t, Apply(t, s, e), m, Apply(t, s, e).nodes[m])
  {
    assert NodeForward(t, s, m, s.nodes[m]);
    assert NodeInv(t, s, m, s.nodes[m]);
    if e.Step? {
      StepKeepsNodeForward(t, s, e.n, m);
    }
  }

  /** A read that decides for a claim finds no claimant with another counter and no releaser. */
  lemma NewClaimantAgrees(t: Params, s: Sys, n: NodeName, m: NodeName)
    requires GoodTimes(t) && Forward(t, s) && Allowed(CAREFUL, t, s, Step(n)) && m in s.nodes && m != n
    requires s.nodes[n].code.pc.Reading? || s.nodes[n].code.pc.Waiting?
    requires NodeStep(t, s, n).code.pc.Claiming?
    ensures !(s.nodes[m].code.pc.Releasing?)
    ensures s.nodes[m].code.pc.Claiming? ==> s.nodes[m].ticks == NodeStep(t, s, n).ticks
  {
    CarefulEventIsForward(t, s, Step(n));
    assert NodeForward(t, s, m, s.nodes[m]);
    assert NodeInv(t, s, m, s.nodes[m]) && NodeInv(t, s, n, s.nodes[n]);
    if s.nodes[n].code.pc.Waiting? {
      WaiterIsCurrent(t, s, n);
      if s.nodes[m].code.won {
        WaiterSeesHolder(t, s, n, m);
      }
    }
  }

  /** A daemon that starts to release finds no claimant. */
  lemma NewReleaserIsAlone(t: Params, s: Sys, n: NodeName, m: NodeName)
    requires GoodTimes(t) && Forward(t, s) && Allowed(CAREFUL, t, s, Step(n)) && m in s.nodes
    requires s.nodes[n].code.pc.Quitting? && LockedBy(s.disk, n)
    ensures !s.nodes[m].code.pc.Claiming?
  {
    assert NodeInv(t, s, m, s.nodes[m]);
    assert PairInv(t, s.nodes[m], s.nodes[n]);
  }

  lemma PairStaysForward(t: Params, s: Sys, e: Event, m: NodeName, k: NodeName)
    requires GoodTimes(t) && Forward(t, s) && Allowed(CAREFUL, t, s, e) && m in s.nodes && k in s.nodes
    ensures PairForward(Apply(t, s, e).nodes[m], Apply(t, s, e).nodes[k])
  {
    assert PairForward(s.nodes[m], s.nodes[k]) && PairForward(s.nodes[k], s.nodes[m]);
    if e.Step? {
      var pc := s.nodes[e.n].code.pc;
      if (pc.Reading? || pc.Waiting?) && NodeStep(t, s, e.n).code.pc.Claiming? {
        if m != e.n {
          NewClaimantAgrees(t, s, e.n, m);
        }
        if k != e.n {
          NewClaimantAgrees(t, s, e.n, k);
        }
      }
      if pc.Quitting? && LockedBy(s.disk, e.n) {
        NewReleaserIsAlone(t, s, e.n, m);
      }
    }
  }

  lemma CarefulEventKeeps(t: Params, s: Sys, e: Event)
    requires GoodTimes(t) && Forward(t, s) && Allowed(CAREFUL, t, s, e)
    ensures Allowed(FORWARD, t, s, e) && Forward(t, Apply(t, s, e))
  {
    CarefulEventIsForward(t, s, e);
    EventKeeps(t, s, e);
    var s' := Apply(t, s, e);
    forall m | m in s'.nodes ensures NodeForward(t, s', m, s'.nodes[m]) {
      NodeStaysForward(t, s, e, m);
    }
    forall m, k | m in s'.nodes && k in s'.nodes ensures PairForward(s'.nodes[m], s'.nodes[k]) {
      PairStaysForward(t, s, e, m, k);
    }
  }

  lemma {:induction false} CarefulRun(t: Params, s: Sys, es: seq<Event>)
    requires GoodTimes(t) && Forward(t, s) && Run(CAREFUL, t, s, es)
    ensures Run(FORWARD, t, s, es) && Final(FORWARD, t, s, es) == Final(CAREFUL, t, s, es)
    decreases |es|
  {
    if es != [] {
      CarefulEventKeeps(t, s, es[0]);
      CarefulRun(t, Apply(t, s, es[0]), es[1..]);
    }
  }

  /** When daemons are stopped and started with care, the counter never goes back. */
  lemma CarefulRunsGoForward(t: Params, s: Sys, es: seq<Event>)
    requires GoodTimes(t) && Init(s) && Run(CAREFUL, t, s, es)
    ensures Run(FORWARD, t, s, es) && Final(FORWARD, t, s, es) == Final(CAREFUL, t, s, es)
  {
    InitInv(t, s);
    CarefulRun(t, s, es);
  }

  /** Mutual exclusion under rules that an operator can follow. */
  lemma CarefulMutualExclusion(t: Params, s: Sys, es: seq<Event>)
    requires GoodTimes(t) && Init(s) && Run(CAREFUL, t, s, es)
    ensures MutualExclusion(Final(CAREFUL, t, s, es)) && Undisturbed(Final(CAREFUL, t, s, es))
  {
    CarefulRunsGoForward(t, s, es);
    AtMostOneHolder(t, s, es);
  }

  /** In such runs a holder's heartbeat and release are never refused. */
  lemma CarefulHolderIsNeverRefused(t: Params, s: Sys, es: seq<Event>, n: NodeName)
    requires GoodTimes(t) && Init(s) && Run(CAREFUL, t, s, es)
    requires Holds(Final(CAREFUL, t, s, es), n) && Allowed(CAREFUL, t, Final(CAREFUL, t, s, es), Step(n))
    ensures NotRefused(t, Final(CAREFUL, t, s, es), n)
  {
    CarefulRunsGoForward(t, s, es);
    CarefulRunIsForward(t, s, es);
    CarefulEventIsForward(t, Final(CAREFUL, t, s, es), Step(n));
    HolderIsNeverRefused(t, s, es, n);
  }

  lemma {:induction false} ForwardStays(t: Params, s: Sys, es: seq<Event>)
    requires GoodTimes(t) && Forward(t, s) && Run(CAREFUL, t, s, es)
    ensures Forward(t, Final(CAREFUL, t, s, es))
    decreases |es|
  {
    if es != [] {
      CarefulEventKeeps(t, s, es[0]);
      ForwardStays(t, Apply(t, s, es[0]), es[1..]);
    }
  }

  lemma CarefulRunIsForward(t: Params, s: Sys, es: seq<Event>)
    requires GoodTimes(t) && Init(s) && Run(CAREFUL, t, s, es)
    ensures Forward(t, Final(CAREFUL, t, s, es))
  {
    InitInv(t, s);
    ForwardStays(t, s, es);
  }

  /**
   * A daemon whose wait ends goes on to claim exactly when the record has the count that it read,
   * locked or not, which is exactly when nobody has moved the counter since; otherwise it is gone.
   */
  lemma WaiterDecides(t: Params, s: Sys, es: seq<Event>, n: NodeName)
    requires GoodTimes(t) && Init(s) && Run(CAREFUL, t, s, es)
    requires var f := Final(CAREFUL, t, s, es);
             Allowed(CAREFUL, t, f, Step(n)) && f.nodes[n].code.pc.Waiting?
    ensures var f := Final(CAREFUL, t, s, es);
            var f' := Apply(t, f, Step(n));
            var pc' := f'.nodes[n].code.pc;
            && f'.disk == f.disk
            && (pc'.Claiming? <==> f.nodes[n].code.ldata.count == f.disk.count)
            && (pc'.Claiming? <==> f.nodes[n].ticks == f.ticks)
            && (pc'.Claiming? || pc'.Down?)
  {
    var f := Final(CAREFUL, t, s, es);
    CarefulRunIsForward(t, s, es);
    CarefulEventIsForward(t, f, Step(n));
    assert NodeInv(t, f, n, f.nodes[n]);
    if f.nodes[n].code.ldata.count == f.disk.count {
      WaiterIsCurrent(t, f, n);
    }
  }

  /** A daemon whose wait ends beside a live holder gives up without a write. */
  lemma WaiterGivesUp(t: Params, s: Sys, es: seq<Event>, n: NodeName, m: NodeName)
    requires GoodTimes(t) && Init(s) && Run(CAREFUL, t, s, es)
    requires var f := Final(CAREFUL, t, s, es);
             Allowed(CAREFUL, t, f, Step(n)) && f.nodes[n].code.pc.Waiting? && Holds(f, m)
    ensures var f := Final(CAREFUL, t, s, es);
            var f' := Apply(t, f, Step(n));
            f'.nodes[n].code.pc.Down? && f'.disk == f.disk
  {
    var f := Final(CAREFUL, t, s, es);
    CarefulRunIsForward(t, s, es);
    CarefulEventIsForward(t, f, Step(n));
    WaiterSeesHolder(t, f, n, m);
  }

  /** When a daemon passes its collision check, no other is about to claim or to release without having won. */
  lemma SurvivingClaimIsSafe(t: Params, s: Sys, es: seq<Event>, n: NodeName, m: NodeName)
    requires GoodTimes(t) && Init(s) && Run(CAREFUL, t, s, es)
    requires var f := Final(CAREFUL, t, s, es);
             && Allowed(CAREFUL, t, f, Step(n)) && m in f.nodes
             && f.nodes[n].code.pc.Colliding? && Apply(t, f, Step(n)).nodes[n].code.won
    ensures !Rival(Apply(t, Final(CAREFUL, t, s, es), Step(n)).nodes[m].code)
  {
    var f := Final(CAREFUL, t, s, es);
    CarefulRunIsForward(t, s, es);
    CarefulEventIsForward(t, f, Step(n));
    assert NodeInv(t, f, n, f.nodes[n]);
    NoRival(t, f, n, m);
  }

  // ----- The lock can be obtained -----

  /** The events by which a lone daemon decides to claim. */
  function Approach(t: Params, s: Sys, n: NodeName): seq<Event> {
    if s.disk.status != STATUS_LOCK then [Start(n), Step(n)]
    else if s.disk.nodename == n then [Start(n), Tick(2.0 * t.ioDelay), Step(n)]
    else [Start(n), Step(n), Tick(t.lockTimeout), Step(n)]
  }

  /** Those by which it claims and passes the collision check. */
  function Claim(t: Params, n: NodeName): seq<Event> {
    [Step(n), Tick(t.collisionTimeout), Step(n)]
  }

  predicate AllDownBut(s: Sys, n: NodeName) {
    forall m :: m in s.nodes && m != n ==> s.nodes[m].code.pc.Down? && !s.nodes[m].code.won
  }

  /** `n` is about to claim on the current counter and every other daemon is down. */
  predicate LoneClaimant(s: Sys, n: NodeName) {
    && n in s.nodes
    && AllDownBut(s, n)
    && var p := s.nodes[n];
    && p.code.pc.Claiming? && s.now <= p.due && p.ticks == s.ticks
  }

  lemma FreeLock(t: Params, s: Sys, n: NodeName)
    requires GoodTimes(t) && Init(s) && n in s.nodes && s.disk.status != STATUS_LOCK
    ensures Run(CAREFUL, t, s, Approach(t, s, n))
    ensures LoneClaimant(Final(CAREFUL, t, s, Approach(t, s, n)), n)
    ensures Final(CAREFUL, t, s, Approach(t, s, n)).now == s.now
  {
    var s1 := Apply(t, s, Start(n));
    var s2 := Apply(t, s1, Step(n));
    Chain(CAREFUL, t, [s, s1, s2], Approach(t, s, n));
  }

  lemma OwnOldLock(t: Params, s: Sys, n: NodeName)
    requires GoodTimes(t) && Init(s) && n in s.nodes && LockedBy(s.disk, n)
    ensures Run(CAREFUL, t, s, Approach(t, s, n))
    ensures LoneClaimant(Final(CAREFUL, t, s, Approach(t, s, n)), n)
    ensures Final(CAREFUL, t, s, Approach(t, s, n)).now == s.now + 2.0 * t.ioDelay
  {
    var s1 := Apply(t, s, Start(n));
    var s2 := Apply(t, s1, Tick(2.0 * t.ioDelay));
    var s3 := Apply(t, s2, Step(n));
    Chain(CAREFUL, t, [s, s1, s2, s3], Approach(t, s, n));
  }

  lemma ExpiredLock(t: Params, s: Sys, n: NodeName)
    requires GoodTimes(t) && Init(s) && n in s.nodes
    requires s.disk.status == STATUS_LOCK && s.disk.nodename != n
    ensures Run(CAREFUL, t, s, Approach(t, s, n))
    ensures LoneClaimant(Final(CAREFUL, t, s, Approach(t, s, n)), n)
    ensures Final(CAREFUL, t, s, Approach(t, s, n)).now == s.now + t.lockTimeout
  {
    var s1 := Apply(t, s, Start(n));
    var s2 := Apply(t, s1, Step(n));
    var s3 := Apply(t, s2, Tick(t.lockTimeout));
    var s4 := Apply(t, s3, Step(n));
    Chain(CAREFUL, t, [s, s1, s2, s3, s4], Approach(t, s, n));
  }

  lemma ApproachDecides(t: Params, s: Sys, n: NodeName)
    requires GoodTimes(t) && Init(s) && n in s.nodes
    ensures Run(CAREFUL, t, s, Approach(t, s, n))
    ensures LoneClaimant(Final(CAREFUL, t, s, Approach(t, s, n)), n)
    ensures Final(CAREFUL, t, s, Approach(t, s, n)).now <= s.now + t.lockTimeout
  {
    if s.disk.status != STATUS_LOCK {
      FreeLock(t, s, n);
    } else if s.disk.nodename == n {
      OwnOldLock(t, s, n);
    } else {
      ExpiredLock(t, s, n);
    }
  }

  /** The claim survives when nobody else writes. */
  lemma LoneClaimWins(t: Params, s: Sys, n: NodeName)
    requires GoodTimes(t) && LoneClaimant(s, n)
    ensures Run(CAREFUL, t, s, Claim(t, n))
    ensures var f := Final(CAREFUL, t, s, Claim(t, n));
            Holds(f, n) && AllDownBut(f, n) && f.now == s.now + t.collisionTimeout
  {
    var s1 := Apply(t, s, Step(n));
    var s2 := Apply(t, s1, Tick(t.collisionTimeout));
    var s3 := Apply(t, s2, Step(n));
    Chain(CAREFUL, t, [s, s1, s2, s3], Claim(t, n));
  }

  /** A careful run from `s` gives the lock to `n` alone within the two timeouts. */
  ghost predicate CanObtain(t: Params, s: Sys, n: NodeName) {
    exists es ::
      && Run(CAREFUL, t, s, es)
      && var f := Final(CAREFUL, t, s, es);
      && f.now <= s.now + t.lockTimeout + t.collisionTimeout
      && forall m :: Holds(f, m) <==> m == n
  }

  /** From any record left on the disk one node obtains the lock. */
  lemma Obtainable(t: Params, s: Sys, n: NodeName)
    requires GoodTimes(t) && Init(s) && n in s.nodes
    ensures CanObtain(t, s, n)
  {
    ApproachDecides(t, s, n);
    LoneClaimWins(t, Final(CAREFUL, t, s, Approach(t, s, n)), n);
    RunConcat(CAREFUL, t, s, Approach(t, s, n), Claim(t, n));
  }

  // ----- A lock that is released during a wait -----

  /** `n` waits with the current counter, and the lock is free. */
  predicate FreeBesideWaiter(s: Sys, n: NodeName) {
    && n in s.nodes && AllDownBut(s, n)
    && s.disk.status == STATUS_UNLOCK
    && var p := s.nodes[n];
    && p.code.pc.Waiting? && p.code.ldata.count == s.disk.count && p.ticks == s.ticks && p.readAt <= s.now
  }

  /** When its sleep is over the waiter takes the free lock. */
  lemma WaiterTakes(t: Params, s: Sys, n: NodeName)
    requires GoodTimes(t) && FreeBesideWaiter(s, n)
    ensures CanObtain(t, s, n)
  {
    var rest := if s.nodes[n].readAt + t.lockTimeout <= s.now then 0.0 else s.nodes[n].readAt + t.lockTimeout - s.now;
    var s1 := Apply(t, s, Tick(rest));
    var s2 := Apply(t, s1, Step(n));
    Chain(CAREFUL, t, [s, s1, s2], [Tick(rest), Step(n)]);
    LoneClaimWins(t, s2, n);
    RunConcat(CAREFUL, t, s, [Tick(rest), Step(n)], Claim(t, n));
  }

  /** `n` waits with the current counter beside the holder `m`, and nobody else runs. */
  predicate HeldBesideWaiter(s: Sys, n: NodeName, m: NodeName) {
    && n in s.nodes && m in s.nodes && n != m
    && s.nodes[n].code.pc.Waiting? && s.nodes[n].ticks == s.ticks
    && Holds(s, m)
    && forall k :: k in s.nodes && k != n && k != m ==> s.nodes[k].code.pc.Down?
  }

  /** The events by which a holder is told to stop, if it is not, and releases. */
  function Release(pc: Pc, m: NodeName): seq<Event> {
    if pc.Releasing? then [Step(m)]
    else if pc.Quitting? then [Step(m), Step(m)]
    else [Term(m), Step(m), Step(m)]
  }

  lemma OthersDidNotWin(t: Params, s: Sys, n: NodeName, m: NodeName)
    requires Inv(t, s) && HeldBesideWaiter(s, n, m)
    ensures forall k :: k in s.nodes && k != m ==> !s.nodes[k].code.won
  {
    forall k | k in s.nodes && k != m ensures !s.nodes[k].code.won {
      assert NodeInv(t, s, k, s.nodes[k]);
    }
  }

  /** The release leads to a free lock beside the waiter, at once. */
  predicate ReleasesFor(t: Params, s: Sys, n: NodeName, m: NodeName)
    requires m in s.nodes
  {
    var es := Release(s.nodes[m].code.pc, m);
    && Run(CAREFUL, t, s, es)
    && FreeBesideWaiter(Final(CAREFUL, t, s, es), n)
    && Final(CAREFUL, t, s, es).now == s.now
  }

  lemma ReleasingFrees(t: Params, s: Sys, n: NodeName, m: NodeName)
    requires GoodTimes(t) && Forward(t, s) && HeldBesideWaiter(s, n, m)
    requires s.nodes[m].code.pc.Releasing?
    ensures ReleasesFor(t, s, n, m)
  {
    assert NodeInv(t, s, n, s.nodes[n]) && NodeInv(t, s, m, s.nodes[m]);
    OthersDidNotWin(t, s, n, m);
    var s1 := Apply(t, s, Step(m));
    Chain(CAREFUL, t, [s, s1], [Step(m)]);
  }

  lemma QuittingFrees(t: Params, s: Sys, n: NodeName, m: NodeName)
    requires GoodTimes(t) && Forward(t, s) && HeldBesideWaiter(s, n, m)
    requires s.nodes[m].code.pc.Quitting?
    ensures ReleasesFor(t, s, n, m)
  {
    assert NodeInv(t, s, n, s.nodes[n]) && NodeInv(t, s, m, s.nodes[m]);
    OthersDidNotWin(t, s, n, m);
    var s1 := Apply(t, s, Step(m));
    var s2 := Apply(t, s1, Step(m));
    Chain(CAREFUL, t, [s, s1, s2], [Step(m), Step(m)]);
  }

  lemma SignalFrees(t: Params, s: Sys, n: NodeName, m: NodeName)
    requires GoodTimes(t) && Forward(t, s) && HeldBesideWaiter(s, n, m)
    requires !s.nodes[m].code.pc.Quitting? && !s.nodes[m].code.pc.Releasing?
    ensures ReleasesFor(t, s, n, m)
  {
    assert NodeInv(t, s, m, s.nodes[m]);
    var s1 := Apply(t, s, Term(m));
    CarefulEventKeeps(t, s, Term(m));
    QuittingFrees(t, s1, n, m);
    assert Release(s.nodes[m].code.pc, m)[1..] == Release(s1.nodes[m].code.pc, m);
  }

  lemma ReleaseFrees(t: Params, s: Sys, n: NodeName, m: NodeName)
    requires GoodTimes(t) && Forward(t, s) && HeldBesideWaiter(s, n, m)
    ensures ReleasesFor(t, s, n, m)
  {
    if s.nodes[m].code.pc.Releasing? {
      ReleasingFrees(t, s, n, m);
    } else if s.nodes[m].code.pc.Quitting? {
      QuittingFrees(t, s, n, m);
    } else {
      SignalFrees(t, s, n, m);
    }
  }

  /**
   * Wherever its daemon is, a holder that is told to stop beside a lone waiter that has seen its
   * last write hands the lock over: a careful continuation releases it, and the waiter takes it.
   */
  lemma ReleasedLockIsTaken(t: Params, s: Sys, es: seq<Event>, n: NodeName, m: NodeName)
    requires GoodTimes(t) && Init(s) && Run(CAREFUL, t, s, es)
    requires HeldBesideWaiter(Final(CAREFUL, t, s, es), n, m)
    ensures var f := Final(CAREFUL, t, s, es);
            var fs := Release(f.nodes[m].code.pc, m);
            && Run(CAREFUL, t, f, fs)
            && Final(CAREFUL, t, f, fs).disk.status == STATUS_UNLOCK
            && CanObtain(t, Final(CAREFUL, t, f, fs), n)
            && CanObtain(t, f, n)
  {
    var f := Final(CAREFUL, t, s, es);
    var fs := Release(f.nodes[m].code.pc, m);
    CarefulRunIsForward(t, s, es);
    ReleaseFrees(t, f, n, m);
    var g := Final(CAREFUL, t, f, fs);
    WaiterTakes(t, g, n);
    var gs :| Run(CAREFUL, t, g, gs)
              && (var h := Final(CAREFUL, t, g, gs);
                  h.now <= g.now + t.lockTimeout + t.collisionTimeout && forall k :: Holds(h, k) <==> k == n);
    RunConcat(CAREFUL, t, f, fs, gs);
  }

  // ----- The times in use -----

  /** The default timeouts of heartbeat/sfex, in seconds, with disk accesses and scheduling well below them. */
  const DEFAULT_TIMES := Params(100.0, 1.0, 10.0, 0.5, 2.0, 20.0)

  /** The rules admit the defaults, and no collision time that an I/O delay can outlast. */
  lemma RulesAreMeant(t: Params)
    ensures GoodTimes(DEFAULT_TIMES)
    ensures t.collisionTimeout <= t.ioDelay || t.lockTimeout <= t.heartbeatGap ==> !GoodTimes(t)
  {
  }
}
