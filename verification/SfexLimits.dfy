/**
 * How much has to be promised: whatever the configured times, a holder is left undisturbed exactly
 * when steps are in time, the counter does not wrap around, claims are settled and releases find
 * lease left. For each of the four there is a run that keeps the timing rules and the other three
 * and ends with a holder whose record another node has taken. Two holders at once come of it
 * exactly when the times leave the first one silent for as long as the second one's check takes.
 */
module SfexLimits {
  import opened SfexRecord
  import opened SfexProtocol
  import opened SfexDeployment
  import opened SfexFence

  /** A holder's record is taken, and the taker wins beside it unless the holder always notices first. */
  ghost predicate Broken(t: Params, a: Promises) {
    !SafeAt(t, a) && (!Fenced(t) ==> !ExclusiveAt(t, a))
  }

  // Every promise but one; where claims or releases can be trusted to go forward, they do.
  const UNBOUNDED := Promises(false, true, false, false, true, true)
  const WRAPPING := Promises(true, false, false, false, true, true)
  const UNSETTLED := Promises(true, true, false, true, false, true)
  const EXPIRING := Promises(true, true, true, false, true, false)

  // ----- Three nodes -----

  const X: NodeName := [120]
  const Y: NodeName := [121]
  const V: NodeName := [118]

  lemma Distinct()
    ensures X != Y && Y != V && X != V
  {
    assert X[0] != Y[0] && Y[0] != V[0] && X[0] != V[0];
  }

  function Unlocked(ticks: nat, n: NodeName): LockData { LockData(STATUS_UNLOCK, ticks % 1000, n) }

  function Locked(ticks: nat, n: NodeName): LockData { LockData(STATUS_LOCK, ticks % 1000, n) }

  function Three(x: Node, y: Node, v: Node): map<NodeName, Node> {
    map[X := x, Y := y, V := v]
  }

  function Idle(): Node {
    Node(Code(Down, Unlocked(0, V), false), 0.0, 0.0, 0.0, 0)
  }

  /** Nothing has happened and the lock is free. */
  function Free(): Sys {
    Sys(0.0, Unlocked(0, V), Three(Idle(), Idle(), Idle()), 0, 0.0, 0.0)
  }

  // ----- A holder that beats, and a claim over it -----

  /** X holds the lock and has just written; `y` and `v` are the other nodes. */
  function Beating(t: Params, now: real, ticks: nat, readAt: real, claimAt: real, y: Node, v: Node): Sys {
    Sys(now, Locked(ticks, X), Three(Beater(t, now, ticks, readAt), y, v), ticks, claimAt, now)
  }

  function Beater(t: Params, now: real, ticks: nat, readAt: real): Node {
    Node(Code(Sleeping, Locked(ticks, X), true), readAt, now, now + t.heartbeatGap, ticks)
  }

  predicate Waits(y: Node) {
    y.code.pc.Waiting? && !y.code.won && y.code.ldata.count == y.ticks % 1000
  }

  predicate Gone(v: Node) {
    v.code.pc.Down? && !v.code.won
  }

  lemma IntervalPasses(a: Promises, t: Params, now: real, ticks: nat, readAt: real, claimAt: real, y: Node, v: Node)
    requires GoodTimes(t) && Waits(y) && Gone(v)
    ensures var s := Beating(t, now, ticks, readAt, claimAt, y, v);
            Reaches(a, t, s, s.(now := now + t.monitorInterval))
  {
    Distinct();
    var s0 := Beating(t, now, ticks, readAt, claimAt, y, v);
    var s1 := Apply(t, s0, Tick(t.monitorInterval));
    Chain(a, t, [s0, s1], [Tick(t.monitorInterval)]);
  }

  lemma Updates(a: Promises, t: Params, now: real, ticks: nat, readAt: real, claimAt: real, y: Node, v: Node)
    requires GoodTimes(t)
    ensures Reaches(a, t, Beating(t, now, ticks, readAt, claimAt, y, v).(now := now + t.monitorInterval),
                    Beating(t, now + t.monitorInterval, ticks + 1, readAt, claimAt, y, v))
  {
    Distinct();
    var s0 := Beating(t, now, ticks, readAt, claimAt, y, v).(now := now + t.monitorInterval);
    var s1 := Apply(t, s0, Step(X));
    var s2 := Apply(t, s1, Step(X));
    assert s2 == Beating(t, now + t.monitorInterval, ticks + 1, readAt, claimAt, y, v);
    Chain(a, t, [s0, s1, s2], [Step(X), Step(X)]);
  }

  lemma Beat(a: Promises, t: Params, now: real, ticks: nat, readAt: real, claimAt: real, y: Node, v: Node)
    requires GoodTimes(t) && Waits(y) && Gone(v)
    ensures Reaches(a, t, Beating(t, now, ticks, readAt, claimAt, y, v),
                    Beating(t, now + t.monitorInterval, ticks + 1, readAt, claimAt, y, v))
  {
    var s := Beating(t, now, ticks, readAt, claimAt, y, v);
    IntervalPasses(a, t, now, ticks, readAt, claimAt, y, v);
    Updates(a, t, now, ticks, readAt, claimAt, y, v);
    ReachesOn(a, t, s, s.(now := now + t.monitorInterval),
              Beating(t, now + t.monitorInterval, ticks + 1, readAt, claimAt, y, v));
  }

  lemma {:induction false} Beats(
    a: Promises, t: Params, now: real, ticks: nat, readAt: real, claimAt: real, y: Node, v: Node, b: nat)
    requires GoodTimes(t) && Waits(y) && Gone(v)
    ensures Reaches(a, t, Beating(t, now, ticks, readAt, claimAt, y, v),
                    Beating(t, now + Lapse(t, b), ticks + b, readAt, claimAt, y, v))
  {
    var s := Beating(t, now, ticks, readAt, claimAt, y, v);
    if b == 0 {
      assert Run(a, t, s, []) && Final(a, t, s, []) == s;
    } else {
      Beats(a, t, now, ticks, readAt, claimAt, y, v, b - 1);
      Beat(a, t, now + Lapse(t, b - 1), ticks + (b - 1), readAt, claimAt, y, v);
      assert now + Lapse(t, b) == now + Lapse(t, b - 1) + t.monitorInterval;
      ReachesOn(a, t, s, Beating(t, now + Lapse(t, b - 1), ticks + (b - 1), readAt, claimAt, y, v),
                Beating(t, now + Lapse(t, b), ticks + b, readAt, claimAt, y, v));
    }
  }

  lemma {:induction false} LapseGrows(t: Params, b: nat, c: nat)
    requires 0.0 < t.monitorInterval && b <= c
    ensures Lapse(t, b) <= Lapse(t, c)
    decreases c
  {
    if b < c {
      LapseGrows(t, b, c - 1);
    }
  }

  /** Enough heartbeats fill any time. */
  lemma EnoughBeats(t: Params, span: real) returns (b: nat)
    requires 0.0 < t.monitorInterval && 0.0 <= span
    ensures span <= Lapse(t, b) && 0 < b
  {
    var n := span / t.monitorInterval;
    assert 0.0 <= n;
    b := n.Floor + 1;
    LapseIsProduct(t, b);
    assert n * t.monitorInterval == span;
    ProductGrows(n, b as real, t.monitorInterval);
  }

  lemma ProductGrows(x: real, y: real, m: real)
    requires x <= y && 0.0 < m
    ensures x * m <= y * m
  {
    assert (y - x) * m >= 0.0;
  }

  /** Y's wait ends with the counter that it saw. */
  lemma WakesUp(a: Promises, t: Params, now: real, ticks: nat, readAt: real, claimAt: real, y: Node, v: Node)
    requires GoodTimes(t) && Waits(y) && Gone(v)
    requires y.readAt + t.lockTimeout <= now && y.ticks % 1000 == ticks % 1000
    requires a.fewIncrements ==> ticks - y.ticks < 1000
    ensures Reaches(a, t, Beating(t, now, ticks, readAt, claimAt, y, v),
                    Beating(t, now, ticks, readAt, claimAt,
                            y.(code := y.code.(pc := Claiming), due := now + t.ioDelay), v))
  {
    Distinct();
    var s0 := Beating(t, now, ticks, readAt, claimAt, y, v);
    var s1 := Apply(t, s0, Step(Y));
    assert s1 == Beating(t, now, ticks, readAt, claimAt,
                         y.(code := y.code.(pc := Claiming), due := now + t.ioDelay), v);
    Chain(a, t, [s0, s1], [Step(Y)]);
  }

  /** A claim by Y that takes a holder's record. */
  lemma ClaimOverHolder(
    a: Promises, t: Params, s: Sys, now: real, ticks: nat, readAt: real, claimAt: real, y: Node, v: Node)
    requires GoodTimes(t) && Init(s) && Gone(v)
    requires y.code.pc.Claiming? && !y.code.won
    requires a.claimsForward ==> ticks <= y.ticks + 1
    requires Reaches(a, t, s, Beating(t, now, ticks, readAt, claimAt, y, v))
    ensures !SafeAt(t, a)
    ensures (a.boundedDelay ==> t.collisionTimeout <= t.heartbeatGap) ==> !ExclusiveAt(t, a)
  {
    var s0 := Beating(t, now, ticks, readAt, claimAt, y, v);
    var s1 := TakesOver(a, t, now, ticks, readAt, claimAt, y, v);
    ReachesOn(a, t, s, s0, s1);
    NotSafe(a, t, s, s1);
    if a.boundedDelay ==> t.collisionTimeout <= t.heartbeatGap {
      var f := TakerWins(a, t, s1, Beater(t, now, ticks, readAt), s1.nodes[Y], v);
      ReachesOn(a, t, s, s1, f);
      NotSafe(a, t, s, f);
    }
  }

  lemma TakesOver(a: Promises, t: Params, now: real, ticks: nat, readAt: real, claimAt: real, y: Node, v: Node)
    returns (f: Sys)
    requires GoodTimes(t) && y.code.pc.Claiming? && !y.code.won
    requires a.claimsForward ==> ticks <= y.ticks + 1
    ensures Reaches(a, t, Beating(t, now, ticks, readAt, claimAt, y, v), f)
    ensures !Undisturbed(f) && f.now == now && f.disk.nodename == Y
    ensures Y in f.nodes && f.nodes == Three(Beater(t, now, ticks, readAt), f.nodes[Y], v)
    ensures var q := f.nodes[Y];
            q.code.pc.Colliding? && q.code.ldata.nodename == Y && q.wroteAt == now && q.due == now + t.claimToExtension
  {
    Distinct();
    var s0 := Beating(t, now, ticks, readAt, claimAt, y, v);
    f := Apply(t, s0, Step(Y));
    Chain(a, t, [s0, f], [Step(Y)]);
    assert Holds(f, X) && !LockedBy(f.disk, X);
    assert f.nodes == Three(Beater(t, now, ticks, readAt), f.nodes[Y], v);
  }

  /** The taker's claim survives when the holder stays silent for a collision time. */
  lemma TakerWins(a: Promises, t: Params, s: Sys, x: Node, y: Node, v: Node) returns (f: Sys)
    requires GoodTimes(t) && Gone(v)
    requires x.code.won && (a.boundedDelay ==> s.now + t.collisionTimeout <= x.due)
    requires y.code.pc.Colliding? && y.code.ldata.nodename == Y
    requires y.wroteAt == s.now && y.due == s.now + t.claimToExtension
    requires s.disk.nodename == Y && s.nodes == Three(x, y, v)
    ensures Reaches(a, t, s, f) && !MutualExclusion(f)
  {
    Distinct();
    var s1 := Apply(t, s, Tick(t.collisionTimeout));
    f := Apply(t, s1, Step(Y));
    Chain(a, t, [s, s1, f], [Tick(t.collisionTimeout), Step(Y)]);
    assert Holds(f, X) && Holds(f, Y);
  }

  lemma NotSafe(a: Promises, t: Params, s: Sys, f: Sys)
    requires Init(s) && Reaches(a, t, s, f)
    ensures !Undisturbed(f) || !MutualExclusion(f) ==> !SafeAt(t, a)
    ensures !MutualExclusion(f) ==> !ExclusiveAt(t, a)
  {
    var es :| Run(a, t, s, es) && Final(a, t, s, es) == f;
  }

  // ----- From a claim to a hold -----

  /** X has claimed at `since` and its name is still there. */
  function Claimed(t: Params, now: real, since: real, ticks: nat, readAt: real, y: Node, v: Node): Sys {
    Sys(now, Locked(ticks, X),
        Three(Node(Code(Colliding, Locked(ticks, X), false), readAt, since, since + t.claimToExtension, ticks), y, v),
        ticks, since, since)
  }

  lemma CollisionTimePasses(a: Promises, t: Params, since: real, ticks: nat, readAt: real, y: Node, v: Node)
    requires GoodTimes(t) && Gone(v) && (a.boundedDelay ==> !HasDue(y.code))
    ensures Reaches(a, t, Claimed(t, since, since, ticks, readAt, y, v),
                    Claimed(t, since + t.collisionTimeout, since, ticks, readAt, y, v))
  {
    Distinct();
    var s0 := Claimed(t, since, since, ticks, readAt, y, v);
    var s1 := Apply(t, s0, Tick(t.collisionTimeout));
    assert s1 == Claimed(t, since + t.collisionTimeout, since, ticks, readAt, y, v);
    Chain(a, t, [s0, s1], [Tick(t.collisionTimeout)]);
  }

  /** X passes its collision check and extends. */
  lemma ClaimSurvives(a: Promises, t: Params, since: real, ticks: nat, readAt: real, y: Node, v: Node)
    requires GoodTimes(t)
    ensures Reaches(a, t, Claimed(t, since + t.collisionTimeout, since, ticks, readAt, y, v),
                    Beating(t, since + t.collisionTimeout, ticks + 1, readAt, since, y, v))
  {
    Distinct();
    var s0 := Claimed(t, since + t.collisionTimeout, since, ticks, readAt, y, v);
    var s1 := Apply(t, s0, Step(X));
    var s2 := Apply(t, s1, Step(X));
    assert s2 == Beating(t, since + t.collisionTimeout, ticks + 1, readAt, since, y, v);
    Chain(a, t, [s0, s1, s2], [Step(X), Step(X)]);
  }

  lemma ClaimWins(a: Promises, t: Params, s: Sys, since: real, ticks: nat, readAt: real, y: Node, v: Node)
    requires GoodTimes(t) && Gone(v) && (a.boundedDelay ==> !HasDue(y.code))
    requires Reaches(a, t, s, Claimed(t, since, since, ticks, readAt, y, v))
    ensures Reaches(a, t, s, Beating(t, since + t.collisionTimeout, ticks + 1, readAt, since, y, v))
  {
    CollisionTimePasses(a, t, since, ticks, readAt, y, v);
    ClaimSurvives(a, t, since, ticks, readAt, y, v);
    ReachesOn(a, t, s, Claimed(t, since, since, ticks, readAt, y, v),
              Claimed(t, since + t.collisionTimeout, since, ticks, readAt, y, v));
    ReachesOn(a, t, s, Claimed(t, since + t.collisionTimeout, since, ticks, readAt, y, v),
              Beating(t, since + t.collisionTimeout, ticks + 1, readAt, since, y, v));
  }

  // ----- A claim between a check and its extension -----

  /** Y's wait ends with the counter that it saw while X's claim is checked. */
  lemma WakesBesideClaim(a: Promises, t: Params, since: real, ticks: nat, readAt: real, y: Node, v: Node)
    requires GoodTimes(t) && Waits(y)
    requires y.readAt + t.lockTimeout <= since + t.collisionTimeout && y.ticks % 1000 == ticks % 1000
    requires a.fewIncrements ==> ticks - y.ticks < 1000
    ensures var now := since + t.collisionTimeout;
            Reaches(a, t, Claimed(t, now, since, ticks, readAt, y, v),
                    Claimed(t, now, since, ticks, readAt, y.(code := y.code.(pc := Claiming), due := now + t.ioDelay), v))
  {
    Distinct();
    var now := since + t.collisionTimeout;
    var s0 := Claimed(t, now, since, ticks, readAt, y, v);
    var s1 := Apply(t, s0, Step(Y));
    assert s1 == Claimed(t, now, since, ticks, readAt, y.(code := y.code.(pc := Claiming), due := now + t.ioDelay), v);
    Chain(a, t, [s0, s1], [Step(Y)]);
  }

  /** X passes its check, Y claims before X extends, and X stays silent until Y's check. */
  lemma ClaimOverCheck(a: Promises, t: Params, s: Sys, since: real, ticks: nat, readAt: real, y: Node, v: Node)
    requires GoodTimes(t) && Init(s) && Gone(v) && 2.0 * t.collisionTimeout <= t.claimToExtension
    requires y.code.pc.Claiming? && !y.code.won
    requires a.claimsForward ==> ticks <= y.ticks + 1
    requires Reaches(a, t, s, Claimed(t, since + t.collisionTimeout, since, ticks, readAt, y, v))
    ensures !ExclusiveAt(t, a)
  {
    Distinct();
    var s0 := Claimed(t, since + t.collisionTimeout, since, ticks, readAt, y, v);
    var s1 := Apply(t, s0, Step(X));
    var s2 := Apply(t, s1, Step(Y));
    Chain(a, t, [s0, s1, s2], [Step(X), Step(Y)]);
    ReachesOn(a, t, s, s0, s2);
    assert s2.nodes == Three(s1.nodes[X], s2.nodes[Y], v);
    var f := TakerWins(a, t, s2, s1.nodes[X], s2.nodes[Y], v);
    ReachesOn(a, t, s, s2, f);
    NotSafe(a, t, s, f);
  }

  /** X, told to stop, has released the lock. */
  function Freed(t: Params, now: real, ticks: nat, readAt: real, claimAt: real, y: Node, v: Node): Sys {
    Sys(now, Unlocked(ticks, X),
        Three(Node(Code(Down, Unlocked(ticks, X), false), readAt, now, now + t.heartbeatGap, ticks), y, v),
        ticks, claimAt, now)
  }

  lemma Frees(a: Promises, t: Params, now: real, ticks: nat, readAt: real, claimAt: real, y: Node, v: Node)
    requires GoodTimes(t)
    ensures Reaches(a, t, Beating(t, now, ticks, readAt, claimAt, y, v), Freed(t, now, ticks, readAt, claimAt, y, v))
  {
    Distinct();
    var s0 := Beating(t, now, ticks, readAt, claimAt, y, v);
    var s1 := Apply(t, s0, Term(X));
    var s2 := Apply(t, s1, Step(X));
    var s3 := Apply(t, s2, Step(X));
    assert s3 == Freed(t, now, ticks, readAt, claimAt, y, v);
    Chain(a, t, [s0, s1, s2, s3], [Term(X), Step(X), Step(X)]);
  }

  lemma ClaimsFreed(a: Promises, t: Params, now: real, ticks: nat, readAt: real, claimAt: real, y: Node, v: Node)
    requires GoodTimes(t)
    ensures Reaches(a, t, Freed(t, now, ticks, readAt, claimAt, y, v), Claimed(t, now, now, ticks + 1, now, y, v))
  {
    Distinct();
    var s0 := Freed(t, now, ticks, readAt, claimAt, y, v);
    var s1 := Apply(t, s0, Start(X));
    var s2 := Apply(t, s1, Step(X));
    var s3 := Apply(t, s2, Step(X));
    assert s3 == Claimed(t, now, now, ticks + 1, now, y, v);
    Chain(a, t, [s0, s1, s2, s3], [Start(X), Step(X), Step(X)]);
  }

  /** X releases and claims again, so that its new claim brings the counter to where Y saw it. */
  lemma ReclaimIsOvertaken(
    a: Promises, t: Params, s: Sys, now: real, ticks: nat, readAt: real, claimAt: real, y: Node, v: Node)
    requires GoodTimes(t) && Init(s) && Waits(y) && Gone(v) && 2.0 * t.collisionTimeout <= t.claimToExtension
    requires y.readAt + t.lockTimeout <= now && y.ticks % 1000 == (ticks + 1) % 1000
    requires a.fewIncrements ==> ticks + 1 - y.ticks < 1000
    requires !a.claimsForward
    requires Reaches(a, t, s, Beating(t, now, ticks, readAt, claimAt, y, v))
    ensures !ExclusiveAt(t, a)
  {
    Frees(a, t, now, ticks, readAt, claimAt, y, v);
    ReachesOn(a, t, s, Beating(t, now, ticks, readAt, claimAt, y, v), Freed(t, now, ticks, readAt, claimAt, y, v));
    ClaimsFreed(a, t, now, ticks, readAt, claimAt, y, v);
    ReachesOn(a, t, s, Freed(t, now, ticks, readAt, claimAt, y, v), Claimed(t, now, now, ticks + 1, now, y, v));
    ClaimIsOvertaken(a, t, s, now, ticks + 1, now, y, v);
  }

  lemma ClaimIsOvertaken(a: Promises, t: Params, s: Sys, since: real, ticks: nat, readAt: real, y: Node, v: Node)
    requires GoodTimes(t) && Init(s) && Waits(y) && Gone(v) && 2.0 * t.collisionTimeout <= t.claimToExtension
    requires y.readAt + t.lockTimeout <= since + t.collisionTimeout && y.ticks % 1000 == ticks % 1000
    requires a.fewIncrements ==> ticks - y.ticks < 1000
    requires a.claimsForward ==> ticks <= y.ticks + 1
    requires Reaches(a, t, s, Claimed(t, since, since, ticks, readAt, y, v))
    ensures !ExclusiveAt(t, a)
  {
    var now := since + t.collisionTimeout;
    var y' := y.(code := y.code.(pc := Claiming), due := now + t.ioDelay);
    CollisionTimePasses(a, t, since, ticks, readAt, y, v);
    ReachesOn(a, t, s, Claimed(t, since, since, ticks, readAt, y, v), Claimed(t, now, since, ticks, readAt, y, v));
    WakesBesideClaim(a, t, since, ticks, readAt, y, v);
    ReachesOn(a, t, s, Claimed(t, now, since, ticks, readAt, y, v), Claimed(t, now, since, ticks, readAt, y', v));
    ClaimOverCheck(a, t, s, since, ticks, readAt, y', v);
  }

  // ----- Steps not in time: a claim later than any bound -----

  /** A daemon that has read the free record. */
  function Claimant(t: Params): Node {
    Node(Code(Claiming, Unlocked(0, V), false), 0.0, 0.0, t.ioDelay, 0)
  }

  /** X and Y read the free record; X claims. */
  lemma BothDecide(t: Params)
    requires GoodTimes(t)
    ensures Reaches(UNBOUNDED, t, Free(), Claimed(t, 0.0, 0.0, 1, 0.0, Claimant(t), Idle()))
  {
    Distinct();
    var s1 := Apply(t, Free(), Start(X));
    var s2 := Apply(t, s1, Step(X));
    var s3 := Apply(t, s2, Start(Y));
    var s4 := Apply(t, s3, Step(Y));
    var s5 := Apply(t, s4, Step(X));
    assert s5 == Claimed(t, 0.0, 0.0, 1, 0.0, Claimant(t), Idle());
    Chain(UNBOUNDED, t, [Free(), s1, s2, s3, s4, s5], [Start(X), Step(X), Start(Y), Step(Y), Step(X)]);
  }

  /** X wins and extends; only then Y's claim comes, and X is late to notice. */
  lemma BoundedDelayIsNeeded(t: Params)
    requires GoodTimes(t)
    ensures !SafeAt(t, UNBOUNDED) && !ExclusiveAt(t, UNBOUNDED)
  {
    BothDecide(t);
    ClaimWins(UNBOUNDED, t, Free(), 0.0, 1, 0.0, Claimant(t), Idle());
    ClaimOverHolder(UNBOUNDED, t, Free(), 0.0 + t.collisionTimeout, 2, 0.0, 0.0, Claimant(t), Idle());
  }

  // ----- Too many increments: a waiter sleeps through whole cycles of the counter -----

  lemma ClaimsFree(a: Promises, t: Params)
    requires GoodTimes(t)
    ensures Reaches(a, t, Free(), Claimed(t, 0.0, 0.0, 1, 0.0, Idle(), Idle()))
  {
    Distinct();
    var s1 := Apply(t, Free(), Start(X));
    var s2 := Apply(t, s1, Step(X));
    var s3 := Apply(t, s2, Step(X));
    assert s3 == Claimed(t, 0.0, 0.0, 1, 0.0, Idle(), Idle());
    Chain(a, t, [Free(), s1, s2, s3], [Start(X), Step(X), Step(X)]);
  }

  /** A daemon on Y that has met a record of X at `now` and waits. */
  function Onlooker(t: Params, now: real, ticks: nat): Node {
    Node(Code(Waiting, Locked(ticks, X), false), now, 0.0, now + t.ioDelay, ticks)
  }

  lemma Meets(a: Promises, t: Params, now: real)
    requires GoodTimes(t)
    ensures Reaches(a, t, Beating(t, now, 2, 0.0, 0.0, Idle(), Idle()),
                    Beating(t, now, 2, 0.0, 0.0, Onlooker(t, now, 2), Idle()))
  {
    Distinct();
    var s0 := Beating(t, now, 2, 0.0, 0.0, Idle(), Idle());
    var s1 := Apply(t, s0, Start(Y));
    var s2 := Apply(t, s1, Step(Y));
    assert s2 == Beating(t, now, 2, 0.0, 0.0, Onlooker(t, now, 2), Idle());
    Chain(a, t, [s0, s1, s2], [Start(Y), Step(Y)]);
  }

  /** X obtains the free lock, and Y meets it. */
  lemma HeldAndMet(a: Promises, t: Params)
    requires GoodTimes(t)
    ensures var c := 0.0 + t.collisionTimeout;
            Reaches(a, t, Free(), Beating(t, c, 2, 0.0, 0.0, Onlooker(t, c, 2), Idle()))
  {
    var c := 0.0 + t.collisionTimeout;
    ClaimsFree(a, t);
    ClaimWins(a, t, Free(), 0.0, 1, 0.0, Idle(), Idle());
    Meets(a, t, c);
    ReachesOn(a, t, Free(), Beating(t, c, 2, 0.0, 0.0, Idle(), Idle()),
              Beating(t, c, 2, 0.0, 0.0, Onlooker(t, c, 2), Idle()));
  }

  lemma FewIncrementsIsNeeded(t: Params)
    requires GoodTimes(t)
    ensures Broken(t, WRAPPING)
  {
    var c := 0.0 + t.collisionTimeout;
    var y := Onlooker(t, c, 2);
    var b := EnoughBeats(t, t.lockTimeout);
    HeldAndMet(WRAPPING, t);
    LapseGrows(t, b, 1000 * b);
    BeatsAndOvertakes(WRAPPING, t, Free(), c, 2, 0.0, 0.0, y, Idle(), 1000 * b);
    if 2.0 * t.collisionTimeout <= t.claimToExtension {
      LapseGrows(t, b, 1000 * b - 1);
      BeatsAndReclaims(WRAPPING, t, Free(), c, 2, 0.0, 0.0, y, Idle(), 1000 * b - 1);
    }
  }

  /** A waiter that does not see a change after `b` heartbeats takes the holder's record. */
  lemma BeatsAndOvertakes(
    a: Promises, t: Params, s: Sys, now: real, ticks: nat, readAt: real, claimAt: real, y: Node, v: Node, b: nat)
    requires GoodTimes(t) && Init(s) && Waits(y) && Gone(v)
    requires y.readAt + t.lockTimeout <= now + Lapse(t, b) && y.ticks % 1000 == (ticks + b) % 1000
    requires a.fewIncrements ==> ticks + b - y.ticks < 1000
    requires !a.claimsForward
    requires Reaches(a, t, s, Beating(t, now, ticks, readAt, claimAt, y, v))
    ensures !SafeAt(t, a) && (t.collisionTimeout <= t.heartbeatGap ==> !ExclusiveAt(t, a))
  {
    Beats(a, t, now, ticks, readAt, claimAt, y, v, b);
    ReachesOn(a, t, s, Beating(t, now, ticks, readAt, claimAt, y, v),
              Beating(t, now + Lapse(t, b), ticks + b, readAt, claimAt, y, v));
    Overtakes(a, t, s, now + Lapse(t, b), ticks + b, readAt, claimAt, y, v);
  }

  lemma Overtakes(
    a: Promises, t: Params, s: Sys, now: real, ticks: nat, readAt: real, claimAt: real, y: Node, v: Node)
    requires GoodTimes(t) && Init(s) && Waits(y) && Gone(v)
    requires y.readAt + t.lockTimeout <= now && y.ticks % 1000 == ticks % 1000
    requires a.fewIncrements ==> ticks - y.ticks < 1000
    requires !a.claimsForward
    requires Reaches(a, t, s, Beating(t, now, ticks, readAt, claimAt, y, v))
    ensures !SafeAt(t, a) && (t.collisionTimeout <= t.heartbeatGap ==> !ExclusiveAt(t, a))
  {
    var y' := y.(code := y.code.(pc := Claiming), due := now + t.ioDelay);
    WakesUp(a, t, now, ticks, readAt, claimAt, y, v);
    ReachesOn(a, t, s, Beating(t, now, ticks, readAt, claimAt, y, v), Beating(t, now, ticks, readAt, claimAt, y', v));
    ClaimOverHolder(a, t, s, now, ticks, readAt, claimAt, y', v);
  }

  /** The same when the holder, after `b` heartbeats, releases and claims again. */
  lemma BeatsAndReclaims(
    a: Promises, t: Params, s: Sys, now: real, ticks: nat, readAt: real, claimAt: real, y: Node, v: Node, b: nat)
    requires GoodTimes(t) && Init(s) && Waits(y) && Gone(v) && 2.0 * t.collisionTimeout <= t.claimToExtension
    requires y.readAt + t.lockTimeout <= now + Lapse(t, b) && y.ticks % 1000 == (ticks + b + 1) % 1000
    requires a.fewIncrements ==> ticks + b + 1 - y.ticks < 1000
    requires !a.claimsForward
    requires Reaches(a, t, s, Beating(t, now, ticks, readAt, claimAt, y, v))
    ensures !ExclusiveAt(t, a)
  {
    Beats(a, t, now, ticks, readAt, claimAt, y, v, b);
    ReachesOn(a, t, s, Beating(t, now, ticks, readAt, claimAt, y, v),
              Beating(t, now + Lapse(t, b), ticks + b, readAt, claimAt, y, v));
    ReclaimIsOvertaken(a, t, s, now + Lapse(t, b), ticks + b, readAt, claimAt, y, v);
  }

  // ----- Not settled: claims abandoned and taken up again at once -----

  /** X has decided on the free record; since then V has claimed and released it `k` times. */
  function Reopened(t: Params, k: nat): Sys {
    Sys(0.0, Unlocked(k, V),
        Three(Claimant(t), Idle(), Node(Code(Down, Unlocked(k, V), false), 0.0, 0.0, t.ioDelay, k)),
        k, 0.0, 0.0)
  }

  /** The free lock, with V's daemon as its last release left it. */
  function Released(t: Params): Sys {
    Free().(nodes := Three(Idle(), Idle(), Node(Code(Down, Unlocked(0, V), false), 0.0, 0.0, t.ioDelay, 0)))
  }

  lemma Decides(t: Params)
    requires GoodTimes(t)
    ensures Reaches(UNSETTLED, t, Released(t), Reopened(t, 0))
  {
    Distinct();
    var s1 := Apply(t, Released(t), Start(X));
    var s2 := Apply(t, s1, Step(X));
    assert s2 == Reopened(t, 0);
    Chain(UNSETTLED, t, [Released(t), s1, s2], [Start(X), Step(X)]);
  }

  /** V has just claimed with the counter at `ticks`. */
  function ClaimedAgain(t: Params, ticks: nat): Sys {
    Sys(0.0, Locked(ticks, V),
        Three(Claimant(t), Idle(), Node(Code(Colliding, Locked(ticks, V), false), 0.0, 0.0, t.claimToExtension, ticks)),
        ticks, 0.0, 0.0)
  }

  lemma ClaimsAgain(t: Params, k: nat)
    requires GoodTimes(t)
    ensures Reaches(UNSETTLED, t, Reopened(t, k), ClaimedAgain(t, k + 1))
  {
    Distinct();
    var s1 := Apply(t, Reopened(t, k), Start(V));
    var s2 := Apply(t, s1, Step(V));
    var s3 := Apply(t, s2, Step(V));
    assert s3 == ClaimedAgain(t, k + 1);
    Chain(UNSETTLED, t, [Reopened(t, k), s1, s2, s3], [Start(V), Step(V), Step(V)]);
  }

  /** V is told to stop and releases. */
  lemma Reopens(t: Params, k: nat)
    requires GoodTimes(t)
    ensures Reaches(UNSETTLED, t, ClaimedAgain(t, k), Reopened(t, k))
  {
    Distinct();
    var s1 := Apply(t, ClaimedAgain(t, k), Term(V));
    var s2 := Apply(t, s1, Step(V));
    var s3 := Apply(t, s2, Step(V));
    assert s3 == Reopened(t, k);
    Chain(UNSETTLED, t, [ClaimedAgain(t, k), s1, s2, s3], [Term(V), Step(V), Step(V)]);
  }

  lemma {:induction false} ReopensOften(t: Params, k: nat)
    requires GoodTimes(t)
    ensures Reaches(UNSETTLED, t, Released(t), Reopened(t, k))
  {
    if k == 0 {
      Decides(t);
    } else {
      ReopensOften(t, k - 1);
      ClaimsAgain(t, k - 1);
      ReachesOn(UNSETTLED, t, Released(t), Reopened(t, k - 1), ClaimedAgain(t, k));
      Reopens(t, k);
      ReachesOn(UNSETTLED, t, Released(t), ClaimedAgain(t, k), Reopened(t, k));
    }
  }

  function Witness(t: Params, ticks: nat): Node {
    Node(Code(Waiting, Locked(ticks, V), false), 0.0, 0.0, t.ioDelay, ticks)
  }

  function DeadClaimant(t: Params, ticks: nat): Node {
    Node(Code(Down, Locked(ticks, V), false), 0.0, 0.0, t.claimToExtension, ticks)
  }

  /** V has claimed once more and died; Y has met that claim and waits. */
  function Abandoned(t: Params, ticks: nat): Sys {
    Sys(0.0, Locked(ticks, V),
        Three(Claimant(t), Witness(t, ticks), DeadClaimant(t, ticks)),
        ticks, 0.0, 0.0)
  }

  lemma Abandons(t: Params, ticks: nat)
    requires GoodTimes(t)
    ensures Reaches(UNSETTLED, t, ClaimedAgain(t, ticks), Abandoned(t, ticks))
  {
    Distinct();
    var s1 := Apply(t, ClaimedAgain(t, ticks), Crash(V));
    var s2 := Apply(t, s1, Start(Y));
    var s3 := Apply(t, s2, Step(Y));
    assert s3 == Abandoned(t, ticks);
    Chain(UNSETTLED, t, [ClaimedAgain(t, ticks), s1, s2, s3], [Crash(V), Start(Y), Step(Y)]);
  }

  /** X's claim, decided on the first counter, winds the counter back. */
  lemma WindsBack(t: Params, ticks: nat)
    requires GoodTimes(t)
    ensures Reaches(UNSETTLED, t, Abandoned(t, ticks),
                    Claimed(t, t.ioDelay, t.ioDelay, 1, 0.0, Witness(t, ticks), DeadClaimant(t, ticks)))
  {
    Distinct();
    var s0 := Abandoned(t, ticks);
    var s1 := Apply(t, s0, Tick(t.ioDelay));
    var s2 := Apply(t, s1, Step(X));
    assert s2 == Claimed(t, t.ioDelay, t.ioDelay, 1, 0.0, Witness(t, ticks), DeadClaimant(t, ticks));
    Chain(UNSETTLED, t, [s0, s1, s2], [Tick(t.ioDelay), Step(X)]);
  }

  lemma StaleClaim(t: Params, k: nat)
    requires GoodTimes(t)
    ensures Reaches(UNSETTLED, t, Released(t),
                    Claimed(t, t.ioDelay, t.ioDelay, 1, 0.0, Witness(t, k + 1), DeadClaimant(t, k + 1)))
  {
    ReopensOften(t, k);
    ClaimsAgain(t, k);
    ReachesOn(UNSETTLED, t, Released(t), Reopened(t, k), ClaimedAgain(t, k + 1));
    Abandons(t, k + 1);
    ReachesOn(UNSETTLED, t, Released(t), ClaimedAgain(t, k + 1), Abandoned(t, k + 1));
    WindsBack(t, k + 1);
    ReachesOn(UNSETTLED, t, Released(t), Abandoned(t, k + 1),
              Claimed(t, t.ioDelay, t.ioDelay, 1, 0.0, Witness(t, k + 1), DeadClaimant(t, k + 1)));
  }

  /** X holds beside Y, which waits with the counter at `k + 1`. */
  lemma StaleHold(t: Params, k: nat)
    requires GoodTimes(t)
    ensures Reaches(UNSETTLED, t, Released(t),
                    Beating(t, t.ioDelay + t.collisionTimeout, 2, 0.0, t.ioDelay, Witness(t, k + 1), DeadClaimant(t, k + 1)))
  {
    StaleClaim(t, k);
    ClaimWins(UNSETTLED, t, Released(t), t.ioDelay, 1, 0.0, Witness(t, k + 1), DeadClaimant(t, k + 1));
  }

  /** X's heartbeats bring the counter to where Y saw it, just when Y's wait ends. */
  lemma SettledIsNeeded(t: Params)
    requires GoodTimes(t)
    ensures Broken(t, UNSETTLED)
  {
    var b := EnoughBeats(t, t.lockTimeout);
    var start := t.ioDelay + t.collisionTimeout;
    ReleasedIsInit(t);
    StaleHold(t, b + 1);
    BeatsAndOvertakes(UNSETTLED, t, Released(t), start, 2, 0.0, t.ioDelay, Witness(t, b + 2), DeadClaimant(t, b + 2), b);
    if 2.0 * t.collisionTimeout <= t.claimToExtension {
      StaleHold(t, b + 2);
      BeatsAndReclaims(UNSETTLED, t, Released(t), start, 2, 0.0, t.ioDelay, Witness(t, b + 3), DeadClaimant(t, b + 3), b);
    }
  }

  lemma ReleasedIsInit(t: Params)
    ensures Init(Released(t))
  {
  }

  // ----- No lease left: a restarted daemon releases an expired record -----

  /** V died with the lock. */
  function Dead(): Sys {
    Free().(disk := Locked(0, V))
  }

  /** X has waited and decides to claim. */
  function Expired(t: Params): Sys {
    var now := t.lockTimeout;
    Dead().(now := now,
            nodes := Three(Node(Code(Claiming, Locked(0, V), false), 0.0, 0.0, now + t.ioDelay, 0), Idle(), Idle()))
  }

  lemma Expires(t: Params)
    requires GoodTimes(t)
    ensures Reaches(EXPIRING, t, Dead(), Expired(t))
  {
    Distinct();
    var s1 := Apply(t, Dead(), Start(X));
    var s2 := Apply(t, s1, Step(X));
    var s3 := Apply(t, s2, Tick(t.lockTimeout));
    var s4 := Apply(t, s3, Step(X));
    assert s4 == Expired(t);
    Chain(EXPIRING, t, [Dead(), s1, s2, s3, s4], [Start(X), Step(X), Tick(t.lockTimeout), Step(X)]);
  }

  /** V's new daemon has been told to stop and has read its old record. */
  function Stopping(t: Params): Sys {
    Expired(t).(nodes := Expired(t).nodes[V := OldRelease(t)])
  }

  function OldRelease(t: Params): Node {
    Node(Code(Releasing, Locked(0, V), false), 0.0, 0.0, t.lockTimeout + t.ioDelay, 0)
  }

  lemma Stops(t: Params)
    requires GoodTimes(t)
    ensures Reaches(EXPIRING, t, Expired(t), Stopping(t))
  {
    Distinct();
    var s1 := Apply(t, Expired(t), Start(V));
    var s2 := Apply(t, s1, Term(V));
    var s3 := Apply(t, s2, Step(V));
    assert s3 == Stopping(t);
    Chain(EXPIRING, t, [Expired(t), s1, s2, s3], [Start(V), Term(V), Step(V)]);
  }

  function StoppedNode(t: Params): Node {
    Node(Code(Down, Unlocked(0, V), false), 0.0, 0.0, t.lockTimeout + t.ioDelay, 0)
  }

  /** X has claimed, and Y has met X's claim. */
  function Pending(t: Params): Sys {
    Claimed(t, t.lockTimeout, t.lockTimeout, 1, 0.0, Onlooker(t, t.lockTimeout, 1), OldRelease(t))
  }

  lemma Pends(t: Params)
    requires GoodTimes(t)
    ensures Reaches(EXPIRING, t, Stopping(t), Pending(t))
  {
    Distinct();
    var s1 := Apply(t, Stopping(t), Step(X));
    var s2 := Apply(t, s1, Start(Y));
    var s3 := Apply(t, s2, Step(Y));
    assert s3 == Pending(t);
    Chain(EXPIRING, t, [Stopping(t), s1, s2, s3], [Step(X), Start(Y), Step(Y)]);
  }

  /** V's release has wound the counter back, and X has died. */
  function Rewound(t: Params): Sys {
    var now := t.lockTimeout;
    Sys(now, Unlocked(0, V),
        Three(Node(Code(Down, Locked(1, X), false), 0.0, now, now + t.claimToExtension, 1),
              Onlooker(t, t.lockTimeout, 1),
              StoppedNode(t)),
        0, now, now)
  }

  lemma Rewinds(t: Params)
    requires GoodTimes(t)
    ensures Reaches(EXPIRING, t, Pending(t), Rewound(t))
  {
    Distinct();
    var s1 := Apply(t, Pending(t), Step(V));
    var s2 := Apply(t, s1, Crash(X));
    assert s2 == Rewound(t);
    Chain(EXPIRING, t, [Pending(t), s1, s2], [Step(V), Crash(X)]);
  }

  /** A lock time later X has started again and claimed the free lock. */
  function Reclaimed(t: Params, now: real, y: Node): Sys {
    Claimed(t, now, LongAfter(t), 1, LongAfter(t), y, StoppedNode(t))
  }

  function LongAfter(t: Params): real {
    t.lockTimeout + t.lockTimeout
  }

  lemma LockTimePasses(t: Params)
    requires GoodTimes(t)
    ensures Reaches(EXPIRING, t, Rewound(t), Rewound(t).(now := LongAfter(t)))
  {
    Distinct();
    var s1 := Apply(t, Rewound(t), Tick(t.lockTimeout));
    assert s1 == Rewound(t).(now := LongAfter(t));
    Chain(EXPIRING, t, [Rewound(t), s1], [Tick(t.lockTimeout)]);
  }

  lemma Reclaims(t: Params)
    requires GoodTimes(t)
    ensures Reaches(EXPIRING, t, Rewound(t).(now := LongAfter(t)),
                    Reclaimed(t, LongAfter(t), Onlooker(t, t.lockTimeout, 1)))
  {
    Distinct();
    var s0 := Rewound(t).(now := LongAfter(t));
    var s1 := Apply(t, s0, Start(X));
    var s2 := Apply(t, s1, Step(X));
    var s3 := Apply(t, s2, Step(X));
    assert s3 == Reclaimed(t, LongAfter(t), Onlooker(t, t.lockTimeout, 1));
    Chain(EXPIRING, t, [s0, s1, s2, s3], [Start(X), Step(X), Step(X)]);
  }

  /** Y when its wait has ended at the counter that it saw. */
  function Woken(t: Params): Node {
    var now := LongAfter(t) + t.collisionTimeout;
    Node(Code(Claiming, Locked(1, X), false), t.lockTimeout, 0.0, now + t.ioDelay, 1)
  }

  lemma ReachesRewound(t: Params)
    requires GoodTimes(t)
    ensures Reaches(EXPIRING, t, Dead(), Rewound(t))
  {
    Expires(t);
    Stops(t);
    ReachesOn(EXPIRING, t, Dead(), Expired(t), Stopping(t));
    Pends(t);
    ReachesOn(EXPIRING, t, Dead(), Stopping(t), Pending(t));
    Rewinds(t);
    ReachesOn(EXPIRING, t, Dead(), Pending(t), Rewound(t));
  }

  lemma ReachesWoken(t: Params)
    requires GoodTimes(t)
    ensures Reaches(EXPIRING, t, Rewound(t), Reclaimed(t, LongAfter(t) + t.collisionTimeout, Woken(t)))
  {
    var since, now, y := LongAfter(t), LongAfter(t) + t.collisionTimeout, Onlooker(t, t.lockTimeout, 1);
    LockTimePasses(t);
    Reclaims(t);
    ReachesOn(EXPIRING, t, Rewound(t), Rewound(t).(now := since), Reclaimed(t, since, y));
    CollisionTimePasses(EXPIRING, t, since, 1, since, y, StoppedNode(t));
    ReachesOn(EXPIRING, t, Rewound(t), Reclaimed(t, since, y), Reclaimed(t, now, y));
    WakesBesideClaim(EXPIRING, t, since, 1, since, y, StoppedNode(t));
    ReachesOn(EXPIRING, t, Rewound(t), Reclaimed(t, now, y), Reclaimed(t, now, Woken(t)));
  }

  /** X wins and extends, and then Y claims. */
  lemma LeaseLeftIsNeeded(t: Params)
    requires GoodTimes(t)
    ensures Broken(t, EXPIRING)
  {
    var since, now := LongAfter(t), LongAfter(t) + t.collisionTimeout;
    ReachesRewound(t);
    ReachesWoken(t);
    ReachesOn(EXPIRING, t, Dead(), Rewound(t), Reclaimed(t, now, Woken(t)));
    ClaimSurvives(EXPIRING, t, since, 1, since, Woken(t), StoppedNode(t));
    ReachesOn(EXPIRING, t, Dead(), Reclaimed(t, now, Woken(t)),
              Beating(t, now, 2, since, since, Woken(t), StoppedNode(t)));
    DeadIsInit();
    ClaimOverHolder(EXPIRING, t, Dead(), now, 2, since, since, Woken(t), StoppedNode(t));
    if 2.0 * t.collisionTimeout <= t.claimToExtension {
      ClaimOverCheck(EXPIRING, t, Dead(), since, 1, since, Woken(t), StoppedNode(t));
    }
  }

  lemma DeadIsInit()
    ensures Init(Dead())
  {
  }

  // ----- Exactly what has to be promised -----

  /** `b` promises all that `a` does. */
  predicate Within(a: Promises, b: Promises) {
    && (a.boundedDelay ==> b.boundedDelay)
    && (a.fewIncrements ==> b.fewIncrements)
    && (a.claimsForward ==> b.claimsForward)
    && (a.releasesForward ==> b.releasesForward)
    && (a.settled ==> b.settled)
    && (a.leaseLeft ==> b.leaseLeft)
  }

  lemma {:induction false} RunWithin(a: Promises, b: Promises, t: Params, s: Sys, es: seq<Event>)
    requires Within(a, b) && Run(b, t, s, es)
    ensures Run(a, t, s, es) && Final(a, t, s, es) == Final(b, t, s, es)
    decreases |es|
  {
    if es != [] {
      RunWithin(a, b, t, Apply(t, s, es[0]), es[1..]);
    }
  }

  lemma NotSafeWithin(t: Params, a: Promises, b: Promises)
    requires Within(a, b)
    ensures !SafeAt(t, b) ==> !SafeAt(t, a)
    ensures !ExclusiveAt(t, b) ==> !ExclusiveAt(t, a)
  {
    forall s, es | Init(s) && Run(b, t, s, es)
      ensures Run(a, t, s, es) && Final(a, t, s, es) == Final(b, t, s, es)
    {
      RunWithin(a, b, t, s, es);
    }
  }

  // ----- The exact conditions -----

  /**
   * Whatever the times, of the four promises about the daemons none can be missing if holders are
   * to be undisturbed, and together they are enough. Mutual exclusion alone holds exactly when
   * steps are in time and either the other three are kept or the times are fenced.
   */
  lemma SafeExactlyWhenCareful(t: Params, a: Promises)
    requires GoodTimes(t) && !a.claimsForward && !a.releasesForward
    ensures SafeAt(t, a) <==> a.boundedDelay && a.fewIncrements && a.settled && a.leaseLeft
    ensures ExclusiveAt(t, a) <==> a.boundedDelay && ((a.fewIncrements && a.settled && a.leaseLeft) || Fenced(t))
  {
    if !a.boundedDelay {
      BoundedDelayIsNeeded(t);
      NotSafeWithin(t, a, UNBOUNDED);
    } else {
      if Fenced(t) {
        FencedIsExclusive(t, a);
      }
      if !a.fewIncrements {
        FewIncrementsIsNeeded(t);
        NotSafeWithin(t, a, WRAPPING);
      } else if !a.settled {
        SettledIsNeeded(t);
        NotSafeWithin(t, a, UNSETTLED);
      } else if !a.leaseLeft {
        LeaseLeftIsNeeded(t);
        NotSafeWithin(t, a, EXPIRING);
      } else {
        assert a == CAREFUL;
        forall s, es | Init(s) && Run(a, t, s, es)
          ensures MutualExclusion(Final(a, t, s, es)) && Undisturbed(Final(a, t, s, es))
        {
          CarefulMutualExclusion(t, s, es);
        }
      }
    }
  }
}
