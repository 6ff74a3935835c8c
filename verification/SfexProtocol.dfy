/**
 * The lock protocol of tools/sfex_daemon.c as a timed transition system: any number of
 * nodes, one shared record, a real-valued clock. A node's daemon does one disk access per
 * step; a sleep is a lower bound on the time of the next step.
 */
module SfexProtocol {
  import opened SfexRecord

  // ----- One daemon: the code between two interruptible points -----

  /** Where a daemon is: the next thing it does. */
  datatype Pc =
    | Down        // no process on this node
    | Reading     // acquire_lock: the first read
    | Waiting     // acquire_lock: sleeps lock_timeout, then reads again
    | Claiming    // acquire_lock: writes its own name
    | Colliding   // acquire_lock: sleeps collision_timeout, then reads again
    | Extending   // acquire_lock: writes the extension
    | Sleeping    // main loop: sleeps monitor_interval, then update_lock reads
    | Updating    // update_lock: writes the heartbeat
    | Quitting    // quit_handler: release_lock reads
    | Releasing   // release_lock: writes the unlocked record

  /** A daemon's variables; `won` says that it has passed the collision check. */
  datatype Code = Code(pc: Pc, ldata: LockData, won: bool)

  function Exit(c: Code): Code {
    c.(pc := Down, won := false)
  }

  /** True when the next step of a daemon at this place writes the record. */
  predicate Writes(pc: Pc) {
    pc.Claiming? || pc.Extending? || pc.Updating? || pc.Releasing?
  }

  /** One step of the daemon of node `me` against the record `disk`: its variables and the record afterwards. */
  function CodeStep(me: NodeName, c: Code, disk: LockData): (Code, LockData) {
    match c.pc
    case Down => (c, disk)
    case Reading =>
      (c.(ldata := disk, pc := if disk.status == STATUS_LOCK && disk.nodename != me then Waiting else Claiming), disk)
    case Waiting =>
      (if c.ldata.count != disk.count then Exit(c) else c.(pc := Claiming), disk)
    case Claiming =>
      var claim := LockData(STATUS_LOCK, NextCount(c.ldata.count), me);
      (c.(ldata := claim, pc := Colliding), claim)
    case Colliding =>
      (if c.ldata.nodename != disk.nodename then Exit(c) else c.(pc := Extending, won := true), disk)
    case Extending =>
      var extended := c.ldata.(count := NextCount(c.ldata.count));
      (c.(ldata := extended, pc := Sleeping), extended)
    case Sleeping =>
      (if LockedBy(disk, me) then c.(ldata := disk, pc := Updating) else Exit(c.(ldata := disk)), disk)
    case Updating =>
      var beat := c.ldata.(count := NextCount(c.ldata.count));
      (c.(ldata := beat, pc := Sleeping), beat)
    case Quitting =>
      (if LockedBy(disk, me) then c.(ldata := disk, pc := Releasing) else Exit(c.(ldata := disk)), disk)
    case Releasing =>
      var unlocked := c.ldata.(status := STATUS_UNLOCK);
      (Exit(c.(ldata := unlocked)), unlocked)
  }

  // ----- All daemons, the record and the clock -----

  /**
   * The configured times and the bounds the deployment promises:
   * `ioDelay` from a read to the write it leads to, `claimToExtension` from a claim to its
   * extension, `heartbeatGap` between two writes of a holder.
   */
  datatype Params = Params(
    lockTimeout: real, collisionTimeout: real, monitorInterval: real,
    ioDelay: real, claimToExtension: real, heartbeatGap: real)

  /** The timing rules of tools/README.sfex. */
  predicate GoodTimes(t: Params) {
    && 0.0 < t.ioDelay < t.collisionTimeout <= t.claimToExtension
    && t.claimToExtension + 2.0 * t.ioDelay < t.lockTimeout
    && 0.0 < t.monitorInterval <= t.heartbeatGap < t.lockTimeout
  }

  /**
   * A node: its daemon's variables, when it last read before a decision and last wrote, the
   * time by which its next step is due, and `ticks`, the unwrapped value of its counter.
   */
  datatype Node = Node(code: Code, readAt: real, wroteAt: real, due: real, ticks: nat)

  /**
   * `ticks` is the record's counter without wrap-around, `claimAt` the time of the last claim
   * and `leaseAt` that of the last write of a locked record. The code sees none of the three.
   */
  datatype Sys = Sys(now: real, disk: LockData, nodes: map<NodeName, Node>, ticks: nat, claimAt: real, leaseAt: real)

  datatype Event =
    | Tick(d: real)          // time passes
    | Start(n: NodeName)     // a daemon is started on a node that has none
    | Step(n: NodeName)      // the daemon does its next step
    | Term(n: NodeName)      // SIGTERM
    | Crash(n: NodeName)     // the process or its node dies

  /** True when the daemon's next step has a deadline. */
  predicate HasDue(c: Code) {
    match c.pc
    case Claiming | Colliding | Extending | Sleeping | Updating | Releasing => true
    case Quitting => c.won
    case _ => false
  }

  /** What the code allows: sleeps last at least as long as asked, SIGTERM is blocked in its own handler. */
  predicate Enabled(t: Params, s: Sys, e: Event) {
    match e
    case Tick(d) => 0.0 <= d
    case Start(n) => n in s.nodes && s.nodes[n].code.pc.Down?
    case Crash(n) => n in s.nodes && !s.nodes[n].code.pc.Down?
    case Term(n) =>
      && n in s.nodes
      && var pc := s.nodes[n].code.pc;
      && !pc.Down? && !pc.Quitting? && !pc.Releasing?
    case Step(n) =>
      && n in s.nodes
      && var p := s.nodes[n];
      && !p.code.pc.Down?
      && (p.code.pc.Waiting? ==> p.readAt + t.lockTimeout <= s.now)
      && (p.code.pc.Colliding? ==> p.wroteAt + t.collisionTimeout <= s.now)
      && (p.code.pc.Sleeping? ==> p.wroteAt + t.monitorInterval <= s.now)
  }

  /** The node after its daemon's step, with the clock and counter history. */
  function NodeStep(t: Params, s: Sys, n: NodeName): Node
    requires n in s.nodes
  {
    var p := s.nodes[n];
    var q := p.(code := CodeStep(n, p.code, s.disk).0);
    match p.code.pc
    case Reading => q.(readAt := s.now, due := s.now + t.ioDelay, ticks := s.ticks)
    case Waiting => q.(due := s.now + t.ioDelay)
    case Claiming => q.(wroteAt := s.now, due := s.now + t.claimToExtension, ticks := p.ticks + 1)
    case Extending => q.(wroteAt := s.now, due := s.now + t.heartbeatGap, ticks := p.ticks + 1)
    case Sleeping => q.(ticks := s.ticks)
    case Updating => q.(wroteAt := s.now, due := s.now + t.heartbeatGap, ticks := p.ticks + 1)
    case Quitting => q.(due := if p.code.won then p.due else s.now + t.ioDelay, ticks := s.ticks)
    case _ => q
  }

  function Apply(t: Params, s: Sys, e: Event): Sys
    requires Enabled(t, s, e)
  {
    match e
    case Tick(d) => s.(now := s.now + d)
    case Start(n) => Put(s, n, s.nodes[n].code.(pc := Reading, won := false))
    case Term(n) => Put(s, n, s.nodes[n].code.(pc := Quitting))
    case Crash(n) => Put(s, n, Exit(s.nodes[n].code))
    case Step(n) =>
      var pc := s.nodes[n].code.pc;
      var q := NodeStep(t, s, n);
      Sys(s.now, CodeStep(n, s.nodes[n].code, s.disk).1, s.nodes[n := q],
          if Writes(pc) then q.ticks else s.ticks,
          if pc.Claiming? then s.now else s.claimAt,
          if Writes(pc) && !pc.Releasing? then s.now else s.leaseAt)
  }

  function Put(s: Sys, n: NodeName, c: Code): Sys
    requires n in s.nodes
  {
    s.(nodes := s.nodes[n := s.nodes[n].(code := c)])
  }

  // ----- What the deployment promises about runs -----

  /** No step comes later than its deadline. */
  predicate BoundedDelay(s: Sys, e: Event) {
    e.Tick? ==> forall n :: n in s.nodes && HasDue(s.nodes[n].code) ==> s.now + e.d <= s.nodes[n].due
  }

  /** The counter does not run through a whole cycle during one wait. */
  predicate FewIncrements(s: Sys, e: Event) {
    e.Step? && e.n in s.nodes && s.nodes[e.n].code.pc.Waiting? ==> s.ticks - s.nodes[e.n].ticks < 1000
  }

  /** A claim does not put a counter on the record that is older than the one it finds there. */
  predicate ClaimsForward(s: Sys, e: Event) {
    e.Step? && e.n in s.nodes && s.nodes[e.n].code.pc.Claiming? ==> s.ticks <= s.nodes[e.n].ticks + 1
  }

  /** Nor does the release of a daemon that never won the lock. */
  predicate ReleasesForward(s: Sys, e: Event) {
    (e.Step? && e.n in s.nodes && s.nodes[e.n].code.pc.Releasing? && !s.nodes[e.n].code.won)
    ==> s.ticks <= s.nodes[e.n].ticks
  }

  /** A daemon that has not won the lock is about to find its own name on a locked record. */
  predicate FindsOwnName(s: Sys, e: Event) {
    && e.Step? && e.n in s.nodes
    && var c := s.nodes[e.n].code;
    && !c.won && (c.pc.Reading? || c.pc.Quitting?)
    && LockedBy(s.disk, e.n)
  }

  /** An abandoned claim is neither released nor taken up again by its node within one I/O delay. */
  predicate Settled(t: Params, s: Sys, e: Event) {
    FindsOwnName(s, e) ==> s.claimAt + t.ioDelay < s.now
  }

  /** A daemon that has not won releases its node's old record only well before the lease runs out. */
  predicate LeaseLeft(t: Params, s: Sys, e: Event) {
    FindsOwnName(s, e) && s.nodes[e.n].code.pc.Quitting? ==> s.now + 2.0 * t.ioDelay < s.leaseAt + t.lockTimeout
  }

  /** Which promises a run keeps. */
  datatype Promises = Promises(
    boundedDelay: bool, fewIncrements: bool,
    claimsForward: bool, releasesForward: bool,
    settled: bool, leaseLeft: bool)

  // The counter never goes back: what the safety proof rests on.
  const FORWARD := Promises(true, true, true, true, false, false)

  // What the operator of a cluster can see to: when daemons are stopped and started.
  const CAREFUL := Promises(true, true, false, false, true, true)

  // Only that steps are in time and the counter does not wrap around during a wait.
  const TIMED := Promises(true, true, false, false, false, false)

  const NOTHING := Promises(false, false, false, false, false, false)

  predicate Allowed(a: Promises, t: Params, s: Sys, e: Event) {
    && Enabled(t, s, e)
    && (a.boundedDelay ==> BoundedDelay(s, e))
    && (a.fewIncrements ==> FewIncrements(s, e))
    && (a.claimsForward ==> ClaimsForward(s, e))
    && (a.releasesForward ==> ReleasesForward(s, e))
    && (a.settled ==> Settled(t, s, e))
    && (a.leaseLeft ==> LeaseLeft(t, s, e))
  }

  /** A run: every event is allowed where it happens. */
  predicate Run(a: Promises, t: Params, s: Sys, es: seq<Event>)
    decreases |es|
  {
    es == [] || (Allowed(a, t, s, es[0]) && Run(a, t, Apply(t, s, es[0]), es[1..]))
  }

  /** The state in which a run ends. */
  function Final(a: Promises, t: Params, s: Sys, es: seq<Event>): Sys
    requires Run(a, t, s, es)
    decreases |es|
  {
    if es == [] then s else Final(a, t, Apply(t, s, es[0]), es[1..])
  }

  /** Some run leads from `s` to `f`. */
  ghost predicate Reaches(a: Promises, t: Params, s: Sys, f: Sys) {
    exists es :: Run(a, t, s, es) && Final(a, t, s, es) == f
  }

  /** States that follow one another under allowed events make a run. */
  lemma {:induction false} Chain(a: Promises, t: Params, ss: seq<Sys>, es: seq<Event>)
    requires |ss| == |es| + 1
    requires forall i :: 0 <= i < |es| ==> Allowed(a, t, ss[i], es[i]) && ss[i + 1] == Apply(t, ss[i], es[i])
    ensures Run(a, t, ss[0], es) && Final(a, t, ss[0], es) == ss[|es|]
    decreases |es|
  {
    if es != [] {
      Chain(a, t, ss[1..], es[1..]);
    }
  }

  lemma {:induction false} RunConcat(a: Promises, t: Params, s: Sys, es: seq<Event>, fs: seq<Event>)
    requires Run(a, t, s, es) && Run(a, t, Final(a, t, s, es), fs)
    ensures Run(a, t, s, es + fs) && Final(a, t, s, es + fs) == Final(a, t, Final(a, t, s, es), fs)
    decreases |es|
  {
    if es == [] {
      assert es + fs == fs;
    } else {
      assert (es + fs)[1..] == es[1..] + fs;
      RunConcat(a, t, Apply(t, s, es[0]), es[1..], fs);
    }
  }

  lemma ReachesOn(a: Promises, t: Params, s: Sys, f: Sys, g: Sys)
    requires Reaches(a, t, s, f) && Reaches(a, t, f, g)
    ensures Reaches(a, t, s, g)
  {
    var es :| Run(a, t, s, es) && Final(a, t, s, es) == f;
    var fs :| Run(a, t, f, fs) && Final(a, t, f, fs) == g;
    RunConcat(a, t, s, es, fs);
  }

  /** No daemon runs; the record is whatever was left on the disk. */
  predicate Init(s: Sys) {
    && s.disk.count == s.ticks % 1000
    && s.claimAt <= s.leaseAt <= s.now
    && forall n :: n in s.nodes ==> s.nodes[n].code.pc.Down? && !s.nodes[n].code.won
  }

  /** The daemon has passed the collision check and has neither released nor died. */
  predicate Holds(s: Sys, n: NodeName) {
    n in s.nodes && s.nodes[n].code.won
  }

  ghost predicate MutualExclusion(s: Sys) {
    forall n, m :: Holds(s, n) && Holds(s, m) ==> n == m
  }

  /** Every holder's name is on the locked record. */
  ghost predicate Undisturbed(s: Sys) {
    forall n :: Holds(s, n) ==> LockedBy(s.disk, n)
  }

  // ----- Monitor intervals -----

  /** How long `b` monitor intervals last. */
  function Lapse(t: Params, b: nat): real {
    if b == 0 then 0.0 else Lapse(t, b - 1) + t.monitorInterval
  }

  lemma {:induction false} LapseIsProduct(t: Params, b: nat)
    ensures Lapse(t, b) == b as real * t.monitorInterval
  {
    if b == 0 {
      assert 0.0 * t.monitorInterval == 0.0;
    } else {
      LapseIsProduct(t, b - 1);
      OneMore((b - 1) as real, t.monitorInterval);
      assert b as real == (b - 1) as real + 1.0;
    }
  }

  lemma OneMore(x: real, m: real)
    ensures (x + 1.0) * m == x * m + m
  {
  }
}
