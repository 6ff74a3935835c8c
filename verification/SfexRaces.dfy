/** Who wins a race for the lock, and what the losers do. */
module SfexRaces {
  import opened SfexRecord
  import opened SfexProtocol
  import opened SfexSafety
  import opened SfexDeployment
  import opened Wrappers

  /** The event writes the record. */
  predicate IsWrite(s: Sys, e: Event) {
    e.Step? && e.n in s.nodes && Writes(s.nodes[e.n].code.pc)
  }

  predicate IsClaim(s: Sys, e: Event) {
    e.Step? && e.n in s.nodes && s.nodes[e.n].code.pc.Claiming?
  }

  // ----- Losers are silent, whatever the timing -----

  /** Another node's name is on the record and this daemon has no write pending on an earlier read. */
  predicate Overwritten(s: Sys, n: NodeName) {
    && n in s.nodes
    && s.disk.nodename != n
    && var pc := s.nodes[n].code.pc;
    && (pc.Down? || pc.Colliding? || pc.Sleeping? || pc.Quitting?)
  }

  /** The part of the invariant that needs no timing: a written record carries its writer's name. */
  predicate NamesOwn(s: Sys) {
    forall n :: n in s.nodes ==>
      var c := s.nodes[n].code;
      c.pc.Colliding? || c.pc.Extending? || c.pc.Updating? || c.pc.Releasing? ==> c.ldata.nodename == n
  }

  /** The process on node `n` writes nothing in the events `es` before it ends. */
  predicate NeverWrites(t: Params, s: Sys, es: seq<Event>, n: NodeName)
    requires Run(NOTHING, t, s, es)
    decreases |es|
  {
    || es == []
    || es[0] == Start(n)  // a new process
    || (!(IsWrite(s, es[0]) && es[0].n == n) && NeverWrites(t, Apply(t, s, es[0]), es[1..], n))
  }

  lemma {:induction false} NamesStay(t: Params, s: Sys, es: seq<Event>)
    requires NamesOwn(s) && Run(NOTHING, t, s, es)
    ensures NamesOwn(Final(NOTHING, t, s, es))
    decreases |es|
  {
    if es != [] {
      NamesStay(t, Apply(t, s, es[0]), es[1..]);
    }
  }

  lemma OverwrittenStays(t: Params, s: Sys, e: Event, n: NodeName)
    requires Overwritten(s, n) && NamesOwn(s) && Enabled(t, s, e) && e != Start(n)
    ensures Overwritten(Apply(t, s, e), n) && NamesOwn(Apply(t, s, e))
  {
  }

  lemma {:induction false} OverwrittenIsSilent(t: Params, s: Sys, es: seq<Event>, n: NodeName)
    requires Overwritten(s, n) && NamesOwn(s) && Run(NOTHING, t, s, es)
    ensures NeverWrites(t, s, es, n)
    decreases |es|
  {
    if es != [] && es[0] != Start(n) {
      OverwrittenStays(t, s, es[0], n);
      OverwrittenIsSilent(t, Apply(t, s, es[0]), es[1..], n);
    }
  }

  /**
   * With no promise about time or the counter: once a node's name is overwritten while it has no
   * write in flight, its process writes nothing in any continuation `fs` of the run.
   */
  lemma LoserSilence(t: Params, s: Sys, es: seq<Event>, fs: seq<Event>, n: NodeName)
    requires Init(s) && Run(NOTHING, t, s, es)
    requires Overwritten(Final(NOTHING, t, s, es), n)
    requires Run(NOTHING, t, Final(NOTHING, t, s, es), fs)
    ensures NeverWrites(t, Final(NOTHING, t, s, es), fs, n)
  {
    NamesStay(t, s, es);
    OverwrittenIsSilent(t, Final(NOTHING, t, s, es), fs, n);
  }

  /**
   * A read that looks for the node's own name decides by the record alone: the collision check by
   * its name, heartbeat and release by its name on a locked record. Who does not find it is gone
   * at once, and no such read writes.
   */
  lemma OwnReadDecides(t: Params, s: Sys, es: seq<Event>, n: NodeName)
    requires Init(s) && Run(NOTHING, t, s, es) && Enabled(t, Final(NOTHING, t, s, es), Step(n))
    requires var pc := Final(NOTHING, t, s, es).nodes[n].code.pc;
             pc.Colliding? || pc.Sleeping? || pc.Quitting?
    ensures var f := Final(NOTHING, t, s, es);
            var f' := Apply(t, f, Step(n));
            var pc, pc' := f.nodes[n].code.pc, f'.nodes[n].code.pc;
            var own := f.disk.nodename == n && (pc.Colliding? || f.disk.status == STATUS_LOCK);
            && f'.disk == f.disk
            && (if own then Writes(pc') && f'.nodes[n].code.ldata.nodename == n
                else pc'.Down? && !f'.nodes[n].code.won)
  {
    NamesStay(t, s, es);
  }

  // ----- Heartbeats take time -----

  /** The daemon of `n` stays in its main loop. */
  predicate StaysInLoop(t: Params, s: Sys, es: seq<Event>, n: NodeName)
    requires Run(NOTHING, t, s, es)
    decreases |es|
  {
    && n in s.nodes
    && (s.nodes[n].code.pc.Sleeping? || s.nodes[n].code.pc.Updating?)
    && (es == [] || StaysInLoop(t, Apply(t, s, es[0]), es[1..], n))
  }

  predicate Beats(s: Sys, e: Event, n: NodeName) {
    e == Step(n) && IsWrite(s, e)
  }

  /** How often it writes a heartbeat. */
  function Heartbeats(t: Params, s: Sys, es: seq<Event>, n: NodeName): nat
    requires Run(NOTHING, t, s, es)
    decreases |es|
  {
    if es == [] then 0
    else Heartbeats(t, Apply(t, s, es[0]), es[1..], n) + if Beats(s, es[0], n) then 1 else 0
  }

  predicate Paced(t: Params, s: Sys, n: NodeName) {
    n in s.nodes ==>
      var p := s.nodes[n];
      p.code.pc.Updating? ==> p.wroteAt + t.monitorInterval <= s.now
  }

  lemma LoopEvent(t: Params, s: Sys, e: Event, n: NodeName)
    requires Enabled(t, s, e) && n in s.nodes && Paced(t, s, n)
    requires var pc := s.nodes[n].code.pc; pc.Sleeping? || pc.Updating?
    requires var pc := Apply(t, s, e).nodes[n].code.pc; pc.Sleeping? || pc.Updating?
    ensures var s' := Apply(t, s, e);
            && n in s'.nodes && Paced(t, s', n) && s.now <= s'.now
            && if Beats(s, e, n)
               then s'.nodes[n].wroteAt == s.now == s'.now && s.nodes[n].wroteAt + t.monitorInterval <= s.now
               else s'.nodes[n].wroteAt == s.nodes[n].wroteAt
  {
  }

  /** Each heartbeat is an interval later than the write before it. */
  lemma {:induction false} HeartbeatsFollow(t: Params, s: Sys, es: seq<Event>, n: NodeName)
    requires Run(NOTHING, t, s, es) && StaysInLoop(t, s, es, n)
    requires Paced(t, s, n) && s.nodes[n].wroteAt <= s.now
    ensures s.nodes[n].wroteAt + Lapse(t, Heartbeats(t, s, es, n)) <= Final(NOTHING, t, s, es).now
    decreases |es|
  {
    if es != [] {
      LoopEvent(t, s, es[0], n);
      HeartbeatsFollow(t, Apply(t, s, es[0]), es[1..], n);
    }
  }

  /** `k` heartbeats of a daemon take at least `k` - 1 monitor intervals. */
  lemma {:induction false} HeartbeatsAreSpaced(t: Params, s: Sys, es: seq<Event>, n: NodeName)
    requires Run(NOTHING, t, s, es) && StaysInLoop(t, s, es, n) && Paced(t, s, n)
    ensures var k := Heartbeats(t, s, es, n);
            k > 0 ==> s.now + (k - 1) as real * t.monitorInterval <= Final(NOTHING, t, s, es).now
    decreases |es|
  {
    if es != [] {
      LoopEvent(t, s, es[0], n);
      if Beats(s, es[0], n) {
        HeartbeatsFollow(t, Apply(t, s, es[0]), es[1..], n);
        LapseIsProduct(t, Heartbeats(t, s, es, n) - 1);
      } else {
        HeartbeatsAreSpaced(t, Apply(t, s, es[0]), es[1..], n);
      }
    }
  }

  // ----- The last claim wins -----

  /** No daemon is signalled or dies of anything but its own decision. */
  predicate Calm(es: seq<Event>) {
    forall i :: 0 <= i < |es| ==> !es[i].Term? && !es[i].Crash?
  }

  /** A daemon that has not decided to claim finds its own name on the record only if the claim is old. */
  predicate Quiet(t: Params, s: Sys) {
    && NamesOwn(s)
    && forall n :: n in s.nodes && LockedBy(s.disk, n) ==>
         var pc := s.nodes[n].code.pc;
         pc.Down? || pc.Reading? || pc.Waiting? ==> s.claimAt + t.ioDelay < s.now
  }

  predicate RaceReady(t: Params, s: Sys) {
    && Forward(t, s)
    && Quiet(t, s)
    && forall n :: n in s.nodes ==> !s.nodes[n].code.pc.Quitting? && !s.nodes[n].code.pc.Releasing?
  }

  lemma CalmEventIsCareful(t: Params, s: Sys, e: Event)
    requires RaceReady(t, s) && Allowed(TIMED, t, s, e) && !e.Term? && !e.Crash?
    ensures Allowed(CAREFUL, t, s, e)
  {
  }

  lemma QuietStays(t: Params, s: Sys, e: Event)
    requires RaceReady(t, s) && Allowed(TIMED, t, s, e) && !e.Term? && !e.Crash?
    ensures Quiet(t, Apply(t, s, e))
  {
    if e.Step? {
      assert NodeInv(t, s, e.n, s.nodes[e.n]);
    }
  }

  /** Without signals and crashes the rules about stopping and starting are kept by themselves. */
  lemma CalmEventKeeps(t: Params, s: Sys, e: Event)
    requires GoodTimes(t) && RaceReady(t, s) && Allowed(TIMED, t, s, e) && !e.Term? && !e.Crash?
    ensures Allowed(FORWARD, t, s, e) && RaceReady(t, Apply(t, s, e))
  {
    CalmEventIsCareful(t, s, e);
    CarefulEventKeeps(t, s, e);
    QuietStays(t, s, e);
  }

  lemma RaceStarts(t: Params, s: Sys)
    requires GoodTimes(t) && Init(s) && s.claimAt + t.ioDelay < s.now
    ensures RaceReady(t, s)
  {
  }

  /** The node that wrote the last claim of the run, `last` being the answer before it. */
  function LastClaimer(t: Params, s: Sys, es: seq<Event>, last: Option<NodeName>): Option<NodeName>
    requires Run(TIMED, t, s, es)
    decreases |es|
  {
    if es == [] then last
    else LastClaimer(t, Apply(t, s, es[0]), es[1..], if IsClaim(s, es[0]) then Some(es[0].n) else last)
  }

  /** The nodes started in a run, added to `ns`. */
  function Started(es: seq<Event>, ns: set<NodeName>): set<NodeName> {
    if es == [] then ns else Started(es[1..], if es[0].Start? then ns + {es[0].n} else ns)
  }

  /** Between its claim and the end of its hold. */
  predicate InRace(pc: Pc) {
    pc.Colliding? || pc.Extending? || pc.Sleeping? || pc.Updating?
  }

  /**
   * Before the first claim nobody has given up and every waiter has seen the record as it is;
   * after it the last claimer is on its way to the lock or has it.
   */
  predicate RaceInv(s: Sys, last: Option<NodeName>, ns: set<NodeName>) {
    match last
       case None =>
         && ns <= s.nodes.Keys
         && (forall n :: n in s.nodes ==>
               var c := s.nodes[n].code;
               && (n in ns <==> !c.pc.Down?)
               && (c.pc.Down? || c.pc.Reading? || c.pc.Waiting? || c.pc.Claiming?)
               && (c.pc.Waiting? ==> c.ldata.count == s.disk.count))
       case Some(x) =>
         && x in s.nodes
         && LockedBy(s.disk, x)
         && InRace(s.nodes[x].code.pc)
  }

  lemma WinnerStaysInRace(t: Params, s: Sys, e: Event, x: NodeName)
    requires Inv(t, s) && Enabled(t, s, e) && e.Step? && !IsClaim(s, e)
    requires !s.nodes[e.n].code.pc.Quitting? && !s.nodes[e.n].code.pc.Releasing?
    requires x in s.nodes && LockedBy(s.disk, x) && InRace(s.nodes[x].code.pc)
    ensures var s' := Apply(t, s, e); LockedBy(s'.disk, x) && InRace(s'.nodes[x].code.pc)
  {
    assert NodeInv(t, s, e.n, s.nodes[e.n]);
    assert NodeInv(t, s, x, s.nodes[x]);
  }

  lemma FirstSteps(t: Params, s: Sys, e: Event, ns: set<NodeName>)
    requires GoodTimes(t) && RaceReady(t, s) && Allowed(TIMED, t, s, e) && !e.Term? && !e.Crash? && !IsClaim(s, e)
    requires RaceInv(s, None, ns)
    ensures RaceInv(Apply(t, s, e), None, if e.Start? then ns + {e.n} else ns)
  {
  }

  lemma RaceStep(t: Params, s: Sys, e: Event, last: Option<NodeName>, ns: set<NodeName>)
    requires GoodTimes(t) && RaceReady(t, s) && Allowed(TIMED, t, s, e) && !e.Term? && !e.Crash?
    requires RaceInv(s, last, ns)
    ensures RaceInv(Apply(t, s, e), if IsClaim(s, e) then Some(e.n) else last, if e.Start? then ns + {e.n} else ns)
  {
    if e.Step? {
      assert NodeInv(t, s, e.n, s.nodes[e.n]);
    }
    if last.None? && !IsClaim(s, e) {
      FirstSteps(t, s, e, ns);
    } else if e.Step? && !IsClaim(s, e) {
      WinnerStaysInRace(t, s, e, last.value);
    }
  }

  lemma {:induction false} RaceRun(t: Params, s: Sys, es: seq<Event>, last: Option<NodeName>, ns: set<NodeName>)
    requires GoodTimes(t) && RaceReady(t, s) && Run(TIMED, t, s, es) && Calm(es)
    requires RaceInv(s, last, ns)
    ensures RaceReady(t, Final(TIMED, t, s, es))
    ensures RaceInv(Final(TIMED, t, s, es), LastClaimer(t, s, es, last), Started(es, ns))
    decreases |es|
  {
    if es != [] {
      var e := es[0];
      CalmEventKeeps(t, s, e);
      RaceStep(t, s, e, last, ns);
      RaceRun(t, Apply(t, s, e), es[1..], if IsClaim(s, e) then Some(e.n) else last, if e.Start? then ns + {e.n} else ns);
    }
  }

  /** Every acquire_lock has returned or given up. */
  predicate Decided(s: Sys) {
    forall n :: n in s.nodes ==>
      var pc := s.nodes[n].code.pc; pc.Down? || pc.Sleeping? || pc.Updating?
  }

  lemma SomeoneClaimed(s: Sys, last: Option<NodeName>, ns: set<NodeName>)
    requires RaceInv(s, last, ns) && ns != {}
    ensures last.None? ==> !Decided(s)
  {
    if last.None? {
      var n :| n in ns;
      assert n in s.nodes && !s.nodes[n].code.pc.Down?;
    }
  }

  lemma {:induction false} SameNodes(t: Params, s: Sys, es: seq<Event>)
    requires Run(TIMED, t, s, es)
    ensures Final(TIMED, t, s, es).nodes.Keys == s.nodes.Keys
    decreases |es|
  {
    if es != [] {
      SameNodes(t, Apply(t, s, es[0]), es[1..]);
    }
  }

  /** The event is a write by a node other than `x`. */
  predicate ForeignWrite(s: Sys, e: Event, x: NodeName) {
    IsWrite(s, e) && e.n != x
  }

  predicate OnlyWriter(t: Params, s: Sys, es: seq<Event>, x: NodeName)
    requires Run(TIMED, t, s, es)
    decreases |es|
  {
    es == [] || (!ForeignWrite(s, es[0], x) && OnlyWriter(t, Apply(t, s, es[0]), es[1..], x))
  }

  predicate NoClaims(t: Params, s: Sys, es: seq<Event>)
    requires Run(TIMED, t, s, es)
    decreases |es|
  {
    es == [] || (!IsClaim(s, es[0]) && NoClaims(t, Apply(t, s, es[0]), es[1..]))
  }

  lemma NoForeignWrite(t: Params, s: Sys, e: Event, x: NodeName, ns: set<NodeName>)
    requires RaceReady(t, s) && Allowed(TIMED, t, s, e) && RaceInv(s, Some(x), ns) && !IsClaim(s, e)
    ensures !ForeignWrite(s, e, x)
  {
    if e.Step? {
      assert NodeInv(t, s, e.n, s.nodes[e.n]);
    }
  }

  lemma {:induction false} OnlyLastClaimerWrites(t: Params, s: Sys, es: seq<Event>, x: NodeName, ns: set<NodeName>)
    requires GoodTimes(t) && RaceReady(t, s) && Run(TIMED, t, s, es) && Calm(es)
    requires RaceInv(s, Some(x), ns) && NoClaims(t, s, es)
    ensures OnlyWriter(t, s, es, x)
    decreases |es|
  {
    if es != [] {
      var e := es[0];
      NoForeignWrite(t, s, e, x, ns);
      CalmEventKeeps(t, s, e);
      RaceStep(t, s, e, Some(x), ns);
      OnlyLastClaimerWrites(t, Apply(t, s, e), es[1..], x, if e.Start? then ns + {e.n} else ns);
    }
  }

  /**
   * The time of the last claim is history that the daemons do not see: from a state with another
   * one the same run leads to the same outcome.
   */
  lemma {:induction false} ClaimTimeUnseen(
    t: Params, s: Sys, es: seq<Event>, last: Option<NodeName>, x: NodeName, at: real)
    returns (finalAt: real)
    requires Run(TIMED, t, s, es)
    ensures var s' := s.(claimAt := at);
            && Run(TIMED, t, s', es)
            && Final(TIMED, t, s', es) == Final(TIMED, t, s, es).(claimAt := finalAt)
            && LastClaimer(t, s', es, last) == LastClaimer(t, s, es, last)
            && NoClaims(t, s', es) == NoClaims(t, s, es)
            && OnlyWriter(t, s', es, x) == OnlyWriter(t, s, es, x)
    decreases |es|
  {
    if es == [] {
      finalAt := at;
    } else {
      var next := Apply(t, s, es[0]);
      var nextAt := if IsClaim(s, es[0]) then s.now else at;
      assert Apply(t, s.(claimAt := at), es[0]) == next.(claimAt := nextAt);
      finalAt := ClaimTimeUnseen(t, next, es[1..], if IsClaim(s, es[0]) then Some(es[0].n) else last, x, nextAt);
    }
  }

  /** A time of the last claim so long ago that nobody can still be about to write. */
  function LongAgo(t: Params, s: Sys): real {
    s.claimAt - t.ioDelay - 1.0
  }

  /** How a race stands that starts from a free lock or a dead holder's, whenever that was claimed. */
  lemma RaceStands(t: Params, s: Sys, es: seq<Event>) returns (finalAt: real)
    requires GoodTimes(t) && Init(s) && Run(TIMED, t, s, es) && Calm(es)
    ensures var f := Final(TIMED, t, s, es).(claimAt := finalAt);
            && RaceReady(t, f)
            && RaceInv(f, LastClaimer(t, s, es, None), Started(es, {}))
    ensures Run(TIMED, t, s.(claimAt := LongAgo(t, s)), es)
    ensures Final(TIMED, t, s.(claimAt := LongAgo(t, s)), es) == Final(TIMED, t, s, es).(claimAt := finalAt)
  {
    var s' := s.(claimAt := LongAgo(t, s));
    finalAt := ClaimTimeUnseen(t, s, es, None, [], LongAgo(t, s));
    RaceStarts(t, s');
    RaceRun(t, s', es, None, {});
  }

  /**
   * The lock is free or its holder is dead, contenders start, none is signalled or killed: once
   * all have decided exactly one holds the lock, the last to have written its claim.
   */
  lemma LastClaimWins(t: Params, s: Sys, es: seq<Event>)
    requires GoodTimes(t) && Init(s) && Run(TIMED, t, s, es) && Calm(es)
    requires Started(es, {}) != {}
    requires Decided(Final(TIMED, t, s, es))
    ensures var x := LastClaimer(t, s, es, None);
            && x.Some?
            && forall n :: n in s.nodes ==> (Holds(Final(TIMED, t, s, es), n) <==> n == x.value)
  {
    var finalAt := RaceStands(t, s, es);
    SameNodes(t, s, es);
    var f := Final(TIMED, t, s, es).(claimAt := finalAt);
    var x := LastClaimer(t, s, es, None);
    SomeoneClaimed(f, x, Started(es, {}));
    forall n | n in f.nodes ensures Holds(f, n) <==> n == x.value {
      assert NodeInv(t, f, n, f.nodes[n]) && NodeInv(t, f, x.value, f.nodes[x.value]);
    }
  }

  lemma {:induction false} OthersStayDown(t: Params, s: Sys, es: seq<Event>, n: NodeName)
    requires Run(TIMED, t, s, es) && n in s.nodes && Start(n) !in es
    requires s.nodes[n].code.pc.Down? && !s.nodes[n].code.won
    ensures n in Final(TIMED, t, s, es).nodes && !Holds(Final(TIMED, t, s, es), n)
    decreases |es|
  {
    if es != [] {
      assert es[0] in es;
      OthersStayDown(t, Apply(t, s, es[0]), es[1..], n);
    }
  }

  /** However slow its disk accesses and long its sleeps, a daemon that is alone obtains the lock. */
  lemma LoneContenderWins(t: Params, s: Sys, es: seq<Event>, n: NodeName)
    requires GoodTimes(t) && Init(s) && Run(TIMED, t, s, es) && Calm(es)
    requires Started(es, {}) == {n} && forall m :: Start(m) in es ==> m == n
    requires Decided(Final(TIMED, t, s, es))
    ensures Holds(Final(TIMED, t, s, es), n)
  {
    LastClaimWins(t, s, es);
    SameNodes(t, s, es);
    var x := LastClaimer(t, s, es, None).value;
    assert x in s.nodes by {
      var finalAt := RaceStands(t, s, es);
    }
    if x != n {
      OthersStayDown(t, s, es, x);
    }
  }

  /** After the last claim of such a race, `fs`, nobody but its writer writes. */
  lemma LosersWriteNothing(t: Params, s: Sys, es: seq<Event>, fs: seq<Event>)
    requires GoodTimes(t) && Init(s) && Run(TIMED, t, s, es) && Calm(es)
    requires Run(TIMED, t, Final(TIMED, t, s, es), fs) && Calm(fs)
    requires LastClaimer(t, s, es, None).Some? && NoClaims(t, Final(TIMED, t, s, es), fs)
    ensures OnlyWriter(t, Final(TIMED, t, s, es), fs, LastClaimer(t, s, es, None).value)
  {
    var x := LastClaimer(t, s, es, None).value;
    var finalAt := RaceStands(t, s, es);
    var f := Final(TIMED, t, s, es);
    var _ := ClaimTimeUnseen(t, f, fs, None, x, finalAt);
    OnlyLastClaimerWrites(t, f.(claimAt := finalAt), fs, x, Started(es, {}));
  }
}
