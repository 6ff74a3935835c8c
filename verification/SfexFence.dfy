/**
 * What the times alone can give: a holder that is never silent for a collision time finds out
 * that its record was taken before the taker has won.
 */
module SfexFence {
  import opened SfexRecord
  import opened SfexProtocol

  /** No two daemons hold the lock at once, and no holder's record is taken, at these times. */
  ghost predicate SafeAt(t: Params, a: Promises) {
    forall s, es :: Init(s) && Run(a, t, s, es) ==>
      MutualExclusion(Final(a, t, s, es)) && Undisturbed(Final(a, t, s, es))
  }

  /** No two daemons hold the lock at once. */
  ghost predicate ExclusiveAt(t: Params, a: Promises) {
    forall s, es :: Init(s) && Run(a, t, s, es) ==> MutualExclusion(Final(a, t, s, es))
  }

  /** A holder is never silent for a collision time: neither before its extension nor between its heartbeats. */
  predicate Fenced(t: Params) {
    t.heartbeatGap < t.collisionTimeout && t.claimToExtension < 2.0 * t.collisionTimeout
  }

  /** A holder's next step is less than a collision time away. */
  predicate WatchfulNode(t: Params, s: Sys, n: NodeName, p: Node) {
    var pc := p.code.pc;
    && (HasDue(p.code) ==> s.now <= p.due)
    && (pc.Colliding? || pc.Extending? || pc.Updating? || pc.Releasing? ==> p.code.ldata.nodename == n)
    && (pc.Colliding? ==> p.due == p.wroteAt + t.claimToExtension)
    && (p.code.won ==>
          && (pc.Extending? || pc.Sleeping? || pc.Updating? || pc.Quitting? || pc.Releasing?)
          && p.due < s.now + t.collisionTimeout)
  }

  /** The holder `p` steps before the daemon `q` of `m`, which has taken its record, can check. */
  predicate NoticesFirst(t: Params, s: Sys, p: Node, m: NodeName, q: Node) {
    p.code.won && q.code.pc.Colliding? && s.disk.nodename == m ==> p.due < q.wroteAt + t.collisionTimeout
  }

  ghost predicate Watchful(t: Params, s: Sys) {
    && (forall n :: n in s.nodes ==> WatchfulNode(t, s, n, s.nodes[n]))
    && (forall n, m :: n in s.nodes && m in s.nodes ==> NoticesFirst(t, s, s.nodes[n], m, s.nodes[m]))
    && MutualExclusion(s)
  }

  lemma StepKeepsWatchfulNode(t: Params, a: Promises, s: Sys, n: NodeName, m: NodeName)
    requires GoodTimes(t) && Fenced(t) && Watchful(t, s) && Allowed(a, t, s, Step(n)) && m in s.nodes
    ensures WatchfulNode(t, Apply(t, s, Step(n)), m, Apply(t, s, Step(n)).nodes[m])
  {
    assert WatchfulNode(t, s, n, s.nodes[n]) && WatchfulNode(t, s, m, s.nodes[m]);
  }

  lemma NodeStaysWatchful(t: Params, a: Promises, s: Sys, e: Event, n: NodeName)
    requires GoodTimes(t) && Fenced(t) && a.boundedDelay && Watchful(t, s) && Allowed(a, t, s, e) && n in s.nodes
    ensures WatchfulNode(t, Apply(t, s, e), n, Apply(t, s, e).nodes[n])
  {
    assert WatchfulNode(t, s, n, s.nodes[n]);
    if e.Step? {
      StepKeepsWatchfulNode(t, a, s, e.n, n);
    }
  }

  lemma PairStaysWatchful(t: Params, a: Promises, s: Sys, e: Event, n: NodeName, m: NodeName)
    requires GoodTimes(t) && Fenced(t) && a.boundedDelay && Watchful(t, s) && Allowed(a, t, s, e)
    requires n in s.nodes && m in s.nodes
    ensures var s' := Apply(t, s, e); NoticesFirst(t, s', s'.nodes[n], m, s'.nodes[m])
  {
    assert NoticesFirst(t, s, s.nodes[n], m, s.nodes[m]);
    assert WatchfulNode(t, s, n, s.nodes[n]) && WatchfulNode(t, s, m, s.nodes[m]);
    if e.Step? {
      assert WatchfulNode(t, s, e.n, s.nodes[e.n]);
    }
  }

  lemma WatchfulStays(t: Params, a: Promises, s: Sys, e: Event)
    requires GoodTimes(t) && Fenced(t) && a.boundedDelay && Watchful(t, s) && Allowed(a, t, s, e)
    ensures Watchful(t, Apply(t, s, e))
  {
    var s' := Apply(t, s, e);
    forall n | n in s'.nodes ensures WatchfulNode(t, s', n, s'.nodes[n]) {
      NodeStaysWatchful(t, a, s, e, n);
    }
    forall n, m | n in s'.nodes && m in s'.nodes ensures NoticesFirst(t, s', s'.nodes[n], m, s'.nodes[m]) {
      PairStaysWatchful(t, a, s, e, n, m);
    }
    forall n, m | Holds(s', n) && Holds(s', m) ensures n == m {
      NoSecondHolder(t, a, s, e, n, m);
    }
  }

  lemma NoSecondHolder(t: Params, a: Promises, s: Sys, e: Event, n: NodeName, m: NodeName)
    requires GoodTimes(t) && a.boundedDelay && Watchful(t, s) && Allowed(a, t, s, e)
    requires Holds(Apply(t, s, e), n) && Holds(Apply(t, s, e), m)
    ensures n == m
  {
    assert WatchfulNode(t, s, n, s.nodes[n]) && WatchfulNode(t, s, m, s.nodes[m]);
    assert NoticesFirst(t, s, s.nodes[n], m, s.nodes[m]) && NoticesFirst(t, s, s.nodes[m], n, s.nodes[n]);
    if Holds(s, n) && Holds(s, m) {
      assert MutualExclusion(s);
    }
  }

  lemma {:induction false} WatchfulRun(t: Params, a: Promises, s: Sys, es: seq<Event>)
    requires GoodTimes(t) && Fenced(t) && a.boundedDelay && Watchful(t, s) && Run(a, t, s, es)
    ensures Watchful(t, Final(a, t, s, es))
    decreases |es|
  {
    if es != [] {
      WatchfulStays(t, a, s, es[0]);
      WatchfulRun(t, a, Apply(t, s, es[0]), es[1..]);
    }
  }

  /** When a holder is never silent for a collision time it gives up before anyone who took its record wins. */
  lemma FencedIsExclusive(t: Params, a: Promises)
    requires GoodTimes(t) && Fenced(t) && a.boundedDelay
    ensures ExclusiveAt(t, a)
  {
    forall s, es | Init(s) && Run(a, t, s, es) ensures MutualExclusion(Final(a, t, s, es)) {
      WatchfulRun(t, a, s, es);
    }
  }
}
