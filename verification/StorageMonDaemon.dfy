/** The routines of tools/storage_mon.c over the program's globals. */
module StorageMonDaemon {
  import opened StorageMon

  class Monitor {
    const deviceCount: nat
    const scores: array<int>
    const testForks: array<int>
    var finalScore: int
    var responseFinalScore: int
    var finishedCount: nat
    var daemonCheckFirstAllDevices: bool
    var expireRunning: bool

    predicate Valid() {
      && deviceCount <= MAX_DEVICES
      && scores.Length == testForks.Length == MAX_DEVICES
      && scores != testForks
    }

    function Scores(): seq<int>
      requires Valid()
      reads scores
    {
      scores[..deviceCount]
    }

    function Forks(): seq<int>
      requires Valid()
      reads testForks
    {
      testForks[..deviceCount]
    }

    function Globals(): Mon
      requires Valid()
      reads this, testForks
    {
      Mon(Forks(), finalScore, responseFinalScore, finishedCount, daemonCheckFirstAllDevices, expireRunning)
    }

    constructor (deviceScores: seq<int>)
      requires |deviceScores| <= MAX_DEVICES
      ensures Valid() && Scores() == deviceScores && Globals() == Start(|deviceScores|).m
      ensures fresh(scores) && fresh(testForks)
    {
      deviceCount := |deviceScores|;
      scores := new int[MAX_DEVICES](i requires 0 <= i < MAX_DEVICES => if i < |deviceScores| then deviceScores[i] else 0);
      testForks := new int[MAX_DEVICES](_ => 0);
      finalScore, responseFinalScore, finishedCount := 0, 0, 0;
      daemonCheckFirstAllDevices, expireRunning := false, false;
    }

    method IsChildRunning() returns (b: bool)
      requires Valid()
      ensures b <==> Running(Forks())
    {
      var i := 0;
      while i < deviceCount
        invariant i <= deviceCount
        invariant forall k :: 0 <= k < i ==> testForks[k] == 0
      {
        if testForks[i] != 0 {
          assert Forks()[i] != 0;
          return true;
        }
        i := i + 1;
      }
      return false;
    }

    method FindChildPid(pid: int) returns (index: nat)
      requires Valid() && IsChild(Forks(), pid)
      ensures index == FindChild(Forks(), pid)
    {
      var i := 0;
      while i < deviceCount
        invariant i <= deviceCount
        invariant IsChild(Forks()[i..], pid)
        invariant i + FindChild(Forks()[i..], pid) == FindChild(Forks(), pid)
      {
        assert Forks()[i..][0] == testForks[i];
        if testForks[i] > 0 {
          if testForks[i] == pid {
            return i;
          }
        }
        assert Forks()[i..][1..] == Forks()[i + 1..];
        NotFirst(Forks()[i..], pid);
        i := i + 1;
      }
    }

    /** The body of the reaping loop for one child. */
    method ReapChild(child: Exit)
      requires Valid() && IsChild(Forks(), child.pid)
      modifies this, testForks
      ensures Globals() == ReapOne(Scores(), old(Globals()), child)
    {
      ghost var before := Forks();
      var index := FindChildPid(child.pid);
      if expireRunning {
        if child.status != 0 {
          finalScore := finalScore + scores[index];
          responseFinalScore := finalScore;
          daemonCheckFirstAllDevices := true;
        }
      }
      finishedCount := finishedCount + 1;
      testForks[index] := 0;
      if deviceCount == finishedCount {
        responseFinalScore := finalScore;
        if !daemonCheckFirstAllDevices {
          daemonCheckFirstAllDevices := true;
        }
      }
      assert Forks() == before[index := 0];
    }

    /** `children` is what waitpid returns, one call after the other, until nothing is left. */
    method SigchldHandler(children: seq<Exit>)
      requires Valid()
      requires if Running(Forks()) then Reapable(Scores(), Globals(), children) else children == []
      modifies this, testForks
      ensures Globals() == ReapAll(Scores(), old(Globals()), children)
    {
      var running := IsChildRunning();
      if running {
        var k := 0;
        assert children[0..] == children;
        while k < |children|
          invariant k <= |children|
          invariant Reapable(Scores(), Globals(), children[k..])
          invariant ReapAll(Scores(), Globals(), children[k..]) == ReapAll(Scores(), old(Globals()), children)
        {
          assert children[k..][1..] == children[k + 1..];
          ReapChild(children[k]);
          k := k + 1;
        }
      }
    }

    /** The expiry timer has fired. */
    method ChildTimeoutHandler()
      requires Valid()
      modifies this
      ensures Globals() == Expired(Scores(), old(Globals()))
    {
      expireRunning := false;
      var running := IsChildRunning();
      if running {
        var i := 0;
        ghost var late := Unfinished(Forks());
        ghost var any := false;
        while i < deviceCount
          invariant i <= deviceCount && !expireRunning
          invariant any ==> late != {}
          invariant !any ==> forall k :: 0 <= k < i ==> k !in late
          invariant finalScore == old(finalScore) + Sum(Scores()[..i], late)
          invariant responseFinalScore == if any then finalScore else old(responseFinalScore)
          invariant daemonCheckFirstAllDevices == (old(daemonCheckFirstAllDevices) || any)
          invariant finishedCount == old(finishedCount)
        {
          assert Scores()[..i + 1][..i] == Scores()[..i];
          if testForks[i] > 0 {
            assert i in late;
            any := true;
            finalScore := finalScore + scores[i];
            responseFinalScore := finalScore;
            daemonCheckFirstAllDevices := true;
          }
          i := i + 1;
        }
        assert Scores()[..i] == Scores();
      } else {
        NobodyLate(Scores(), Forks());
      }
    }

    /** The interval timer in the daemon; `pids` is what fork returns. */
    method TestDeviceMain(pids: seq<int>)
      requires Valid() && |pids| == deviceCount
      modifies this, testForks
      ensures Globals() == NewRound(old(Globals()), pids)
    {
      var running := IsChildRunning();
      var deviceCheck := true;
      if running {
        deviceCheck := false;
      }
      if deviceCheck {
        finalScore := 0;
        finishedCount := 0;
        forall i | 0 <= i < testForks.Length {
          testForks[i] := 0;
        }
        var i := 0;
        while i < deviceCount
          invariant i <= deviceCount && finalScore == 0 && finishedCount == 0
          invariant responseFinalScore == old(responseFinalScore)
          invariant daemonCheckFirstAllDevices == old(daemonCheckFirstAllDevices)
          invariant testForks[..i] == pids[..i]
        {
          testForks[i] := pids[i];
          i := i + 1;
        }
        expireRunning := true;
      }
    }

    method ProcessMessage(known: bool) returns (sendScore: int)
      requires Valid()
      ensures sendScore == Reply(Globals(), known)
    {
      sendScore := responseFinalScore;
      if !known {
        sendScore := -1;
      } else if !daemonCheckFirstAllDevices {
        sendScore := -2;
      }
    }
  }

  lemma NotFirst(forks: seq<int>, pid: int)
    requires IsChild(forks, pid) && !(forks[0] > 0 && forks[0] == pid)
    ensures IsChild(forks[1..], pid)
  {
    var i :| 0 <= i < |forks| && forks[i] > 0 && forks[i] == pid;
    assert forks[1..][i - 1] == pid;
  }

  lemma NobodyLate(scores: seq<int>, forks: seq<int>)
    requires !Running(forks)
    ensures Unfinished(forks) == {} && Sum(scores, Unfinished(forks)) == 0
  {
    SumEmpty(scores);
  }

  // ----- One shot -----

  /** When each test ends, counted in turns of the polling loop, and its exit status. */
  datatype Schedule = Schedule(when: seq<nat>, status: seq<int>)

  /** The devices that had failed by turn `t`. */
  function FailedBy(p: Schedule, t: nat): set<nat>
    requires |p.when| == |p.status|
  {
    set i | 0 <= i < |p.when| && p.when[i] < t && p.status[i] != 0
  }

  function UnfinishedAt(p: Schedule, t: nat): set<nat> {
    set i | 0 <= i < |p.when| && p.when[i] >= t
  }

  /** The tests that turn `t` of the polling loop has not yet reaped when it has come to device `k`. */
  predicate Pending(p: Schedule, i: nat, t: nat, k: nat)
    requires i < |p.when|
  {
    p.when[i] > t || (p.when[i] == t && i >= k)
  }

  predicate ForksAt(testForks: seq<int>, p: Schedule, pids: seq<int>, t: nat, k: nat) {
    && |testForks| == |p.when| == |pids|
    && forall i :: 0 <= i < |p.when| ==> testForks[i] == if Pending(p, i, t, k) then pids[i] else 0
  }

  /** One turn of the polling loop over all devices. */
  method Poll(scores: seq<int>, p: Schedule, pids: seq<int>, testForks: array<int>, t: nat, finished: nat, score: int)
    returns (finishedCount: nat, finalScore: int)
    requires |scores| == |p.when| == |p.status| == |pids| && GoodPids(pids)
    requires ForksAt(testForks[..], p, pids, t, 0)
    requires finished + NumRunning(testForks[..]) == |scores|
    requires score == Sum(scores, FailedBy(p, t))
    modifies testForks
    ensures ForksAt(testForks[..], p, pids, t, |scores|)
    ensures finishedCount + NumRunning(testForks[..]) == |scores|
    ensures finalScore == Sum(scores, FailedBy(p, t + 1))
  {
    finishedCount, finalScore := finished, score;
    ghost var failed := FailedBy(p, t);
    var i := 0;
    while i < |scores|
      invariant 0 <= i <= |scores| == testForks.Length
      invariant ForksAt(testForks[..], p, pids, t, i)
      invariant finishedCount + NumRunning(testForks[..]) == |scores|
      invariant failed == set k | 0 <= k < |scores| && !Pending(p, k, t, i) && p.status[k] != 0
      invariant finalScore == Sum(scores, failed)
    {
      if testForks[i] > 0 {
        if p.when[i] == t {
          if p.status[i] != 0 {
            SumAdd(scores, failed, i);
            finalScore := finalScore + scores[i];
            failed := failed + {i};
          }
          finishedCount := finishedCount + 1;
          ghost var before := testForks[..];
          NumRunningReap(before, i);
          testForks[i] := 0;
          assert testForks[..] == before[i := 0];
        }
      }
      i := i + 1;
    }
    assert failed == FailedBy(p, t + 1);
  }

  lemma LoopEnds(testForks: seq<int>, p: Schedule, pids: seq<int>, t: nat, turns: nat, finishedCount: nat)
    requires |p.status| == |p.when| && ForksAt(testForks, p, pids, t, 0) && GoodPids(pids)
    requires finishedCount + NumRunning(testForks) == |testForks|
    requires t <= turns && (finishedCount < |testForks| ==> t == turns)
    ensures forall i :: 0 <= i < |testForks| ==> (testForks[i] != 0 <==> p.when[i] >= turns)
    ensures FailedBy(p, t) == FailedBy(p, turns)
  {
    NumRunningZero(testForks);
    if t < turns {
      forall i | 0 <= i < |testForks| ensures p.when[i] < t {
        assert testForks[i] == 0;
      }
    }
  }

  /** The last loop: what is still running has not completed in time. */
  method AddUnfinished(scores: seq<int>, p: Schedule, testForks: array<int>, turns: nat, score: int)
    returns (finalScore: int)
    requires |scores| == |p.when| == |p.status| == testForks.Length
    requires forall i :: 0 <= i < |scores| ==> (testForks[i] != 0 <==> p.when[i] >= turns)
    requires score == Sum(scores, FailedBy(p, turns))
    ensures finalScore == Sum(scores, FailedBy(p, turns) + UnfinishedAt(p, turns))
  {
    finalScore := score;
    ghost var scored := FailedBy(p, turns);
    var i := 0;
    while i < |scores|
      invariant 0 <= i <= |scores|
      invariant scored == FailedBy(p, turns) + set k | 0 <= k < i && p.when[k] >= turns
      invariant finalScore == Sum(scores, scored)
    {
      if testForks[i] != 0 {
        SumAdd(scores, scored, i);
        finalScore := finalScore + scores[i];
        scored := scored + {i};
      }
      i := i + 1;
    }
    assert scored == FailedBy(p, turns) + UnfinishedAt(p, turns);
  }

  /** The one-shot program: `turns` is how often the polling loop can go round before the deadline. */
  method TestDevicesOnce(scores: seq<int>, p: Schedule, pids: seq<int>, turns: nat) returns (finalScore: int)
    requires |scores| == |p.when| == |p.status| == |pids| && GoodPids(pids)
    ensures finalScore == Sum(scores, FailedBy(p, turns) + UnfinishedAt(p, turns))
  {
    var testForks := new int[|scores|](i requires 0 <= i < |scores| => pids[i]);
    var finishedCount: nat, t: nat := 0, 0;
    finalScore := 0;
    NumRunningAll(testForks[..]);
    SumEmpty(scores);
    assert FailedBy(p, 0) == {};
    while finishedCount < |scores| && t < turns
      invariant t <= turns && testForks.Length == |scores|
      invariant ForksAt(testForks[..], p, pids, t, 0)
      invariant finishedCount + NumRunning(testForks[..]) == |scores|
      invariant finalScore == Sum(scores, FailedBy(p, t))
      decreases turns - t
    {
      finishedCount, finalScore := Poll(scores, p, pids, testForks, t, finishedCount, finalScore);
      t := t + 1;
    }
    LoopEnds(testForks[..], p, pids, t, turns, finishedCount);
    assert forall i :: 0 <= i < |scores| ==> testForks[i] == testForks[..][i];
    finalScore := AddUnfinished(scores, p, testForks, turns, finalScore);
  }

  // ----- The daemon against one shot -----

  /** A reaped child ends as the schedule says, and before the timer expires exactly if it ends before turn `turns`. */
  predicate ExitFollows(p: Schedule, turns: nat, m: Mon, c: Exit)
    requires |p.when| == |p.status| == |m.forks| && IsChild(m.forks, c.pid)
  {
    var i := FindChild(m.forks, c.pid);
    c.status == p.status[i] && (m.expiring <==> p.when[i] < turns)
  }

  predicate ExitsFollow(scores: seq<int>, p: Schedule, turns: nat, m: Mon, cs: seq<Exit>)
    requires |p.when| == |p.status| == |scores| && Reapable(scores, m, cs)
    decreases |cs|
  {
    cs == [] || (ExitFollows(p, turns, m, cs[0]) && ExitsFollow(scores, p, turns, ReapOne(scores, m, cs[0]), cs[1..]))
  }

  /** An event of the round that follows the schedule: exits, an expiry that finds only what is late, or a vain interval. */
  predicate Follows(scores: seq<int>, p: Schedule, turns: nat, m: Mon, e: Event)
    requires |p.when| == |p.status| == |scores|
  {
    match e
    case Sigchld(cs) => Reapable(scores, m, cs) && ExitsFollow(scores, p, turns, m, cs)
    case Expiry => forall i :: 0 <= i < |scores| && i < |m.forks| && m.forks[i] != 0 ==> p.when[i] >= turns
    case Interval(_) => Running(m.forks)
  }

  ghost predicate RoundFollows(scores: seq<int>, p: Schedule, turns: nat, s: State, es: seq<Event>)
    requires |p.when| == |p.status| == |scores| && Run(scores, s, es)
    decreases |es|
  {
    es == [] || (Follows(scores, p, turns, s.m, es[0]) && RoundFollows(scores, p, turns, Next(scores, s, es[0]), es[1..]))
  }

  /** How far the round has come along the schedule. */
  ghost predicate OnSchedule(p: Schedule, turns: nat, s: State) {
    && |p.when| == |p.status| == |s.m.forks|
    && if s.m.expiring then
         && s.h.late == {}
         && s.h.failed == (set i | 0 <= i < |p.when| && s.m.forks[i] == 0 && p.status[i] != 0)
         && forall i :: 0 <= i < |p.when| && s.m.forks[i] == 0 ==> p.when[i] < turns
       else
         s.h.failed == FailedBy(p, turns) && s.h.late == UnfinishedAt(p, turns)
  }

  lemma {:induction false} ExitsKeepSchedule(scores: seq<int>, p: Schedule, turns: nat, s: State, cs: seq<Exit>)
    requires |p.when| == |p.status| == |scores| && OnSchedule(p, turns, s)
    requires Reapable(scores, s.m, cs) && ExitsFollow(scores, p, turns, s.m, cs)
    ensures OnSchedule(p, turns, ReapSteps(scores, s, cs))
    decreases |cs|
  {
    if cs != [] {
      ExitKeepsSchedule(scores, p, turns, s, cs[0]);
      ExitsKeepSchedule(scores, p, turns, ReapStep(scores, s, cs[0]), cs[1..]);
    }
  }

  lemma ExitKeepsSchedule(scores: seq<int>, p: Schedule, turns: nat, s: State, c: Exit)
    requires |p.when| == |p.status| == |scores| && OnSchedule(p, turns, s)
    requires IsChild(s.m.forks, c.pid) && ExitFollows(p, turns, s.m, c)
    ensures OnSchedule(p, turns, ReapStep(scores, s, c))
  {
    var i := FindChild(s.m.forks, c.pid);
    var s' := ReapStep(scores, s, c);
    if s.m.expiring {
      forall k: nat ensures k in s'.h.failed <==> k < |p.when| && s'.m.forks[k] == 0 && p.status[k] != 0 {
      }
    }
  }

  lemma ExpiryKeepsSchedule(scores: seq<int>, p: Schedule, turns: nat, s: State)
    requires |p.when| == |p.status| == |scores| && OnSchedule(p, turns, s) && Inv(scores, s)
    requires s.m.expiring && Follows(scores, p, turns, s.m, Expiry)
    ensures OnSchedule(p, turns, Next(scores, s, Expiry))
  {
    assert Unfinished(s.m.forks) == UnfinishedAt(p, turns);
    assert s.h.failed == FailedBy(p, turns);
  }

  lemma EventKeepsSchedule(scores: seq<int>, p: Schedule, turns: nat, s: State, e: Event)
    requires |p.when| == |p.status| == |scores| && OnSchedule(p, turns, s) && Inv(scores, s)
    requires Possible(scores, s, e) && Follows(scores, p, turns, s.m, e)
    ensures OnSchedule(p, turns, Next(scores, s, e))
  {
    match e
    case Sigchld(cs) => if Running(s.m.forks) { ExitsKeepSchedule(scores, p, turns, s, cs); }
    case Expiry => ExpiryKeepsSchedule(scores, p, turns, s);
    case Interval(_) =>
  }

  lemma {:induction false} RoundKeepsSchedule(scores: seq<int>, p: Schedule, turns: nat, s: State, es: seq<Event>)
    requires GoodScores(scores) && |p.when| == |p.status| == |scores|
    requires Inv(scores, s) && OnSchedule(p, turns, s)
    requires Run(scores, s, es) && RoundFollows(scores, p, turns, s, es)
    ensures OnSchedule(p, turns, Final(scores, s, es))
    decreases |es|
  {
    if es != [] {
      EventKeeps(scores, s, es[0]);
      EventKeepsSchedule(scores, p, turns, s, es[0]);
      RoundKeepsSchedule(scores, p, turns, Next(scores, s, es[0]), es[1..]);
    }
  }

  /** The state in which a round starts after the events `es`. */
  ghost function RoundStart(scores: seq<int>, es: seq<Event>, pids: seq<int>): State
    requires Run(scores, Start(|scores|), es)
    requires Possible(scores, Final(scores, Start(|scores|), es), Interval(pids))
  {
    Next(scores, Final(scores, Start(|scores|), es), Interval(pids))
  }

  /**
   * The daemon agrees with the one-shot program: after any events `es` a round starts, and the
   * events `fs` reap its children, each with the status the schedule gives it and before the timer
   * exactly if it ends in time. Whatever their order and grouping, once the timer has expired or
   * every child is reaped the score is the one that the polling loop returns for that schedule.
   */
  lemma DaemonMatchesOneShot(
    scores: seq<int>, es: seq<Event>, pids: seq<int>, fs: seq<Event>, p: Schedule, turns: nat)
    requires GoodScores(scores) && |p.when| == |p.status| == |scores|
    requires Run(scores, Start(|scores|), es)
    requires !Running(Final(scores, Start(|scores|), es).m.forks)
    requires Possible(scores, Final(scores, Start(|scores|), es), Interval(pids))
    requires Run(scores, RoundStart(scores, es, pids), fs)
    requires RoundFollows(scores, p, turns, RoundStart(scores, es, pids), fs)
    ensures var m := Final(scores, RoundStart(scores, es, pids), fs).m;
            !m.expiring || !Running(m.forks) ==>
              m.finalScore == Sum(scores, FailedBy(p, turns) + UnfinishedAt(p, turns))
  {
    var s := RoundStart(scores, es, pids);
    StartInv(scores);
    RunKeeps(scores, Start(|scores|), es);
    IntervalKeeps(scores, Final(scores, Start(|scores|), es), pids);
    RunKeeps(scores, s, fs);
    RoundKeepsSchedule(scores, p, turns, s, fs);
    var f := Final(scores, s, fs);
    if f.m.expiring && !Running(f.m.forks) {
      assert f.h.failed == FailedBy(p, turns);
      assert f.h.late == UnfinishedAt(p, turns);
    }
  }
}
