/**
 * The daemon of tools/storage_mon.c: event handlers over shared counters, the history a round
 * leaves behind, and the score that clients are told.
 */
module StorageMon {
  import opened Wrappers

  const MAX_DEVICES := 25

  // ----- Sums over sets of devices -----

  /** The scores of the devices in `d` added up. */
  ghost function Sum(scores: seq<int>, d: set<nat>): int {
    if scores == [] then 0
    else
      var i := |scores| - 1;
      Sum(scores[..i], d) + if i in d then scores[i] else 0
  }

  lemma {:induction false} SumAdd(scores: seq<int>, d: set<nat>, i: nat)
    requires i < |scores| && i !in d
    ensures Sum(scores, d + {i}) == Sum(scores, d) + scores[i]
  {
    var k := |scores| - 1;
    if i < k {
      SumAdd(scores[..k], d, i);
    } else {
      SumSame(scores[..k], d, d + {i});
    }
  }

  lemma {:induction false} SumSame(scores: seq<int>, d: set<nat>, e: set<nat>)
    requires forall i :: 0 <= i < |scores| ==> (i in d <==> i in e)
    ensures Sum(scores, d) == Sum(scores, e)
  {
    if scores != [] {
      SumSame(scores[..|scores| - 1], d, e);
    }
  }

  lemma {:induction false} SumUnion(scores: seq<int>, d: set<nat>, e: set<nat>)
    requires d !! e
    ensures Sum(scores, d + e) == Sum(scores, d) + Sum(scores, e)
  {
    if scores != [] {
      SumUnion(scores[..|scores| - 1], d, e);
    }
  }

  lemma {:induction false} SumEmpty(scores: seq<int>)
    ensures Sum(scores, {}) == 0
  {
    if scores != [] {
      SumEmpty(scores[..|scores| - 1]);
    }
  }

  lemma NoneScored(scores: seq<int>)
    ensures Sum(scores, {} + {}) == 0
  {
    SumEmpty(scores);
    SumSame(scores, {} + {}, {});
  }

  lemma {:induction false} SumRange(scores: seq<int>, d: set<nat>)
    requires forall i :: 0 <= i < |scores| ==> 1 <= scores[i] <= 10
    ensures 0 <= Sum(scores, d) <= 10 * |scores|
    ensures Sum(scores, d) == 0 <==> forall i :: 0 <= i < |scores| ==> i !in d
  {
    if scores != [] {
      var k := |scores| - 1;
      SumRange(scores[..k], d);
    }
  }

  // ----- The daemon's globals and handlers -----

  /** A child that waitpid returns: its pid and exit status. */
  datatype Exit = Exit(pid: int, status: int)

  /**
   * `forks` holds the pid of each running test and 0 for the others, `expiring` says that the
   * expiry timer is running, `ready` is daemon_check_first_all_devices.
   */
  datatype Mon = Mon(forks: seq<int>, finalScore: int, response: int, finished: nat, ready: bool, expiring: bool)

  predicate Running(forks: seq<int>) {
    exists i :: 0 <= i < |forks| && forks[i] != 0
  }

  predicate IsChild(forks: seq<int>, pid: int) {
    exists i :: 0 <= i < |forks| && forks[i] > 0 && forks[i] == pid
  }

  /** find_child_pid: the first device whose test has this pid. */
  function FindChild(forks: seq<int>, pid: int): (i: nat)
    requires IsChild(forks, pid)
    ensures i < |forks| && forks[i] == pid > 0
  {
    if forks[0] > 0 && forks[0] == pid then 0 else 1 + FindChild(forks[1..], pid)
  }

  /** One turn of the reaping loop. */
  function ReapOne(scores: seq<int>, m: Mon, c: Exit): Mon
    requires |m.forks| == |scores| && IsChild(m.forks, c.pid)
  {
    var i := FindChild(m.forks, c.pid);
    var failed := m.expiring && c.status != 0;
    var score := if failed then m.finalScore + scores[i] else m.finalScore;
    var all := m.finished + 1 == |scores|;
    Mon(m.forks[i := 0], score, if failed || all then score else m.response, m.finished + 1,
        m.ready || failed || all, m.expiring)
  }

  /** The children reaped are tests of this round, one after the other. */
  predicate Reapable(scores: seq<int>, m: Mon, cs: seq<Exit>)
    decreases |cs|
  {
    cs == []
    || (|m.forks| == |scores| && IsChild(m.forks, cs[0].pid) && Reapable(scores, ReapOne(scores, m, cs[0]), cs[1..]))
  }

  function ReapAll(scores: seq<int>, m: Mon, cs: seq<Exit>): Mon
    requires Reapable(scores, m, cs)
    decreases |cs|
  {
    if cs == [] then m else ReapAll(scores, ReapOne(scores, m, cs[0]), cs[1..])
  }

  /** The devices whose test is still running. */
  function Unfinished(forks: seq<int>): set<nat> {
    set i | 0 <= i < |forks| && forks[i] > 0
  }

  /** child_timeout_handler: every running test counts as failed. */
  ghost function Expired(scores: seq<int>, m: Mon): Mon {
    var score := m.finalScore + Sum(scores, Unfinished(m.forks));
    var any := Unfinished(m.forks) != {};
    m.(finalScore := score, response := if any then score else m.response, ready := m.ready || any, expiring := false)
  }

  /** test_device_main in the daemon: a new round unless a test is still running. */
  function NewRound(m: Mon, pids: seq<int>): Mon {
    if Running(m.forks) then m
    else m.(finalScore := 0, finished := 0, forks := pids, expiring := true)
  }

  /** The reply to a client: -1 for an unknown request, -2 while there is nothing to report. */
  function Reply(m: Mon, known: bool): int {
    if !known then -1 else if !m.ready then -2 else m.response
  }

  // ----- Runs and their history -----

  datatype Event =
    | Sigchld(children: seq<Exit>)
    | Expiry
    | Interval(pids: seq<int>)

  /**
   * What an observer of the events knows: the devices that failed in time in this round, those
   * that were unfinished when the timer expired, the score of the last completed round, and
   * whether there ever was a failure or a completed round.
   */
  datatype History = History(started: bool, failed: set<nat>, late: set<nat>, lastScore: Option<int>, news: bool)

  datatype State = State(m: Mon, h: History)

  function Start(n: nat): (s: State) {
    State(Mon(seq(n, _ => 0), 0, 0, 0, false, false), History(false, {}, {}, None, false))
  }

  predicate GoodPids(pids: seq<int>) {
    && (forall i :: 0 <= i < |pids| ==> pids[i] > 0)
    && (forall i, j :: 0 <= i < j < |pids| ==> pids[i] != pids[j])
  }

  /** Forks succeed, reaped pids are known, and a round's timer has expired before the next round starts. */
  predicate Possible(scores: seq<int>, s: State, e: Event) {
    match e
    case Sigchld(cs) => if Running(s.m.forks) then Reapable(scores, s.m, cs) else cs == []
    case Expiry => s.m.expiring
    case Interval(pids) => !Running(s.m.forks) ==> !s.m.expiring && |pids| == |scores| && GoodPids(pids)
  }

  ghost function Noted(h: History, scores: seq<int>, complete: bool): History {
    h.(news := h.news || h.failed + h.late != {} || complete)
  }

  ghost function ReapStep(scores: seq<int>, s: State, c: Exit): State
    requires |s.m.forks| == |scores| && IsChild(s.m.forks, c.pid)
  {
    var i := FindChild(s.m.forks, c.pid);
    var m := ReapOne(scores, s.m, c);
    var h := if s.m.expiring && c.status != 0 then s.h.(failed := s.h.failed + {i}) else s.h;
    State(m, Noted(h, scores, !Running(m.forks)))
  }

  ghost function ReapSteps(scores: seq<int>, s: State, cs: seq<Exit>): (r: State)
    requires Reapable(scores, s.m, cs)
    ensures r.m == ReapAll(scores, s.m, cs)
    decreases |cs|
  {
    if cs == [] then s else ReapSteps(scores, ReapStep(scores, s, cs[0]), cs[1..])
  }

  ghost function Next(scores: seq<int>, s: State, e: Event): State
    requires Possible(scores, s, e)
  {
    match e
    case Sigchld(cs) => if Running(s.m.forks) then ReapSteps(scores, s, cs) else s
    case Expiry =>
      State(Expired(scores, s.m), Noted(s.h.(late := Unfinished(s.m.forks)), scores, false))
    case Interval(pids) =>
      State(NewRound(s.m, pids),
            if Running(s.m.forks) then s.h
            else History(true, {}, {}, if s.h.started then Some(Sum(scores, s.h.failed + s.h.late)) else None, s.h.news))
  }

  ghost predicate Run(scores: seq<int>, s: State, es: seq<Event>)
    decreases |es|
  {
    es == [] || (Possible(scores, s, es[0]) && Run(scores, Next(scores, s, es[0]), es[1..]))
  }

  ghost function Final(scores: seq<int>, s: State, es: seq<Event>): State
    requires Run(scores, s, es)
    decreases |es|
  {
    if es == [] then s else Final(scores, Next(scores, s, es[0]), es[1..])
  }

  /** What main accepts: 1 to 25 devices, scores from 1 to 10. */
  predicate GoodScores(scores: seq<int>) {
    && 1 <= |scores| <= MAX_DEVICES
    && forall i :: 0 <= i < |scores| ==> 1 <= scores[i] <= 10
  }

  function NumRunning(forks: seq<int>): nat {
    if forks == [] then 0
    else NumRunning(forks[..|forks| - 1]) + if forks[|forks| - 1] != 0 then 1 else 0
  }

  // ----- The invariant -----

  ghost predicate Tests(scores: seq<int>, s: State) {
    && |s.m.forks| == |scores|
    && (forall i :: 0 <= i < |scores| ==> s.m.forks[i] >= 0)
    && (forall i, j :: 0 <= i < j < |scores| && s.m.forks[i] != 0 ==> s.m.forks[i] != s.m.forks[j])
  }

  ghost predicate Scored(scores: seq<int>, s: State) {
    && |s.m.forks| == |scores|
    && s.m.finalScore == Sum(scores, s.h.failed + s.h.late)
    && s.h.failed !! s.h.late
    && (forall i :: i in s.h.failed ==> i < |scores| && s.m.forks[i] == 0)
    && (forall i :: i in s.h.late ==> i < |scores|)
    && (s.m.expiring ==> s.h.late == {})
  }

  ghost predicate Counted(scores: seq<int>, s: State) {
    if s.h.started then s.m.finished + NumRunning(s.m.forks) == |scores|
    else s.m.finished == 0 && !Running(s.m.forks) && !s.m.expiring && !s.h.news
         && s.h.failed == {} && s.h.late == {} && s.h.lastScore == None
  }

  ghost predicate Told(scores: seq<int>, s: State) {
    && (s.m.ready <==> s.h.news)
    && s.m.response >= 0
    && (s.h.failed + s.h.late != {} || (s.h.started && !Running(s.m.forks)) ==>
          s.h.news && s.m.response == s.m.finalScore)
    && (s.h.started && s.h.failed + s.h.late == {} && Running(s.m.forks) && s.h.news ==>
          s.h.lastScore == Some(s.m.response))
    && (s.h.started && s.h.lastScore.Some? ==> s.h.news)
  }

  ghost predicate Inv(scores: seq<int>, s: State) {
    Tests(scores, s) && Scored(scores, s) && Counted(scores, s) && Told(scores, s)
  }

  lemma {:induction false} NumRunningZero(forks: seq<int>)
    ensures NumRunning(forks) == 0 <==> !Running(forks)
  {
    if forks != [] {
      var k := |forks| - 1;
      NumRunningZero(forks[..k]);
      if Running(forks[..k]) {
        var i :| 0 <= i < k && forks[..k][i] != 0;
        assert forks[i] != 0;
      }
    }
  }

  lemma {:induction false} NumRunningReap(forks: seq<int>, i: nat)
    requires i < |forks| && forks[i] != 0
    ensures NumRunning(forks[i := 0]) == NumRunning(forks) - 1
  {
    var k := |forks| - 1;
    if i < k {
      assert forks[i := 0][..k] == forks[..k][i := 0];
      NumRunningReap(forks[..k], i);
    } else {
      assert forks[i := 0][..k] == forks[..k];
    }
  }

  lemma {:induction false} NumRunningAll(forks: seq<int>)
    requires forall i :: 0 <= i < |forks| ==> forks[i] != 0
    ensures NumRunning(forks) == |forks|
  {
    if forks != [] {
      NumRunningAll(forks[..|forks| - 1]);
    }
  }

  lemma ReapStepKeeps(scores: seq<int>, s: State, c: Exit)
    requires GoodScores(scores) && Inv(scores, s) && IsChild(s.m.forks, c.pid)
    ensures Inv(scores, ReapStep(scores, s, c))
  {
    var i := FindChild(s.m.forks, c.pid);
    var s' := ReapStep(scores, s, c);
    assert Running(s.m.forks);
    NumRunningReap(s.m.forks, i);
    NumRunningZero(s'.m.forks);
    SumRange(scores, s'.h.failed + s'.h.late);
    if s.m.expiring && c.status != 0 {
      assert s'.h.failed + s'.h.late == (s.h.failed + s.h.late) + {i};
      SumAdd(scores, s.h.failed + s.h.late, i);
    }
  }

  lemma {:induction false} ReapStepsKeep(scores: seq<int>, s: State, cs: seq<Exit>)
    requires GoodScores(scores) && Inv(scores, s) && Reapable(scores, s.m, cs)
    ensures Inv(scores, ReapSteps(scores, s, cs))
    decreases |cs|
  {
    if cs != [] {
      ReapStepKeeps(scores, s, cs[0]);
      ReapStepsKeep(scores, ReapStep(scores, s, cs[0]), cs[1..]);
    }
  }

  lemma ExpiryKeeps(scores: seq<int>, s: State)
    requires GoodScores(scores) && Inv(scores, s) && s.m.expiring
    ensures Inv(scores, Next(scores, s, Expiry))
  {
    var late := Unfinished(s.m.forks);
    SumUnion(scores, s.h.failed, late);
    SumRange(scores, s.h.failed + late);
    assert s.h.failed + {} == s.h.failed;
    if Running(s.m.forks) {
      var i :| 0 <= i < |s.m.forks| && s.m.forks[i] != 0;
      assert i in late;
    }
  }

  lemma IntervalKeeps(scores: seq<int>, s: State, pids: seq<int>)
    requires GoodScores(scores) && Inv(scores, s) && Possible(scores, s, Interval(pids))
    ensures Inv(scores, Next(scores, s, Interval(pids)))
  {
    SumRange(scores, s.h.failed + s.h.late);
    if !Running(s.m.forks) {
      NumRunningAll(pids);
      NoneScored(scores);
      assert pids[0] != 0;
    }
  }

  lemma EventKeeps(scores: seq<int>, s: State, e: Event)
    requires GoodScores(scores) && Inv(scores, s) && Possible(scores, s, e)
    ensures Inv(scores, Next(scores, s, e))
  {
    match e
    case Sigchld(cs) => if Running(s.m.forks) { ReapStepsKeep(scores, s, cs); }
    case Expiry => ExpiryKeeps(scores, s);
    case Interval(pids) => IntervalKeeps(scores, s, pids);
  }

  lemma {:induction false} RunKeeps(scores: seq<int>, s: State, es: seq<Event>)
    requires GoodScores(scores) && Inv(scores, s) && Run(scores, s, es)
    ensures Inv(scores, Final(scores, s, es))
    decreases |es|
  {
    if es != [] {
      EventKeeps(scores, s, es[0]);
      RunKeeps(scores, Next(scores, s, es[0]), es[1..]);
    }
  }

  lemma StartInv(scores: seq<int>)
    ensures Inv(scores, Start(|scores|))
  {
    NoneScored(scores);
  }

  // ----- Main results -----

  /**
   * In every interleaving a device's score is added at most once in a round: the score is that of
   * the failed and the late devices, at most 250, and 0 exactly when there are none.
   */
  lemma ScoreIsSum(scores: seq<int>, es: seq<Event>)
    requires GoodScores(scores) && Run(scores, Start(|scores|), es)
    ensures var s := Final(scores, Start(|scores|), es);
            && s.m.finalScore == Sum(scores, s.h.failed + s.h.late)
            && s.h.failed !! s.h.late
            && 0 <= s.m.finalScore <= 250
            && (s.m.finalScore == 0 <==> s.h.failed == {} && s.h.late == {})
            && (s.h.started ==> s.m.finished + NumRunning(s.m.forks) == |scores|)
  {
    StartInv(scores);
    RunKeeps(scores, Start(|scores|), es);
    var s := Final(scores, Start(|scores|), es);
    SumRange(scores, s.h.failed + s.h.late);
  }

  /** What a client is told, in terms of the events alone. */
  lemma ClientAnswer(scores: seq<int>, es: seq<Event>)
    requires GoodScores(scores) && Run(scores, Start(|scores|), es)
    ensures var s := Final(scores, Start(|scores|), es);
            && Reply(s.m, false) == -1
            && (Reply(s.m, true) == -2 <==> !s.h.news)
            && (s.h.news ==>
                  if s.h.failed + s.h.late != {} || !Running(s.m.forks)
                  then Reply(s.m, true) == Sum(scores, s.h.failed + s.h.late)
                  else Some(Reply(s.m, true)) == s.h.lastScore)
  {
    StartInv(scores);
    RunKeeps(scores, Start(|scores|), es);
    var s := Final(scores, Start(|scores|), es);
    SumRange(scores, s.h.failed + s.h.late);
  }

  lemma {:induction false} ReapsKeepReady(scores: seq<int>, m: Mon, cs: seq<Exit>)
    requires Reapable(scores, m, cs) && m.ready
    ensures ReapAll(scores, m, cs).ready
    decreases |cs|
  {
    if cs != [] {
      ReapsKeepReady(scores, ReapOne(scores, m, cs[0]), cs[1..]);
    }
  }

  lemma {:induction false} ReadyStays(scores: seq<int>, s: State, es: seq<Event>)
    requires Run(scores, s, es) && s.m.ready
    ensures Final(scores, s, es).m.ready
    decreases |es|
  {
    if es != [] {
      if es[0].Sigchld? && Running(s.m.forks) {
        ReapsKeepReady(scores, s.m, es[0].children);
      }
      ReadyStays(scores, Next(scores, s, es[0]), es[1..]);
    }
  }

  /** A client that has been told a score is never again told that there is none. */
  lemma NeverUnknownAgain(scores: seq<int>, es: seq<Event>, fs: seq<Event>)
    requires GoodScores(scores) && Run(scores, Start(|scores|), es)
    requires Run(scores, Final(scores, Start(|scores|), es), fs)
    requires Reply(Final(scores, Start(|scores|), es).m, true) != -2
    ensures 0 <= Reply(Final(scores, Final(scores, Start(|scores|), es), fs).m, true)
  {
    StartInv(scores);
    RunKeeps(scores, Start(|scores|), es);
    RunKeeps(scores, Final(scores, Start(|scores|), es), fs);
    ReadyStays(scores, Final(scores, Start(|scores|), es), fs);
  }
}
