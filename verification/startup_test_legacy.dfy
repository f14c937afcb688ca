/** The earlier startup-test controller: each cycle starts the motor and
    polls once a second; the first poll at target speed passes the cycle,
    the first fault fails it, and a cycle still below target speed 20 seconds
    after it began times out. */
module StartupTestLegacy {
  import opened Bytes
  import opened StartupControl

  /** The fixed start-up timeout in milliseconds. */
  const TIMEOUT_MS: nat := 20000

  /** The exit, if any, that a poll takes: its own result first, then a stop
      request, then the timeout. */
  function StepExit(s: Sample): (v: Option<Verdict>)
    ensures v.Some? ==> !v.value.Unfinished?
    ensures v == Some(Passed) <==> s.status.RotatSuccess?
    ensures v == Some(Failed) <==> s.status.RotatFailed?
  {
    match s.status
    case RotatSuccess => Some(Passed)
    case RotatFailed => Some(Failed)
    case Rotating =>
      if !s.running then Some(Canceled)
      else if s.elapsedMs > TIMEOUT_MS then Some(TimedOut)
      else None
  }

  /** The poll loop of one cycle. This controller keeps no hit count, so the
      count it hands on is always 0. */
  function PollCycle(polls: seq<Sample>): (e: CycleEnd)
    ensures e.used <= |polls| && e.reached == 0
    ensures e.verdict.Unfinished? ==> e.used == |polls|
    ensures !e.verdict.Unfinished? ==> 1 <= e.used
    decreases |polls|
  {
    if |polls| == 0 then CycleEnd(Unfinished, 0, 0)
    else
      var s := polls[0];
      match s.status
      case RotatSuccess => CycleEnd(Passed, 0, 1)
      case RotatFailed => CycleEnd(Failed, 0, 1)
      case Rotating =>
        if !s.running then CycleEnd(Canceled, 0, 1)
        else if s.elapsedMs > TIMEOUT_MS then CycleEnd(TimedOut, 0, 1)
        else
          var e := PollCycle(polls[1..]);
          e.(used := e.used + 1)
  }

  /** A cycle ends at the first poll that takes an exit, with that exit as
      its verdict; every poll before it found the motor below target speed,
      still running and within the timeout. */
  predicate FirstExit(polls: seq<Sample>, e: CycleEnd) {
    if e.verdict.Unfinished? then
      e.used == |polls| && forall i :: 0 <= i < |polls| ==> StepExit(polls[i]).None?
    else
      && 1 <= e.used <= |polls|
      && (forall i :: 0 <= i < e.used - 1 ==> StepExit(polls[i]).None?)
      && StepExit(polls[e.used - 1]) == Some(e.verdict)
  }

  lemma {:induction false} PollCycleFirstExit(polls: seq<Sample>)
    ensures FirstExit(polls, PollCycle(polls))
    decreases |polls|
  {
    if |polls| > 0 && StepExit(polls[0]).None? {
      var e' := PollCycle(polls[1..]);
      assert PollCycle(polls) == e'.(used := e'.used + 1);
      PollCycleFirstExit(polls[1..]);
      forall i | 1 <= i < |polls|
        ensures polls[i] == polls[1..][i - 1]
      {
      }
    }
  }

  /** No consecutive hits are needed: the first poll at target speed passes
      the cycle, however many polls below it came first. */
  lemma FirstHitPasses(polls: seq<Sample>, k: nat)
    requires k < |polls| && polls[k].status.RotatSuccess?
    requires forall i :: 0 <= i < k ==> StepExit(polls[i]).None?
    ensures PollCycle(polls) == CycleEnd(Passed, 0, k + 1)
  {
    PollCycleFirstExit(polls);
  }

  /** The poll loop as the outer loop runs it. */
  function Loop(): (loop: PollLoop) {
    (reached: nat, polls: seq<Sample>) => PollCycle(polls)
  }

  /** A cycle is canceled only after a poll reads a cleared `running` flag. */
  lemma LoopCancelsOnlyOnStop()
    ensures CancelsOnlyOnStop(Loop())
  {
    forall reached: nat, polls: seq<Sample> | AllRunning(polls)
      ensures !Loop()(reached, polls).verdict.Canceled?
    {
      PollCycleFirstExit(polls);
    }
  }

  /** The test thread, from `start(target_rps, total_count)` to its last
      cycle. */
  function TestRun(totalCount: u32, script: seq<CycleScript>): (r: Run)
    ensures r.failed + r.success <= r.cycles <= Max1(totalCount)
    ensures r.end.Completed? ==> r.cycles == Max1(totalCount)
  {
    StartRun(Loop(), totalCount, script)
  }

  /** A run that completes without a stop leaves `get_test_result`
      reporting progress 1 and as many classified cycles as requested. */
  lemma TestRunReportsDone(c: Controller, totalCount: u32, script: seq<CycleScript>)
    requires NeverStopped(script) && TestRun(totalCount, script).end.Completed?
    ensures var r := TestRun(totalCount, script);
      && r.failed + r.success == Max1(totalCount)
      && GetTestResult(Finish(Start(c, totalCount).controller, r)).progress == 1
  {
    LoopCancelsOnlyOnStop();
    CompletedRunTalliesAll(Loop(), totalCount, script);
    CompletedRunReportsDone(c, totalCount, Loop(), script);
  }

  /** The timeout is checked after the stop request: a stopped poll past the
      timeout cancels the cycle rather than failing it. */
  lemma StopBeforeTimeout()
    ensures PollCycle([Sample(Rotating, false, 30000)]) == CycleEnd(Canceled, 0, 1)
  {
  }
}
