/** What the two startup-test controllers share: the classification of one
    poll, the outer loop that runs test cycles until the requested count is
    reached, the `start`/`stop` handle state machine, and the progress
    report.

    The test thread is modelled sequentially. Each cycle reads the `running`
    flag at the top of the outer loop, then a scripted series of `Sample`s,
    one per pass of its poll loop. The motor commands, the relay, the sleeps
    and the cooling wait between cycles change no counter and are left out. */
module StartupControl {
  import opened Bytes
  import MotorApis

  datatype TestStatus = Rotating | RotatFailed | RotatSuccess

  /** `get_test_status`: a nonzero fault code fails the poll whatever the
      speed; otherwise the poll succeeds when the speed is within tolerance
      of the target. The tolerance test runs on floating-point speeds and is
      given here as `nearTarget`. */
  function Classify(status: MotorApis.MotorStatus, nearTarget: bool): (r: TestStatus)
    ensures r.RotatFailed? <==> status.errorCode > 0
    ensures r.RotatSuccess? <==> status.errorCode == 0 && nearTarget
  {
    if status.errorCode > 0 then RotatFailed
    else if nearTarget then RotatSuccess
    else Rotating
  }

  /** A poll fails exactly when the controller's status record carries a
      nonzero fault code; a missing reply, read as the default status, never
      fails a poll. */
  lemma ClassifyStatusRecord(s: MotorApis.StatusRecord, msgType: byte, nearTarget: bool)
    ensures var port := Some(MotorApis.Port(true, Some(MotorApis.ReplyFrame(msgType, MotorApis.EncodeStatus(s)))));
      && MotorApis.ValidPort(port)
      && MotorApis.GetMotorStatus(port).Status?
      && (Classify(MotorApis.GetMotorStatus(port).status, nearTarget).RotatFailed? <==> s.errorCode > 0)
    ensures Classify(MotorApis.DEFAULT_STATUS, nearTarget) == (if nearTarget then RotatSuccess else Rotating)
  {
    MotorApis.StatusRoundTrip(s, msgType);
    MotorApis.DecodeEncodeStatus(s);
  }

  // ---------------------------------------------------------------------------
  // Cycles

  /** One pass of a poll loop: the classified poll, the `running` flag read
      after it, and the milliseconds since the cycle began, read after the
      one-second pause. */
  datatype Sample = Sample(status: TestStatus, running: bool, elapsedMs: nat)

  /** How a cycle ended. `Unfinished` is a cycle whose samples ran out before
      any exit of its poll loop was taken. */
  datatype Verdict = Passed | Failed | TimedOut | Canceled | Unfinished

  /** The end of a cycle: its verdict, the target-hit count carried into the
      next cycle, and the number of samples it read. */
  datatype CycleEnd = CycleEnd(verdict: Verdict, reached: nat, used: nat)

  /** A poll loop, from the hit count it starts with and its samples. */
  type PollLoop = (nat, seq<Sample>) -> CycleEnd

  predicate AllRunning(polls: seq<Sample>) {
    forall i :: 0 <= i < |polls| ==> polls[i].running
  }

  /** A poll loop that cancels only after reading a cleared `running` flag. */
  ghost predicate CancelsOnlyOnStop(loop: PollLoop) {
    forall reached: nat, polls: seq<Sample> {:trigger loop(reached, polls)} ::
      AllRunning(polls) ==> !loop(reached, polls).verdict.Canceled?
  }

  /** One pass of the outer loop: the `running` flag its `while` reads, then
      the samples its poll loop reads. */
  datatype CycleScript = CycleScript(running: bool, polls: seq<Sample>)

  /** A test run that nobody stops: every flag it reads is set. */
  predicate NeverStopped(script: seq<CycleScript>) {
    forall i :: 0 <= i < |script| ==> script[i].running && AllRunning(script[i].polls)
  }

  /** Why a run ended: the cycle count reached the requested total, the
      outer loop read a cleared `running` flag, or the script ran out. */
  datatype RunEnd = Completed | Stopped | OutOfScript

  /** A run's counters: cycles started (`test_cnt`), failed and passed cycles,
      canceled cycles (counted in neither), and the carried hit count. */
  datatype Run = Run(end: RunEnd, cycles: nat, failed: nat, success: nat, canceled: nat, reached: nat)

  /** A requested total of 0 still runs one cycle. */
  function Max1(total: u32): (r: nat)
    ensures r >= 1 && r >= total
    ensures total > 0 ==> r == total
  {
    if total == 0 then 1 else total
  }

  /** The outer loop of the test thread: each cycle counts itself, runs its
      poll loop, adds one to the failed count for a failed or timed-out
      cycle and to the success count for a passed one, and the run ends
      after the cycle whose count reaches `total`. */
  function RunCycles(loop: PollLoop, total: u32, cycles: nat, reached: nat,
                     failed: nat, success: nat, canceled: nat, script: seq<CycleScript>): (r: Run)
    requires cycles == 0 || cycles < total
    requires failed + success + canceled == cycles
    ensures cycles <= r.cycles <= Max1(total)
    ensures failed <= r.failed && success <= r.success && canceled <= r.canceled
    ensures r.failed + r.success + r.canceled <= r.cycles
    ensures r.end != OutOfScript ==> r.failed + r.success + r.canceled == r.cycles
    ensures r.end.Completed? ==> r.cycles == Max1(total)
    ensures r.end.Stopped? ==> r.cycles < Max1(total)
    decreases |script|
  {
    if |script| == 0 then Run(OutOfScript, cycles, failed, success, canceled, reached)
    else if !script[0].running then Run(Stopped, cycles, failed, success, canceled, reached)
    else
      var e := loop(reached, script[0].polls);
      var n := cycles + 1;
      match e.verdict
      case Unfinished => Run(OutOfScript, n, failed, success, canceled, e.reached)
      case _ =>
        var failed' := if e.verdict.Failed? || e.verdict.TimedOut? then failed + 1 else failed;
        var success' := if e.verdict.Passed? then success + 1 else success;
        var canceled' := if e.verdict.Canceled? then canceled + 1 else canceled;
        if n >= total then Run(Completed, n, failed', success', canceled', e.reached)
        else RunCycles(loop, total, n, e.reached, failed', success', canceled', script[1..])
  }

  /** A run from a fresh thread: counters start at zero. */
  function StartRun(loop: PollLoop, total: u32, script: seq<CycleScript>): (r: Run)
    ensures r.failed + r.success <= r.cycles <= Max1(total)
    ensures r.failed < 0x1_0000_0000 && r.success < 0x1_0000_0000
    ensures r.end.Completed? ==> r.cycles == Max1(total) && r.cycles >= 1
  {
    RunCycles(loop, total, 0, 0, 0, 0, 0, script)
  }

  /** When nobody stops the run, no cycle is canceled, so a completed run
      has classified every one of its cycles. */
  lemma {:induction false} NeverStoppedNoCancel(loop: PollLoop, total: u32, cycles: nat, reached: nat,
                                                failed: nat, success: nat, canceled: nat, script: seq<CycleScript>)
    requires cycles == 0 || cycles < total
    requires failed + success + canceled == cycles
    requires CancelsOnlyOnStop(loop) && NeverStopped(script)
    ensures RunCycles(loop, total, cycles, reached, failed, success, canceled, script).canceled == canceled
    decreases |script|
  {
    if |script| > 0 {
      assert script[0].running && AllRunning(script[0].polls);
      var e := loop(reached, script[0].polls);
      assert !e.verdict.Canceled?;
      if e.verdict != Unfinished && cycles + 1 < total {
        var failed' := if e.verdict.Failed? || e.verdict.TimedOut? then failed + 1 else failed;
        var success' := if e.verdict.Passed? then success + 1 else success;
        assert NeverStopped(script[1..]) by {
          forall i | 0 <= i < |script[1..]|
            ensures script[1..][i].running && AllRunning(script[1..][i].polls)
          {
            assert script[1..][i] == script[i + 1];
          }
        }
        NeverStoppedNoCancel(loop, total, cycles + 1, e.reached, failed', success', canceled, script[1..]);
      }
    }
  }

  /** A run nobody stops that completes has failed or passed exactly as many
      cycles as were requested (one when the request was 0). */
  lemma CompletedRunTalliesAll(loop: PollLoop, total: u32, script: seq<CycleScript>)
    requires CancelsOnlyOnStop(loop) && NeverStopped(script)
    requires StartRun(loop, total, script).end.Completed?
    ensures var r := StartRun(loop, total, script);
      r.failed + r.success == Max1(total)
  {
    NeverStoppedNoCancel(loop, total, 0, 0, 0, 0, 0, script);
  }

  // ---------------------------------------------------------------------------
  // The controller

  /** The shared state of a controller: the `running` flag, whether a thread
      handle is stored, and the three counters. */
  datatype Controller = Controller(running: bool, hasHandle: bool, total: u32, failed: u32, success: u32)

  /** A fresh controller. */
  const IDLE: Controller := Controller(false, false, 0, 0, 0)

  datatype Started = Started(controller: Controller, spawned: bool)

  /** `start`: the total is set and both counters are zeroed in every case,
      even while a run is active; a thread is spawned, and `running` set,
      only when no handle is stored. */
  function Start(c: Controller, totalCount: u32): (r: Started)
    ensures r.controller.total == totalCount && r.controller.failed == 0 && r.controller.success == 0
    ensures r.spawned <==> !c.hasHandle
    ensures r.controller.hasHandle
    ensures r.controller.running <==> r.spawned || c.running
  {
    if c.hasHandle then Started(c.(total := totalCount, failed := 0, success := 0), false)
    else Started(Controller(true, true, totalCount, 0, 0), true)
  }

  /** `stop`: `running` is cleared and the handle taken (the thread joined);
      the counters are kept. */
  function Stop(c: Controller): (r: Controller)
    ensures !r.running && !r.hasHandle
    ensures r.total == c.total && r.failed == c.failed && r.success == c.success
  {
    c.(running := false, hasHandle := false)
  }

  /** A thread that ran `run` since its start wrote its counters; it leaves
      its handle stored and `running` as it was. */
  function Finish(c: Controller, run: Run): (r: Controller)
    requires run.failed < 0x1_0000_0000 && run.success < 0x1_0000_0000
    ensures r.failed == run.failed && r.success == run.success
    ensures r.running == c.running && r.hasHandle == c.hasHandle && r.total == c.total
  {
    c.(failed := run.failed, success := run.success)
  }

  /** A second `start` spawns nothing until `stop` has taken the handle, even
      when the first run has already ended on its own. */
  lemma RestartNeedsStop(c: Controller, first: u32, second: u32, run: Run)
    requires run.failed < 0x1_0000_0000 && run.success < 0x1_0000_0000
    ensures var done := Finish(Start(c, first).controller, run);
      && !Start(done, second).spawned
      && Start(Stop(done), second).spawned
  {
  }

  /** What `get_test_result` reports, the progress as the number it holds
      before its conversion to a float. */
  datatype TestResult = TestResult(progress: u32, failed: u32, success: u32)

  /** The sum of the two counters as a 32-bit addition (wrapping, as a
      release build does). */
  function Finished(c: Controller): (r: u32)
    ensures c.failed + c.success < 0x1_0000_0000 ==> r == c.failed + c.success
  {
    (c.failed + c.success) % 0x1_0000_0000
  }

  /** `get_test_result`: the counters unchanged, and as progress the number
      of classified cycles divided by the total in integer arithmetic, with a
      total of 0 read as 1. */
  function GetTestResult(c: Controller): (r: TestResult)
    ensures r.failed == c.failed && r.success == c.success
    ensures r.progress * Max1(c.total) <= Finished(c) < (r.progress + 1) * Max1(c.total)
  {
    TestResult(Finished(c) / Max1(c.total), c.failed, c.success)
  }

  /** While no more cycles are classified than requested, the progress is 0
      until the last one and 1 from then on. */
  lemma ProgressIsAllOrNothing(c: Controller)
    requires c.failed + c.success <= Max1(c.total)
    ensures GetTestResult(c).progress == 1 <==> c.failed + c.success == Max1(c.total)
    ensures GetTestResult(c).progress == 0 <==> c.failed + c.success < Max1(c.total)
  {
  }

  /** A started run that nobody stops and that completes reports progress 1. */
  lemma CompletedRunReportsDone(c: Controller, total: u32, loop: PollLoop, script: seq<CycleScript>)
    requires CancelsOnlyOnStop(loop) && NeverStopped(script)
    requires StartRun(loop, total, script).end.Completed?
    ensures var done := Finish(Start(c, total).controller, StartRun(loop, total, script));
      GetTestResult(done).progress == 1
  {
    CompletedRunTalliesAll(loop, total, script);
    ProgressIsAllOrNothing(Finish(Start(c, total).controller, StartRun(loop, total, script)));
  }
}
