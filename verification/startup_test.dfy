/** The startup-test controller: each cycle powers the motor, starts it, and
    polls once a second until the motor has been seen at its target speed
    `rotate_duration` times, a poll reports a fault, the test is stopped, or
    twice the hold time in seconds has passed.

    The hit count (`reached_cnt`) belongs to the whole run: a poll below
    target speed leaves it as it is, and only a fault, a pass or a timeout
    resets it. So the hits a cycle needs need not be consecutive, and a
    canceled cycle hands its hits to the next one. */
module StartupTest {
  import opened Bytes
  import opened StartupControl

  /** The parameters of a run that the counters depend on. */
  datatype TestParam = TestParam(totalCount: u32, rotateDuration: u32)

  /** The start-up timeout, `rotate_duration * 1000 * 2` in 32-bit arithmetic
      (wrapping, as a release build does). */
  function TimeoutMs(rotateDuration: u32): (r: u32)
    ensures rotateDuration * 2000 < 0x1_0000_0000 ==> r == rotateDuration * 2000
  {
    ((rotateDuration * 1000) % 0x1_0000_0000 * 2) % 0x1_0000_0000
  }

  /** The number of polls that found the motor at its target speed. */
  function Hits(polls: seq<Sample>): (n: nat)
    ensures n <= |polls|
  {
    if |polls| == 0 then 0
    else (if polls[0].status.RotatSuccess? then 1 else 0) + Hits(polls[1..])
  }

  /** The exit, if any, that a poll takes once `hits` target hits have been
      counted in this run including its own: a fault first, then enough hits,
      then a stop request, then the timeout. */
  function StepExit(rotateDuration: u32, hits: nat, s: Sample): (v: Option<Verdict>)
    ensures v.Some? ==> !v.value.Unfinished?
    ensures s.status.RotatFailed? <==> v == Some(Failed)
  {
    if s.status.RotatFailed? then Some(Failed)
    else if hits >= rotateDuration then Some(Passed)
    else if !s.running then Some(Canceled)
    else if s.elapsedMs > TimeoutMs(rotateDuration) then Some(TimedOut)
    else None
  }

  /** The poll loop of one cycle, starting from the hit count carried in. */
  function PollCycle(rotateDuration: u32, reached: nat, polls: seq<Sample>): (e: CycleEnd)
    ensures e.used <= |polls|
    ensures e.verdict.Unfinished? ==> e.used == |polls|
    ensures !e.verdict.Unfinished? ==> 1 <= e.used
    ensures e.reached <= reached || e.reached < rotateDuration
    ensures !e.verdict.Canceled? && !e.verdict.Unfinished? ==> e.reached == 0
    decreases |polls|
  {
    if |polls| == 0 then CycleEnd(Unfinished, reached, 0)
    else
      var s := polls[0];
      if s.status.RotatFailed? then CycleEnd(Failed, 0, 1)
      else
        var hits := if s.status.RotatSuccess? then reached + 1 else reached;
        if hits >= rotateDuration then CycleEnd(Passed, 0, 1)
        else if !s.running then CycleEnd(Canceled, hits, 1)
        else if s.elapsedMs > TimeoutMs(rotateDuration) then CycleEnd(TimedOut, 0, 1)
        else
          var e := PollCycle(rotateDuration, hits, polls[1..]);
          e.(used := e.used + 1)
  }

  /** No poll before the `k`-th takes an exit. */
  predicate NoExitBefore(rotateDuration: u32, reached: nat, polls: seq<Sample>, k: nat)
    requires k <= |polls|
  {
    forall i :: 0 <= i < k ==> StepExit(rotateDuration, reached + Hits(polls[..i + 1]), polls[i]).None?
  }

  /** The hits of a non-empty prefix: its first poll's, then the rest's. */
  lemma HitsPrefix(polls: seq<Sample>, j: nat)
    requires 1 <= j <= |polls|
    ensures Hits(polls[..j]) == (if polls[0].status.RotatSuccess? then 1 else 0) + Hits(polls[1..][..j - 1])
  {
    assert polls[..j][1..] == polls[1..][..j - 1];
  }

  /** A cycle ends at the first poll that takes an exit, counting hits over
      every poll of the cycle so far (on top of those carried in): its
      verdict is that exit; a canceled cycle carries its hits on, every other
      ending clears them. With no such poll the cycle is unfinished. */
  predicate FirstExit(rotateDuration: u32, reached: nat, polls: seq<Sample>, e: CycleEnd) {
    if e.verdict.Unfinished? then
      && e.used == |polls|
      && NoExitBefore(rotateDuration, reached, polls, |polls|)
      && e.reached == reached + Hits(polls)
    else
      && 1 <= e.used <= |polls|
      && NoExitBefore(rotateDuration, reached, polls, e.used - 1)
      && StepExit(rotateDuration, reached + Hits(polls[..e.used]), polls[e.used - 1]) == Some(e.verdict)
      && e.reached == (if e.verdict.Canceled? then reached + Hits(polls[..e.used]) else 0)
  }

  /** The exit of a cycle is the first poll's exit when it takes one, and
      otherwise the exit the rest of the cycle takes. */
  lemma {:induction false} PollCycleFirstExit(rotateDuration: u32, reached: nat, polls: seq<Sample>)
    ensures FirstExit(rotateDuration, reached, polls, PollCycle(rotateDuration, reached, polls))
    decreases |polls|
  {
    if |polls| > 0 {
      var s := polls[0];
      var hits := reached + (if s.status.RotatSuccess? then 1 else 0);
      if StepExit(rotateDuration, hits, s).None? {
        PollCycleFirstExit(rotateDuration, hits, polls[1..]);
        PollCycleLater(rotateDuration, reached, polls);
      } else {
        FirstExitNow(rotateDuration, reached, polls);
      }
    }
  }

  /** A first poll that takes no exit leaves the first exit to the later
      polls. */
  lemma PollCycleLater(rotateDuration: u32, reached: nat, polls: seq<Sample>)
    requires |polls| > 0
    requires var hits := reached + (if polls[0].status.RotatSuccess? then 1 else 0);
      && StepExit(rotateDuration, hits, polls[0]).None?
      && FirstExit(rotateDuration, hits, polls[1..], PollCycle(rotateDuration, hits, polls[1..]))
    ensures FirstExit(rotateDuration, reached, polls, PollCycle(rotateDuration, reached, polls))
  {
    var hits := reached + (if polls[0].status.RotatSuccess? then 1 else 0);
    var e' := PollCycle(rotateDuration, hits, polls[1..]);
    assert PollCycle(rotateDuration, reached, polls) == e'.(used := e'.used + 1);
    FirstExitLater(rotateDuration, reached, polls, e');
  }

  /** A first poll that takes an exit ends the cycle with that exit. */
  lemma FirstExitNow(rotateDuration: u32, reached: nat, polls: seq<Sample>)
    requires |polls| > 0
    requires StepExit(rotateDuration, reached + (if polls[0].status.RotatSuccess? then 1 else 0), polls[0]).Some?
    ensures FirstExit(rotateDuration, reached, polls, PollCycle(rotateDuration, reached, polls))
  {
    HitsPrefix(polls, 1);
    assert NoExitBefore(rotateDuration, reached, polls, 0);
  }

  /** The inductive step: a first poll that takes no exit moves the first
      exit one poll later. */
  lemma FirstExitLater(rotateDuration: u32, reached: nat, polls: seq<Sample>, e': CycleEnd)
    requires |polls| > 0
    requires var hits := reached + (if polls[0].status.RotatSuccess? then 1 else 0);
      && StepExit(rotateDuration, hits, polls[0]).None?
      && FirstExit(rotateDuration, hits, polls[1..], e')
    ensures FirstExit(rotateDuration, reached, polls, e'.(used := e'.used + 1))
  {
    var hits := reached + (if polls[0].status.RotatSuccess? then 1 else 0);
    if e'.verdict.Unfinished? {
      NoExitLater(rotateDuration, reached, polls, |polls| - 1);
      HitsPrefix(polls, |polls|);
      assert polls[..|polls|] == polls;
      assert polls[1..][..|polls| - 1] == polls[1..];
      assert reached + Hits(polls) == hits + Hits(polls[1..]);
    } else {
      var u := e'.used;
      NoExitLater(rotateDuration, reached, polls, u - 1);
      HitsPrefix(polls, u + 1);
      assert polls[u] == polls[1..][u - 1];
      assert reached + Hits(polls[..u + 1]) == hits + Hits(polls[1..][..u]);
    }
  }

  /** A first poll that takes no exit, followed by `k` more that take none. */
  lemma NoExitLater(rotateDuration: u32, reached: nat, polls: seq<Sample>, k: nat)
    requires k < |polls|
    requires var hits := reached + (if polls[0].status.RotatSuccess? then 1 else 0);
      && StepExit(rotateDuration, hits, polls[0]).None?
      && NoExitBefore(rotateDuration, hits, polls[1..], k)
    ensures NoExitBefore(rotateDuration, reached, polls, k + 1)
  {
    var hits := reached + (if polls[0].status.RotatSuccess? then 1 else 0);
    forall i | 0 <= i < k + 1
      ensures StepExit(rotateDuration, reached + Hits(polls[..i + 1]), polls[i]).None?
    {
      HitsPrefix(polls, i + 1);
      if i > 0 {
        assert polls[i] == polls[1..][i - 1];
        assert StepExit(rotateDuration, hits + Hits(polls[1..][..i - 1 + 1]), polls[1..][i - 1]).None?;
      }
    }
  }

  /** The poll loop as the outer loop runs it. */
  function Loop(rotateDuration: u32): (loop: PollLoop) {
    (reached: nat, polls: seq<Sample>) => PollCycle(rotateDuration, reached, polls)
  }

  /** A cycle is canceled only after a poll reads a cleared `running` flag. */
  lemma LoopCancelsOnlyOnStop(rotateDuration: u32)
    ensures CancelsOnlyOnStop(Loop(rotateDuration))
  {
    forall reached: nat, polls: seq<Sample> | AllRunning(polls)
      ensures !Loop(rotateDuration)(reached, polls).verdict.Canceled?
    {
      PollCycleFirstExit(rotateDuration, reached, polls);
    }
  }

  /** The test thread, from `start` to its last cycle. */
  function TestRun(p: TestParam, script: seq<CycleScript>): (r: Run)
    ensures r.failed + r.success <= r.cycles <= Max1(p.totalCount)
    ensures r.end.Completed? ==> r.cycles == Max1(p.totalCount)
  {
    StartRun(Loop(p.rotateDuration), p.totalCount, script)
  }

  /** A run that completes without a stop leaves `get_test_result`
      reporting progress 1 and as many classified cycles as requested. */
  lemma TestRunReportsDone(c: Controller, p: TestParam, script: seq<CycleScript>)
    requires NeverStopped(script) && TestRun(p, script).end.Completed?
    ensures var r := TestRun(p, script);
      && r.failed + r.success == Max1(p.totalCount)
      && GetTestResult(Finish(Start(c, p.totalCount).controller, r)).progress == 1
  {
    LoopCancelsOnlyOnStop(p.rotateDuration);
    CompletedRunTalliesAll(Loop(p.rotateDuration), p.totalCount, script);
    CompletedRunReportsDone(c, p.totalCount, Loop(p.rotateDuration), script);
  }

  /** Hits need not be consecutive: with a hold time of 2, a hit, a poll
      below target speed and a second hit pass the cycle. */
  lemma NonConsecutiveHitsPass()
    ensures PollCycle(2, 0, [Sample(RotatSuccess, true, 1000), Sample(Rotating, true, 2000),
                             Sample(RotatSuccess, true, 3000)]) == CycleEnd(Passed, 0, 3)
  {
    var polls := [Sample(RotatSuccess, true, 1000), Sample(Rotating, true, 2000), Sample(RotatSuccess, true, 3000)];
    assert polls[1..][1..] == [Sample(RotatSuccess, true, 3000)];
  }

  /** With a hold time of 0 the first poll without a fault passes the cycle,
      whether or not the motor is at its target speed. */
  lemma ZeroHoldPassesFirstPoll(reached: nat, polls: seq<Sample>)
    requires |polls| > 0 && !polls[0].status.RotatFailed?
    ensures PollCycle(0, reached, polls) == CycleEnd(Passed, 0, 1)
  {
  }

  /** A cycle canceled by `stop` passes its hits on to the next cycle. */
  lemma CanceledCycleKeepsHits()
    ensures PollCycle(3, 1, [Sample(RotatSuccess, false, 1000)]) == CycleEnd(Canceled, 2, 1)
  {
  }
}
