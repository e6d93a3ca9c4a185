/** Frame pacing of the game loop, one tick at a time.

    The loop itself runs forever on its own thread; what is modelled is the
    arithmetic of a tick: the frame interval derived from the target frame
    rate, the sleep requested so that the next frame starts on schedule, and
    the advance of the schedule. Times are integer nanoseconds. The clock
    reading and whether the sleep was interrupted are supplied by the caller.
 */
module GameLoop {
  import Config

  const NanosPerSecond: int := 1000000000
  const NanosPerMilli: int := 1000000

  /** The outcome of an `int` division that may divide by zero (Java throws
      `ArithmeticException`). */
  datatype Checked<T> = Ok(value: T) | DivisionByZero

  /** The frame interval `1000000000 / fps` in nanoseconds, computed as a
      Java `int` division (truncating toward zero) before it is widened. */
  function DrawInterval(fps: int): (r: Checked<int>)
    ensures r.DivisionByZero? <==> fps == 0
    ensures fps > 0 ==> r.Ok? && r.value * fps <= NanosPerSecond < (r.value + 1) * fps
    ensures fps < 0 ==>
              r.Ok? && r.value <= 0 && -r.value * -fps <= NanosPerSecond < (-r.value + 1) * -fps
  {
    if fps == 0 then DivisionByZero
    else if fps > 0 then Ok(NanosPerSecond / fps)
    else Ok(-(NanosPerSecond / -fps))
  }

  /** The pacing state the loop owns: the frame interval and the time the
      next frame is due. */
  datatype Schedule = Schedule(drawInterval: int, nextDrawTime: int)

  /** The schedule before the first tick: the first frame is due one
      interval after the start time. */
  function StartSchedule(fps: int, startTime: int): (r: Checked<Schedule>)
    ensures r.DivisionByZero? <==> fps == 0
    ensures r.Ok? ==> DrawInterval(fps) == Ok(r.value.drawInterval)
    ensures r.Ok? ==> r.value.nextDrawTime - startTime == r.value.drawInterval
  {
    match DrawInterval(fps)
    case DivisionByZero => DivisionByZero
    case Ok(interval) => Ok(Schedule(interval, startTime + interval))
  }

  /** Milliseconds to sleep when the clock reads `now`: the time left until
      `nextDrawTime`, clamped at zero, in whole milliseconds (the `long`
      cast truncates the non-negative value). Waking after that sleep
      lands within one millisecond before the due time. */
  function SleepMillis(nextDrawTime: int, now: int): (ms: nat)
    ensures now <= nextDrawTime ==>
              now + ms * NanosPerMilli <= nextDrawTime < now + (ms + 1) * NanosPerMilli
    ensures nextDrawTime - now < NanosPerMilli ==> ms == 0
  {
    var remaining := nextDrawTime - now;
    if remaining < 0 then 0 else remaining / NanosPerMilli
  }

  /** The pacing part of one tick: the requested sleep, and the schedule
      for the next tick. */
  datatype Pacing = Pacing(sleepMillis: nat, schedule: Schedule)

  /** One tick, with the clock reading `now` taken after the update and
      repaint requests. The due time advances by exactly one interval when
      the sleep completes; an interrupted sleep skips the advance, because
      the advance sits after the sleep inside the guarded block. */
  function Step(s: Schedule, now: int, interrupted: bool): (t: Pacing)
    ensures t.schedule.drawInterval == s.drawInterval
    ensures !interrupted ==> t.schedule.nextDrawTime - s.nextDrawTime == s.drawInterval
    ensures interrupted ==> t.schedule.nextDrawTime == s.nextDrawTime
    ensures now <= s.nextDrawTime ==>
              s.nextDrawTime - NanosPerMilli < now + t.sleepMillis * NanosPerMilli <= s.nextDrawTime
    ensures now >= s.nextDrawTime ==> t.sleepMillis == 0
  {
    var ms := SleepMillis(s.nextDrawTime, now);
    if interrupted then Pacing(ms, s)
    else Pacing(ms, s.(nextDrawTime := s.nextDrawTime + s.drawInterval))
  }

  /** The schedule after a run of ticks with the given clock readings and
      interruption outcomes. */
  function Run(s: Schedule, nows: seq<int>, interrupted: seq<bool>): (r: Schedule)
    requires |nows| == |interrupted|
    ensures r.drawInterval == s.drawInterval
    decreases |nows|
  {
    if nows == [] then s
    else Run(Step(s, nows[0], interrupted[0]).schedule, nows[1..], interrupted[1..])
  }

  /** Number of ticks whose sleep completed. */
  function Completed(interrupted: seq<bool>): (n: nat)
    ensures n <= |interrupted|
  {
    if interrupted == [] then 0
    else (if interrupted[0] then 0 else 1) + Completed(interrupted[1..])
  }

  /** The schedule advances by one interval per completed tick, whatever
      the clock read: a slow frame does not push later frames back. */
  lemma {:induction false} ScheduleFollowsCompletedTicks(s: Schedule, nows: seq<int>, interrupted: seq<bool>)
    requires |nows| == |interrupted|
    ensures Run(s, nows, interrupted).nextDrawTime == s.nextDrawTime + Completed(interrupted) * s.drawInterval
    decreases |nows|
  {
    if nows != [] {
      var next := Step(s, nows[0], interrupted[0]).schedule;
      ScheduleFollowsCompletedTicks(next, nows[1..], interrupted[1..]);
      if interrupted[0] {
        assert next.nextDrawTime == s.nextDrawTime;
      } else {
        assert next.nextDrawTime == s.nextDrawTime + s.drawInterval;
      }
    }
  }

  /** The schedule never depends on when the ticks ran, only on which ones
      completed: the loop does not drift. */
  lemma ScheduleIgnoresClock(s: Schedule, nows: seq<int>, otherNows: seq<int>, interrupted: seq<bool>)
    requires |nows| == |interrupted| == |otherNows|
    ensures Run(s, nows, interrupted) == Run(s, otherNows, interrupted)
  {
    ScheduleFollowsCompletedTicks(s, nows, interrupted);
    ScheduleFollowsCompletedTicks(s, otherNows, interrupted);
  }

  /** `fps` completed ticks advance the schedule by one second, less the
      truncation of the interval: strictly more than one second minus `fps`
      nanoseconds, and at most one second. */
  lemma OneSecondOfTicks(fps: int, startTime: int, nows: seq<int>, interrupted: seq<bool>)
    requires fps > 0
    requires |nows| == |interrupted| == fps
    requires forall k :: 0 <= k < fps ==> !interrupted[k]
    ensures StartSchedule(fps, startTime).Ok?
    ensures var s := StartSchedule(fps, startTime).value;
            var elapsed := Run(s, nows, interrupted).nextDrawTime - s.nextDrawTime;
            NanosPerSecond - fps < elapsed <= NanosPerSecond
  {
    var s := StartSchedule(fps, startTime).value;
    AllCompleted(interrupted);
    ScheduleFollowsCompletedTicks(s, nows, interrupted);
  }

  lemma {:induction false} AllCompleted(interrupted: seq<bool>)
    requires forall k :: 0 <= k < |interrupted| ==> !interrupted[k]
    ensures Completed(interrupted) == |interrupted|
    decreases |interrupted|
  {
    if interrupted != [] {
      AllCompleted(interrupted[1..]);
    }
  }

  /** At 60 frames per second the interval is 16666666 ns; a tick whose
      work took 5 ms sleeps 11 ms, and the next frame is due one interval
      later. */
  lemma SixtyFpsTick(startTime: int)
    ensures DrawInterval(Config.DefaultFps) == Ok(16666666)
    ensures var s := StartSchedule(Config.DefaultFps, startTime).value;
            var t := Step(s, startTime + 5 * NanosPerMilli, false);
            t.sleepMillis == 11 && t.schedule.nextDrawTime == startTime + 2 * 16666666
  {
  }
}
