/** The polling loop: each tick takes a fresh device snapshot, reduces it to
    a verdict, updates the idle window and powers off once the window has
    outlasted the timeout. Any error ends the loop. */
module Monitor {
  import opened Outcomes
  import opened IgnoreMatcher
  import opened IdleEvaluator
  import opened IdleTimer

  /** The parsed command line the loop runs with. */
  datatype Config = Config(ignores: seq<string>, timeout: Duration)

  /** What one tick observes: the reply of every device `0 .. count - 1`
      and the time at which the tick is handled. The source reads `count`
      once at start-up; here each tick carries its own list, so the lemmas
      also cover snapshots of different lengths. */
  datatype Tick = Tick(devices: seq<DeviceReply>, now: Time)

  /** The idle check's answer on one tick, with the tick's time. */
  datatype Observation = Observation(verdict: Result<Verdict>, now: Time)

  /** How one tick ends: the loop waits for the next tick with an updated
      window, invokes the power-off action, or aborts on an error. */
  datatype TickOutcome = Continue(window: IdleWindow) | PowerOff | Fatal(error: Error)

  /** The first statement of the loop body: run the idle check on this
      tick's snapshot. */
  function Observe(m: Matcher, cfg: Config, tick: Tick): (o: Observation)
    ensures o.now == tick.now
    ensures o.verdict == Ok(Idle) <==> IdleBefore(m, cfg.ignores, tick.devices, |tick.devices|)
  {
    Observation(IsGPUIdle(m, cfg.ignores, tick.devices), tick.now)
  }

  /** The rest of the loop body: abort on an error, update the window from
      the verdict, and power off when the updated window is overdue. */
  function Advance(w: IdleWindow, o: Observation, timeout: Duration): (r: TickOutcome)
    ensures r.Fatal? <==> o.verdict.Err?
    ensures r.Fatal? ==> r.error == o.verdict.error
    ensures r.PowerOff? ==> o.verdict == Ok(Idle)
    ensures r.PowerOff? && w.Since? ==> o.now - w.start > timeout
    ensures r.PowerOff? && w.Absent? ==> timeout < 0
    ensures r.Continue? && o.verdict == Ok(Busy) ==> r.window == Absent
    ensures r.Continue? ==> !ShutdownDue(r.window, o.now, timeout)
    ensures o.verdict.Ok? && ShutdownDue(Step(w, o.verdict.value, o.now), o.now, timeout) ==> r.PowerOff?
    ensures r.Continue? && o.verdict == Ok(Idle) && w.Since? ==> r.window == w
    ensures r.Continue? && o.verdict == Ok(Idle) && w.Absent? ==> r.window == Since(o.now)
  {
    match o.verdict
    case Err(e) => Fatal(e)
    case Ok(v) =>
      var w' := Step(w, v, o.now);
      if ShutdownDue(w', o.now, timeout) then PowerOff else Continue(w')
  }

  /** How a sequence of ticks ends: still waiting for more ticks, powered
      off at tick `at`, or aborted at tick `at` with an error. */
  datatype RunEnd = StillRunning(window: IdleWindow) | PoweredOff(at: nat) | Aborted(at: nat, error: Error)

  /** `r` observed `n` ticks later. */
  function Delay(r: RunEnd, n: nat): RunEnd
  {
    match r
    case StillRunning(w) => r
    case PoweredOff(k) => PoweredOff(k + n)
    case Aborted(k, e) => Aborted(k + n, e)
  }

  /** The loop fed the observations in order from window `w`. It stops at
      the first tick that powers off or fails; later ticks are never looked at. */
  function Run(timeout: Duration, w: IdleWindow, obs: seq<Observation>): (r: RunEnd)
    ensures r.PoweredOff? ==> r.at < |obs| && obs[r.at].verdict == Ok(Idle)
    ensures r.Aborted? ==> r.at < |obs| && obs[r.at].verdict == Err(r.error)
    ensures forall i :: 0 <= i < |obs| && (r.StillRunning? || i < r.at) ==> obs[i].verdict.Ok?
    decreases |obs|
  {
    if |obs| == 0 then StillRunning(w)
    else
      match Advance(w, obs[0], timeout)
      case Fatal(e) => Aborted(0, e)
      case PowerOff => PoweredOff(0)
      case Continue(w') =>
        var rest := Run(timeout, w', obs[1..]);
        assert forall i :: 0 <= i < |obs| - 1 ==> obs[1..][i] == obs[i + 1];
        Delay(rest, 1)
  }

  /** The observations a sequence of ticks produces. */
  function ObserveAll(m: Matcher, cfg: Config, ticks: seq<Tick>): (obs: seq<Observation>)
    ensures |obs| == |ticks|
    ensures forall i :: 0 <= i < |ticks| ==> obs[i] == Observe(m, cfg, ticks[i])
  {
    seq(|ticks|, i requires 0 <= i < |ticks| => Observe(m, cfg, ticks[i]))
  }

  /** The program from start-up: the window starts absent. */
  function Monitor(m: Matcher, cfg: Config, ticks: seq<Tick>): (r: RunEnd)
    ensures r.PoweredOff? ==> r.at < |ticks| && IsGPUIdle(m, cfg.ignores, ticks[r.at].devices) == Ok(Idle)
    ensures r.Aborted? ==> r.at < |ticks| && IsGPUIdle(m, cfg.ignores, ticks[r.at].devices) == Err(r.error)
    ensures forall i :: 0 <= i < |ticks| && (r.StillRunning? || i < r.at) ==> IsGPUIdle(m, cfg.ignores, ticks[i].devices).Ok?
  {
    Run(cfg.timeout, Absent, ObserveAll(m, cfg, ticks))
  }

  /** The verdicts of observations that all reached one, with their times. */
  function Samples(obs: seq<Observation>): (trace: seq<Sample>)
    requires forall i :: 0 <= i < |obs| ==> obs[i].verdict.Ok?
    ensures |trace| == |obs|
    ensures forall i :: 0 <= i < |obs| ==> trace[i] == Sample(obs[i].verdict.value, obs[i].now)
  {
    seq(|obs|, i requires 0 <= i < |obs| => Sample(obs[i].verdict.value, obs[i].now))
  }

  /** Replaying a trace one sample at a time from the front agrees with the
      oldest-first fold. */
  lemma {:induction false} ReplayFront(w: IdleWindow, s: Sample, trace: seq<Sample>)
    ensures Replay(w, [s] + trace) == Replay(Step(w, s.verdict, s.now), trace)
  {
    if |trace| > 0 {
      var t := [s] + trace;
      assert t[..|t| - 1] == [s] + trace[..|trace| - 1];
      ReplayFront(w, s, trace[..|trace| - 1]);
    }
  }

  /** A loop that is still running holds exactly the window the timer would
      compute from all verdicts so far. */
  lemma {:induction false} RunningWindowIsReplay(timeout: Duration, w: IdleWindow, obs: seq<Observation>)
    requires Run(timeout, w, obs).StillRunning?
    ensures Run(timeout, w, obs).window == Replay(w, Samples(obs))
    decreases |obs|
  {
    if |obs| > 0 {
      var s := Sample(obs[0].verdict.value, obs[0].now);
      var w' := Step(w, s.verdict, s.now);
      var rest := obs[1..];
      assert forall i :: 0 <= i < |rest| ==> rest[i] == obs[i + 1];
      RunningWindowIsReplay(timeout, w', rest);
      assert Samples(obs) == [s] + Samples(rest);
      ReplayFront(w, s, Samples(rest));
    }
  }

  /** Started with no window, a loop that is still running has a window open
      exactly when its latest verdicts form an idle run, and the window
      starts at the time of the first verdict of that run. */
  lemma StillRunningWindowMarksIdleRun(timeout: Duration, obs: seq<Observation>)
    requires Run(timeout, Absent, obs).StillRunning?
    ensures var j := IdleRunStart(Samples(obs));
            Run(timeout, Absent, obs).window == if j == |obs| then Absent else Since(obs[j].now)
  {
    var trace := Samples(obs);
    RunningWindowIsReplay(timeout, Absent, obs);
    WindowMarksIdleRunStart(trace, IdleRunStart(trace));
  }

  /** Every observation from `j` to `k` is an Idle verdict. */
  predicate IdleThrough(obs: seq<Observation>, j: nat, k: nat)
    requires j <= k < |obs|
  {
    forall i :: j <= i <= k ==> obs[i].verdict == Ok(Idle)
  }

  /** Ticks `j .. k` form a whole run of Idle verdicts (the tick before `j`,
      if any, is Busy) that spans strictly more than `timeout`. */
  predicate OverdueIdleRun(obs: seq<Observation>, j: nat, k: nat, timeout: Duration)
    requires j <= k < |obs|
  {
    && IdleThrough(obs, j, k)
    && (j == 0 || obs[j - 1].verdict == Ok(Busy))
    && obs[k].now - obs[j].now > timeout
  }

  lemma {:induction false} PowerOffOnlyAfterLongIdleRunFrom(timeout: Duration, w: IdleWindow, obs: seq<Observation>, k: nat)
    requires Run(timeout, w, obs) == PoweredOff(k)
    ensures k < |obs|
    ensures || (exists j :: 0 < j <= k && OverdueIdleRun(obs, j, k, timeout))
            || (w.Absent? && OverdueIdleRun(obs, 0, k, timeout))
            || (w.Since? && IdleThrough(obs, 0, k) && obs[k].now - w.start > timeout)
    decreases |obs|
  {
    match Advance(w, obs[0], timeout)
    case PowerOff =>
      assert IdleThrough(obs, 0, 0);
    case Continue(w') =>
      var rest := obs[1..];
      var k': nat := k - 1;
      PowerOffOnlyAfterLongIdleRunFrom(timeout, w', rest, k');
      assert forall i :: 0 <= i < |rest| ==> rest[i] == obs[i + 1];
      if exists j :: 0 < j <= k' && OverdueIdleRun(rest, j, k', timeout) {
        var j :| 0 < j <= k' && OverdueIdleRun(rest, j, k', timeout);
        assert OverdueIdleRun(obs, j + 1, k, timeout);
      } else if w'.Absent? {
        assert obs[0].verdict == Ok(Busy);
        assert OverdueIdleRun(obs, 1, k, timeout);
      } else {
        assert obs[0].verdict == Ok(Idle);
        assert IdleThrough(obs, 0, k);
      }
  }

  /** Safety: started with no window, the loop powers off at tick `k` only
      after a whole run of Idle verdicts, from its first tick `j` to `k`,
      spanning strictly more than the timeout. */
  lemma PowerOffOnlyAfterLongIdleRun(timeout: Duration, obs: seq<Observation>, k: nat)
    requires Run(timeout, Absent, obs) == PoweredOff(k)
    ensures k < |obs|
    ensures exists j :: 0 <= j <= k && OverdueIdleRun(obs, j, k, timeout)
  {
    PowerOffOnlyAfterLongIdleRunFrom(timeout, Absent, obs, k);
  }

  lemma {:induction false} LongIdleRunPowersOffFrom(timeout: Duration, w: IdleWindow, obs: seq<Observation>, k: nat)
    requires k < |obs| && IdleThrough(obs, 0, k)
    requires obs[k].now - (if w.Since? then w.start else obs[0].now) > timeout
    ensures Run(timeout, w, obs).PoweredOff?
    ensures Run(timeout, w, obs).at <= k
    decreases k
  {
    var w' := Step(w, Idle, obs[0].now);
    if !ShutdownDue(w', obs[0].now, timeout) {
      var rest := obs[1..];
      assert k > 0;
      assert forall i :: 0 <= i < |rest| ==> rest[i] == obs[i + 1];
      assert IdleThrough(rest, 0, k - 1);
      LongIdleRunPowersOffFrom(timeout, w', rest, k - 1);
    }
  }

  /** Liveness: started with no window, if every tick up to `k` is Idle and
      tick `k` comes strictly more than the timeout after the first, the loop
      has powered off by tick `k`. */
  lemma LongIdleRunPowersOff(timeout: Duration, obs: seq<Observation>, k: nat)
    requires k < |obs| && IdleThrough(obs, 0, k)
    requires obs[k].now - obs[0].now > timeout
    ensures Run(timeout, Absent, obs).PoweredOff?
    ensures Run(timeout, Absent, obs).at <= k
  {
    LongIdleRunPowersOffFrom(timeout, Absent, obs, k);
  }

  /** The power-off action is invoked at most once: once the loop has
      stopped, further ticks change nothing; while it runs, the remaining
      ticks continue from the window it holds. */
  lemma {:induction false} RunAppend(timeout: Duration, w: IdleWindow, a: seq<Observation>, b: seq<Observation>)
    ensures var ra := Run(timeout, w, a);
            Run(timeout, w, a + b) == if ra.StillRunning? then Delay(Run(timeout, ra.window, b), |a|) else ra
    decreases |a|
  {
    if |a| == 0 {
      assert a + b == b;
    } else {
      assert (a + b)[0] == a[0];
      assert (a + b)[1..] == a[1..] + b;
      match Advance(w, a[0], timeout)
      case Fatal(e) =>
      case PowerOff =>
      case Continue(w') =>
        RunAppend(timeout, w', a[1..], b);
    }
  }

  /** Tick `j` starts an idle run: it is the first tick, or the tick before
      it was Busy. */
  predicate BusyBefore(m: Matcher, cfg: Config, ticks: seq<Tick>, j: nat)
    requires j <= |ticks|
  {
    j == 0 || IsGPUIdle(m, cfg.ignores, ticks[j - 1].devices) == Ok(Busy)
  }

  /** From start-up on real snapshots: the host is powered off at tick `k`
      only if every device was idle on every tick of a whole idle run
      (preceded by a Busy tick or by start-up) ending at `k` that lasted
      strictly longer than the timeout. */
  lemma MonitorPowersOffOnlyWhenIdleLongEnough(m: Matcher, cfg: Config, ticks: seq<Tick>, k: nat)
    requires Monitor(m, cfg, ticks) == PoweredOff(k)
    ensures k < |ticks|
    ensures exists j :: 0 <= j <= k && ticks[k].now - ticks[j].now > cfg.timeout &&
                        BusyBefore(m, cfg, ticks, j) &&
                        forall i :: j <= i <= k ==> IsGPUIdle(m, cfg.ignores, ticks[i].devices) == Ok(Idle)
  {
    var obs := ObserveAll(m, cfg, ticks);
    PowerOffOnlyAfterLongIdleRun(cfg.timeout, obs, k);
    var j :| 0 <= j <= k && OverdueIdleRun(obs, j, k, cfg.timeout);
    assert forall i :: 0 <= i <= k ==> obs[i].verdict == IsGPUIdle(m, cfg.ignores, ticks[i].devices);
  }
}
