/** The idle window: when the current run of Idle verdicts began, and
    whether it has lasted longer than the timeout. */
module IdleTimer {
  import opened IdleEvaluator

  /** A point in time, in ticks of an arbitrary clock. */
  type Time = int

  /** A difference of two times, in the same unit. */
  type Duration = int

  /** `Absent` is the zero-time sentinel the source starts from and resets
      to; `Since(start)` records when the current idle run began. */
  datatype IdleWindow = Absent | Since(start: Time)

  /** One tick's update of the window from that tick's verdict. An Idle
      verdict opens a window only when none is open, so the start of an idle
      run is never refreshed; a Busy verdict closes any open window. */
  function Step(w: IdleWindow, v: Verdict, now: Time): (w': IdleWindow)
    ensures v == Busy ==> w' == Absent
    ensures v == Idle && w.Absent? ==> w' == Since(now)
    ensures v == Idle && w.Since? ==> w' == w
  {
    if v == Idle && w.Absent? then Since(now)
    else if v == Busy && w.Since? then Absent
    else w
  }

  /** The power-off decision: an open window that has lasted strictly
      longer than `timeout`. */
  predicate ShutdownDue(w: IdleWindow, now: Time, timeout: Duration): (due: bool)
    ensures due ==> w.Since? && now > w.start + timeout
    ensures w.Since? && now > w.start + timeout ==> due
    ensures w.Absent? ==> !due
  {
    w.Since? && now - w.start > timeout
  }

  /** One verdict together with the time it was reached. */
  datatype Sample = Sample(verdict: Verdict, now: Time)

  /** The window after feeding `trace` to `Step`, oldest sample first. */
  function Replay(w: IdleWindow, trace: seq<Sample>): IdleWindow
  {
    if |trace| == 0 then w
    else
      var last := trace[|trace| - 1];
      Step(Replay(w, trace[..|trace| - 1]), last.verdict, last.now)
  }

  /** `j` is where the trailing run of Idle verdicts in `trace` begins:
      every sample from `j` on is Idle and the one before `j`, if any, is
      Busy. `j == |trace|` means the trace is empty or ends in Busy. */
  predicate IsIdleRunStart(trace: seq<Sample>, j: nat)
  {
    && j <= |trace|
    && (forall i :: j <= i < |trace| ==> trace[i].verdict == Idle)
    && (j == 0 || trace[j - 1].verdict == Busy)
  }

  /** Every trace has exactly one such position. */
  function IdleRunStart(trace: seq<Sample>): (j: nat)
    ensures IsIdleRunStart(trace, j)
    ensures forall k :: IsIdleRunStart(trace, k) ==> k == j
  {
    if |trace| == 0 || trace[|trace| - 1].verdict == Busy then |trace|
    else IdleRunStart(trace[..|trace| - 1])
  }

  /** Starting from no window, as the monitor does, the window is open
      exactly when the trace ends in a run of Idle verdicts, and then it
      holds the time of the first verdict of that run. */
  lemma {:induction false} WindowMarksIdleRunStart(trace: seq<Sample>, j: nat)
    requires IsIdleRunStart(trace, j)
    ensures Replay(Absent, trace) == if j == |trace| then Absent else Since(trace[j].now)
  {
    if |trace| > 0 {
      var prefix := trace[..|trace| - 1];
      if j == |trace| {
      } else if j == |trace| - 1 {
        WindowMarksIdleRunStart(prefix, j);
      } else {
        assert IsIdleRunStart(prefix, j);
        WindowMarksIdleRunStart(prefix, j);
      }
    }
  }

  /** Further Idle verdicts never move the start of an open window. */
  lemma {:induction false} IdleVerdictsKeepStart(start: Time, trace: seq<Sample>)
    requires forall i :: 0 <= i < |trace| ==> trace[i].verdict == Idle
    ensures Replay(Since(start), trace) == Since(start)
  {
    if |trace| > 0 {
      IdleVerdictsKeepStart(start, trace[..|trace| - 1]);
    }
  }

  /** After a Busy verdict no shutdown is due, at any later time. */
  lemma BusyNeverDue(w: IdleWindow, now: Time, later: Time, timeout: Duration)
    ensures !ShutdownDue(Step(w, Busy, now), later, timeout)
  {
  }

  /** Once a window is open the decision is a strict threshold in time:
      not due up to and including `start + timeout`, due afterwards. */
  lemma DueExactlyAfterTimeout(start: Time, now: Time, timeout: Duration)
    ensures ShutdownDue(Since(start), now, timeout) <==> now > start + timeout
    ensures now == start + timeout ==> !ShutdownDue(Since(start), now, timeout)
  {
  }

  /** The shutdown decision read off the verdict history: starting from no
      window, shutdown is due exactly when the trace ends in a run of Idle
      verdicts whose first verdict came strictly more than `timeout` before
      `now`. */
  lemma DueExactlyWhenIdleRunOutlastsTimeout(trace: seq<Sample>, now: Time, timeout: Duration)
    ensures var j := IdleRunStart(trace);
            ShutdownDue(Replay(Absent, trace), now, timeout) <==> j < |trace| && now - trace[j].now > timeout
  {
    WindowMarksIdleRunStart(trace, IdleRunStart(trace));
  }

  /** A window that became idle at 5 with a timeout of 10 is not due at 14
      and is due at 16. */
  lemma ScenarioIdleThenTimeout()
    ensures Step(Absent, Idle, 5) == Since(5)
    ensures !ShutdownDue(Step(Absent, Idle, 5), 14, 10)
    ensures ShutdownDue(Replay(Absent, [Sample(Idle, 5), Sample(Idle, 16)]), 16, 10)
  {
  }

  /** A window idle since 5 that sees Busy at 12 is not due at 20, although
      20 - 5 exceeds the timeout of 10. */
  lemma ScenarioBusyClearsWindow()
    ensures !ShutdownDue(Replay(Absent, [Sample(Idle, 5), Sample(Busy, 12)]), 20, 10)
  {
  }
}
