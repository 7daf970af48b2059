# gpuoff idle detection, modelled in Dafny

gpuoff is a small daemon that powers a machine off once its GPUs have been idle for
longer than a timeout. On every tick of a fixed-interval ticker it asks the NVIDIA
management library for the processes running on each device. It drops those whose
names match one of the `--ignore` regular expressions, such as an always-on display
server. From that it reaches an Idle or Busy verdict, tracks when the current idle
run began, and calls the power-off system call once the run is strictly longer
than `--timeout`. Any error ends the program.

This project models that pipeline as pure functions:

- `outcomes.dfy` (`Outcomes`): Go's `error` as `Error(message)` and a
  `(value, error)` pair as `Result<T>`.
- `ignore_matcher.dfy` (`IgnoreMatcher`): `isIgnoredProcessName`. The regular
  expression engine is an opaque total function, `Matcher`, of pattern and name.
  It answers `Matched`, `NotMatched` or `PatternFailed(error)`.
- `idle_evaluator.dfy` (`IdleEvaluator`): `isGPUIdle`. The device query for
  devices `0 .. count - 1` is an input `seq<DeviceReply>`, so `count` is its
  length. Each reply is a failure to open the device, a failure to list its
  processes, or the list of processes. The source returns `true` for Idle; here
  that is the `Verdict` value `Idle`.
- `idle_timer.dfy` (`IdleTimer`): the idle window. The source's zero-time sentinel
  becomes `IdleWindow = Absent | Since(start)`, and `Step` is the window update.
  `ShutdownDue` is the strict timeout comparison. `Replay` folds `Step` over a
  verdict trace, and `IdleRunStart` is an independent description of where the
  trailing Idle run begins.
- `monitor.dfy` (`Monitor`): the loop body. `Observe` runs the idle check on one
  tick's snapshot. `Advance` does the rest: abort on an error, update the window,
  power off when overdue. `Run` feeds a sequence of ticks and stops at the first
  power-off or error. `Monitor` runs from start-up with the window absent.
- `multi_value_flag.dfy` (`MultiValueFlag`): the repeatable `--ignore` flag,
  its `Set`, and its `String` built with `strings.Join`.

Times and durations are unbounded integers in one common unit.

## Model

| member | source | states |
|---|---|---|
| IgnoreMatcher.IsIgnoredProcessName | main.go:56-67 | Patterns are tried in list order and the first pattern that does not report NotMatched decides. A match gives `true`, a pattern failure gives that error unchanged. If every pattern reports NotMatched (in particular, an empty list) the answer is `false`, and `false` occurs only then. An error always comes from a pattern that no earlier pattern matched. |
| IgnoreMatcher.IgnoredIffSomePatternMatches | main.go:56-67 | When no pattern fails on the name, it is ignored if and only if some pattern in the list matches it. |
| IgnoreMatcher.AppendPatterns | main.go:57-64 | Patterns after the deciding one are never evaluated. A later malformed pattern cannot turn an earlier match into an error. Extra patterns only matter when the first list matched nothing, and then they alone decide. |
| IdleEvaluator.ScanProcesses | main.go:83-91 | One device's processes: Idle exactly when every process is ignored (so an empty list is Idle). Otherwise the first process that is not ignored decides: Busy if the matcher said `false`, its error if the matcher failed. |
| IdleEvaluator.IsGPUIdle | main.go:71-94 | Idle exactly when every device in `0 .. count - 1` is idle (so `count = 0` is Idle). Otherwise the first device that is not idle decides. Its open failure, its process-list failure, its pattern error or its Busy verdict is returned unchanged. |
| IdleEvaluator.IdleIffEveryProcessIgnored | main.go:71-94 | Idle if and only if every device answered and every process name on every device is ignored. |
| IdleEvaluator.BusyHasUnignoredProcess | main.go:83-91 | A Busy verdict always has a witness: a device that answered and one of its processes that is not ignored. |
| IdleEvaluator.ScanBusyHasUnignoredProcess | main.go:83-91 | A Busy verdict on one device's process list names a process that is not ignored. |
| IdleEvaluator.UnignoredProcessPreventsIdle | main.go:83-93 | A process that is not ignored, anywhere in the snapshot, makes an Idle verdict impossible. |
| IdleEvaluator.ScanNeverFails | main.go:83-91 | If the matcher succeeds on every name of a device, scanning that device reaches a verdict. |
| IdleEvaluator.ErrorFreeSnapshotHasVerdict | main.go:72-93 | If every device answers and no pattern fails on any reported name, the check returns a verdict and not an error. |
| IdleEvaluator.UnignoredProcessMeansBusyWithoutErrors | main.go:83-91 | In such an error-free snapshot, one process that is not ignored makes the verdict Busy. |
| IdleEvaluator.LaterDevicesCannotOverride | main.go:72-92 | Devices after the deciding one are never queried. Their contents and errors cannot change a Busy verdict or an error from an earlier device. When all earlier devices are idle, the later devices alone decide. |
| IdleEvaluator.DeviceOutcome | main.go:73-91 | One device: a failure to open it or to list its processes is returned unchanged. Otherwise it is Idle exactly when every one of its processes is ignored, and else the first process that is not ignored decides: Busy if the matcher said `false`, the matcher's pattern error unchanged if it failed. |
| IdleTimer.DueExactlyWhenIdleRunOutlastsTimeout | main.go:108-124 | Starting from no window, shutdown is due exactly when the verdicts so far end in an Idle run whose first verdict came strictly more than the timeout before `now`; a trace that is empty or ends in Busy is never due. |
| IdleTimer.Step | main.go:115-121 | A Busy verdict leaves no window. An Idle verdict opens a window at `now` only if none is open; an open window keeps its start. |
| IdleTimer.IdleRunStart | main.go:108-121 | Every verdict trace has exactly one position where its trailing run of Idle verdicts begins. |
| IdleTimer.WindowMarksIdleRunStart | main.go:108-121 | Starting from the absent sentinel, the window after a trace is absent exactly when the trace is empty or ends in Busy. Otherwise the window holds the time of the first verdict of the trailing Idle run. |
| IdleTimer.IdleVerdictsKeepStart | main.go:115-117 | Any number of further Idle verdicts leave the start of an open window unchanged. |
| IdleTimer.BusyNeverDue | main.go:118-124 | After a Busy verdict no shutdown is due, at any later time. |
| IdleTimer.DueExactlyAfterTimeout | main.go:123-124 | With a window open since `start`, shutdown is due exactly when `now > start + timeout`, so it is not due at `now = start + timeout`. |
| IdleTimer.ScenarioIdleThenTimeout | main.go:115-124 | Idle at 5 with timeout 10 opens the window at 5. Shutdown is not due at 14 and is due at 16. |
| IdleTimer.ScenarioBusyClearsWindow | main.go:115-124 | Idle at 5 then Busy at 12 leaves nothing due at 20, although 20 - 5 exceeds 10. |
| Monitor.Observe | main.go:112 | The tick's observation is Idle exactly when every device in the snapshot is idle. |
| Monitor.Advance | main.go:113-129 | An error aborts the loop with that error. A verdict whose updated window is overdue powers off in that same tick. A power-off needs an Idle verdict and, with a window already open, strictly more than the timeout since its start. A continuing Busy tick leaves no window; a continuing Idle tick keeps an open window unchanged or opens one at its own time; a continuing tick is never overdue. |
| Monitor.Run | main.go:109-131 | The loop stops at the first power-off or error and never goes past the last tick. A power-off tick has an Idle verdict. An abort carries that tick's error unchanged. Every tick before the stop reached a verdict. |
| Monitor.Monitor | main.go:108-131 | From start-up with no window: a power-off tick had every device idle, an abort carries that tick's idle-check error unchanged, and every tick before the stop reached a verdict. |
| Monitor.RunningWindowIsReplay | main.go:108-121 | While the loop runs, its window equals the timer fold over all verdicts so far. |
| Monitor.StillRunningWindowMarksIdleRun | main.go:108-121 | From start-up, a running loop's window is open exactly when its latest verdicts form an idle run, and it starts at that run's first tick. |
| Monitor.PowerOffOnlyAfterLongIdleRun | main.go:108-129 | Safety: from start-up, power-off at tick `k` needs a whole run of Idle ticks `j .. k`, with tick `j - 1` Busy or `j = 0`, and `now(k) - now(j) > timeout`. |
| Monitor.LongIdleRunPowersOff | main.go:108-129 | Liveness: Idle on every tick `0 .. k`, with `now(k) - now(0) > timeout`, means power-off happens by tick `k`. |
| Monitor.RunAppend | main.go:123-128 | The power-off action happens at most once: once the loop has stopped, later ticks change nothing. While it runs, the later ticks continue from the window it holds. |
| Monitor.MonitorPowersOffOnlyWhenIdleLongEnough | main.go:108-129 | Safety on real snapshots: power-off at tick `k` needs every device to be idle on every tick `j .. k` of an idle run that began at start-up or right after a Busy tick, with `now(k) - now(j) > timeout`. |
| MultiValueFlag.Set | main.go:25-28 | Setting never fails. It appends the value after all existing entries and leaves the earlier entries unchanged. |
| MultiValueFlag.Join | main.go:21 | Joining nothing gives `""` and joining one element gives that element. Otherwise the result's length is the elements' total length plus one separator per consecutive pair; `JoinSnoc` fixes the contents. |
| MultiValueFlag.String | main.go:20-22 | The printed form is `[`, the entries joined by `", "`, then `]`. |
| MultiValueFlag.JoinSnoc | main.go:21 | Joining one more element adds the separator and that element at the end. |
| MultiValueFlag.SetExtendsString | main.go:20-28 | After `Set`, the printed form ends with the new value inside the brackets, after `", "` when earlier entries exist. |
| MultiValueFlag.SetAllAppendsInOrder | main.go:25-28 | Repeated occurrences of the flag add their values in order after the existing entries. None is dropped, reordered or merged. |

## Left out

- The NVIDIA management library calls (`nvml.Init`, `nvml.Shutdown`, `GetDeviceCount`, `NewDevice`, `GetAllRunningProcesses`) are a foreign binding. Their results are the input `seq<DeviceReply>`, and a failure of `GetDeviceCount` (fatal at start-up) is not modelled.
- The regular-expression engine behind `regexp.Match` is a library outside this model. It is the opaque `Matcher`, so substring matching, anchoring and case sensitivity are not modelled. A compile error is modelled as `PatternFailed`. The model does not use the fact that such an error depends only on the pattern.
- The ticker, the `select` statement and the interval are replaced by a finite sequence of ticks.
- `time.Time` and `time.Duration` are unbounded integers. The 64-bit nanosecond range and the saturation of `Time.Sub` are not modelled. The zero-time sentinel is the separate value `Absent`, so a clock reading equal to the zero time (which cannot happen in practice) is not modelled as "no window".
- Monitor.Advance: uses one `now` for both the window update and the timeout comparison, whereas the source reads the clock twice in one tick (main.go:117 and main.go:124). The second reading is normally later than the first, so with `--timeout 0`, or any timeout shorter than the gap between the two readings, the source powers off on the very first Idle tick; the model instead waits for a later tick whose `now` exceeds the window start by more than the timeout. The model also does not check that tick times increase.
- Each `Tick` carries its own device list, whereas the source reads the device count once at start-up (main.go:101) and queries the same devices `0 .. count - 1` on every tick; the lemmas hold for every tick sequence, so they also cover the fixed-count case.
- `println`, `fatalOnErr`, `os.Exit` and `syscall.Reboot` are process and operating-system effects. An error becomes the loop result `Aborted` and the power-off call becomes the result `PoweredOff`. What happens if the reboot call fails is not modelled.
- Flag registration and parsing in `init` (main.go:134-142), including the defaults of 10 seconds and 15 minutes, are library plumbing. Only the accumulation of `--ignore` values is modelled, through `Set`.
- The process id, memory use and process type of a running process are carried in `ProcessInfo` but play no part in the verdict, as in the source.
- Running the check twice on the same snapshot gives the same verdict because every operation here is a pure function. No separate lemma states this.

## Notes on the code

- A process that is not ignored gives Busy only when no earlier device query or pattern fails; otherwise that error is returned first (main.go:73-87). `UnignoredProcessPreventsIdle` states what holds in every case (the verdict is not Idle), and `UnignoredProcessMeansBusyWithoutErrors` gives Busy when no query or pattern fails.
- A malformed pattern fails on the first `regexp.Match` call that reaches it (main.go:58-61); a name matched by an earlier pattern never reaches it (`AppendPatterns`).
