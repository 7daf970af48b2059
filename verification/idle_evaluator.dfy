/** The per-tick verdict: the GPUs are idle when every process running on
    every device is on the ignore list. Devices are visited in index order,
    and each device's processes in the order the query reported them. */
module IdleEvaluator {
  import opened Outcomes
  import opened IgnoreMatcher

  /** The kind of GPU context a process holds, as the device query reports it. */
  datatype ProcessKind = Compute | Graphics | Unknown

  /** One running process reported for a device. Only `name` takes part in
      the verdict. */
  datatype ProcessInfo = ProcessInfo(pid: nat, name: string, memoryUsed: nat, kind: ProcessKind)

  /** What querying one device index yields this tick: opening the device
      can fail, listing its running processes can fail, or the list comes
      back. */
  datatype DeviceReply =
    | DeviceUnavailable(error: Error)
    | ProcessQueryFailed(error: Error)
    | Running(infos: seq<ProcessInfo>)

  /** The source reports `true` for Idle and `false` for Busy. */
  datatype Verdict = Idle | Busy

  /** The verdict one process contributes, given whether it is ignored. */
  function ProcessVerdict(ignored: Result<bool>): Result<Verdict>
  {
    match ignored
    case Ok(b) => if b then Ok(Idle) else Ok(Busy)
    case Err(e) => Err(e)
  }

  predicate Ignored(m: Matcher, ignores: seq<string>, p: ProcessInfo)
  {
    IsIgnoredProcessName(m, ignores, p.name) == Ok(true)
  }

  /** The first `k` processes are all ignored, so the scan reaches process `k`. */
  predicate IgnoredBefore(m: Matcher, ignores: seq<string>, infos: seq<ProcessInfo>, k: nat)
    requires k <= |infos|
  {
    forall j :: 0 <= j < k ==> Ignored(m, ignores, infos[j])
  }

  /** The inner loop over one device's processes: Busy at the first process
      that is not ignored, the matcher's error at the first failure, Idle when
      every process is ignored (in particular when there are none). */
  function ScanProcesses(m: Matcher, ignores: seq<string>, infos: seq<ProcessInfo>): (r: Result<Verdict>)
    ensures r == Ok(Idle) <==> IgnoredBefore(m, ignores, infos, |infos|)
    ensures forall i :: 0 <= i < |infos| && IgnoredBefore(m, ignores, infos, i) && !Ignored(m, ignores, infos[i]) ==>
                          r == ProcessVerdict(IsIgnoredProcessName(m, ignores, infos[i].name))
  {
    if |infos| == 0 then Ok(Idle)
    else
      match IsIgnoredProcessName(m, ignores, infos[0].name)
      case Err(e) => Err(e)
      case Ok(ignored) =>
        if !ignored then Ok(Busy)
        else
          var rest := ScanProcesses(m, ignores, infos[1..]);
          assert forall i :: 1 <= i <= |infos| && IgnoredBefore(m, ignores, infos, i) ==> IgnoredBefore(m, ignores, infos[1..], i - 1);
          assert forall i :: 0 <= i < |infos| - 1 && IgnoredBefore(m, ignores, infos[1..], i) ==> IgnoredBefore(m, ignores, infos, i + 1);
          rest
  }

  /** The verdict one device contributes on its own. */
  function DeviceOutcome(m: Matcher, ignores: seq<string>, d: DeviceReply): (r: Result<Verdict>)
    ensures !d.Running? ==> r == Err(d.error)
    ensures r == Ok(Idle) <==> d.Running? && IgnoredBefore(m, ignores, d.infos, |d.infos|)
    ensures d.Running? ==> forall i :: 0 <= i < |d.infos| && IgnoredBefore(m, ignores, d.infos, i) && !Ignored(m, ignores, d.infos[i]) ==>
                                         r == ProcessVerdict(IsIgnoredProcessName(m, ignores, d.infos[i].name))
  {
    match d
    case DeviceUnavailable(e) => Err(e)
    case ProcessQueryFailed(e) => Err(e)
    case Running(infos) => ScanProcesses(m, ignores, infos)
  }

  predicate DeviceIdle(m: Matcher, ignores: seq<string>, d: DeviceReply)
  {
    DeviceOutcome(m, ignores, d) == Ok(Idle)
  }

  /** The first `k` devices are all idle, so the walk reaches device `k`. */
  predicate IdleBefore(m: Matcher, ignores: seq<string>, devices: seq<DeviceReply>, k: nat)
    requires k <= |devices|
  {
    forall j :: 0 <= j < k ==> DeviceIdle(m, ignores, devices[j])
  }

  /** The idle check over devices `0 .. |devices| - 1`: the first device that
      is not idle decides, passing its error or its Busy verdict through
      unchanged; with every device idle (or no device at all) the answer is Idle. */
  function IsGPUIdle(m: Matcher, ignores: seq<string>, devices: seq<DeviceReply>): (r: Result<Verdict>)
    ensures r == Ok(Idle) <==> IdleBefore(m, ignores, devices, |devices|)
    ensures forall k :: 0 <= k < |devices| && IdleBefore(m, ignores, devices, k) && !DeviceIdle(m, ignores, devices[k]) ==>
                          r == DeviceOutcome(m, ignores, devices[k])
  {
    if |devices| == 0 then Ok(Idle)
    else
      var first := DeviceOutcome(m, ignores, devices[0]);
      if first != Ok(Idle) then first
      else
        var rest := IsGPUIdle(m, ignores, devices[1..]);
        assert forall k :: 1 <= k <= |devices| && IdleBefore(m, ignores, devices, k) ==> IdleBefore(m, ignores, devices[1..], k - 1);
        assert forall k :: 0 <= k < |devices| - 1 && IdleBefore(m, ignores, devices[1..], k) ==> IdleBefore(m, ignores, devices, k + 1);
        rest
  }

  /** Idle exactly when every device answered and every process on every
      device is ignored; devices with no processes, and no devices at all,
      leave the verdict Idle. */
  lemma {:induction false} IdleIffEveryProcessIgnored(m: Matcher, ignores: seq<string>, devices: seq<DeviceReply>)
    ensures IsGPUIdle(m, ignores, devices) == Ok(Idle) <==>
              forall d :: 0 <= d < |devices| ==>
                devices[d].Running? &&
                forall p :: 0 <= p < |devices[d].infos| ==> IsIgnoredProcessName(m, ignores, devices[d].infos[p].name) == Ok(true)
  {
  }

  /** A Busy verdict always has a witness: some device answered and one of
      its processes is definitely not ignored. */
  lemma {:induction false} BusyHasUnignoredProcess(m: Matcher, ignores: seq<string>, devices: seq<DeviceReply>)
    requires IsGPUIdle(m, ignores, devices) == Ok(Busy)
    ensures exists d, p :: 0 <= d < |devices| && devices[d].Running? && 0 <= p < |devices[d].infos| &&
                           IsIgnoredProcessName(m, ignores, devices[d].infos[p].name) == Ok(false)
  {
    var infos := devices[0].infos;
    if ScanProcesses(m, ignores, infos) == Ok(Busy) {
      ScanBusyHasUnignoredProcess(m, ignores, infos);
      var p :| 0 <= p < |infos| && IsIgnoredProcessName(m, ignores, infos[p].name) == Ok(false);
      assert devices[0].Running? && 0 <= p < |devices[0].infos|;
    } else {
      BusyHasUnignoredProcess(m, ignores, devices[1..]);
      var d, p :| 0 <= d < |devices[1..]| && devices[1..][d].Running? && 0 <= p < |devices[1..][d].infos| &&
                  IsIgnoredProcessName(m, ignores, devices[1..][d].infos[p].name) == Ok(false);
      assert devices[d + 1] == devices[1..][d];
    }
  }

  lemma {:induction false} ScanBusyHasUnignoredProcess(m: Matcher, ignores: seq<string>, infos: seq<ProcessInfo>)
    requires ScanProcesses(m, ignores, infos) == Ok(Busy)
    ensures exists p :: 0 <= p < |infos| && IsIgnoredProcessName(m, ignores, infos[p].name) == Ok(false)
  {
    if IsIgnoredProcessName(m, ignores, infos[0].name) != Ok(false) {
      ScanBusyHasUnignoredProcess(m, ignores, infos[1..]);
      var p :| 0 <= p < |infos[1..]| && IsIgnoredProcessName(m, ignores, infos[1..][p].name) == Ok(false);
      assert infos[p + 1] == infos[1..][p];
    }
  }

  /** A process that is definitely not ignored keeps the verdict from being
      Idle. It is Busy unless an earlier device or pattern failed first, in
      which case that error is reported instead. */
  lemma {:induction false} UnignoredProcessPreventsIdle(m: Matcher, ignores: seq<string>, devices: seq<DeviceReply>, d: nat, p: nat)
    requires d < |devices| && devices[d].Running? && p < |devices[d].infos|
    requires IsIgnoredProcessName(m, ignores, devices[d].infos[p].name) == Ok(false)
    ensures IsGPUIdle(m, ignores, devices) != Ok(Idle)
  {
  }

  /** Every device answered this tick and no pattern failed on any name it
      reported. */
  predicate ErrorFree(m: Matcher, ignores: seq<string>, devices: seq<DeviceReply>)
  {
    forall k :: 0 <= k < |devices| ==>
      devices[k].Running? &&
      forall q :: 0 <= q < |devices[k].infos| ==> IsIgnoredProcessName(m, ignores, devices[k].infos[q].name).Ok?
  }

  /** On an error-free snapshot the check always reaches a verdict. */
  lemma {:induction false} ErrorFreeSnapshotHasVerdict(m: Matcher, ignores: seq<string>, devices: seq<DeviceReply>)
    requires ErrorFree(m, ignores, devices)
    ensures IsGPUIdle(m, ignores, devices).Ok?
  {
    if |devices| > 0 {
      ScanNeverFails(m, ignores, devices[0].infos);
      var rest := devices[1..];
      assert forall k :: 0 <= k < |rest| ==> rest[k] == devices[k + 1];
      ErrorFreeSnapshotHasVerdict(m, ignores, rest);
    }
  }

  /** With every device answering and no pattern failing on any reported
      name, one process that is not ignored makes the verdict Busy. */
  lemma {:induction false} UnignoredProcessMeansBusyWithoutErrors(m: Matcher, ignores: seq<string>, devices: seq<DeviceReply>, d: nat, p: nat)
    requires ErrorFree(m, ignores, devices)
    requires d < |devices| && p < |devices[d].infos|
    requires IsIgnoredProcessName(m, ignores, devices[d].infos[p].name) == Ok(false)
    ensures IsGPUIdle(m, ignores, devices) == Ok(Busy)
  {
    ErrorFreeSnapshotHasVerdict(m, ignores, devices);
    UnignoredProcessPreventsIdle(m, ignores, devices, d, p);
    var r := IsGPUIdle(m, ignores, devices);
    assert r.Ok? && r != Ok(Idle);
    assert r.value == Busy;
  }

  lemma {:induction false} ScanNeverFails(m: Matcher, ignores: seq<string>, infos: seq<ProcessInfo>)
    requires forall q :: 0 <= q < |infos| ==> IsIgnoredProcessName(m, ignores, infos[q].name).Ok?
    ensures ScanProcesses(m, ignores, infos).Ok?
  {
    if |infos| > 0 && IsIgnoredProcessName(m, ignores, infos[0].name) == Ok(true) {
      assert forall q :: 0 <= q < |infos[1..]| ==> infos[1..][q] == infos[q + 1];
      ScanNeverFails(m, ignores, infos[1..]);
    }
  }

  /** Devices after the deciding one are never queried: appending devices
      changes the verdict only when the original devices were all idle, and
      then the verdict is that of the appended devices alone. */
  lemma {:induction false} LaterDevicesCannotOverride(m: Matcher, ignores: seq<string>, a: seq<DeviceReply>, b: seq<DeviceReply>)
    ensures var ra := IsGPUIdle(m, ignores, a);
            IsGPUIdle(m, ignores, a + b) == if ra == Ok(Idle) then IsGPUIdle(m, ignores, b) else ra
  {
    if |a| == 0 {
      assert a + b == b;
    } else {
      assert (a + b)[0] == a[0];
      assert (a + b)[1..] == a[1..] + b;
      LaterDevicesCannotOverride(m, ignores, a[1..], b);
    }
  }
}
