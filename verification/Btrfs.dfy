/** The two scans of the btrfs collector: filesystems by mount point, and the
    devices of one filesystem by id.  What an ioctl answers is an input. */
module Btrfs {
  import opened MapSums
  import opened Wrappers

  datatype Device = Device(
    path: string, uuid: string, bytesUsed: U64, totalBytes: U64,
    writeErrs: U64, readErrs: U64, flushErrs: U64, corruptionErrs: U64, generationErrs: U64)

  /** What the two device ioctls say of an id. */
  datatype Probe =
    | NoDevice               // GetDevInfo answers ENODEV
    | Failure(errno: int)    // one of the two calls fails in another way
    | Present(device: Device)

  // ----- devices of one filesystem

  /** The ids below `upTo` that exist, in ascending order. */
  function ExistingIds(probe: U64 -> Probe, upTo: nat): seq<U64>
    requires upTo <= TWO_64
  {
    if upTo == 0 then []
    else
      var i: U64 := upTo - 1;
      ExistingIds(probe, i) + if probe(i).Present? then [i] else []
  }

  lemma {:induction false} ExistingIdsAreAll(probe: U64 -> Probe, upTo: nat)
    requires upTo <= TWO_64
    ensures forall i: U64 :: i in ExistingIds(probe, upTo) <==> i < upTo && probe(i).Present?
    ensures var ids := ExistingIds(probe, upTo); forall a, b :: 0 <= a < b < |ids| ==> ids[a] < ids[b]
    ensures |ExistingIds(probe, upTo)| <= upTo
    decreases upTo
  {
    if upTo > 0 {
      ExistingIdsAreAll(probe, upTo - 1);
      var before := ExistingIds(probe, upTo - 1);
      assert forall k :: 0 <= k < |before| ==> before[k] in before;
    }
  }

  lemma {:induction false} ExistingIdsGrow(probe: U64 -> Probe, a: nat, b: nat)
    requires a <= b <= TWO_64
    ensures ExistingIds(probe, a) <= ExistingIds(probe, b)
    decreases b
  {
    if a < b {
      ExistingIdsGrow(probe, a, b - 1);
    }
  }

  predicate AllPresent(probe: U64 -> Probe, ids: seq<U64>) {
    forall k :: 0 <= k < |ids| ==> probe(ids[k]).Present?
  }

  function DevicesOf(probe: U64 -> Probe, ids: seq<U64>): seq<Device>
    requires AllPresent(probe, ids)
  {
    seq(|ids|, k requires 0 <= k < |ids| => probe(ids[k]).device)
  }

  /** No probe of an id below the bound fails. */
  ghost predicate CleanBelow(probe: U64 -> Probe, upTo: nat) {
    forall i: U64 :: i < upTo ==> !probe(i).Failure?
  }

  /** The scan has all the devices it was told of. */
  predicate Complete(n: nat, numDevices: U64) {
    numDevices > 0 && n >= numDevices
  }

  /** The loop of the scan: at the top of a round, or left with a result. */
  datatype Loop = Running(i: U64, devices: seq<Device>) | Left(result: Result<seq<Device>, int>)

  const MAX_U64: U64 := TWO_64 - 1

  /** `i++` on an unsigned 64-bit integer. */
  function NextId(i: U64): U64 {
    if i == MAX_U64 then 0 else i + 1
  }

  /** One round. */
  function Round(probe: U64 -> Probe, numDevices: U64, maxID: U64, i: U64, devices: seq<Device>): Loop {
    if i > maxID then Left(Ok(devices))
    else
      match probe(i)
      case NoDevice => Running(NextId(i), devices)
      case Failure(errno) => Left(Err(errno))
      case Present(device) =>
        if |devices| + 1 == numDevices then Left(Ok(devices + [device]))
        else Running(NextId(i), devices + [device])
  }

  /** The loop after a number of rounds. */
  function Iterate(probe: U64 -> Probe, numDevices: U64, maxID: U64, rounds: nat): Loop {
    if rounds == 0 then Running(0, [])
    else
      match Iterate(probe, numDevices, maxID, rounds - 1)
      case Left(result) => Left(result)
      case Running(i, devices) => Round(probe, numDevices, maxID, i, devices)
  }

  /** For the largest MaxID the counter wraps to 0 before it can exceed it; then
      only a failing probe, or enough devices, ends the loop. */
  ghost predicate Ends(probe: U64 -> Probe, numDevices: U64, maxID: U64) {
    || maxID < MAX_U64
    || (exists e: U64 :: probe(e).Failure?)
    || (numDevices > 0 && exists e: U64 :: probe(e).Present?)
  }

  // ----- what the scan returns

  /** e is the first id that fails, and the scan gets that far. */
  ghost predicate FirstFailure(probe: U64 -> Probe, numDevices: U64, maxID: U64, e: U64) {
    && e <= maxID && probe(e).Failure? && CleanBelow(probe, e)
    && !Complete(|ExistingIds(probe, e)|, numDevices)
  }

  /** The ids over and over, n in all. */
  function Repeated(ids: seq<U64>, n: nat): (r: seq<U64>)
    requires ids != []
    ensures |r| == n && forall i :: i in r ==> i in ids
    decreases n
  {
    if n <= |ids| then ids[..n] else ids + Repeated(ids, n - |ids|)
  }

  lemma ExistingArePresent(probe: U64 -> Probe, upTo: nat)
    requires upTo <= TWO_64
    ensures AllPresent(probe, ExistingIds(probe, upTo))
  {
    ExistingIdsAreAll(probe, upTo);
    var ids := ExistingIds(probe, upTo);
    assert forall k :: 0 <= k < |ids| ==> ids[k] in ids;
  }

  lemma RepeatedArePresent(probe: U64 -> Probe, ids: seq<U64>, n: nat)
    requires ids != [] && AllPresent(probe, ids)
    ensures AllPresent(probe, Repeated(ids, n))
  {
    var r := Repeated(ids, n);
    assert forall k :: 0 <= k < |r| ==> r[k] in r;
  }

  /** All ids that exist, cut at NumDevices when that is positive.  The wrapping
      scan of the largest MaxID lists them again until it has NumDevices. */
  function Wanted(probe: U64 -> Probe, numDevices: U64, maxID: U64): (w: seq<U64>)
    ensures AllPresent(probe, w)
  {
    var ids := ExistingIds(probe, maxID + 1);
    ExistingArePresent(probe, maxID + 1);
    if Complete(|ids|, numDevices) then ids[..numDevices]
    else if maxID == MAX_U64 && numDevices > 0 && ids != [] then
      RepeatedArePresent(probe, ids, numDevices);
      Repeated(ids, numDevices)
    else ids
  }

  /** The devices in ascending id order, cut at NumDevices when that is positive;
      or the first error met before that many devices were found. */
  ghost predicate IsResult(probe: U64 -> Probe, numDevices: U64, maxID: U64, r: Result<seq<Device>, int>) {
    && (r.Err? <==> exists e: U64 :: FirstFailure(probe, numDevices, maxID, e))
    && (r.Err? ==> exists e: U64 :: FirstFailure(probe, numDevices, maxID, e) && r.error == probe(e).errno)
    && (r.Ok? ==> r.value == DevicesOf(probe, Wanted(probe, numDevices, maxID)))
  }

  lemma NoFailureOnceComplete(probe: U64 -> Probe, numDevices: U64, maxID: U64, upTo: nat)
    requires upTo <= maxID + 1 && CleanBelow(probe, upTo)
    requires Complete(|ExistingIds(probe, upTo)|, numDevices)
    ensures forall e: U64 :: !FirstFailure(probe, numDevices, maxID, e)
  {
    forall e: U64
      ensures !FirstFailure(probe, numDevices, maxID, e)
    {
      if upTo <= e {
        ExistingIdsGrow(probe, upTo, e);
      }
    }
  }

  /** With no failing probe the scan is the full scan exactly when NumDevices is 0
      or the number of ids that exist, or is larger and the counter does not
      wrap to an existing id. */
  lemma CutIsHarmless(probe: U64 -> Probe, numDevices: U64, maxID: U64)
    requires CleanBelow(probe, maxID + 1)
    ensures var ids := ExistingIds(probe, maxID + 1);
      Wanted(probe, numDevices, maxID) == ids <==>
        numDevices == 0 || |ids| == numDevices || (|ids| < numDevices && (maxID < MAX_U64 || ids == []))
    ensures forall e: U64 :: !FirstFailure(probe, numDevices, maxID, e)
  {
    var ids := ExistingIds(probe, maxID + 1);
    if numDevices > 0 && |ids| == numDevices {
      assert ids[..numDevices] == ids;
    }
  }

  /** With the largest MaxID and fewer devices than told of, the scan lists
      devices twice, so its ids do not ascend. */
  lemma WrappedScanRepeats(probe: U64 -> Probe, numDevices: U64)
    requires 0 < |ExistingIds(probe, TWO_64)| < numDevices
    ensures var ids, w := ExistingIds(probe, TWO_64), Wanted(probe, numDevices, MAX_U64);
      |w| == numDevices && ids < w && w[|ids|] == w[0]
  {
    var ids := ExistingIds(probe, TWO_64);
    var rest := Repeated(ids, numDevices - |ids|);
    assert rest[0] == ids[0];
  }

  // ----- the ids that have gone by

  /** The counter after a number of rounds. */
  function IdAt(rounds: nat): U64 {
    if rounds == 0 then 0 else NextId(IdAt(rounds - 1))
  }

  lemma {:induction false} IdAtSmall(rounds: nat)
    requires rounds < TWO_64
    ensures IdAt(rounds) == rounds
    decreases rounds
  {
    if rounds > 0 {
      IdAtSmall(rounds - 1);
    }
  }

  lemma {:induction false} IdAtWraps(rounds: nat)
    ensures IdAt(rounds + TWO_64) == IdAt(rounds)
    decreases rounds
  {
    if rounds == 0 {
      IdAtSmall(MAX_U64);
    } else {
      IdAtWraps(rounds - 1);
    }
  }

  /** The existing ids in the order in which the rounds meet them. */
  function Passed(probe: U64 -> Probe, rounds: nat): seq<U64> {
    if rounds == 0 then []
    else
      var i := IdAt(rounds - 1);
      Passed(probe, rounds - 1) + if probe(i).Present? then [i] else []
  }

  lemma {:induction false} PassedIsExisting(probe: U64 -> Probe, rounds: nat)
    requires rounds <= TWO_64
    ensures Passed(probe, rounds) == ExistingIds(probe, rounds)
    decreases rounds
  {
    if rounds > 0 {
      IdAtSmall(rounds - 1);
      PassedIsExisting(probe, rounds - 1);
    }
  }

  lemma {:induction false} PassedGrows(probe: U64 -> Probe, a: nat, b: nat)
    requires a <= b
    ensures Passed(probe, a) <= Passed(probe, b)
    decreases b
  {
    if a < b {
      PassedGrows(probe, a, b - 1);
    }
  }

  lemma {:induction false} PassedWraps(probe: U64 -> Probe, rounds: nat)
    ensures Passed(probe, rounds + TWO_64) == ExistingIds(probe, TWO_64) + Passed(probe, rounds)
    decreases rounds
  {
    if rounds == 0 {
      PassedIsExisting(probe, TWO_64);
    } else {
      PassedWraps(probe, rounds - 1);
      IdAtWraps(rounds - 1);
    }
  }

  lemma RepeatedPrefix(ids: seq<U64>, part: seq<U64>)
    requires ids != [] && part <= ids
    ensures part == Repeated(ids, |part|)
  {
  }

  lemma RepeatedMore(ids: seq<U64>, rest: seq<U64>)
    requires ids != [] && rest == Repeated(ids, |rest|)
    ensures ids + rest == Repeated(ids, |ids + rest|)
  {
    if rest == [] {
      assert ids + rest == ids == ids[..|ids|];
    }
  }

  lemma {:induction false} PassedIsRepeated(probe: U64 -> Probe, rounds: nat)
    requires ExistingIds(probe, TWO_64) != []
    ensures Passed(probe, rounds) == Repeated(ExistingIds(probe, TWO_64), |Passed(probe, rounds)|)
    decreases rounds
  {
    var ids := ExistingIds(probe, TWO_64);
    if rounds <= TWO_64 {
      PassedIsExisting(probe, rounds);
      ExistingIdsGrow(probe, rounds, TWO_64);
      RepeatedPrefix(ids, Passed(probe, rounds));
    } else {
      PassedIsRepeated(probe, rounds - TWO_64);
      PassedWraps(probe, rounds - TWO_64);
      RepeatedMore(ids, Passed(probe, rounds - TWO_64));
    }
  }

  /** Every turn of the counter passes an existing id once more. */
  lemma {:induction false} TurnsPass(probe: U64 -> Probe, turns: nat)
    requires ExistingIds(probe, TWO_64) != []
    ensures |Passed(probe, turns * TWO_64)| >= turns
    decreases turns
  {
    if turns > 0 {
      TurnsPass(probe, turns - 1);
      PassedWraps(probe, (turns - 1) * TWO_64);
      assert (turns - 1) * TWO_64 + TWO_64 == turns * TWO_64;
    }
  }

  /** What is known at the top of a round. */
  ghost predicate RunningInv(probe: U64 -> Probe, numDevices: U64, maxID: U64, rounds: nat, i: U64, devices: seq<Device>) {
    && i == IdAt(rounds) && (rounds < TWO_64 ==> i == rounds)
    && (maxID < MAX_U64 ==> rounds <= maxID + 1)
    && CleanBelow(probe, rounds)
    && AllPresent(probe, Passed(probe, rounds)) && devices == DevicesOf(probe, Passed(probe, rounds))
    && !Complete(|Passed(probe, rounds)|, numDevices)
  }

  lemma {:induction false} RunningMeans(probe: U64 -> Probe, numDevices: U64, maxID: U64, rounds: nat)
    requires Iterate(probe, numDevices, maxID, rounds).Running?
    ensures var l := Iterate(probe, numDevices, maxID, rounds);
      RunningInv(probe, numDevices, maxID, rounds, l.i, l.devices)
    decreases rounds
  {
    if rounds > 0 {
      RunningMeans(probe, numDevices, maxID, rounds - 1);
      var l := Iterate(probe, numDevices, maxID, rounds - 1);
      RoundKeeps(probe, numDevices, maxID, rounds - 1, l.i, l.devices);
    }
  }

  lemma RoundKeeps(probe: U64 -> Probe, numDevices: U64, maxID: U64, rounds: nat, i: U64, devices: seq<Device>)
    requires RunningInv(probe, numDevices, maxID, rounds, i, devices)
    requires Round(probe, numDevices, maxID, i, devices).Running?
    ensures var l := Round(probe, numDevices, maxID, i, devices);
      RunningInv(probe, numDevices, maxID, rounds + 1, l.i, l.devices)
  {
    var passed := Passed(probe, rounds + 1);
    if rounds < MAX_U64 {
      IdAtSmall(rounds + 1);
    }
    forall e: U64 | e < rounds + 1
      ensures !probe(e).Failure?
    {
      assert e < rounds || e == i;
    }
    if probe(i).Present? {
      assert passed == Passed(probe, rounds) + [i];
    }
  }

  /** Whenever the loop is left, it is left with the result. */
  lemma {:induction false} ScanLeavesWith(probe: U64 -> Probe, numDevices: U64, maxID: U64, rounds: nat)
    requires Iterate(probe, numDevices, maxID, rounds).Left?
    ensures IsResult(probe, numDevices, maxID, Iterate(probe, numDevices, maxID, rounds).result)
    decreases rounds
  {
    var q := rounds - 1;
    var l := Iterate(probe, numDevices, maxID, q);
    if l.Left? {
      ScanLeavesWith(probe, numDevices, maxID, q);
    } else {
      RunningMeans(probe, numDevices, maxID, q);
      if l.i > maxID {
        LeftAtTheEnd(probe, numDevices, maxID, l.devices);
      } else if probe(l.i).Failure? {
        LeftByFailure(probe, numDevices, maxID, q, l.i, l.devices);
      } else {
        LeftComplete(probe, numDevices, maxID, q, l.i, l.devices);
      }
    }
  }

  lemma LeftAtTheEnd(probe: U64 -> Probe, numDevices: U64, maxID: U64, devices: seq<Device>)
    requires maxID < MAX_U64 && RunningInv(probe, numDevices, maxID, maxID + 1, maxID + 1, devices)
    ensures IsResult(probe, numDevices, maxID, Ok(devices))
  {
    PassedIsExisting(probe, maxID + 1);
  }

  lemma LeftByFailure(probe: U64 -> Probe, numDevices: U64, maxID: U64, rounds: nat, i: U64, devices: seq<Device>)
    requires RunningInv(probe, numDevices, maxID, rounds, i, devices) && i <= maxID && probe(i).Failure?
    ensures IsResult(probe, numDevices, maxID, Err(probe(i).errno))
  {
    assert rounds < TWO_64;
    PassedIsExisting(probe, rounds);
    assert FirstFailure(probe, numDevices, maxID, i);
  }

  lemma LeftComplete(probe: U64 -> Probe, numDevices: U64, maxID: U64, rounds: nat, i: U64, devices: seq<Device>)
    requires RunningInv(probe, numDevices, maxID, rounds, i, devices) && i <= maxID
    requires probe(i).Present? && |devices| + 1 == numDevices
    ensures IsResult(probe, numDevices, maxID, Ok(devices + [probe(i).device]))
  {
    var passed := Passed(probe, rounds) + [i];
    assert passed == Passed(probe, rounds + 1);
    assert DevicesOf(probe, passed) == devices + [probe(i).device];
    if rounds < TWO_64 {
      NoFailureOnceComplete(probe, numDevices, maxID, rounds + 1) by { PassedIsExisting(probe, rounds + 1); }
      WantedInTime(probe, numDevices, maxID, rounds);
    } else {
      assert forall e: U64 :: !FirstFailure(probe, numDevices, maxID, e);
      WantedWhenWrapped(probe, numDevices, rounds, i);
    }
  }

  lemma WantedInTime(probe: U64 -> Probe, numDevices: U64, maxID: U64, rounds: nat)
    requires rounds <= maxID && numDevices == |Passed(probe, rounds + 1)| > 0
    ensures Wanted(probe, numDevices, maxID) == Passed(probe, rounds + 1)
  {
    PassedIsExisting(probe, rounds + 1);
    ExistingIdsGrow(probe, rounds + 1, maxID + 1);
  }

  lemma WantedWhenWrapped(probe: U64 -> Probe, numDevices: U64, rounds: nat, i: U64)
    requires rounds >= TWO_64 && probe(i).Present?
    requires !Complete(|Passed(probe, rounds)|, numDevices) && numDevices == |Passed(probe, rounds + 1)| > 0
    ensures Wanted(probe, numDevices, MAX_U64) == Passed(probe, rounds + 1)
  {
    InExisting(probe, i);
    AllPassed(probe, rounds);
    WantedWraps(probe, numDevices);
    PassedIsRepeated(probe, rounds + 1);
  }

  lemma AllPassed(probe: U64 -> Probe, rounds: nat)
    requires rounds >= TWO_64
    ensures |ExistingIds(probe, TWO_64)| <= |Passed(probe, rounds)|
  {
    PassedIsExisting(probe, TWO_64);
    PassedGrows(probe, TWO_64, rounds);
  }

  lemma WantedWraps(probe: U64 -> Probe, numDevices: U64)
    requires 0 < |ExistingIds(probe, TWO_64)| && numDevices > 0 && !Complete(|ExistingIds(probe, TWO_64)|, numDevices)
    ensures Wanted(probe, numDevices, MAX_U64) == Repeated(ExistingIds(probe, TWO_64), numDevices)
  {
  }

  lemma InExisting(probe: U64 -> Probe, i: U64)
    requires probe(i).Present?
    ensures i in ExistingIds(probe, TWO_64)
  {
    ExistingIdsAreAll(probe, TWO_64);
  }

  // ----- when the scan ends

  /** The scan is left after some number of rounds exactly when MaxID is not the
      largest integer, or some probe fails, or it is told of some devices and
      finds one. */
  lemma ScanEndsIff(probe: U64 -> Probe, numDevices: U64, maxID: U64)
    ensures (exists rounds: nat :: Iterate(probe, numDevices, maxID, rounds).Left?) <==> Ends(probe, numDevices, maxID)
  {
    if Ends(probe, numDevices, maxID) {
      var rounds := RoundsNeeded(probe, numDevices, maxID);
    } else {
      forall rounds: nat
        ensures Iterate(probe, numDevices, maxID, rounds).Running?
      {
        NeverLeft(probe, numDevices, rounds);
      }
    }
  }

  lemma RoundsNeeded(probe: U64 -> Probe, numDevices: U64, maxID: U64) returns (rounds: nat)
    requires Ends(probe, numDevices, maxID)
    ensures Iterate(probe, numDevices, maxID, rounds).Left?
  {
    if maxID < MAX_U64 {
      rounds := maxID + 2;
    } else if e: U64 :| probe(e).Failure? {
      rounds := e + 1;
    } else {
      var e: U64 :| probe(e).Present?;
      InExisting(probe, e);
      rounds := numDevices * TWO_64;
      TurnsPass(probe, numDevices);
    }
    if Iterate(probe, numDevices, maxID, rounds).Running? {
      RunningMeans(probe, numDevices, maxID, rounds);
      assert false;
    }
  }

  lemma {:induction false} NeverLeft(probe: U64 -> Probe, numDevices: U64, rounds: nat)
    requires !Ends(probe, numDevices, MAX_U64)
    ensures Iterate(probe, numDevices, MAX_U64, rounds).Running?
    decreases rounds
  {
    if rounds > 0 {
      NeverLeft(probe, numDevices, rounds - 1);
    }
  }

  /** In particular it never ends, and finds nothing, when no id exists. */
  lemma {:induction false} LargestMaxIdNeverEnds(probe: U64 -> Probe, numDevices: U64, rounds: nat)
    requires forall i: U64 :: probe(i).NoDevice?
    ensures Iterate(probe, numDevices, MAX_U64, rounds) == Running(IdAt(rounds), [])
    decreases rounds
  {
    if rounds > 0 {
      LargestMaxIdNeverEnds(probe, numDevices, rounds - 1);
    }
  }

  /** The loop in place, for exactly the inputs with which it ends. */
  method GetIoctlDeviceStats(probe: U64 -> Probe, numDevices: U64, maxID: U64) returns (r: Result<seq<Device>, int>)
    requires Ends(probe, numDevices, maxID)
    ensures IsResult(probe, numDevices, maxID, r)
    ensures exists rounds: nat :: Iterate(probe, numDevices, maxID, rounds) == Left(r)
  {
    var devices: seq<Device> := [];
    var i: U64 := 0;
    ghost var rounds: nat := 0;
    ghost var last := RoundsNeeded(probe, numDevices, maxID);
    while i <= maxID
      invariant Iterate(probe, numDevices, maxID, rounds) == Running(i, devices)
      invariant rounds < last
      decreases last - rounds
    {
      rounds := rounds + 1;
      NotYetLeft(probe, numDevices, maxID, rounds, last);
      match probe(i)
      case NoDevice =>
        i := NextId(i);
        continue;
      case Failure(errno) =>
        ScanLeavesWith(probe, numDevices, maxID, rounds);
        return Err(errno);
      case Present(device) =>
        devices := devices + [device];
        if |devices| == numDevices {
          ScanLeavesWith(probe, numDevices, maxID, rounds);
          return Ok(devices);
        }
        i := NextId(i);
    }
    ScanLeavesWith(probe, numDevices, maxID, rounds + 1);
    r := Ok(devices);
  }

  lemma NotYetLeft(probe: U64 -> Probe, numDevices: U64, maxID: U64, rounds: nat, last: nat)
    requires rounds <= last && Iterate(probe, numDevices, maxID, last).Left?
    ensures Iterate(probe, numDevices, maxID, rounds).Running? ==> rounds < last
  {
  }

  // ----- filesystems by mount point

  /** What opening a mount point and asking for its filesystem and devices gives. */
  datatype FsProbe =
    | OpenFailed
    | InfoFailed
    | Info(fsID: string, devices: Result<seq<Device>, int>)

  datatype Mount = Mount(fsType: string, device: string, probe: FsProbe)
  {
    /** All three questions are answered. */
    predicate Succeeds() {
      fsType == "btrfs" && probe.Info? && probe.devices.Ok?
    }
  }

  type FsStats = map<string, seq<Device>>

  /** The devices that are done and the filesystems found. */
  datatype Scan = Scan(done: set<string>, stats: FsStats)

  function ScanMounts(mounts: seq<Mount>): Scan {
    if mounts == [] then Scan({}, map[])
    else
      var n := |mounts| - 1;
      var s, m := ScanMounts(mounts[..n]), mounts[n];
      if !m.Succeeds() || m.device in s.done || m.probe.fsID in s.stats then s
      else Scan(s.done + {m.device}, s.stats[m.probe.fsID := m.probe.devices.value])
  }

  /** The scan without the shortcut: the first full success of every filesystem. */
  function KeepFirst(mounts: seq<Mount>): FsStats {
    if mounts == [] then map[]
    else
      var n := |mounts| - 1;
      var before, m := KeepFirst(mounts[..n]), mounts[n];
      if m.Succeeds() && m.probe.fsID !in before then before[m.probe.fsID := m.probe.devices.value] else before
  }

  method GetIoctlStats(mounts: seq<Mount>) returns (fsStats: FsStats)
    ensures fsStats == ScanMounts(mounts).stats
  {
    var devicesDone: set<string> := {};
    fsStats := map[];
    for n := 0 to |mounts|
      invariant ScanMounts(mounts[..n]) == Scan(devicesDone, fsStats)
    {
      assert mounts[..n + 1][..n] == mounts[..n];
      var mount := mounts[n];
      if mount.fsType != "btrfs" {
        continue;
      }
      if mount.device in devicesDone {
        continue;
      }
      if mount.probe.OpenFailed? {
        continue;
      }
      if mount.probe.InfoFailed? {
        continue;
      }
      if mount.probe.fsID in fsStats {
        continue;
      }
      if mount.probe.devices.Err? {
        continue;
      }
      devicesDone := devicesDone + {mount.device};
      fsStats := fsStats[mount.probe.fsID := mount.probe.devices.value];
    }
    assert mounts[..|mounts|] == mounts;
  }

  /** Mount n is the first full success of the filesystem. */
  ghost predicate FirstSuccess(mounts: seq<Mount>, id: string, n: nat) {
    && n < |mounts| && mounts[n].Succeeds() && mounts[n].probe.fsID == id
    && forall k :: 0 <= k < n && mounts[k].Succeeds() ==> mounts[k].probe.fsID != id
  }

  lemma {:induction false} KeepFirstIsFirst(mounts: seq<Mount>, id: string)
    ensures id in KeepFirst(mounts) <==> exists n :: FirstSuccess(mounts, id, n)
    ensures forall n: nat :: FirstSuccess(mounts, id, n) ==>
      id in KeepFirst(mounts) && KeepFirst(mounts)[id] == mounts[n].probe.devices.value
    decreases |mounts|
  {
    if mounts != [] {
      var n := |mounts| - 1;
      KeepFirstIsFirst(mounts[..n], id);
      forall k: nat | k < n
        ensures FirstSuccess(mounts, id, k) <==> FirstSuccess(mounts[..n], id, k)
      {
      }
      if k: nat :| FirstSuccess(mounts[..n], id, k) {
        assert FirstSuccess(mounts, id, k);
      } else if mounts[n].Succeeds() && mounts[n].probe.fsID == id {
        NoneBefore(mounts[..n], id);
        assert forall k :: 0 <= k < n ==> mounts[..n][k] == mounts[k];
        assert FirstSuccess(mounts, id, n);
      }
    }
  }

  lemma {:induction false} NoneBefore(mounts: seq<Mount>, id: string)
    requires forall n: nat :: !FirstSuccess(mounts, id, n)
    ensures forall k :: 0 <= k < |mounts| && mounts[k].Succeeds() ==> mounts[k].probe.fsID != id
    decreases |mounts|
  {
    if mounts != [] {
      var n := |mounts| - 1;
      forall k: nat
        ensures !FirstSuccess(mounts[..n], id, k)
      {
        if FirstSuccess(mounts[..n], id, k) {
          assert FirstSuccess(mounts, id, k);
        }
      }
      NoneBefore(mounts[..n], id);
      assert forall k :: 0 <= k < n ==> mounts[..n][k] == mounts[k];
      if mounts[n].Succeeds() && mounts[n].probe.fsID == id {
        assert FirstSuccess(mounts, id, n);
      }
    }
  }

  /** Mount k is the first full success of its filesystem. */
  ghost predicate IsFirst(mounts: seq<Mount>, k: nat) {
    k < |mounts| && mounts[k].Succeeds() && FirstSuccess(mounts, mounts[k].probe.fsID, k)
  }

  /** No filesystem's first success is on the device of an earlier one. */
  ghost predicate FirstsOnOwnDevices(mounts: seq<Mount>) {
    forall i, j :: 0 <= i < j && IsFirst(mounts, i) && IsFirst(mounts, j) ==> mounts[i].device != mounts[j].device
  }

  /** The two scans agree on every prefix of the mount list. */
  ghost predicate AgreeThroughout(mounts: seq<Mount>) {
    forall n :: 0 <= n <= |mounts| ==> ScanMounts(mounts[..n]).stats == KeepFirst(mounts[..n])
  }

  lemma IsFirstKept(mounts: seq<Mount>, n: nat, k: nat)
    requires k < n <= |mounts|
    ensures IsFirst(mounts[..n], k) <==> IsFirst(mounts, k)
  {
    assert forall j :: 0 <= j < n ==> mounts[..n][j] == mounts[j];
  }

  lemma OwnDevicesKept(mounts: seq<Mount>, n: nat)
    requires n <= |mounts| && FirstsOnOwnDevices(mounts)
    ensures FirstsOnOwnDevices(mounts[..n])
  {
    forall i, j | 0 <= i < j && IsFirst(mounts[..n], i) && IsFirst(mounts[..n], j)
      ensures mounts[..n][i].device != mounts[..n][j].device
    {
      IsFirstKept(mounts, n, i);
      IsFirstKept(mounts, n, j);
    }
  }

  lemma LastIsFirstIff(mounts: seq<Mount>)
    requires mounts != [] && mounts[|mounts| - 1].Succeeds()
    ensures var n := |mounts| - 1;
      IsFirst(mounts, n) <==> mounts[n].probe.fsID !in KeepFirst(mounts[..n])
  {
    var n := |mounts| - 1;
    var id := mounts[n].probe.fsID;
    KeepFirstIsFirst(mounts[..n], id);
    assert forall j :: 0 <= j < n ==> mounts[..n][j] == mounts[j];
    if id !in KeepFirst(mounts[..n]) {
      NoneBefore(mounts[..n], id);
    }
  }

  /** d is the device of some filesystem's first success. */
  ghost predicate FirstDevice(mounts: seq<Mount>, d: string) {
    exists k :: 0 <= k < |mounts| && IsFirst(mounts, k) && mounts[k].device == d
  }

  lemma FirstDeviceStep(mounts: seq<Mount>, d: string)
    requires mounts != []
    ensures var n := |mounts| - 1;
      FirstDevice(mounts, d) <==> FirstDevice(mounts[..n], d) || (IsFirst(mounts, n) && mounts[n].device == d)
  {
    var n := |mounts| - 1;
    if k :| 0 <= k < |mounts| && IsFirst(mounts, k) && mounts[k].device == d {
      if k < n {
        IsFirstKept(mounts, n, k);
        assert mounts[..n][k].device == d;
      }
    }
    if k :| 0 <= k < n && IsFirst(mounts[..n], k) && mounts[..n][k].device == d {
      IsFirstKept(mounts, n, k);
      assert mounts[k].device == d;
    }
  }

  lemma {:induction false} ScanOnOwnDevices(mounts: seq<Mount>)
    requires FirstsOnOwnDevices(mounts)
    ensures ScanMounts(mounts).stats == KeepFirst(mounts)
    ensures forall d :: d in ScanMounts(mounts).done <==> FirstDevice(mounts, d)
    decreases |mounts|
  {
    if mounts != [] {
      var n := |mounts| - 1;
      OwnDevicesKept(mounts, n);
      ScanOnOwnDevices(mounts[..n]);
      if mounts[n].Succeeds() {
        LastIsFirstIff(mounts);
        if IsFirst(mounts, n) {
          NewDevice(mounts);
        }
      }
      forall d
        ensures d in ScanMounts(mounts).done <==> FirstDevice(mounts, d)
      {
        FirstDeviceStep(mounts, d);
      }
    }
  }

  lemma NewDevice(mounts: seq<Mount>)
    requires FirstsOnOwnDevices(mounts) && mounts != [] && IsFirst(mounts, |mounts| - 1)
    ensures !FirstDevice(mounts[..|mounts| - 1], mounts[|mounts| - 1].device)
  {
    var n := |mounts| - 1;
    forall k | 0 <= k < n && IsFirst(mounts[..n], k)
      ensures mounts[..n][k].device != mounts[n].device
    {
      IsFirstKept(mounts, n, k);
    }
  }

  /** The shortcut over devices already done changes nothing, at any point of the
      scan, exactly when no filesystem's first success is on the device of an
      earlier one. */
  lemma {:induction false} ShortcutAgreesIff(mounts: seq<Mount>)
    ensures AgreeThroughout(mounts) <==> FirstsOnOwnDevices(mounts)
    decreases |mounts|
  {
    if FirstsOnOwnDevices(mounts) {
      forall n | 0 <= n <= |mounts|
        ensures ScanMounts(mounts[..n]).stats == KeepFirst(mounts[..n])
      {
        OwnDevicesKept(mounts, n);
        ScanOnOwnDevices(mounts[..n]);
      }
    }
    if AgreeThroughout(mounts) && mounts != [] {
      AgreementSeparates(mounts);
    }
  }

  lemma AgreementSeparates(mounts: seq<Mount>)
    requires AgreeThroughout(mounts) && mounts != []
    ensures FirstsOnOwnDevices(mounts)
    decreases |mounts|, 0
  {
    var n := |mounts| - 1;
    forall k | 0 <= k <= n
      ensures ScanMounts(mounts[..n][..k]).stats == KeepFirst(mounts[..n][..k])
    {
      assert mounts[..n][..k] == mounts[..k];
    }
    if n > 0 {
      AgreementSeparates(mounts[..n]);
    }
    ScanOnOwnDevices(mounts[..n]);
    assert mounts[..n + 1] == mounts;
    forall i, j | 0 <= i < j && IsFirst(mounts, i) && IsFirst(mounts, j)
      ensures mounts[i].device != mounts[j].device
    {
      IsFirstKept(mounts, n, i);
      if j < n {
        IsFirstKept(mounts, n, j);
      } else if mounts[i].device == mounts[n].device {
        assert FirstDevice(mounts[..n], mounts[..n][i].device);
        LastIsFirstIff(mounts);
        assert false;
      }
    }
  }

  /** Mounts of one device that succeed belong to one filesystem. */
  ghost predicate OneFilesystemPerDevice(mounts: seq<Mount>) {
    forall i, j :: 0 <= i < j < |mounts| && mounts[i].Succeeds() && mounts[j].Succeeds() && mounts[i].device == mounts[j].device ==>
      mounts[i].probe.fsID == mounts[j].probe.fsID
  }

  /** In particular when all mounts of one device report the same filesystem id. */
  lemma ShortcutIsHarmless(mounts: seq<Mount>)
    requires OneFilesystemPerDevice(mounts)
    ensures ScanMounts(mounts).stats == KeepFirst(mounts)
    ensures forall d :: d in ScanMounts(mounts).done ==>
      exists k :: 0 <= k < |mounts| && mounts[k].Succeeds() && mounts[k].device == d && mounts[k].probe.fsID in ScanMounts(mounts).stats
  {
    assert FirstsOnOwnDevices(mounts);
    ScanOnOwnDevices(mounts);
    forall d | d in ScanMounts(mounts).done
      ensures exists k :: 0 <= k < |mounts| && mounts[k].Succeeds() && mounts[k].device == d && mounts[k].probe.fsID in ScanMounts(mounts).stats
    {
      var k :| 0 <= k < |mounts| && IsFirst(mounts, k) && mounts[k].device == d;
      KeepFirstIsFirst(mounts, mounts[k].probe.fsID);
    }
  }

  /** The smallest case of the other kind: were one device to carry two filesystem ids, the
      shortcut would lose the second filesystem. */
  lemma ShortcutNeedsOneFilesystemPerDevice(device: string, a: string, b: string, devices: seq<Device>)
    requires a != b
    ensures var mounts := [Mount("btrfs", device, Info(a, Ok(devices))), Mount("btrfs", device, Info(b, Ok(devices)))];
      KeepFirst(mounts).Keys == {a, b} && ScanMounts(mounts).stats.Keys == {a}
  {
    var m, n := Mount("btrfs", device, Info(a, Ok(devices))), Mount("btrfs", device, Info(b, Ok(devices)));
    assert [m, n][..1] == [m] && [m][..0] == [];
    assert KeepFirst([m]) == map[a := devices] && ScanMounts([m]) == Scan({device}, map[a := devices]);
  }

  /** Every filesystem reported is one that some mount of type btrfs has, with the
      devices that this mount was asked for. */
  lemma {:induction false} ReportedIsProbed(mounts: seq<Mount>, id: string)
    requires id in ScanMounts(mounts).stats
    ensures exists k :: 0 <= k < |mounts| && mounts[k].fsType == "btrfs" && mounts[k].probe == Info(id, Ok(ScanMounts(mounts).stats[id]))
    decreases |mounts|
  {
    var n := |mounts| - 1;
    if id in ScanMounts(mounts[..n]).stats {
      ReportedIsProbed(mounts[..n], id);
      var k :| 0 <= k < n && mounts[..n][k].fsType == "btrfs" && mounts[..n][k].probe == Info(id, Ok(ScanMounts(mounts[..n]).stats[id]));
      assert mounts[k] == mounts[..n][k];
    } else {
      assert mounts[n].fsType == "btrfs" && mounts[n].probe == Info(id, Ok(ScanMounts(mounts).stats[id]));
    }
  }

  /** And every mount of type btrfs that answers has its filesystem reported, or
      its device done. */
  lemma {:induction false} ProbedIsReported(mounts: seq<Mount>, k: nat)
    requires k < |mounts| && mounts[k].fsType == "btrfs" && mounts[k].probe.Info? && mounts[k].probe.devices.Ok?
    ensures mounts[k].probe.fsID in ScanMounts(mounts).stats || mounts[k].device in ScanMounts(mounts).done
    decreases |mounts|
  {
    var n := |mounts| - 1;
    if k < n {
      ProbedIsReported(mounts[..n], k);
    }
  }

  /** With or without the proviso the scan reports no filesystem that the full
      scan would not, and leaves none out whose device was never done. */
  lemma {:induction false} ScanReportsOnlySuccesses(mounts: seq<Mount>)
    ensures ScanMounts(mounts).stats.Keys <= KeepFirst(mounts).Keys
    ensures forall id :: id in KeepFirst(mounts) && id !in ScanMounts(mounts).stats ==>
      exists k :: 0 <= k < |mounts| && mounts[k].Succeeds() && mounts[k].probe.fsID == id && mounts[k].device in ScanMounts(mounts).done
    decreases |mounts|
  {
    if mounts != [] {
      var n := |mounts| - 1;
      var before := mounts[..n];
      ScanReportsOnlySuccesses(before);
      forall id | id in KeepFirst(mounts) && id !in ScanMounts(mounts).stats
        ensures exists k :: 0 <= k < |mounts| && mounts[k].Succeeds() && mounts[k].probe.fsID == id && mounts[k].device in ScanMounts(mounts).done
      {
        if id in KeepFirst(before) {
          var k :| 0 <= k < n && before[k].Succeeds() && before[k].probe.fsID == id && before[k].device in ScanMounts(before).done;
          assert mounts[k] == before[k];
        } else {
          assert mounts[n].Succeeds() && mounts[n].probe.fsID == id;
        }
      }
    }
  }
}
