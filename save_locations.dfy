/**
 * The consumer side of the example program (`save_locations`): a per-address
 * high-water mark of update times that lets a device through only when its
 * time is strictly newer, then picks passed devices to print and to log.
 * Printing and file writing become the returned sequences of devices.
 */
module SaveLocations {
  import opened LittleEndian
  import opened Devices

  /** The one address whose passed devices are written to the log file. */
  const SAVE_ADDRESS: byte := 11

  /** The last accepted time for an address; an unseen address counts as the epoch. */
  function RecordedTime(times: map<byte, int>, address: byte): int
  {
    if address in times then times[address] else UNIX_EPOCH
  }

  datatype StepResult = StepResult(times: map<byte, int>, passed: bool)

  /**
   * One device of a received list. An unseen address is first entered at the
   * epoch; the device passes exactly when its time is strictly newer than the
   * recorded one, and then its time becomes the recorded one.
   */
  function Step(times: map<byte, int>, d: Device): (r: StepResult)
    ensures r.passed <==> d.updateTime > RecordedTime(times, d.address)
    ensures r.times.Keys == times.Keys + {d.address}
    ensures r.times[d.address] == if r.passed then d.updateTime else RecordedTime(times, d.address)
    ensures forall a :: a in times && a != d.address ==> r.times[a] == times[a]
    ensures !r.passed && d.address in times ==> r.times == times
  {
    var withEntry := if d.address in times then times else times[d.address := UNIX_EPOCH];
    var prevTime := withEntry[d.address];
    if prevTime >= d.updateTime then StepResult(withEntry, false)
    else StepResult(withEntry[d.address := d.updateTime], true)
  }

  datatype Scan = Scan(times: map<byte, int>, passed: seq<bool>)

  /** A whole received list, device by device; `passed[i]` says whether device `i` passed. */
  function ScanDevices(times: map<byte, int>, ds: seq<Device>): (r: Scan)
    ensures |r.passed| == |ds|
  {
    if |ds| == 0 then Scan(times, [])
    else
      var prefix := ScanDevices(times, ds[..|ds| - 1]);
      var step := Step(prefix.times, ds[|ds| - 1]);
      Scan(step.times, prefix.passed + [step.passed])
  }

  predicate ShouldPrint(d: Device)
  {
    d.q > 0
  }

  predicate ShouldLog(d: Device)
  {
    d.address == SAVE_ADDRESS
  }

  /** The passed devices that `keep` selects, in list order. */
  function Select(ds: seq<Device>, passed: seq<bool>, keep: Device -> bool): (r: seq<Device>)
    requires |passed| == |ds|
  {
    if |ds| == 0 then []
    else
      Select(ds[..|ds| - 1], passed[..|passed| - 1], keep)
        + (if passed[|ds| - 1] && keep(ds[|ds| - 1]) then [ds[|ds| - 1]] else [])
  }

  function Addresses(ds: seq<Device>): set<byte>
  {
    set i | 0 <= i < |ds| :: ds[i].address
  }

  class Saver {
    var updateTimes: map<byte, int>

    constructor ()
      ensures updateTimes == map[]
    {
      updateTimes := map[];
    }

    /**
     * One received device list: updates the high-water marks and returns the
     * passed devices that are printed (quality above zero) and logged
     * (address `SAVE_ADDRESS`), in list order.
     */
    method SaveDeviceList(devices: seq<Device>) returns (printed: seq<Device>, logged: seq<Device>)
      modifies this
      ensures var s := ScanDevices(old(updateTimes), devices);
        && updateTimes == s.times
        && printed == Select(devices, s.passed, ShouldPrint)
        && logged == Select(devices, s.passed, ShouldLog)
    {
      ghost var start := updateTimes;
      ghost var passed: seq<bool> := [];
      printed, logged := [], [];
      for i := 0 to |devices|
        invariant ScanDevices(start, devices[..i]) == Scan(updateTimes, passed)
        invariant printed == Select(devices[..i], passed, ShouldPrint)
        invariant logged == Select(devices[..i], passed, ShouldLog)
      {
        ghost var step := Step(updateTimes, devices[i]);
        ScanSnoc(start, devices, i);
        SelectSnoc(devices, passed + [step.passed], ShouldPrint, i);
        SelectSnoc(devices, passed + [step.passed], ShouldLog, i);
        var device := devices[i];
        if device.address !in updateTimes {
          updateTimes := updateTimes[device.address := UNIX_EPOCH];
        }
        var prevTime := updateTimes[device.address];
        if prevTime >= device.updateTime {
          passed := passed + [false];
          continue;
        }
        updateTimes := updateTimes[device.address := device.updateTime];
        passed := passed + [true];
        if device.q > 0 {
          printed := printed + [device];
        }
        if device.address == SAVE_ADDRESS {
          logged := logged + [device];
        }
      }
      assert devices[..|devices|] == devices;
    }
  }

  lemma ScanSnoc(times: map<byte, int>, ds: seq<Device>, i: nat)
    requires i < |ds|
    ensures var prefix := ScanDevices(times, ds[..i]);
      var step := Step(prefix.times, ds[i]);
      ScanDevices(times, ds[..i + 1]) == Scan(step.times, prefix.passed + [step.passed])
  {
    assert ds[..i + 1][..i] == ds[..i];
  }

  lemma SelectSnoc(ds: seq<Device>, passed: seq<bool>, keep: Device -> bool, i: nat)
    requires i < |ds| && |passed| == i + 1
    ensures Select(ds[..i + 1], passed, keep) ==
      Select(ds[..i], passed[..i], keep) + (if passed[i] && keep(ds[i]) then [ds[i]] else [])
  {
    assert ds[..i + 1][..i] == ds[..i];
  }

  // ---------------------------------------------------------------------------
  // Properties of the filter

  /** Device `i` passes exactly when it is newer than what the devices before it left recorded. */
  lemma {:induction false} ScanFreshAt(times: map<byte, int>, ds: seq<Device>, i: nat)
    requires i < |ds|
    ensures ScanDevices(times, ds).passed[i] <==>
      ds[i].updateTime > RecordedTime(ScanDevices(times, ds[..i]).times, ds[i].address)
  {
    var prefix := ds[..|ds| - 1];
    if i < |ds| - 1 {
      ScanFreshAt(times, prefix, i);
      assert prefix[..i] == ds[..i];
    }
  }

  /**
   * Recorded times never go back, keys are only added, and the keys added are
   * the addresses of the received devices.
   */
  lemma {:induction false} ScanMonotone(times: map<byte, int>, ds: seq<Device>)
    ensures var r := ScanDevices(times, ds).times;
      && r.Keys == times.Keys + Addresses(ds)
      && (forall a :: a in times ==> r[a] >= times[a])
      && (forall a :: RecordedTime(times, a) <= RecordedTime(r, a))
  {
    if |ds| > 0 {
      var prefix := ds[..|ds| - 1];
      ScanMonotone(times, prefix);
      AddressesSnoc(ds);
    } else {
      assert Addresses(ds) == {};
    }
  }

  lemma AddressesSnoc(ds: seq<Device>)
    requires |ds| > 0
    ensures Addresses(ds) == Addresses(ds[..|ds| - 1]) + {ds[|ds| - 1].address}
  {
    var prefix := ds[..|ds| - 1];
    forall a | a in Addresses(ds) ensures a in Addresses(prefix) + {ds[|ds| - 1].address} {
      var i :| 0 <= i < |ds| && ds[i].address == a;
      if i < |ds| - 1 { assert prefix[i] == ds[i]; }
    }
    forall a | a in Addresses(prefix) ensures a in Addresses(ds) {
      var i :| 0 <= i < |prefix| && prefix[i].address == a;
      assert ds[i] == prefix[i];
    }
  }

  /** After a list, every address of it is recorded at a time no older than any of its devices. */
  lemma {:induction false} ScanCovers(times: map<byte, int>, ds: seq<Device>)
    ensures var r := ScanDevices(times, ds).times;
      forall i :: 0 <= i < |ds| ==> ds[i].address in r && ds[i].updateTime <= r[ds[i].address]
  {
    if |ds| > 0 {
      var prefix := ds[..|ds| - 1];
      ScanCovers(times, prefix);
      var mid := ScanDevices(times, prefix).times;
      forall i | 0 <= i < |ds| - 1
        ensures ds[i].address in ScanDevices(times, ds).times
        ensures ds[i].updateTime <= ScanDevices(times, ds).times[ds[i].address]
      {
        assert prefix[i] == ds[i];
      }
    }
  }

  /** A list whose devices are all already covered passes nothing and changes nothing. */
  lemma {:induction false} ScanCoveredIsNoop(times: map<byte, int>, ds: seq<Device>)
    requires forall i :: 0 <= i < |ds| ==> ds[i].address in times && ds[i].updateTime <= times[ds[i].address]
    ensures ScanDevices(times, ds) == Scan(times, seq(|ds|, _ => false))
  {
    if |ds| > 0 {
      var prefix := ds[..|ds| - 1];
      ScanCoveredIsNoop(times, prefix);
      assert seq(|prefix|, _ => false) + [false] == seq(|ds|, _ => false);
    }
  }

  /** Delivering the same device list a second time passes none of its devices. */
  lemma Redelivery(times: map<byte, int>, ds: seq<Device>)
    ensures var once := ScanDevices(times, ds);
      ScanDevices(once.times, ds) == Scan(once.times, seq(|ds|, _ => false))
  {
    ScanCovers(times, ds);
    ScanCoveredIsNoop(ScanDevices(times, ds).times, ds);
  }

  /** Within one list, a later device with the same address and no newer time is skipped. */
  lemma DuplicateSkipped(times: map<byte, int>, ds: seq<Device>, i: nat, j: nat)
    requires i < j < |ds|
    requires ds[i].address == ds[j].address && ds[j].updateTime <= ds[i].updateTime
    ensures !ScanDevices(times, ds).passed[j]
  {
    ScanFreshAt(times, ds, j);
    ScanCovers(times, ds[..j]);
    assert ds[..j][i] == ds[i];
  }

  /** Exactly the passed devices that `keep` selects are selected. */
  lemma {:induction false} SelectMembers(ds: seq<Device>, passed: seq<bool>, keep: Device -> bool, d: Device)
    requires |passed| == |ds|
    ensures d in Select(ds, passed, keep) <==> exists i :: 0 <= i < |ds| && passed[i] && ds[i] == d && keep(d)
  {
    if |ds| > 0 {
      var n := |ds| - 1;
      SelectMembers(ds[..n], passed[..n], keep, d);
      if exists i :: 0 <= i < |ds| && passed[i] && ds[i] == d && keep(d) {
        var i :| 0 <= i < |ds| && passed[i] && ds[i] == d && keep(d);
        if i < n { assert ds[..n][i] == ds[i] && passed[..n][i] == passed[i]; }
      }
      if exists i :: 0 <= i < n && passed[..n][i] && ds[..n][i] == d && keep(d) {
        var i :| 0 <= i < n && passed[..n][i] && ds[..n][i] == d && keep(d);
        assert ds[i] == d && passed[i];
      }
    }
  }

  /** What the consumer prints and logs: passed devices with quality above zero, and at `SAVE_ADDRESS`. */
  lemma PrintedAndLogged(times: map<byte, int>, ds: seq<Device>, d: Device)
    ensures var s := ScanDevices(times, ds);
      && (d in Select(ds, s.passed, ShouldPrint) <==> exists i :: 0 <= i < |ds| && s.passed[i] && ds[i] == d && d.q > 0)
      && (d in Select(ds, s.passed, ShouldLog) <==> exists i :: 0 <= i < |ds| && s.passed[i] && ds[i] == d && d.address == SAVE_ADDRESS)
  {
    var s := ScanDevices(times, ds);
    SelectMembers(ds, s.passed, ShouldPrint, d);
    SelectMembers(ds, s.passed, ShouldLog, d);
  }
}
