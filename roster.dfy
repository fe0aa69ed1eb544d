/**
 * The device roster (`DeviceList`): built once from a roster buffer by
 * `get_device_list`, then updated in place by `update_last_locations`.
 * The foreign calls are parameters: the flag a call returned, the buffer it
 * filled, the outcome of the follow-up error query and the clock reading.
 */
module Roster {
  import opened Wrappers
  import opened LittleEndian
  import opened Layout
  import opened DeviceTypes
  import opened Errors
  import opened Devices
  import opened LocationMerge

  datatype BuildError =
    | ApiError(error: MMError)
    /** `get_device_list` panics on an unsupported type id; here that is a failure value. */
    | UnsupportedDeviceType(typeId: byte)

  ghost predicate KnownTypeAt(l: MMDeviceList, k: nat)
    requires k < |l.devices|
  {
    TryFrom(l.devices[k].typeId).Ok?
  }

  /** Every one of the first `num` records has a known type id. */
  ghost predicate AllTypesKnown(l: MMDeviceList)
    requires WellFormedDeviceList(l)
  {
    forall k :: 0 <= k < l.num ==> KnownTypeAt(l, k)
  }

  /** Record `k` is the first of the active records with an unknown type id. */
  ghost predicate FirstUnknownType(l: MMDeviceList, k: nat)
    requires WellFormedDeviceList(l)
  {
    k < l.num && !KnownTypeAt(l, k) && forall j :: 0 <= j < k ==> KnownTypeAt(l, j)
  }

  /** `ds` holds one device per active record, in buffer order. */
  ghost predicate BuiltRoster(ds: seq<Device>, l: MMDeviceList, t: int)
    requires WellFormedDeviceList(l)
  {
    |ds| == l.num && forall i :: 0 <= i < |ds| ==> BuiltFrom(ds[i], l.devices[i], t)
  }

  /**
   * The loop of `get_device_list`: the first `num` records in order, all stamped
   * with one time. It fails on the first record whose type id is unknown.
   */
  method BuildDevices(l: MMDeviceList, updateTime: int) returns (r: Result<seq<Device>, BuildError>)
    requires WellFormedDeviceList(l)
    ensures r.Ok? <==> AllTypesKnown(l)
    ensures r.Ok? ==> BuiltRoster(r.value, l, updateTime)
    ensures r.Err? ==> exists k: nat :: FirstUnknownType(l, k) && r.error == UnsupportedDeviceType(l.devices[k].typeId)
  {
    var devices: seq<Device> := [];
    for idx := 0 to l.num
      invariant |devices| == idx
      invariant forall i :: 0 <= i < idx ==> KnownTypeAt(l, i)
      invariant forall i :: 0 <= i < idx ==> BuiltFrom(devices[i], l.devices[i], updateTime)
    {
      var mmdevice := l.devices[idx];
      var dtype := TryFrom(mmdevice.typeId);
      if dtype.Err? {
        assert FirstUnknownType(l, idx);
        return Err(UnsupportedDeviceType(mmdevice.typeId));
      }
      var device := Device(
        mmdevice.address,
        mmdevice.isDuplicated != 0,
        mmdevice.isSleeping != 0,
        mmdevice.vMajor,
        mmdevice.vMinor,
        mmdevice.vSecond,
        dtype.value,
        ConnectedBit(mmdevice.flags),
        0, 0, 0, 0,
        updateTime);
      devices := devices + [device];
    }
    return Ok(devices);
  }

  /**
   * `get_device_list`: `res` is what the roster call returned, `pdata` the buffer
   * it filled, `errQueryOk`/`errId` the outcome of the error query and `now` the clock.
   */
  method GetDeviceList(res: bool, pdata: seq<byte>, errQueryOk: bool, errId: u32, now: int)
    returns (r: Result<DeviceList, BuildError>)
    requires |pdata| == DEVICE_LIST_SIZE
    ensures !res ==> r == Err(ApiError(GetLastError(errQueryOk, errId)))
    ensures res ==>
      var l := DecodeDeviceList(pdata).value;
      && (r.Ok? <==> AllTypesKnown(l))
      && (r.Ok? ==> fresh(r.value) && BuiltRoster(r.value.devices, l, now) && QualityBounded(r.value.devices))
      && (r.Err? ==> exists k: nat :: FirstUnknownType(l, k) && r.error == UnsupportedDeviceType(l.devices[k].typeId))
  {
    if !res {
      return Err(ApiError(GetLastError(errQueryOk, errId)));
    }
    var deviceList := DecodeDeviceList(pdata).value;
    var built := BuildDevices(deviceList, now);
    match built
    case Err(e) =>
      return Err(e);
    case Ok(devices) =>
      var list := new DeviceList(devices);
      return Ok(list);
  }

  class DeviceList {
    var devices: seq<Device>

    constructor (devices: seq<Device>)
      ensures this.devices == devices
    {
      this.devices := devices;
    }

    function Devices(): seq<Device>
      reads this
    {
      devices
    }

    /**
     * `update_last_locations`: `res` is what the locations call returned, `pdata`
     * the buffer it filled, `errQueryOk`/`errId` the error query, `updateTime`
     * the clock read before the call. On failure the roster is untouched; on
     * success every device takes its valid slots in order and the result says
     * whether any slot was taken.
     */
    method UpdateLastLocations(res: bool, pdata: seq<byte>, errQueryOk: bool, errId: u32, updateTime: int)
      returns (r: Result<bool, MMError>)
      requires |pdata| == LAST_LOCATIONS_SIZE
      modifies this
      ensures !res ==> r == Err(GetLastError(errQueryOk, errId)) && devices == old(devices)
      ensures res ==>
        var coords := DecodeLastLocations(pdata).value.coordinates;
        && r == Ok(AnyUpdate(old(devices), coords))
        && devices == MergeRoster(old(devices), coords, updateTime)
    {
      if !res {
        return Err(GetLastError(errQueryOk, errId));
      }
      var isUpdate := false;
      var lastLocations := DecodeLastLocations(pdata).value;
      ghost var before := devices;
      var coord := lastLocations.coordinates;
      for i := 0 to |devices|
        invariant |devices| == |before|
        invariant forall k :: 0 <= k < i ==> devices[k] == ApplySlots(before[k], coord, updateTime)
        invariant forall k :: i <= k < |before| ==> devices[k] == before[k]
        invariant isUpdate == AnyUpdate(before[..i], coord)
      {
        ghost var atStart := devices;
        for idx := 0 to |coord|
          invariant |devices| == |before|
          invariant devices[i] == ApplySlots(before[i], coord[..idx], updateTime)
          invariant forall k :: 0 <= k < |before| && k != i ==> devices[k] == atStart[k]
          invariant isUpdate == (AnyUpdate(before[..i], coord) || HasValidSlot(before[i].address, coord[..idx]))
        {
          ApplySlotsSnoc(before[i], coord, idx, updateTime);
          if coord[idx].address == devices[i].address && coord[idx].q <= 100 {
            devices := devices[i := devices[i].(
              x := coord[idx].x,
              y := coord[idx].y,
              z := coord[idx].z,
              q := coord[idx].q,
              updateTime := updateTime)];
            isUpdate := true;
          }
          HasValidSlotSnoc(before[i].address, coord, idx);
        }
        assert coord[..|coord|] == coord;
        AnyUpdateSnoc(before, coord, i);
      }
      assert before[..|before|] == before;
      return Ok(isUpdate);
    }
  }

  lemma ApplySlotsSnoc(d: Device, cs: seq<MMCoordinate>, n: nat, t: int)
    requires n < |cs|
    ensures ApplySlots(d, cs[..n + 1], t) == ApplySlot(ApplySlots(d, cs[..n], t), cs[n], t)
  {
    assert cs[..n + 1][..n] == cs[..n];
  }

  lemma HasValidSlotSnoc(address: byte, cs: seq<MMCoordinate>, n: nat)
    requires n < |cs|
    ensures HasValidSlot(address, cs[..n + 1]) == (HasValidSlot(address, cs[..n]) || Accepts(cs[n], address))
  {
    assert cs[..n + 1][n] == cs[n];
    if HasValidSlot(address, cs[..n + 1]) {
      var j :| 0 <= j < n + 1 && Accepts(cs[..n + 1][j], address);
      if j < n { assert cs[..n][j] == cs[j]; }
    }
    if HasValidSlot(address, cs[..n]) {
      var j :| 0 <= j < n && Accepts(cs[..n][j], address);
      assert cs[..n + 1][j] == cs[j];
    }
  }

  lemma AnyUpdateSnoc(ds: seq<Device>, cs: seq<MMCoordinate>, n: nat)
    requires n < |ds|
    ensures AnyUpdate(ds[..n + 1], cs) == (AnyUpdate(ds[..n], cs) || HasValidSlot(ds[n].address, cs))
  {
    assert ds[..n + 1][n] == ds[n];
    if AnyUpdate(ds[..n + 1], cs) {
      var k :| 0 <= k < n + 1 && HasValidSlot(ds[..n + 1][k].address, cs);
      if k < n { assert ds[..n][k] == ds[k]; }
    }
    if AnyUpdate(ds[..n], cs) {
      var k :| 0 <= k < n && HasValidSlot(ds[..n][k].address, cs);
      assert ds[..n + 1][k] == ds[k];
    }
  }
}
