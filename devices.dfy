/** The decoded, mutable device record (`Device`) and how a roster record initialises it. */
module Devices {
  import opened Wrappers
  import opened LittleEndian
  import opened Layout
  import opened DeviceTypes

  /** Timestamps are integer instants; `UNIX_EPOCH` is instant 0. */
  const UNIX_EPOCH: int := 0

  datatype Device = Device(
    address: byte,
    isDuplicated: bool,
    isSleeping: bool,
    vMajor: byte,
    vMinor: byte,
    vSecond: byte,
    dtype: DeviceType,
    isConnected: bool,
    x: i32,
    y: i32,
    z: i32,
    q: byte,
    updateTime: int)

  /** Bit 0 of a roster record's status flags: the device has a confirmed connection. */
  predicate ConnectedBit(flags: byte)
  {
    (flags as bv8) & 1 > 0
  }

  /**
   * `d` is the device a roster record describes, before any location update:
   * identity bytes copied verbatim, flag bytes read as "non-zero", the type id
   * resolved, the connection bit extracted, position and quality zero, and the
   * build's timestamp.
   */
  ghost predicate BuiltFrom(d: Device, raw: MMDevice, t: int)
  {
    && d.address == raw.address
    && d.isDuplicated == (raw.isDuplicated != 0)
    && d.isSleeping == (raw.isSleeping != 0)
    && d.vMajor == raw.vMajor
    && d.vMinor == raw.vMinor
    && d.vSecond == raw.vSecond
    && TryFrom(raw.typeId) == Ok(d.dtype)
    && d.isConnected == ConnectedBit(raw.flags)
    && d.x == 0 && d.y == 0 && d.z == 0 && d.q == 0
    && d.updateTime == t
  }

  /** Everything a location update must leave alone: all but position, quality and time. */
  ghost predicate SameIdentity(a: Device, b: Device)
  {
    && a.address == b.address
    && a.isDuplicated == b.isDuplicated
    && a.isSleeping == b.isSleeping
    && a.vMajor == b.vMajor
    && a.vMinor == b.vMinor
    && a.vSecond == b.vSecond
    && a.dtype == b.dtype
    && a.isConnected == b.isConnected
  }

  ghost predicate QualityBounded(ds: seq<Device>)
  {
    forall i :: 0 <= i < |ds| ==> ds[i].q <= 100
  }
}
