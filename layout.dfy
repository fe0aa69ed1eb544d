/**
 * The packed, unaligned C layouts the positioning API fills in (`MMDeviceList`,
 * `MMDevice`, `MMLastLocations`, `MMCoordinate`), read by an explicit,
 * bounds-checked parser instead of a reinterpretation of memory.
 * Reserved bytes are skipped by offset and never exposed.
 */
module Layout {
  import opened Wrappers
  import opened LittleEndian

  /** `u8::MAX + 1` roster records follow the count byte. */
  const MAX_DEVICES: nat := 256
  const DEVICE_SIZE: nat := 9
  const DEVICE_LIST_SIZE: nat := 1 + MAX_DEVICES * DEVICE_SIZE

  const COORDINATE_COUNT: nat := 6
  const COORDINATE_SIZE: nat := 20
  /** `_is_new`, `_tbd[5]`, `_size_payload` and `_payload[256]` after the six coordinates. */
  const LOCATIONS_TRAILER_SIZE: nat := 1 + 5 + 1 + 256
  const LAST_LOCATIONS_SIZE: nat := COORDINATE_COUNT * COORDINATE_SIZE + LOCATIONS_TRAILER_SIZE

  datatype DecodeError = MalformedBuffer(expected: nat, actual: nat)

  /** One roster record; `_firmware_option` (offset 7) is reserved. */
  datatype MMDevice = MMDevice(
    address: byte, isDuplicated: byte, isSleeping: byte,
    vMajor: byte, vMinor: byte, vSecond: byte,
    typeId: byte, flags: byte)

  datatype MMDeviceList = MMDeviceList(num: byte, devices: seq<MMDevice>)

  /** One location slot; `_head_index`, `_status_flag` and the trailing `_tbd` bytes are reserved. */
  datatype MMCoordinate = MMCoordinate(address: byte, x: i32, y: i32, z: i32, q: byte)

  datatype MMLastLocations = MMLastLocations(coordinates: seq<MMCoordinate>)

  // ---------------------------------------------------------------------------
  // Byte strings made of fixed-width records

  function Concat(blocks: seq<seq<byte>>): (s: seq<byte>)
  {
    if |blocks| == 0 then [] else blocks[0] + Concat(blocks[1..])
  }

  ghost predicate AllOfWidth(blocks: seq<seq<byte>>, w: nat)
  {
    forall k :: 0 <= k < |blocks| ==> |blocks[k]| == w
  }

  lemma {:induction false} ConcatLength(blocks: seq<seq<byte>>, w: nat)
    requires AllOfWidth(blocks, w)
    ensures |Concat(blocks)| == w * |blocks|
  {
    if |blocks| > 0 {
      ConcatLength(blocks[1..], w);
      assert w * |blocks| == w + w * (|blocks| - 1);
    }
  }

  lemma {:induction false} ConcatAppend(a: seq<seq<byte>>, b: seq<seq<byte>>)
    ensures Concat(a + b) == Concat(a) + Concat(b)
  {
    if |a| > 0 {
      assert (a + b)[1..] == a[1..] + b;
      ConcatAppend(a[1..], b);
    } else {
      assert a + b == b;
    }
  }

  /** Record `i` of a concatenation of `w`-byte records occupies bytes `w*i .. w*i + w`. */
  lemma ConcatSlice(blocks: seq<seq<byte>>, w: nat, i: nat)
    requires AllOfWidth(blocks, w)
    requires i < |blocks|
    ensures w * i + w <= |Concat(blocks)|
    ensures Concat(blocks)[w * i .. w * i + w] == blocks[i]
  {
    var before, after := blocks[..i], blocks[i + 1..];
    assert blocks == before + ([blocks[i]] + after);
    ConcatAppend(before, [blocks[i]] + after);
    ConcatAppend([blocks[i]], after);
    var single: seq<seq<byte>> := [blocks[i]];
    assert Concat(single) == blocks[i] by { assert single[1..] == []; }
    ConcatLength(before, w);
    assert |before| == i;
  }

  lemma SliceOfSlice(buf: seq<byte>, off: nat, n: nat, lo: nat, len: nat)
    requires off + n <= |buf| && lo + len <= n
    ensures buf[off .. off + n][lo .. lo + len] == buf[off + lo .. off + lo + len]
  {
    var a, b := buf[off .. off + n][lo .. lo + len], buf[off + lo .. off + lo + len];
    assert |a| == |b|;
    forall k | 0 <= k < len
      ensures a[k] == b[k]
    {
      assert a[k] == buf[off .. off + n][lo + k] == buf[off + lo + k];
    }
  }

  // ---------------------------------------------------------------------------
  // Roster buffer: count byte, then MAX_DEVICES 9-byte records starting at offset 1

  function DeviceOffset(i: nat): nat
  {
    1 + DEVICE_SIZE * i
  }

  function DecodeDevice(rec: seq<byte>): MMDevice
    requires |rec| == DEVICE_SIZE
  {
    MMDevice(rec[0], rec[1], rec[2], rec[3], rec[4], rec[5], rec[6], rec[8])
  }

  /** A record with a zero reserved byte; decoding gives the record back. */
  function EncodeDevice(d: MMDevice): (rec: seq<byte>)
    ensures |rec| == DEVICE_SIZE && DecodeDevice(rec) == d
  {
    [d.address, d.isDuplicated, d.isSleeping, d.vMajor, d.vMinor, d.vSecond, d.typeId, 0, d.flags]
  }

  /** Where each field of a roster record sits when the record starts at `off`. */
  ghost predicate DeviceAt(d: MMDevice, buf: seq<byte>, off: nat)
    requires off + DEVICE_SIZE <= |buf|
  {
    && d.address == buf[off]
    && d.isDuplicated == buf[off + 1]
    && d.isSleeping == buf[off + 2]
    && d.vMajor == buf[off + 3]
    && d.vMinor == buf[off + 4]
    && d.vSecond == buf[off + 5]
    && d.typeId == buf[off + 6]
    && d.flags == buf[off + 8]
  }

  ghost predicate WellFormedDeviceList(l: MMDeviceList)
  {
    |l.devices| == MAX_DEVICES
  }

  function DecodeDeviceList(buf: seq<byte>): (r: Result<MMDeviceList, DecodeError>)
    ensures r.Ok? <==> |buf| == DEVICE_LIST_SIZE
    ensures r.Err? ==> r.error == MalformedBuffer(DEVICE_LIST_SIZE, |buf|)
    ensures r.Ok? ==> WellFormedDeviceList(r.value) && r.value.num == buf[0]
    ensures r.Ok? ==> r.value.num < |r.value.devices|
    ensures r.Ok? ==> forall i :: 0 <= i < MAX_DEVICES ==> DeviceAt(r.value.devices[i], buf, DeviceOffset(i))
  {
    if |buf| != DEVICE_LIST_SIZE then
      Err(MalformedBuffer(DEVICE_LIST_SIZE, |buf|))
    else
      Ok(MMDeviceList(buf[0], seq(MAX_DEVICES, i requires 0 <= i < MAX_DEVICES =>
        DecodeDevice(buf[DeviceOffset(i) .. DeviceOffset(i) + DEVICE_SIZE]))))
  }

  function EncodeDeviceList(l: MMDeviceList): (buf: seq<byte>)
    requires WellFormedDeviceList(l)
  {
    [l.num] + Concat(seq(MAX_DEVICES, i requires 0 <= i < MAX_DEVICES => EncodeDevice(l.devices[i])))
  }

  lemma DecodeEncodeDeviceList(l: MMDeviceList)
    requires WellFormedDeviceList(l)
    ensures DecodeDeviceList(EncodeDeviceList(l)) == Ok(l)
  {
    var blocks := seq(MAX_DEVICES, i requires 0 <= i < MAX_DEVICES => EncodeDevice(l.devices[i]));
    var buf := EncodeDeviceList(l);
    assert buf == [l.num] + Concat(blocks);
    ConcatLength(blocks, DEVICE_SIZE);
    var r := DecodeDeviceList(buf);
    forall i | 0 <= i < MAX_DEVICES
      ensures r.value.devices[i] == l.devices[i]
    {
      ConcatSlice(blocks, DEVICE_SIZE, i);
      assert buf[DeviceOffset(i) .. DeviceOffset(i) + DEVICE_SIZE]
          == Concat(blocks)[DEVICE_SIZE * i .. DEVICE_SIZE * i + DEVICE_SIZE];
    }
    assert r.value.devices == l.devices;
  }

  // ---------------------------------------------------------------------------
  // Locations buffer: six 20-byte coordinate records starting at offset 0, then a trailer

  function CoordinateOffset(i: nat): nat
  {
    COORDINATE_SIZE * i
  }

  function DecodeCoordinate(rec: seq<byte>): MMCoordinate
    requires |rec| == COORDINATE_SIZE
  {
    MMCoordinate(rec[0], DecodeI32(rec[2..6]), DecodeI32(rec[6..10]), DecodeI32(rec[10..14]), rec[15])
  }

  lemma DecodeCoordinateAt(buf: seq<byte>, off: nat)
    requires off + COORDINATE_SIZE <= |buf|
    ensures CoordinateAt(DecodeCoordinate(buf[off .. off + COORDINATE_SIZE]), buf, off)
  {
    SliceOfSlice(buf, off, COORDINATE_SIZE, 2, I32_SIZE);
    SliceOfSlice(buf, off, COORDINATE_SIZE, 6, I32_SIZE);
    SliceOfSlice(buf, off, COORDINATE_SIZE, 10, I32_SIZE);
  }

  /** A record with zero reserved bytes. */
  function EncodeCoordinate(c: MMCoordinate): (rec: seq<byte>)
    ensures |rec| == COORDINATE_SIZE
  {
    [c.address, 0] + EncodeI32(c.x) + EncodeI32(c.y) + EncodeI32(c.z) + [0, c.q, 0, 0, 0, 0]
  }

  lemma DecodeEncodeCoordinate(c: MMCoordinate)
    ensures DecodeCoordinate(EncodeCoordinate(c)) == c
  {
    var rec := EncodeCoordinate(c);
    assert rec[2..6] == EncodeI32(c.x);
    assert rec[6..10] == EncodeI32(c.y);
    assert rec[10..14] == EncodeI32(c.z);
    DecodeEncodeI32(c.x);
    DecodeEncodeI32(c.y);
    DecodeEncodeI32(c.z);
  }

  /** Where each field of a coordinate record sits when the record starts at `off`. */
  ghost predicate CoordinateAt(c: MMCoordinate, buf: seq<byte>, off: nat)
    requires off + COORDINATE_SIZE <= |buf|
  {
    && c.address == buf[off]
    && c.x == DecodeI32(buf[off + 2 .. off + 6])
    && c.y == DecodeI32(buf[off + 6 .. off + 10])
    && c.z == DecodeI32(buf[off + 10 .. off + 14])
    && c.q == buf[off + 15]
  }

  ghost predicate WellFormedLastLocations(l: MMLastLocations)
  {
    |l.coordinates| == COORDINATE_COUNT
  }

  function DecodeLastLocations(buf: seq<byte>): (r: Result<MMLastLocations, DecodeError>)
    ensures r.Ok? <==> |buf| == LAST_LOCATIONS_SIZE
    ensures r.Err? ==> r.error == MalformedBuffer(LAST_LOCATIONS_SIZE, |buf|)
    ensures r.Ok? ==> WellFormedLastLocations(r.value)
    ensures r.Ok? ==> forall i :: 0 <= i < COORDINATE_COUNT ==>
      CoordinateAt(r.value.coordinates[i], buf, CoordinateOffset(i))
  {
    if |buf| != LAST_LOCATIONS_SIZE then
      Err(MalformedBuffer(LAST_LOCATIONS_SIZE, |buf|))
    else
      assert forall i :: 0 <= i < COORDINATE_COUNT ==>
        CoordinateAt(DecodeCoordinate(buf[CoordinateOffset(i) .. CoordinateOffset(i) + COORDINATE_SIZE]), buf, CoordinateOffset(i))
      by {
        forall i | 0 <= i < COORDINATE_COUNT {
          DecodeCoordinateAt(buf, CoordinateOffset(i));
        }
      }
      Ok(MMLastLocations(seq(COORDINATE_COUNT, i requires 0 <= i < COORDINATE_COUNT =>
        DecodeCoordinate(buf[CoordinateOffset(i) .. CoordinateOffset(i) + COORDINATE_SIZE]))))
  }

  /** The six records followed by whatever the trailer holds. */
  function EncodeLastLocations(l: MMLastLocations, trailer: seq<byte>): (buf: seq<byte>)
    requires WellFormedLastLocations(l) && |trailer| == LOCATIONS_TRAILER_SIZE
  {
    Concat(seq(COORDINATE_COUNT, i requires 0 <= i < COORDINATE_COUNT => EncodeCoordinate(l.coordinates[i])))
      + trailer
  }

  lemma DecodeEncodeCoordinateAt(l: MMLastLocations, trailer: seq<byte>, i: nat)
    requires WellFormedLastLocations(l) && |trailer| == LOCATIONS_TRAILER_SIZE
    requires i < COORDINATE_COUNT
    ensures |EncodeLastLocations(l, trailer)| == LAST_LOCATIONS_SIZE
    ensures var buf := EncodeLastLocations(l, trailer);
      DecodeCoordinate(buf[CoordinateOffset(i) .. CoordinateOffset(i) + COORDINATE_SIZE]) == l.coordinates[i]
  {
    var blocks := seq(COORDINATE_COUNT, k requires 0 <= k < COORDINATE_COUNT => EncodeCoordinate(l.coordinates[k]));
    var buf := EncodeLastLocations(l, trailer);
    assert buf == Concat(blocks) + trailer;
    ConcatLength(blocks, COORDINATE_SIZE);
    ConcatSlice(blocks, COORDINATE_SIZE, i);
    assert buf[CoordinateOffset(i) .. CoordinateOffset(i) + COORDINATE_SIZE]
        == Concat(blocks)[COORDINATE_SIZE * i .. COORDINATE_SIZE * i + COORDINATE_SIZE];
    DecodeEncodeCoordinate(l.coordinates[i]);
  }

  /** Decoding undoes encoding, whatever the reserved trailer holds. */
  lemma DecodeEncodeLastLocations(l: MMLastLocations, trailer: seq<byte>)
    requires WellFormedLastLocations(l) && |trailer| == LOCATIONS_TRAILER_SIZE
    ensures DecodeLastLocations(EncodeLastLocations(l, trailer)) == Ok(l)
  {
    var buf := EncodeLastLocations(l, trailer);
    DecodeEncodeCoordinateAt(l, trailer, 0);
    var r := DecodeLastLocations(buf);
    forall i | 0 <= i < COORDINATE_COUNT
      ensures r.value.coordinates[i] == l.coordinates[i]
    {
      DecodeEncodeCoordinateAt(l, trailer, i);
    }
    assert r.value.coordinates == l.coordinates;
  }
}
