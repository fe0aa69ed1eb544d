# marvelmind-rs core, modelled in Dafny

This project models the decoding and roster-maintenance layer of the Marvelmind
indoor-positioning API wrapper (`src/lib.rs`), plus the freshness filter of its
example consumer (`example/mmtest.rs`).

- **Binary layout decoding** (`layout.dfy`, `little_endian.dfy`). The roster buffer
  (`MMDeviceList`) has one count byte and then 256 packed 9-byte `MMDevice` records,
  2305 bytes in all. The locations buffer (`MMLastLocations`) has six packed 20-byte
  `MMCoordinate` records and a 263-byte reserved trailer, 383 bytes in all. Both are
  read by a total, bounds-checked parser that fails with `MalformedBuffer` on a wrong
  length, and they are proved to decode at the exact length. Little-endian `I32`
  fields decode to their two's-complement value; encoding and decoding are proved
  inverse both ways. Decoding undoes encoding for both buffers. Reserved bytes are
  skipped by offset.
- **Device-type registry** (`device_type.dfy`). `DeviceType::try_from` is a
  15-entry table; the inverse `TypeId` shows that it is injective and exact.
- **Error classifier** (`errors.dfy`). This is the `match` of `get_last_error`, with
  the result of the error query taken as input.
- **Roster** (`devices.dfy`, `roster.dfy`). `get_device_list` builds one `Device` per
  active record, in order. The `DeviceList` class holds the device sequence.
  `update_last_locations` is a nested loop that overwrites devices in place. It is
  proved equal to the merge specification in `location_merge.dfy`, which also holds
  that specification's lemmas (last valid slot wins, idempotence, identity fields
  untouched, quality bound).
- **Consumer filter** (`save_locations.dfy`). `save_locations` keeps a per-address
  high-water map of update times. It lets a device through only when the device's
  time is strictly newer, then picks the devices to print (`q > 0`) and to log
  (address 11).

Foreign calls are parameters: the success flag a call returned, the byte buffer it
filled, the outcome of the follow-up error query (success flag and code) and the
clock reading. Timestamps are integers, and `UNIX_EPOCH` is 0. Bytes are the subset
type `byte` of `int`; `i32` and `u32` are subset types with their two's-complement
ranges.

The model follows the code where its behaviour differs from what such a layer is usually expected to do:
- The code's coordinate record is 20 bytes: the two reserved `u8`s and the `U16` at
  offsets 16-19 are included. It is not 17 bytes.
- The merge compares no timestamps. Every slot with the device's address and
  `q <= 100` overwrites the device, and the last such slot in index order wins.
- Replaying the same locations buffer at the same time leaves the roster as it was
  after one merge. It returns `true` again whenever the first merge did; it does not
  return `false`.
- An unknown type id aborts the roster build, which is modelled as
  `UnsupportedDeviceType(id)`. There is no relaxed "unknown" variant.
- The per-device "timestamps never decrease" rule holds only when the clock does not
  go backwards (`MergeRosterTimesAdvance`).

## Model

| member | source | states |
|---|---|---|
| LittleEndian.DecodeI32 | src/lib.rs:118-120 | an `I32` field is the two's-complement value of its 4 little-endian bytes; it is negative exactly when the top bit of byte 3 is set |
| LittleEndian.DecodeEncodeI32 | src/lib.rs:118-120 | decoding the encoding of any int32 value gives the value back |
| LittleEndian.EncodeDecodeI32 | src/lib.rs:118-120 | encoding the value of any 4 bytes gives the same bytes back |
| LittleEndian.UnsignedOfToBytes | src/lib.rs:118-120 | the little-endian value of the n-byte encoding of a number below 256^n is that number |
| LittleEndian.ToBytesOfUnsigned | src/lib.rs:118-120 | re-encoding the little-endian value of a byte string at its length gives the string back |
| Layout.EncodeDevice | src/lib.rs:89-101 | a roster record is 9 bytes, and decoding its encoding gives the record back |
| Layout.DecodeDeviceList | src/lib.rs:82-101 | decoding succeeds exactly on 2305-byte buffers, else `MalformedBuffer(2305, len)`; `num` is byte 0, `num` < 256 records; record i's fields sit at offset 1+9i (+0..+6, +8; +7 skipped) |
| Layout.DecodeEncodeDeviceList | src/lib.rs:82-101 | decoding an encoded roster buffer gives back the count and all 256 records |
| Layout.DecodeLastLocations | src/lib.rs:103-126 | decoding succeeds exactly on 383-byte buffers, else `MalformedBuffer(383, len)`; six slots; slot i has address at 20i, x/y/z as `I32` at 20i+2/+6/+10, q at 20i+15; bytes +1, +14, +16..+19 and the trailer are skipped |
| Layout.DecodeEncodeCoordinate | src/lib.rs:113-126 | decoding an encoded 20-byte coordinate record gives the record back |
| Layout.DecodeEncodeLastLocations | src/lib.rs:103-126 | decoding an encoded locations buffer gives back the six slots, whatever the 263 trailer bytes hold |
| DeviceTypes.TypeId | src/lib.rs:311-327 | every model's id is one of the fifteen known ids |
| DeviceTypes.TryFrom | src/lib.rs:308-331 | succeeds exactly on {22,23,24,30,31,32,36,37,41,42,43,44,45,46,48}, naming the model whose id it is; every other byte gives the error "Unspecific device type id" |
| DeviceTypes.TryFromTypeId | src/lib.rs:311-327 | every model is recognised from its own id |
| DeviceTypes.TypeIdInjective | src/lib.rs:311-327 | distinct models have distinct ids |
| DeviceTypes.TryFromExamples | src/lib.rs:316-328 | id 30 is `BeaconHwV49`; id 99 is rejected |
| Errors.ErrorCode | src/lib.rs:338-343 | exactly `UnknownError` has no code of its own |
| Errors.GetLastError | src/lib.rs:333-346 | a failed query gives `UnknownError`; after a successful one the result is `UnknownError` iff the code is not 1, 2 or 3, and otherwise the error whose code it is |
| Errors.GetLastErrorOfCode | src/lib.rs:338-342 | every specific error is recovered from its code by a successful query |
| Roster.BuildDevices | src/lib.rs:408-432 | succeeds iff the first `num` type ids are known. On success there are exactly `num` devices in buffer order: address and version bytes verbatim, flags read as `!= 0`, connected = bit 0 of `flags`, type resolved, x=y=z=q=0, one shared time. On failure the error names the first unknown id |
| Roster.GetDeviceList | src/lib.rs:398-435 | a failed roster call gives the classified API error; otherwise the result is `BuildDevices` on the decoded buffer, wrapped in a fresh `DeviceList`, with every quality within 0..100 |
| Roster.DeviceList.constructor | src/lib.rs:434 | the list holds exactly the given devices |
| Roster.DeviceList.UpdateLastLocations | src/lib.rs:144-172 | a failed locations call returns the classified error and leaves the roster untouched; otherwise the roster becomes `MergeRoster` of the old roster and the decoded slots at the given time, and the result is `true` iff some device has a slot with its address and `q <= 100` |
| LocationMerge.ApplySlots | src/lib.rs:159-167 | applying slots to a device changes none of its address, flags, versions, type or connected flag |
| LocationMerge.LastValidSlot | src/lib.rs:159-160 | gives the index of the last slot with the address and `q <= 100`, or none exactly when no such slot exists |
| LocationMerge.ApplySlotsIsLastValid | src/lib.rs:159-166 | a device with no valid slot is unchanged; otherwise its x, y, z and q come from its last valid slot and its time is the merge time |
| LocationMerge.ApplySlotsOnlyAccepted | src/lib.rs:160 | slots with another address or `q > 100` do not influence a device |
| LocationMerge.ApplySlotsIdempotent | src/lib.rs:159-166 | applying the same slots at the same time twice equals applying them once |
| LocationMerge.MergeRoster | src/lib.rs:157-169 | the merged roster has the same length and order, and each device keeps its identity fields |
| LocationMerge.MergeRosterAt | src/lib.rs:157-169 | device i of the merged roster is itself when it has no valid slot, else it is overwritten by its last valid slot at the merge time |
| LocationMerge.MergeRosterWithoutUpdate | src/lib.rs:153-171 | when the merge reports no update, the roster is unchanged |
| LocationMerge.MergeRosterIdempotent | src/lib.rs:143-171 | a second merge of the same slots at the same time leaves the roster of one merge, and reports an update exactly when the first did |
| LocationMerge.MergeRosterQualityBounded | src/lib.rs:160-164 | if every quality is within 0..100 before a merge, it still is after |
| LocationMerge.MergeRosterTimesAdvance | src/lib.rs:146-165 | if the merge time is no earlier than every device's time, no device's time decreases and none passes the merge time |
| SaveLocations.Step | example/mmtest.rs:31-42 | a device passes iff its time is strictly newer than the recorded time for its address (the epoch when unseen). On a pass its time is recorded; otherwise the address is recorded at its old time or at the epoch, and a seen address leaves the map unchanged. No other key changes |
| SaveLocations.Saver.constructor | example/mmtest.rs:22 | the high-water map starts empty |
| SaveLocations.Saver.SaveDeviceList | example/mmtest.rs:29-75 | the map becomes that of scanning the list in order, and the printed and logged devices are the passed ones with `q > 0` and with address 11 (`SAVE_ADDRESS`), in list order |
| SaveLocations.ScanFreshAt | example/mmtest.rs:36-42 | device i passes iff its time is strictly newer than what the devices before it left recorded for its address |
| SaveLocations.ScanMonotone | example/mmtest.rs:32-41 | recorded times never decrease; keys are only added, and the added keys are exactly the addresses of the received devices |
| SaveLocations.ScanCovers | example/mmtest.rs:36-41 | after a list, each of its addresses is recorded at a time no older than any of the list's devices |
| SaveLocations.ScanCoveredIsNoop | example/mmtest.rs:38-39 | a list whose devices are all already covered passes none and leaves the map unchanged |
| SaveLocations.Redelivery | example/mmtest.rs:36-40 | delivering the same list a second time passes none of its devices |
| SaveLocations.DuplicateSkipped | example/mmtest.rs:38-39 | within one list, a later device with the same address and no newer time is skipped |
| SaveLocations.SelectMembers | example/mmtest.rs:44-55 | a device is selected iff it is at a passed position and the selection predicate holds for it |
| SaveLocations.PrintedAndLogged | example/mmtest.rs:19-55 | a device is printed iff it passed and has `q > 0`; it is logged iff it passed and its address is 11 |

## Left out

- The `extern "C"` declarations and the calls through them (`src/lib.rs:47-56`) are foreign code. Their success flags, filled buffers and error codes are parameters.
- `api_version` and `close_port` (`src/lib.rs:349-394`) are thin wrappers over foreign calls. Their only logic is the error classification, which is modelled.
- `open_port` and its retry loop (`src/lib.rs:365-384`) are left out: the loop is wall-clock timing and `sleep`.
- `SystemTime::now()` is left out; clock readings are integer parameters.
- `impl fmt::Display for MMError` (`src/lib.rs:71-80`) is left out; it is a table of message strings.
- The `zerocopy` reinterpretation of memory is replaced by the explicit parser. Aliasing of the caller's buffer is not modelled; decoded values are copied out.
- The reserved fields are skipped by offset and never decoded: `_firmware_option`, `_head_index`, `_status_flag`, `_tbd0`, `_tbd1`, `_tbd2`, `_is_new`, `_tbd`, `_size_payload` and `_payload`.
- `DeviceList::devices` is a plain getter (`Roster.DeviceList.Devices`), with nothing to prove.
- The example's `main`, the channel and the consumer thread are left out as concurrency and wiring. So is the outer `recv` loop of `save_locations` (`example/mmtest.rs:24-28`, `79-104`). Each received list is one call of `SaveDeviceList` on a `Saver` object, and the object keeps the map between calls.
- Printing, float formatting, file creation and file writes (`example/mmtest.rs:45-52`, `56-73`, `90-91`) are I/O. They become the returned sequences of devices to print and to log.
- `duration_since(UNIX_EPOCH).as_millis()` is left out, because timestamps are already integers.
