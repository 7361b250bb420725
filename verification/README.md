# XREAL glasses driver: packet codec and sessions in Dafny

This project models the core of a TypeScript driver for XREAL glasses (Air, Air 2,
Air 2 Pro, Air 2 Ultra). The glasses expose two HID interfaces, and the model covers:

- the **MCU**, which controls the display. Its packet codec is modelled, along with the
  `mcuOpen` sequence, the listener for pushed events, and the display-mode poll and
  update.
- the **IMU**, the motion sensor. Its payload codec is modelled, along with the
  `imuOpen` sequence and the parser for its 64-byte data reports:
  - reading the static id, with its fixed fallback;
  - the segmented calibration download.

The integer readers of `pack.ts` are modelled, as are the product tables of `ids.ts` and
the report-id framing of `device.ts`.

Modules, in dependency order:

| module | file | models |
|---|---|---|
| `Wrappers` | wrappers.dfy | `Option` / `Result` |
| `ByteSeq` | bytes.dfy | bytes, out-of-range reads, `subarray`, zeroed buffers |
| `JsInt` | js_int.dfy | the JavaScript 32-bit operators `\|` `^` `&` `<<` `>>` `>>>` bit by bit |
| `Pack` | pack.dfy | `src/util/pack.ts`, little-endian field writing, the CRC-32 as a function type |
| `Ids` | ids.dfy | `src/hid/ids.ts` |
| `Device` | device.dfy | `normalizeInReport`, `writeOutReport`, `readTimeout` |
| `Discovery` | discovery.dfy | the device-selection loop shared by `imuOpen` and `mcuOpen` |
| `Text` | text.dfy | the `.replace(/\0+.*/, "")` clean-up of NUL-padded text |
| `McuPacket` | mcu_packet.dfy | `buildPacket` and the checks of `recvMessage` |
| `McuEvents` | mcu_events.dfy | the `data` listener of `mcuOpen` |
| `McuSession` | mcu_session.dfy | `mcuOpen`, `mcuPollDisplayMode`, `mcuUpdateDisplayMode` |
| `ImuPacket` | imu_packet.dfy | `buildPayload`, `sendSignal`, `sendAndRecv` |
| `ImuSample` | imu_sample.dfy | `parseImuDataPacket` |
| `ImuSession` | imu_session.dfy | `imuOpen` and its calibration loop |

### How the device is modelled

- **Reads.** A session is a finite list of raw incoming reports, one per
  `readTimeout` call and in order. `None`, or the end of the list, is a read that
  resolved to `null`: the event-based wait timed out or failed, or something threw.
  When the HID library's synchronous `readTimeout` times out, it returns an empty
  array. `readTimeout` passes that on as an empty `Uint8Array`, which is truthy, so
  that timeout is `Some([])`. For example, `sendSignal` then reports success, as
  `!!resp` does (`ImuPacket.SendSignal`).
- **Writes.** A session records the frames it wrote: the report id followed by the
  packet.
- **Device enumeration.** This is a list of `DeviceInfo` records.
- **CRC-32 and constants.**
  - The CRC-32 is a parameter of type `Bytes -> [0, 2^32)`, because `src/util/crc32.ts`
    is not part of this model.
  - The message ids, the MCU packet head and `MAX_PACKET_SIZE` are records of
    parameters (`McuConstants`, `ImuConstants`), because `./constants` is not part of
    this model either.
  - The MCU event listener assumes `McuConstants.Valid()`: the twelve MCU message ids
    are pairwise distinct and `MAX_PACKET_SIZE >= 31`, so byte 30 of a pushed report
    exists.

### Behaviour as coded

The model follows the code; in particular:

- **No incoming checksums.** The checksum of an incoming packet is never verified. The
  MCU checks the head byte, the message id and the status byte. The IMU checks only the
  echoed message id.
- **Reply lengths.**
  - An IMU reply shorter than the requested length is returned short, not refused
    (`ImuPacket.ParseImuReplyMayBeShort`).
  - The MCU refuses only a reply too short to hold 23 + n bytes. A longer reply is cut
    to its n data bytes (`McuPacket.ParseReply`).
- **Reads past the end.** A field read past the end of a buffer sees `undefined`, and
  the bitwise operators turn that into 0 (`ByteSeq.At`). So a reply to the 4-byte
  static-id request that echoes the id but carries no data gives static id 0, not the
  fallback (`ImuSession.StaticIdOfEmptyReply`). A reply with one to three data bytes
  reads as those bytes padded with zeros (`ImuSession.StaticId`).
- **Text trim.** The regular expression `/\0+.*/` removes from the first NUL to the end
  of that line only. Text after a line break survives (`Text.TrimStopsAtLineBreak`).
- **Report-id stripping.**
  - `normalizeInReport` drops a leading 0x00 only from reports of 65 bytes or more.
  - The MCU event listener gets raw reports. It drops one leading 0x00 from a report of
    any length.
- **Segment requests.** A segment request carries no offset. The calibration buffer
  is filled with `cal.set(seg, position)` and is then dropped. Only its effect on what
  is written is observable (`ImuSession.ImuOpenFetchesCalibration`).

## Model

| member | source | states |
|---|---|---|
| Device.NormalizeInReport | src/hid/device.ts:23-30 | the result is the report itself, or the report without its first byte; one byte is dropped exactly when the report is at least 65 bytes long and starts with 0x00 |
| Device.OutReport | src/hid/device.ts:32-38 | the written frame is one byte longer than the payload, starts with report id 0x00 and continues with the payload unchanged |
| Device.ReadTimeout | src/hid/device.ts:40-75 | a read yields a report exactly when one arrived, and what it yields is that report normalized |
| Device.ReadNth | src/hid/device.ts:40-75 | the i-th read of a session yields a report exactly when the i-th report arrived, normalized |
| Device.ReadNthRest | src/hid/device.ts:40-75 | reading after one read is reading one report further along; the first read is a plain read |
| Device.NormalizeUndoesOutReport | src/hid/device.ts:23-38 | a written frame of at least 65 bytes read back loses exactly its report id; a shorter one is left as it is |
| Device.NormalizeDropsOnePerPass | src/hid/device.ts:26-28 | normalizing is not idempotent: a long report opening with two zeros loses one byte per pass |
| Ids.TablesCoverProducts | src/hid/ids.ts:3-31 | each of the three tables has an entry for exactly the listed product ids |
| Ids.ImuInterfaceId | src/hid/ids.ts:37-39 | -1 exactly for unknown products, otherwise 3, or 2 exactly for the Air 2 Ultra |
| Ids.McuInterfaceId | src/hid/ids.ts:41-43 | -1 exactly for unknown products, otherwise 4, or 0 exactly for the Air 2 Ultra |
| Ids.ImuMaxPayloadSize | src/hid/ids.ts:45-47 | 0 exactly for unknown products, otherwise 64, or 512 exactly for the Air 2 Ultra |
| Ids.KnownProducts | src/hid/ids.ts:3-8 | the product list holds exactly 0x0424, 0x0428, 0x0432 and 0x0426 |
| Ids.TableEntries | src/hid/ids.ts:12-47 | the three lookups product by product, with the sentinels -1, -1 and 0 for every unknown id |
| Ids.TablesAreConsistent | src/hid/ids.ts:12-31 | on every known product the IMU and MCU interfaces are distinct and non-negative, and an IMU report is longer than its 8-byte header |
| Discovery.FindDevice | src/imu/imu.ts:62-68 | the index found matches (vendor 0x3318, a numeric known product, the table's interface), no earlier entry matches, and no index means no entry matches |
| Discovery.SelectDevice | src/imu/imu.ts:62-69 | the selected device is the first matching entry of the list (the one the search stops at), and it has a non-empty path and a known product id |
| Discovery.SelectedInterfaceIsTheTableEntry | src/mcu/mcu.ts:95-103 | a selected device has vendor 0x3318 and the interface the component's table names for its product |
| Discovery.SelectFailsOnlyWithoutUsableMatch | src/imu/imu.ts:63-69 | selection fails exactly when no entry matches or the first match has no path, even if a later entry would do |
| Text.TrimAtNul | src/mcu/mcu.ts:131 | the text before the first NUL is kept; text without a NUL is unchanged; text with one gets shorter |
| Text.TrimSingleLine | src/mcu/mcu.ts:131 | on text without line breaks the trim keeps exactly the part before the first NUL, leaves no NUL, and is idempotent |
| Text.TrimStopsAtLineBreak | src/mcu/mcu.ts:213 | only the line holding the first NUL is cut; everything after its line break is kept, NULs included |
| JsInt.AndLowByte | src/imu/imu.ts:29 | `x & 0xff` is x modulo 256 for every integer x, negative ones included |
| JsInt.XorHighBit | src/util/pack.ts:41 | `b ^ 0x80` on a byte flips its bit 7 |
| JsInt.AndHighBit | src/util/pack.ts:18 | `b & 0x80` on a byte is 0x80 when bit 7 is set and 0 otherwise |
| JsInt.OrTopByte | src/util/pack.ts:18 | `v \| 0xff000000` on a 24-bit value is the value minus 2^24, the sign extension from bit 23 |
| JsInt.ByteOfWord | src/mcu/mcu.ts:69-72 | `(x >> 8j) & 0xff` is byte j of the 32-bit image of x |
| Pack.Join16 | src/util/pack.ts:48 | `b0 \| (b1 << 8)` is b0 + 256·b1 |
| Pack.Join24 | src/util/pack.ts:17 | `b0 \| (b1 << 8) \| (b2 << 16)` is the unsigned little-endian sum |
| Pack.Join32 | src/util/pack.ts:27 | the four-byte or-chain is the little-endian sum wrapped to a signed 32-bit value |
| Pack.Join32Big | src/util/pack.ts:35 | the big-endian or-chain is the big-endian sum wrapped to a signed 32-bit value |
| Pack.SignExtend16 | src/util/pack.ts:4 | `(v << 16) >> 16` on a 16-bit value sign-extends it from bit 15 |
| Pack.U16le | src/util/pack.ts:45-49 | the value is in [0, 2^16) |
| Pack.U32le | src/util/pack.ts:51-57 | the value is in [0, 2^32) |
| Pack.U64le | src/util/pack.ts:59-63 | the value is in [0, 2^64) |
| Pack.I16le | src/util/pack.ts:1-5 | the value is in [-2^15, 2^15) |
| Pack.I16be | src/util/pack.ts:7-11 | the value is in [-2^15, 2^15) |
| Pack.I24le | src/util/pack.ts:13-20 | the value is in [-2^23, 2^23) |
| Pack.I32le | src/util/pack.ts:22-28 | the value is in [-2^31, 2^31) |
| Pack.I32be | src/util/pack.ts:30-36 | the value is in [-2^31, 2^31) |
| Pack.I16Bizarre | src/util/pack.ts:38-43 | the value is in [-2^15, 2^15) |
| Pack.U16leMatchesSource | src/util/pack.ts:45-49 | the JavaScript-operator reading equals the little-endian value of the two bytes |
| Pack.U32leMatchesSource | src/util/pack.ts:51-57 | the or-chain followed by `>>> 0` equals the unsigned little-endian value of the four bytes |
| Pack.U64leMatchesSource | src/util/pack.ts:59-63 | low word plus high word times 2^32 equals the unsigned little-endian value of the eight bytes |
| Pack.I16leMatchesSource | src/util/pack.ts:1-5 | the operator reading equals the little-endian value sign-extended from bit 15 |
| Pack.I16beMatchesSource | src/util/pack.ts:7-11 | the operator reading equals the big-endian value sign-extended from bit 15 |
| Pack.I24leMatchesSource | src/util/pack.ts:13-20 | the operator reading, with its conditional or of 0xff000000 and final `\| 0`, equals the little-endian value sign-extended from bit 23 |
| Pack.I32leMatchesSource | src/util/pack.ts:22-28 | the operator reading equals the little-endian value wrapped to signed 32 bits |
| Pack.I32beMatchesSource | src/util/pack.ts:30-36 | the operator reading equals the big-endian value wrapped to signed 32 bits |
| Pack.I16BizarreMatchesSource | src/util/pack.ts:38-43 | the operator reading, high byte xor 0x80 then sign-extended, equals the reference definition with bit 7 of the high byte flipped |
| Pack.I16beSwapped | src/util/pack.ts:7-11 | the big-endian reading is the little-endian reading of the two bytes swapped |
| Pack.I32beReversed | src/util/pack.ts:30-36 | the big-endian reading is the little-endian reading of the four bytes reversed |
| Pack.I32leIsWrappedUnsigned | src/util/pack.ts:22-28 | the signed 32-bit reading is the unsigned one, minus 2^32 when at least 2^31 |
| Pack.I16BizarreFlipsHighBit | src/util/pack.ts:38-43 | the folded reading is the ordinary signed reading after flipping bit 7 of the second byte |
| Pack.I16BizarreIsOffsetBinary | src/util/pack.ts:38-43 | the folded reading is the unsigned little-endian value minus 0x8000 (offset binary) |
| Pack.StoredWordBytes | src/mcu/mcu.ts:69-72 | the four bytes written as `(x >> 8j) & 0xff` are the little-endian bytes of x modulo 2^32 |
| Pack.StoredHalfWordBytes | src/mcu/mcu.ts:56-57 | the two bytes written as `x & 0xff`, `(x >> 8) & 0xff` are the little-endian bytes of x modulo 2^16 |
| Pack.RoundTrip16 | src/util/pack.ts:1-11 | writing a 16-bit value little-endian (offset by 0x8000 for the folded form, swapped for big-endian) and reading it back gives the value |
| Pack.RoundTrip24 | src/util/pack.ts:13-20 | writing a signed 24-bit value in three bytes and reading it back gives the value |
| Pack.RoundTrip32 | src/util/pack.ts:22-57 | writing a 32-bit value and reading it back as u32le, i32le or reversed as i32be gives the value |
| Pack.ShortRead32 | src/util/pack.ts:51-57 | a u32le read of fewer than four bytes sees zeros past the end: writing it back gives the bytes padded with zeros |
| Pack.LeBytesOfRead32 | src/util/pack.ts:22-57 | writing back a u32le or i32le reading reproduces the four bytes read |
| Pack.I24leExamples | src/util/pack.ts:13-20 | FF FF FF reads -1, 00 00 80 reads -2^23, FF FF 7F reads 2^23 - 1 |
| Pack.I16BizarreExamples | src/util/pack.ts:38-43 | the folded 00 80 reads 0 and FF 7F reads -1, while plain i16le of 00 80 reads -2^15 |
| Pack.Word32Examples | src/util/pack.ts:51-57 | four 0xFF bytes read 2^32 - 1 unsigned and -1 signed |
| McuPacket.BuildPacket | src/mcu/mcu.ts:46-75 | the packet is the 22-byte header followed by the data unchanged |
| McuPacket.BuildPacketLayout | src/mcu/mcu.ts:52-64 | head byte at 0, length field 17 + data length, zero timestamp, message id (mod 2^16) at 15, five zero reserved bytes |
| McuPacket.BuildPacketChecksum | src/mcu/mcu.ts:68-72 | the checksum field read as u32le is the CRC of bytes 5 onward of the finished packet |
| McuPacket.ParseReply | src/mcu/mcu.ts:81-88 | a reply is accepted exactly when it has the head byte, the expected message id at 15, status 0 at 22 and room for the expected data; the data is the bytes from 23 |
| McuPacket.ParseReplyOfBuiltPacket | src/mcu/mcu.ts:77-89 | a packet built with status 0 and some data parses back to that data under its own 16-bit message id |
| McuPacket.ParseReplyRejectsOtherMessage | src/mcu/mcu.ts:82-83 | a packet built for one message id is refused as the reply to any other id |
| McuPacket.ParseReplyRejectsFailureStatus | src/mcu/mcu.ts:85-86 | a packet whose status byte is non-zero is refused |
| McuEvents.PressButton | src/mcu/mcu.ts:183-210 | display toggle sets `active` from the value; brightness buttons store the value; every other code keeps the state and maps to its event or UNKNOWN; the event carries the resulting brightness |
| McuEvents.Dispatch | src/mcu/mcu.ts:167-221 | an event carries the brightness held after it; no event means no change; brightness changes only on a brightness press, `active` only on a screen switch, and then a screen event is emitted |
| McuEvents.StripReportId | src/mcu/mcu.ts:165-166 | the report is kept, or loses exactly one leading 0x00 |
| McuEvents.OnDataStripsOneZero | src/mcu/mcu.ts:164-166 | a report with a prepended 0x00 is dispatched without it; one starting with another byte is dispatched as is |
| McuEvents.DispatchIgnoresForeignReports | src/mcu/mcu.ts:167-168 | a report shorter than MAX_PACKET_SIZE or without the packet head changes nothing and emits nothing |
| McuEvents.DispatchHeartbeat | src/mcu/mcu.ts:175-176 | start and end heartbeats change nothing and emit nothing |
| McuEvents.DispatchDisplayToggled | src/mcu/mcu.ts:177-182 | `active` becomes data byte 0 != 0 and SCREEN_ON/OFF is emitted with the u32le timestamp at 7 and the unchanged brightness |
| McuEvents.DispatchButton | src/mcu/mcu.ts:183-210 | the button code at 26 and value at 30 give the exact state change and event for each code, UNKNOWN for unlisted codes |
| McuEvents.DispatchTextLog | src/mcu/mcu.ts:211-216 | a text log is emitted as a message holding the data cut at its first NUL, state unchanged |
| McuEvents.DispatchOtherMessage | src/mcu/mcu.ts:219-220 | any other message id emits UNKNOWN and changes nothing |
| McuEvents.Listen | src/mcu/mcu.ts:164-222 | at most one event per report; brightness is unchanged unless some report is a brightness press, `active` unless some report is a screen switch |
| McuSession.Request | src/mcu/mcu.ts:119-120 | a request frame is the report id, the 22-byte header and the data |
| McuSession.RecvMessage | src/mcu/mcu.ts:77-89 | the i-th read is accepted exactly when a report came and passes the head, message id, status and length checks; the data is bytes 23 to 23 + n of the normalized report, exactly n bytes |
| McuSession.Answered | src/mcu/mcu.ts:118-158 | the replies up to the first missing one, in order, and the reply after them is missing |
| McuSession.AnsweredStopsAt | src/mcu/mcu.ts:118-158 | when reply k is the first missing one, exactly k replies are used |
| McuSession.OpenRequests | src/mcu/mcu.ts:119-156 | the open sequence asks, in order, for activation time, MCU, DP and DSP firmware, brightness, display mode |
| McuSession.McuOpenSucceeds | src/mcu/mcu.ts:103-225 | a successful open selected an MCU device, reports its product id, starts with `active` false and the listener's brightness equal to the record's, and wrote all six requests |
| McuSession.McuOpenReadsSettings | src/mcu/mcu.ts:148-158 | brightness and display mode are byte 23 of the fifth and sixth replies (reads 5 and 6, after the discarded read 0) |
| McuSession.McuOpenReadsVersions | src/mcu/mcu.ts:126-146 | the three versions are bytes 23..64 of replies 2, 3 and 4, each cut at its first NUL |
| McuSession.McuOpenNoDevice | src/mcu/mcu.ts:103 | without a usable device the open fails with no handle and writes nothing |
| McuSession.McuOpenSucceedsWhenAnswered | src/mcu/mcu.ts:118-158 | with a usable device the open succeeds exactly when all six queries get a valid reply |
| McuSession.McuOpenFailsAtFirstMissingReply | src/mcu/mcu.ts:118-157 | the first query without a valid reply ends the open with that query's error, after writing exactly the requests of the first k+1 queries, in order |
| McuSession.PollDisplayMode | src/mcu/mcu.ts:228-234 | one request for the display mode; success exactly when a valid 1-byte reply came, and then only the display mode changes, to byte 23 of the reply |
| McuSession.UpdateDisplayMode | src/mcu/mcu.ts:236-244 | one write request carrying the record's display mode modulo 256, as a `Uint8Array` stores any integer; success exactly when an empty acknowledgement came |
| McuSession.DisplayModeRequests | src/mcu/mcu.ts:228-239 | the update frame is 24 bytes with head, write id at packet offset 15 and the mode modulo 256 as its only data byte; the poll frame is 23 bytes with the read id |
| ImuPacket.BuildPayload | src/imu/imu.ts:18-37 | the payload is the 8-byte header followed by the data unchanged |
| ImuPacket.BuildPayloadLayout | src/imu/imu.ts:24-29 | head 0xAA, length field 3 + data length, message id byte `msgid & 0xff` at 7 |
| ImuPacket.BuildPayloadChecksum | src/imu/imu.ts:31-35 | the checksum field read as u32le is the CRC of bytes 5 onward |
| ImuPacket.SendSignal | src/imu/imu.ts:39-44 | the result is true exactly when any report came back |
| ImuPacket.SignalFrameCarriesSignal | src/imu/imu.ts:39-41 | the signal frame is the report id and a one-byte payload holding `signal & 0xff` |
| ImuPacket.Prefix | src/imu/imu.ts:56 | `subarray(0, end)`: a clamped prefix, a negative end counting from the back |
| ImuPacket.ParseImuReply | src/imu/imu.ts:49-56 | accepted exactly when byte 7 equals the id's low byte; then up to `len` bytes from 8 on, never more than asked for |
| ImuPacket.ParseImuReplyChecksEcho | src/imu/imu.ts:52-53 | the acceptance test is the comparison with `msgid & 0xff` |
| ImuPacket.SendAndRecv | src/imu/imu.ts:46-57 | no report gives no data; otherwise the result is the echo check and slice of the normalized i-th report, never more than asked for |
| ImuPacket.ParseImuReplyOfBuiltPayload | src/imu/imu.ts:46-57 | a payload built for some data parses back to that data under the same id |
| ImuPacket.ParseImuReplyMayBeShort | src/imu/imu.ts:54-56 | a reply with fewer bytes than asked for is returned short rather than refused |
| ImuPacket.ParseImuReplyRejectsOtherMessage | src/imu/imu.ts:52-53 | a payload built for an id whose low byte differs is refused |
| ImuSample.ParseImuDataPacket | src/imu/imu.ts:114-160 | a sample comes back exactly for reports of at least 64 bytes with signature 01 02 or AA 53, and every field is within its width |
| ImuSample.ParseReadsOnlyHead | src/imu/imu.ts:122-152 | two reports agreeing on bytes 0..54 parse alike: nothing after byte 53 is read |
| ImuSample.ReadHeadBlock | src/imu/imu.ts:116-123 | the signature, temperature (i16le at 2) and timestamp (u64le at 4) read back as written |
| ImuSample.ReadLeBlock | src/imu/imu.ts:126-130 | a gyro or accel block reads back multiplier (i16le), divisor (i32le) and the three i24le readings as written |
| ImuSample.ReadMagBlock | src/imu/imu.ts:148-152 | the mag block reads back multiplier (i16be), divisor (i32be) and the three folded readings as written |
| ImuSample.ParseOfEncoded | src/imu/imu.ts:114-160 | every sample with fields in range, written under either signature, parses back to itself |
| ImuSession.StaticId | src/imu/imu.ts:76-79 | the id is a 32-bit unsigned value, 0x20220101 when no reply came; a reply has at most 4 data bytes, and the id's little-endian bytes are those bytes padded with zeros |
| ImuSession.StaticIdOfEmptyReply | src/imu/imu.ts:78-79 | a reply echoing the id with no data gives static id 0, not the fallback |
| ImuSession.Segments | src/imu/imu.ts:92 | the segment replies come only from reads the session has and never exceed the length asked for |
| ImuSession.StoreSlices | src/imu/imu.ts:94 | `cal.set(seg, position)` puts the segment at the position and leaves the rest of the buffer |
| ImuSession.CalibrationLoop | src/imu/imu.ts:87-96 | the buffer keeps its length, the position only grows and stays within it, each request asks for between 1 and a segment; every request but the last was answered, and stopping short of the end means the last one was not (the loop breaks at the first missing reply) |
| ImuSession.CalibrationLoopContents | src/imu/imu.ts:87-96 | the buffer before the start and after the position reached is untouched, and in between holds exactly the replies' data in order |
| ImuSession.PlannedAsks | src/imu/imu.ts:91 | every planned request asks for between 1 and a segment |
| ImuSession.PlannedAsksCover | src/imu/imu.ts:89-91 | the plan has ceil(n / segment) requests, all but the last for a whole segment |
| ImuSession.CalibrationWithFullReplies | src/imu/imu.ts:89-96 | when every reply carries a whole segment, the loop fills the buffer with exactly the planned requests |
| ImuSession.CalibrationExample | src/imu/imu.ts:86-96 | 100 bytes at 40 per segment take three requests, for 40, 40 and 20 bytes |
| ImuSession.OpenFrames | src/imu/imu.ts:74-101 | stop signal, static-id request, length request, one request per segment, start signal |
| ImuSession.OpenCalibration | src/imu/imu.ts:84-96 | the calibration buffer is as long as the u32le length reply |
| ImuSession.CalibrationPhase | src/imu/imu.ts:81-101 | the frames have the open shape, a buffer exists exactly when the length reply came, and it has the announced length; without that reply no segment request is written |
| ImuSession.ImuOpen | src/imu/imu.ts:59-103 | fails exactly when no device is selected, then writing nothing; otherwise the record has the product, its table's payload size (over 8) and the static id, the frames have the open shape, and a buffer of the announced length exists exactly when the length reply came; without that reply the frames hold no segment request |
| ImuSession.OpenCalibrationContents | src/imu/imu.ts:84-96 | the buffer holds the replies' data from the start, then the zeros it was created with |
| ImuSession.OpenCalibrationWithFullReplies | src/imu/imu.ts:84-96 | with full replies the whole announced length is fetched in the planned requests |
| ImuSession.ImuOpenFetchesCalibration | src/imu/imu.ts:81-101 | once the length came back, one segment request is written per turn of the loop and the loop's buffer is the one kept |

## Left out

- HID I/O, timing and concurrency are left out, because the model takes sessions as lists of reports:
  - the 1000 ms and 10 ms timeouts;
  - the event-based fallback of `readTimeout`;
  - exceptions thrown by `node-hid`;
  - the value `write` returns.
- `deviceInit`, `deviceExit`, `listDevices`, `openDeviceByPath`, `imuClose` and `mcuClose` only wrap the HID library, so they are not modelled.
- `src/util/crc32.ts` and `./constants` are not part of this model. The CRC-32, the message ids, the packet head and `MAX_PACKET_SIZE` are parameters.
- McuSession.UpdateDisplayMode: the display mode is an integer. A fractional, infinite or NaN mode, which the `Uint8Array` conversion truncates or turns into 0, is not modelled, because the model has no floating point.
- McuSession.McuOpen: its properties are stated by lemmas rather than by its own contract. `McuOpenNoDevice` covers a failed selection. `McuOpenSucceedsWhenAnswered` and `McuOpenFailsAtFirstMissingReply` cover the replies. `McuOpenSucceeds`, `McuOpenReadsSettings` and `McuOpenReadsVersions` describe the result.
- ImuSample.ParseImuDataPacket: returns the integer fields. The source goes on to compute floating-point physical values from them: `reading * multiplier / divisor`, and `raw / 132.48 + 25`. Division by a zero divisor is part of that floating-point step.
- Pack.U64le: returns the exact 64-bit value. The source's `lo + hi * 2 ** 32` is a double, which rounds values above 2^53.
- Text.TrimAtNul: works on bytes, with LF and CR as the line terminators. It leaves out:
  - the UTF-8 decoding of `TextDecoder` and `Buffer.toString`;
  - the other terminators of the `.` class, such as U+2028 and U+2029.
- ImuSession.CalibrationLoop: ends because a session has finitely many reads. It still stops at the first missing reply, as the source's `break` does. On the device, replies that echo the id but carry no data keep `position` still, and the source's loop then never ends.
- ImuSession.OpenCalibration: allocates a buffer of any announced length. In the source, `new Uint8Array(total)` throws a `RangeError` when `total` (up to 2^32 - 1) exceeds the engine's maximum typed-array length, and `imuOpen` then rejects.
- ImuSession.ImuOpen: the calibration buffer is returned with the result. The source drops it.
- The `onEvent` callback, the listener registration and `OpenedMcu.device` are left out. The listener is modelled as a step function over its own brightness and `active` values. Events are returned instead of called back.
- The debug programs `debugImu.ts` and `debugMcu.ts` are not modelled. They are callers of the core.
