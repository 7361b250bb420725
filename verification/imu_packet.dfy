/** The packets exchanged with the glasses' IMU interface.

    A request is an 8-byte header followed by the data:
      head 0xAA (1) | checksum (4) | length (2) | message id (1) | data
    The length counts itself, the message id and the data; the checksum is the CRC-32 of
    those same bytes, stored little-endian. A reply is taken on trust: only the message id
    echoed at offset 7 is looked at, and the data starts at offset 8. */
module ImuPacket {
  import opened ByteSeq
  import opened Wrappers
  import opened JsInt
  import opened Pack
  import opened Device

  const ImuHead: Byte := 0xAA
  const ImuHeaderSize: nat := 8
  const ImuMsgIdOffset: nat := 7

  /** The bytes after the checksum: what the checksum covers. The message id is stored as
      `msgid & 0xff`, which is its value modulo 256 (JsInt.AndLowByte). */
  function PayloadBody(msgId: int, data: Bytes): (body: Bytes)
    ensures |body| == 3 + |data|
  {
    LeBytes(3 + |data|, 2) + [(msgId % 256) as Byte] + data
  }

  /** `buildPayload`: head, checksum, then the body. */
  function BuildPayload(crc: Crc32, msgId: int, data: Bytes): (p: Bytes)
    ensures |p| == ImuHeaderSize + |data|
    ensures p[ImuHeaderSize..] == data
  {
    var body := PayloadBody(msgId, data);
    var p := [ImuHead] + LeBytes(crc(body), 4) + body;
    assert p[ImuHeaderSize..] == body[3..];
    p
  }

  /** The header fields of a built payload, read back with the driver's own readers; the
      message id byte is what `msgid & 0xff` gives. */
  lemma {:induction false} BuildPayloadLayout(crc: Crc32, msgId: int, data: Bytes)
    ensures var p := BuildPayload(crc, msgId, data);
            && p[0] == ImuHead
            && U16le(p, 5) == (3 + |data|) % 0x1_0000
            && p[ImuMsgIdOffset] as int == BitAnd(msgId, 0xff)
  {
    var body := PayloadBody(msgId, data);
    var p := BuildPayload(crc, msgId, data);
    var len := LeBytes(3 + |data|, 2);
    assert p[5..] == body;
    assert p[5] == len[0] && p[6] == len[1];
    assert p[7] == body[2];
    LeBytes2Sum(3 + |data|);
    AndLowByte(msgId);
  }

  /** The checksum field holds the CRC of bytes 5 onward, which it does not cover itself. */
  lemma {:induction false} BuildPayloadChecksum(crc: Crc32, msgId: int, data: Bytes)
    ensures var p := BuildPayload(crc, msgId, data);
            U32le(p, 1) == crc(p[5..])
  {
    var body := PayloadBody(msgId, data);
    var p := BuildPayload(crc, msgId, data);
    var c := LeBytes(crc(body), 4);
    assert p[5..] == body;
    assert p[1] == c[0] && p[2] == c[1] && p[3] == c[2] && p[4] == c[3];
    LeBytes4Sum(crc(body));
  }

  /** The frame `sendSignal` writes: a one-byte payload holding `signal & 0xff`. */
  function SignalFrame(crc: Crc32, msgId: int, signal: int): (frame: Bytes)
    ensures |frame| == 1 + ImuHeaderSize + 1
  {
    OutReport(BuildPayload(crc, msgId, [(signal % 256) as Byte]))
  }

  /** `sendSignal` on the `i`-th read of a session: the frame it writes and whether any
      reply came. The reply is not looked at; an empty report still counts. */
  function SendSignal(crc: Crc32, msgId: int, signal: int, reports: seq<Option<Bytes>>, i: nat)
    : (r: (Bytes, bool))
    ensures r.1 <==> i < |reports| && reports[i].Some?
  {
    (SignalFrame(crc, msgId, signal), ReadNth(reports, i).Some?)
  }

  /** The signal frame carries the signal byte as `signal & 0xff` right after the header. */
  lemma {:induction false} SignalFrameCarriesSignal(crc: Crc32, msgId: int, signal: int)
    ensures var frame := SignalFrame(crc, msgId, signal);
            && frame[0] == 0
            && frame[1..] == BuildPayload(crc, msgId, [(signal % 256) as Byte])
            && frame[1 + ImuHeaderSize] as int == BitAnd(signal, 0xff)
  {
    var p := BuildPayload(crc, msgId, [(signal % 256) as Byte]);
    assert p[ImuHeaderSize..] == [(signal % 256) as Byte];
    assert p[ImuHeaderSize] as int == signal % 256;
    AndLowByte(signal);
  }

  /** JavaScript's `subarray(0, end)` on a whole array: a negative end counts from the
      back, and the end is clamped to the array. */
  function Prefix(s: Bytes, end: int): (r: Bytes)
    ensures end >= 0 ==> r == s[..if end < |s| then end else |s|]
    ensures end < 0 ==> r == s[..if |s| + end > 0 then |s| + end else 0]
  {
    var e := if end < 0 then |s| + end else end;
    Subarray(s, 0, if e < 0 then 0 else e)
  }

  /** The check and slicing `sendAndRecv` applies to the report it read: the echoed message
      id must equal `msgid & 0xff`; a length of 0 gives no data; otherwise up to `len`
      bytes after the header are returned, and fewer when the report is shorter. */
  function ParseImuReply(msgId: int, len: int, view: Bytes): (r: Option<Bytes>)
    ensures r.Some? <==> |view| > ImuMsgIdOffset && view[ImuMsgIdOffset] as int == msgId % 256
    ensures r.Some? && len >= 0 ==>
              r.value == view[ImuHeaderSize..if ImuHeaderSize + len < |view| then ImuHeaderSize + len else |view|]
    ensures r.Some? && len > 0 ==> 0 <= |r.value| <= len
  {
    if |view| <= ImuMsgIdOffset || view[ImuMsgIdOffset] as int != msgId % 256 then None
    else
      var data := view[ImuHeaderSize..];
      if len == 0 then Some([]) else Some(Prefix(data, len))
  }

  /** The message id test reads `view[7] !== (msgid & 0xff)`, where a missing byte is
      `undefined` and never equal: the guard above is that test. */
  lemma {:induction false} ParseImuReplyChecksEcho(msgId: int, len: int, view: Bytes)
    ensures ParseImuReply(msgId, len, view).Some?
            <==> |view| > ImuMsgIdOffset && view[ImuMsgIdOffset] as int == BitAnd(msgId, 0xff)
  {
    AndLowByte(msgId);
  }

  /** `sendAndRecv` on the `i`-th read of a session. */
  function SendAndRecv(reports: seq<Option<Bytes>>, i: nat, msgId: int, len: int): (r: Option<Bytes>)
    ensures r.Some? ==> i < |reports| && reports[i].Some?
    ensures r.Some? && len > 0 ==> |r.value| <= len
    ensures ReadNth(reports, i).None? ==> r.None?
    ensures ReadNth(reports, i).Some? ==> r == ParseImuReply(msgId, len, ReadNth(reports, i).value)
  {
    match ReadNth(reports, i)
    case None => None
    case Some(view) => ParseImuReply(msgId, len, view)
  }

  /** A payload built for a message parses back to its data under the same message id,
      whatever the id (only its low byte travels). */
  lemma {:induction false} ParseImuReplyOfBuiltPayload(crc: Crc32, msgId: int, data: Bytes)
    ensures ParseImuReply(msgId, |data|, BuildPayload(crc, msgId, data)) == Some(data)
  {
    var p := BuildPayload(crc, msgId, data);
    var body := PayloadBody(msgId, data);
    assert p[5..] == body;
    assert p[ImuMsgIdOffset] == body[2];
    assert p[ImuHeaderSize..ImuHeaderSize + |data|] == data;
  }

  /** A reply carrying fewer data bytes than asked for is handed back short rather than
      refused: the caller gets whatever the report holds. */
  lemma {:induction false} ParseImuReplyMayBeShort(msgId: int, len: int, view: Bytes)
    requires |view| > ImuMsgIdOffset && view[ImuMsgIdOffset] as int == msgId % 256
    requires len > 0 && |view| < ImuHeaderSize + len
    ensures ParseImuReply(msgId, len, view) == Some(view[ImuHeaderSize..])
  {
  }

  /** A payload for one message is refused as the reply to another whose id differs in
      the low byte. */
  lemma {:induction false} ParseImuReplyRejectsOtherMessage(crc: Crc32, msgId: int, other: int, data: Bytes, len: int)
    requires msgId % 256 != other % 256
    ensures ParseImuReply(other, len, BuildPayload(crc, msgId, data)) == None
  {
    var p := BuildPayload(crc, msgId, data);
    var body := PayloadBody(msgId, data);
    assert p[5..] == body;
    assert p[ImuMsgIdOffset] == body[2];
  }
}
