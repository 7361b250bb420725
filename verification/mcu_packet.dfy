/** The packets exchanged with the glasses' MCU (the display controller).

    A packet is a 22-byte header followed by the data:
      head (1) | checksum (4) | length (2) | timestamp (8) | message id (2) | reserved (5) | data
    The length counts everything from the length field on, and the checksum is the
    CRC-32 of those same bytes, stored little-endian. */
module McuPacket {
  import opened ByteSeq
  import opened Wrappers
  import opened JsInt
  import opened Pack

  /** The values the driver takes from its constants module, which is not part of this
      model: the packet head byte, the size of a pushed report, and the message ids. */
  datatype McuConstants = McuConstants(
    packetHead: Byte,
    maxPacketSize: int,
    rActivationTime: int,
    rMcuAppFwVersion: int,
    rDp7911FwVersion: int,
    rDspAppFwVersion: int,
    rBrightness: int,
    rDispMode: int,
    wDispMode: int,
    pStartHeartbeat: int,
    pDisplayToggled: int,
    pButtonPressed: int,
    pAsyncTextLog: int,
    pEndHeartbeat: int)
  {
    function MessageIds(): seq<int> {
      [rActivationTime, rMcuAppFwVersion, rDp7911FwVersion, rDspAppFwVersion, rBrightness,
       rDispMode, wDispMode, pStartHeartbeat, pDisplayToggled, pButtonPressed, pAsyncTextLog,
       pEndHeartbeat]
    }

    /** What the driver relies on: the message ids are pairwise distinct, and a pushed
        report is long enough to hold the button value at byte 30. */
    predicate Valid() {
      && maxPacketSize >= 31
      && forall i, j :: 0 <= i < j < |MessageIds()| ==> MessageIds()[i] != MessageIds()[j]
    }
  }

  const HeaderSize: nat := 22
  const MsgIdOffset: nat := 15
  const StatusOffset: nat := 22

  /** The bytes from the length field on: what the checksum covers. */
  function PacketBody(msgId: int, data: Bytes): (body: Bytes)
    ensures |body| == 17 + |data|
  {
    LeBytes(17 + |data|, 2) + Zeros(8) + LeBytes(msgId, 2) + Zeros(5) + data
  }

  /** `buildPacket`: head, checksum, then the body. The length, message id and checksum
      fields are written byte by byte with `& 0xff` and `>>`, which is what LeBytes
      denotes (see Pack.StoredHalfWordBytes and Pack.StoredWordBytes). */
  function BuildPacket(crc: Crc32, head: Byte, msgId: int, data: Bytes): (p: Bytes)
    ensures |p| == HeaderSize + |data|
    ensures p[HeaderSize..] == data
  {
    var body := PacketBody(msgId, data);
    var p := [head] + LeBytes(crc(body), 4) + body;
    assert p[HeaderSize..] == body[17..];
    p
  }

  /** The header fields of a built packet, read back with the driver's own readers. */
  lemma {:induction false} BuildPacketLayout(crc: Crc32, head: Byte, msgId: int, data: Bytes)
    ensures var p := BuildPacket(crc, head, msgId, data);
            p[0] == head
            && U16le(p, 5) == (17 + |data|) % 0x1_0000
            && (forall i :: 7 <= i < 15 ==> p[i] == 0)
            && U16le(p, MsgIdOffset) == msgId % 0x1_0000
            && (forall i :: 17 <= i < 22 ==> p[i] == 0)
  {
    var body := PacketBody(msgId, data);
    var p := BuildPacket(crc, head, msgId, data);
    assert p[5..] == body;
    var len := LeBytes(17 + |data|, 2);
    var id := LeBytes(msgId, 2);
    assert body == len + Zeros(8) + id + Zeros(5) + data;
    assert p[5] == len[0] && p[6] == len[1];
    assert p[15] == id[0] && p[16] == id[1];
    LeBytes2Sum(17 + |data|);
    LeBytes2Sum(msgId);
    forall i | 7 <= i < 15 ensures p[i] == 0 {
      assert p[i] == body[i - 5];
    }
    forall i | 17 <= i < 22 ensures p[i] == 0 {
      assert p[i] == body[i - 5];
    }
  }

  /** The checksum field holds the CRC of bytes 5 onward, and the checksum does not
      cover itself, so recomputing it over the finished packet agrees. */
  lemma {:induction false} BuildPacketChecksum(crc: Crc32, head: Byte, msgId: int, data: Bytes)
    ensures var p := BuildPacket(crc, head, msgId, data);
            U32le(p, 1) == crc(p[5..])
  {
    var body := PacketBody(msgId, data);
    var p := BuildPacket(crc, head, msgId, data);
    var c := LeBytes(crc(body), 4);
    assert p[5..] == body;
    assert p[1] == c[0] && p[2] == c[1] && p[3] == c[2] && p[4] == c[3];
    LeBytes4Sum(crc(body));
  }

  /** The acceptance test and slicing `recvMessage` applies to the report it read: the
      head byte, the message id at offset 15, a zero status byte at offset 22, and then
      exactly `expectedLength` data bytes. */
  function ParseReply(head: Byte, expectedMsgId: int, expectedLength: nat, view: Bytes): (r: Option<Bytes>)
    ensures r.Some? <==> && |view| >= 23 + expectedLength
                         && view[0] == head
                         && U16le(view, MsgIdOffset) == expectedMsgId
                         && view[StatusOffset] == 0
    ensures r.Some? ==> r.value == view[23..23 + expectedLength]
  {
    if |view| == 0 || view[0] != head then None
    else if U16le(view, MsgIdOffset) != expectedMsgId then None
    else if |view| <= StatusOffset || view[StatusOffset] != 0 then None
    else
      var data := Subarray(view, 23, 23 + expectedLength);
      if |data| == expectedLength then Some(data) else None
  }

  /** A reply built as the MCU answers, a status byte 0 followed by the data, parses
      back to that data when the message id fits the 16-bit field. */
  lemma {:induction false} ParseReplyOfBuiltPacket(crc: Crc32, head: Byte, msgId: int, data: Bytes)
    requires 0 <= msgId < 0x1_0000
    ensures ParseReply(head, msgId, |data|, BuildPacket(crc, head, msgId, [0] + data)) == Some(data)
  {
    var p := BuildPacket(crc, head, msgId, [0] + data);
    BuildPacketLayout(crc, head, msgId, [0] + data);
    assert p[22..] == [0] + data;
    assert p[StatusOffset] == 0;
    assert p[23..23 + |data|] == data;
  }

  /** A packet for one message is never taken as the reply to another. */
  lemma {:induction false} ParseReplyRejectsOtherMessage(crc: Crc32, head: Byte, msgId: int, other: int,
                                                         data: Bytes, expectedLength: nat)
    requires 0 <= msgId < 0x1_0000 && other != msgId
    ensures ParseReply(head, other, expectedLength, BuildPacket(crc, head, msgId, data)) == None
  {
    BuildPacketLayout(crc, head, msgId, data);
  }

  /** A reply whose status byte is not zero is refused, whatever it carries. */
  lemma {:induction false} ParseReplyRejectsFailureStatus(crc: Crc32, head: Byte, msgId: int, status: Byte,
                                                          data: Bytes)
    requires status != 0
    ensures ParseReply(head, msgId, |data|, BuildPacket(crc, head, msgId, [status] + data)) == None
  {
    var p := BuildPacket(crc, head, msgId, [status] + data);
    assert p[22..] == [status] + data;
    assert p[StatusOffset] == status;
  }
}
