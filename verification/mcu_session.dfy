/** The MCU request/reply exchanges: the open sequence of `mcuOpen` and the display-mode
    poll and update.

    A session sees the device as the list of raw reports its reads return, in order;
    `None` (or the end of the list) is a read that timed out. Every exchange writes one
    request and then reads one reply. */
module McuSession {
  import opened ByteSeq
  import opened Wrappers
  import opened Pack
  import opened Device
  import opened Discovery
  import opened Text
  import opened McuPacket
  import opened McuEvents

  datatype Versions = Versions(mcu: Bytes, dp: Bytes, dsp: Bytes)

  /** `OpenedMcu` without its device handle. The display mode is a plain number: the
      caller may set it to any value before `mcuUpdateDisplayMode`. */
  datatype OpenedMcu = OpenedMcu(productId: int, brightness: Byte, dispMode: int, active: bool, versions: Versions)

  datatype McuError =
    | NoHandle
    | ActivationTimeFailed | McuFwVersionFailed | DpFwVersionFailed | DspFwVersionFailed
    | ReadBrightnessFailed | ReadDisplayModeFailed
    | ReceivingDisplayModeFailed | SendingDisplayModeFailed

  /** What an exchange wrote, and how it ended. */
  datatype Session<T> = Session(sent: seq<Bytes>, result: Result<T, McuError>)

  /** The frame written for a request: the report id, then the packet. */
  function Request(c: McuConstants, crc: Crc32, msgId: int, data: Bytes): (frame: Bytes)
    ensures |frame| == 1 + HeaderSize + |data|
  {
    OutReport(BuildPacket(crc, c.packetHead, msgId, data))
  }

  /** `recvMessage` on the `i`-th read of a session. */
  function RecvMessage(c: McuConstants, reports: seq<Option<Bytes>>, i: nat, msgId: int, length: nat): (r: Option<Bytes>)
    ensures r.Some? ==> |r.value| == length
    ensures r.Some? <==> ReadNth(reports, i).Some? && ParseReply(c.packetHead, msgId, length, ReadNth(reports, i).value).Some?
    ensures r.Some? ==> r.value == ReadNth(reports, i).value[23..23 + length]
  {
    match ReadNth(reports, i)
    case None => None
    case Some(view) => ParseReply(c.packetHead, msgId, length, view)
  }

  /** One query of the open sequence: the message id asked for, the data length the
      reply must carry, and the error raised when it does not come. */
  datatype Query = Query(msgId: int, length: nat, error: McuError)

  /** The reads of `mcuOpen`, in order. */
  function OpenQueries(c: McuConstants): seq<Query> {
    [Query(c.rActivationTime, 1, ActivationTimeFailed),
     Query(c.rMcuAppFwVersion, 41, McuFwVersionFailed),
     Query(c.rDp7911FwVersion, 41, DpFwVersionFailed),
     Query(c.rDspAppFwVersion, 41, DspFwVersionFailed),
     Query(c.rBrightness, 1, ReadBrightnessFailed),
     Query(c.rDispMode, 1, ReadDisplayModeFailed)]
  }

  /** The replies up to the first missing one: the fold that ends a sequence of
      exchanges at its first failure. */
  function Answered(replies: seq<Option<Bytes>>): (answers: seq<Bytes>)
    ensures |answers| <= |replies|
    ensures forall i :: 0 <= i < |answers| ==> replies[i] == Some(answers[i])
    ensures |answers| < |replies| ==> replies[|answers|].None?
    decreases |replies|
  {
    if |replies| == 0 || replies[0].None? then []
    else
      var rest := Answered(replies[1..]);
      assert forall i :: 1 <= i < |replies| ==> replies[1..][i - 1] == replies[i];
      [replies[0].value] + rest
  }

  /** The fold stops exactly at the first missing reply. */
  lemma {:induction false} AnsweredStopsAt(replies: seq<Option<Bytes>>, k: nat)
    requires k < |replies| && replies[k].None?
    requires forall i :: 0 <= i < k ==> replies[i].Some?
    ensures |Answered(replies)| == k
  {
  }

  /** The reply each query of the open sequence gets, the first read being discarded. */
  function OpenReplies(c: McuConstants, reports: seq<Option<Bytes>>): (replies: seq<Option<Bytes>>)
    ensures |replies| == 6
  {
    var queries := OpenQueries(c);
    seq(6, i requires 0 <= i < 6 => RecvMessage(c, reports, 1 + i, queries[i].msgId, queries[i].length))
  }

  /** The requests written by a run that got `count` queries far. */
  function Requests(c: McuConstants, crc: Crc32, queries: seq<Query>, count: nat): (frames: seq<Bytes>)
    requires count <= |queries|
    ensures |frames| == count
  {
    seq(count, i requires 0 <= i < count => Request(c, crc, queries[i].msgId, []))
  }

  /** The opened-device record built from the six replies. */
  function OpenedFrom(productId: int, a: seq<Bytes>): OpenedMcu
    requires |a| == 6 && |a[4]| >= 1 && |a[5]| >= 1
  {
    OpenedMcu(productId, a[4][0], a[5][0], false, Versions(TrimAtNul(a[1]), TrimAtNul(a[2]), TrimAtNul(a[3])))
  }

  /** `mcuOpen`: pick the device, discard one read, run the six queries, and build the
      opened-device record and the listener's starting state from the replies. */
  function McuOpen(c: McuConstants, crc: Crc32, infos: seq<DeviceInfo>, reports: seq<Option<Bytes>>)
    : (r: Session<(OpenedMcu, McuState)>)
  {
    match SelectDevice(Mcu, infos)
    case Err(_) => Session([], Err(NoHandle))
    case Ok(info) =>
      var queries := OpenQueries(c);
      var replies := OpenReplies(c, reports);
      var a := Answered(replies);
      if |a| < 6 then Session(Requests(c, crc, queries, |a| + 1), Err(queries[|a|].error))
      else
        assert replies[4] == RecvMessage(c, reports, 5, c.rBrightness, 1);
        assert replies[5] == RecvMessage(c, reports, 6, c.rDispMode, 1);
        var mcu := OpenedFrom(info.productId.value, a);
        Session(Requests(c, crc, queries, 6), Ok((mcu, McuState(mcu.brightness, false))))
  }

  /** The six requests of the open sequence, in order. */
  lemma {:induction false} OpenRequests(c: McuConstants, crc: Crc32)
    ensures Requests(c, crc, OpenQueries(c), 6)
            == [Request(c, crc, c.rActivationTime, []), Request(c, crc, c.rMcuAppFwVersion, []),
                Request(c, crc, c.rDp7911FwVersion, []), Request(c, crc, c.rDspAppFwVersion, []),
                Request(c, crc, c.rBrightness, []), Request(c, crc, c.rDispMode, [])]
  {
    var queries := OpenQueries(c);
    var frames := Requests(c, crc, queries, 6);
    assert frames[0] == Request(c, crc, queries[0].msgId, []);
    assert frames[1] == Request(c, crc, queries[1].msgId, []);
    assert frames[2] == Request(c, crc, queries[2].msgId, []);
    assert frames[3] == Request(c, crc, queries[3].msgId, []);
    assert frames[4] == Request(c, crc, queries[4].msgId, []);
    assert frames[5] == Request(c, crc, queries[5].msgId, []);
  }

  /** On success the record and the listener start from the same brightness, the screen
      counts as off, and all six requests went out in order. */
  lemma {:induction false} McuOpenSucceeds(c: McuConstants, crc: Crc32, infos: seq<DeviceInfo>,
                                           reports: seq<Option<Bytes>>)
    requires McuOpen(c, crc, infos, reports).result.Ok?
    ensures var r := McuOpen(c, crc, infos, reports).result.value;
            && SelectDevice(Mcu, infos).Ok?
            && r.0.productId == SelectDevice(Mcu, infos).value.productId.value
            && !r.0.active && r.1 == McuState(r.0.brightness, false)
    ensures McuOpen(c, crc, infos, reports).sent
            == [Request(c, crc, c.rActivationTime, []), Request(c, crc, c.rMcuAppFwVersion, []),
                Request(c, crc, c.rDp7911FwVersion, []), Request(c, crc, c.rDspAppFwVersion, []),
                Request(c, crc, c.rBrightness, []), Request(c, crc, c.rDispMode, [])]
  {
    OpenRequests(c, crc);
  }

  /** On success the brightness and the display mode are the first data bytes (packet
      offset 23) of the replies to the fifth and sixth queries. */
  lemma {:induction false} McuOpenReadsSettings(c: McuConstants, crc: Crc32, infos: seq<DeviceInfo>,
                                                reports: seq<Option<Bytes>>)
    requires McuOpen(c, crc, infos, reports).result.Ok?
    ensures var mcu := McuOpen(c, crc, infos, reports).result.value.0;
            var view5, view6 := ReadNth(reports, 5).value, ReadNth(reports, 6).value;
            && |view5| >= 24 && mcu.brightness == view5[23]
            && |view6| >= 24 && mcu.dispMode == view6[23]
  {
    var replies := OpenReplies(c, reports);
    var a := Answered(replies);
    assert replies[4] == RecvMessage(c, reports, 5, c.rBrightness, 1) == Some(a[4]);
    assert replies[5] == RecvMessage(c, reports, 6, c.rDispMode, 1) == Some(a[5]);
  }

  /** On success the three firmware versions are the 41-byte replies to the second,
      third and fourth queries, each cut at its first NUL. */
  lemma {:induction false} McuOpenReadsVersions(c: McuConstants, crc: Crc32, infos: seq<DeviceInfo>,
                                                reports: seq<Option<Bytes>>)
    requires McuOpen(c, crc, infos, reports).result.Ok?
    ensures var v := McuOpen(c, crc, infos, reports).result.value.0.versions;
            && v.mcu == TrimAtNul(ReadNth(reports, 2).value[23..64])
            && v.dp == TrimAtNul(ReadNth(reports, 3).value[23..64])
            && v.dsp == TrimAtNul(ReadNth(reports, 4).value[23..64])
  {
    var replies := OpenReplies(c, reports);
    var a := Answered(replies);
    assert replies[1] == RecvMessage(c, reports, 2, c.rMcuAppFwVersion, 41) == Some(a[1]);
    assert replies[2] == RecvMessage(c, reports, 3, c.rDp7911FwVersion, 41) == Some(a[2]);
    assert replies[3] == RecvMessage(c, reports, 4, c.rDspAppFwVersion, 41) == Some(a[3]);
  }

  /** The open sequence stops at the first query without a valid reply, with that
      query's error, after writing the requests up to and including that query. */
  lemma {:induction false} McuOpenFailsAtFirstMissingReply(c: McuConstants, crc: Crc32, infos: seq<DeviceInfo>,
                                                           reports: seq<Option<Bytes>>, k: nat)
    requires SelectDevice(Mcu, infos).Ok?
    requires k < 6
    requires forall i :: 0 <= i < k ==>
               RecvMessage(c, reports, 1 + i, OpenQueries(c)[i].msgId, OpenQueries(c)[i].length).Some?
    requires RecvMessage(c, reports, 1 + k, OpenQueries(c)[k].msgId, OpenQueries(c)[k].length).None?
    ensures McuOpen(c, crc, infos, reports).result == Err(OpenQueries(c)[k].error)
    ensures |McuOpen(c, crc, infos, reports).sent| == k + 1
    ensures McuOpen(c, crc, infos, reports).sent == Requests(c, crc, OpenQueries(c), k + 1)
  {
    var replies := OpenReplies(c, reports);
    forall i | 0 <= i < k ensures replies[i].Some? {
      assert replies[i] == RecvMessage(c, reports, 1 + i, OpenQueries(c)[i].msgId, OpenQueries(c)[i].length);
    }
    assert replies[k].None?;
    AnsweredStopsAt(replies, k);
  }

  /** Without a usable device the open fails before writing anything. */
  lemma {:induction false} McuOpenNoDevice(c: McuConstants, crc: Crc32, infos: seq<DeviceInfo>,
                                           reports: seq<Option<Bytes>>)
    requires SelectDevice(Mcu, infos).Err?
    ensures McuOpen(c, crc, infos, reports) == Session([], Err(NoHandle))
  {
  }

  /** With a usable device, the open succeeds exactly when every one of the six queries
      gets a valid reply. */
  lemma {:induction false} McuOpenSucceedsWhenAnswered(c: McuConstants, crc: Crc32, infos: seq<DeviceInfo>,
                                                       reports: seq<Option<Bytes>>)
    requires SelectDevice(Mcu, infos).Ok?
    ensures McuOpen(c, crc, infos, reports).result.Ok?
            <==> forall i :: 0 <= i < 6 ==>
                   RecvMessage(c, reports, 1 + i, OpenQueries(c)[i].msgId, OpenQueries(c)[i].length).Some?
  {
    var replies := OpenReplies(c, reports);
    var a := Answered(replies);
    assert forall i :: 0 <= i < 6 ==>
             replies[i] == RecvMessage(c, reports, 1 + i, OpenQueries(c)[i].msgId, OpenQueries(c)[i].length);
    if forall i :: 0 <= i < 6 ==> replies[i].Some? {
      assert |a| == 6;
    }
  }

  /** `mcuPollDisplayMode`: ask for the display mode; the record takes the reply's first
      data byte. */
  function PollDisplayMode(c: McuConstants, crc: Crc32, mcu: OpenedMcu, reports: seq<Option<Bytes>>)
    : (r: Session<OpenedMcu>)
    ensures r.sent == [Request(c, crc, c.rDispMode, [])]
    ensures r.result.Ok? <==> RecvMessage(c, reports, 0, c.rDispMode, 1).Some?
    ensures r.result.Ok? ==> r.result.value == mcu.(dispMode := ReadNth(reports, 0).value[23])
  {
    var sent := [Request(c, crc, c.rDispMode, [])];
    match RecvMessage(c, reports, 0, c.rDispMode, 1)
    case None => Session(sent, Err(ReceivingDisplayModeFailed))
    case Some(d) => Session(sent, Ok(mcu.(dispMode := d[0])))
  }

  /** `mcuUpdateDisplayMode`: send the record's display mode and wait for an empty
      acknowledgement. A `Uint8Array` keeps the mode modulo 256. */
  function UpdateDisplayMode(c: McuConstants, crc: Crc32, mcu: OpenedMcu, reports: seq<Option<Bytes>>)
    : (r: Session<()>)
    ensures r.sent == [Request(c, crc, c.wDispMode, [(mcu.dispMode % 256) as Byte])]
    ensures r.result.Ok? <==> RecvMessage(c, reports, 0, c.wDispMode, 0).Some?
  {
    var sent := [Request(c, crc, c.wDispMode, [(mcu.dispMode % 256) as Byte])];
    match RecvMessage(c, reports, 0, c.wDispMode, 0)
    case None => Session(sent, Err(SendingDisplayModeFailed))
    case Some(_) => Session(sent, Ok(()))
  }

  /** The update request carries the write message id at packet offset 15 and the
      display mode modulo 256 as its only data byte; the poll request carries no data. */
  lemma {:induction false} DisplayModeRequests(c: McuConstants, crc: Crc32, mcu: OpenedMcu)
    ensures var frame := Request(c, crc, c.wDispMode, [(mcu.dispMode % 256) as Byte]);
            |frame| == 24 && frame[0] == 0 && frame[1] == c.packetHead
            && U16le(frame[1..], MsgIdOffset) == c.wDispMode % 0x1_0000
            && frame[23] == mcu.dispMode % 256
    ensures var frame := Request(c, crc, c.rDispMode, []);
            |frame| == 23 && U16le(frame[1..], MsgIdOffset) == c.rDispMode % 0x1_0000
  {
    var p := BuildPacket(crc, c.packetHead, c.wDispMode, [(mcu.dispMode % 256) as Byte]);
    BuildPacketLayout(crc, c.packetHead, c.wDispMode, [(mcu.dispMode % 256) as Byte]);
    assert Request(c, crc, c.wDispMode, [(mcu.dispMode % 256) as Byte])[1..] == p;
    assert p[22..] == [(mcu.dispMode % 256) as Byte];
    var q := BuildPacket(crc, c.packetHead, c.rDispMode, []);
    BuildPacketLayout(crc, c.packetHead, c.rDispMode, []);
    assert Request(c, crc, c.rDispMode, [])[1..] == q;
  }
}
