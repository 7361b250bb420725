/** The IMU open sequence of `imuOpen`: pick the device, stop the data stream, read the
    static id, fetch the calibration blob segment by segment, and start the stream again.

    As for the MCU, a session sees the device as the list of raw reports its reads
    return, in order; `None` (or the end of the list) is a read that timed out. No missing
    reply makes the open fail: each one has a fallback. */
module ImuSession {
  import opened ByteSeq
  import opened Wrappers
  import opened JsInt
  import opened Pack
  import opened Device
  import opened Ids
  import opened Discovery
  import opened ImuPacket

  /** The message ids the driver takes from its constants module, which is not part of
      this model. */
  datatype ImuConstants = ImuConstants(
    getCalDataLength: int,
    calDataGetNextSegment: int,
    startImuData: int,
    getStaticId: int)

  /** The static id used when the glasses do not answer. */
  const DefaultStaticId: int := 0x2022_0101

  /** `OpenedImu` without its device handle. */
  datatype OpenedImu = OpenedImu(productId: int, maxPayloadSize: int, staticId: int)

  datatype ImuError = NoHandle

  /** What `imuOpen` wrote, how it ended, and the calibration buffer it filled (which the
      driver reads but then drops). */
  datatype ImuOpenRun = ImuOpenRun(sent: seq<Bytes>, result: Result<OpenedImu, ImuError>, calibration: Option<Bytes>)

  /** The frame written for a request without data. */
  function Request(crc: Crc32, msgId: int): (frame: Bytes)
    ensures |frame| == 1 + ImuHeaderSize
  {
    OutReport(BuildPayload(crc, msgId, []))
  }

  /** The static id: the word in the reply to read 1, or the default when none came. A
      reply is at most 4 bytes, and the bytes it lacks read as zeros. */
  function StaticId(k: ImuConstants, reports: seq<Option<Bytes>>): (id: int)
    ensures 0 <= id < TWO32
    ensures SendAndRecv(reports, 1, k.getStaticId, 4).None? ==> id == DefaultStaticId
    ensures var sid := SendAndRecv(reports, 1, k.getStaticId, 4);
            sid.Some? ==> |sid.value| <= 4 && LeBytes(id, 4) == sid.value + Zeros(4 - |sid.value|)
  {
    match SendAndRecv(reports, 1, k.getStaticId, 4)
    case None => DefaultStaticId
    case Some(sid) =>
      ShortRead32(sid);
      U32le(sid, 0)
  }

  /** An answer that echoes the message id but carries no data is still an answer: the
      static id then reads as 0, not as the default. */
  lemma {:induction false} StaticIdOfEmptyReply(k: ImuConstants, reports: seq<Option<Bytes>>, header: Bytes)
    requires |header| == ImuHeaderSize && header[ImuMsgIdOffset] as int == k.getStaticId % 256
    requires |reports| > 1 && reports[1] == Some(header)
    ensures StaticId(k, reports) == 0
  {
    assert ReadNth(reports, 1) == Some(header);
    assert SendAndRecv(reports, 1, k.getStaticId, 4) == Some([]);
  }

  // ---------------------------------------------------------------------------
  // The calibration loop, over any source of segment replies.

  /** Where the segment replies come from: the reply the `j`-th read of the session gives
      to a request for `ask` bytes, or `None` when it timed out or was refused. */
  type SegmentSource = (nat, int) -> Option<Bytes>

  /** A source that answers only reads before `limit` (a session has finitely many), and
      never with more bytes than it was asked for. */
  ghost predicate Answers(fetch: SegmentSource, limit: nat) {
    forall j: nat, ask: int :: fetch(j, ask).Some? ==> j < limit && (ask > 0 ==> |fetch(j, ask).value| <= ask)
  }

  /** The source `imuOpen` reads from: `sendAndRecv` for the next-segment message. */
  function Segments(k: ImuConstants, reports: seq<Option<Bytes>>): (fetch: SegmentSource)
    ensures Answers(fetch, |reports|)
  {
    (j: nat, ask: int) => SendAndRecv(reports, j, k.calDataGetNextSegment, ask)
  }

  /** The data a segment request read at `j` got; an unanswered request gets nothing. */
  function Got(fetch: SegmentSource, j: nat, ask: int): (s: Bytes)
    ensures fetch(j, ask).None? ==> s == []
  {
    match fetch(j, ask)
    case Some(s) => s
    case None => []
  }

  /** The data of the segment requests from read `i` on, asking for `asks`, end to end. */
  function Collected(fetch: SegmentSource, i: nat, asks: seq<int>): (data: Bytes)
    decreases |asks|
  {
    if |asks| == 0 then [] else Got(fetch, i, asks[0]) + Collected(fetch, i + 1, asks[1..])
  }

  /** Where the calibration loop stopped: the buffer, the position reached, the next read,
      and the length asked for by each request, in order. */
  datatype CalibrationRun = CalibrationRun(cal: Bytes, position: nat, nextRead: nat, asks: seq<int>)

  function Min(a: int, b: int): int {
    if a < b then a else b
  }

  /** `cal.set(seg, position)`: the segment overwrites the buffer at the position. */
  function Store(cal: Bytes, position: nat, seg: Bytes): (r: Bytes)
    requires position + |seg| <= |cal|
    ensures |r| == |cal|
  {
    cal[..position] + seg + cal[position + |seg|..]
  }

  /** The segment lands at the position, and the rest of the buffer is kept. */
  lemma {:induction false} StoreSlices(cal: Bytes, position: nat, seg: Bytes)
    requires position + |seg| <= |cal|
    ensures var r := Store(cal, position, seg);
            && r[..position] == cal[..position]
            && r[position..position + |seg|] == seg
            && r[position + |seg|..] == cal[position + |seg|..]
  {
    var r := Store(cal, position, seg);
    assert r[..position] == cal[..position];
    assert r[position..position + |seg|] == seg;
  }

  /** The calibration loop from read `i`, with the buffer filled up to `position`. Each
      request asks for the smaller of a segment and what is left; the data that comes
      back is stored at the position, which moves on by its length; a missing reply ends
      the loop. Every turn consumes a read and the source answers only `limit` of them,
      so the loop ends. */
  function CalibrationLoop(fetch: SegmentSource, limit: nat, segment: int, i: nat,
                           cal: Bytes, position: nat): (r: CalibrationRun)
    requires segment > 0 && position <= |cal| && Answers(fetch, limit)
    ensures |r.cal| == |cal| && position <= r.position <= |cal|
    ensures r.nextRead == i + |r.asks|
    ensures forall j :: 0 <= j < |r.asks| ==> 0 < r.asks[j] <= segment
    ensures r.position < |cal| ==>
              |r.asks| > 0 && fetch(r.nextRead - 1, r.asks[|r.asks| - 1]).None?
    ensures forall j :: 0 <= j < |r.asks| - 1 ==> fetch(i + j, r.asks[j]).Some?
    decreases limit - i
  {
    if position >= |cal| then CalibrationRun(cal, position, i, [])
    else
      var next := Min(segment, |cal| - position);
      match fetch(i, next)
      case None => CalibrationRun(cal, position, i + 1, [next])
      case Some(seg) =>
        var rest := CalibrationLoop(fetch, limit, segment, i + 1, Store(cal, position, seg), position + |seg|);
        CalibrationRun(rest.cal, rest.position, rest.nextRead, [next] + rest.asks)
  }

  /** One turn of the loop on the buffer: a segment stored at `position`, then the rest
      of the loop filling `tail` from `after` on. */
  lemma {:induction false} StoreThenFill(cal: Bytes, stored: Bytes, filled: Bytes, seg: Bytes, tail: Bytes,
                                         position: nat, reached: nat)
    requires |stored| == |cal| && |filled| == |cal|
    requires position + |seg| <= reached <= |cal|
    requires stored[..position] == cal[..position]
    requires stored[position..position + |seg|] == seg
    requires stored[position + |seg|..] == cal[position + |seg|..]
    requires filled[..position + |seg|] == stored[..position + |seg|]
    requires filled[reached..] == stored[reached..]
    requires filled[position + |seg|..reached] == tail
    ensures filled[..position] == cal[..position]
    ensures filled[reached..] == cal[reached..]
    ensures filled[position..reached] == seg + tail
  {
    var after := position + |seg|;
    assert filled[..position] == filled[..after][..position];
    assert stored[..position] == stored[..after][..position];
    assert stored[reached..] == stored[after..][reached - after..];
    assert cal[reached..] == cal[after..][reached - after..];
    assert filled[position..after] == filled[..after][position..];
    assert stored[position..after] == stored[..after][position..];
    assert filled[position..reached] == filled[position..after] + filled[after..reached];
  }

  /** One turn of the loop, when the request at read `i` is answered with `seg`. */
  lemma {:induction false} CalibrationStep(fetch: SegmentSource, limit: nat, segment: int, i: nat,
                                           cal: Bytes, position: nat, seg: Bytes)
    requires segment > 0 && position < |cal| && Answers(fetch, limit)
    requires fetch(i, Min(segment, |cal| - position)) == Some(seg)
    ensures position + |seg| <= |cal|
    ensures var rest := CalibrationLoop(fetch, limit, segment, i + 1, Store(cal, position, seg), position + |seg|);
            var r := CalibrationLoop(fetch, limit, segment, i, cal, position);
            && r.cal == rest.cal && r.position == rest.position && r.nextRead == rest.nextRead
            && r.asks == [Min(segment, |cal| - position)] + rest.asks
  {
  }

  /** What a run of the loop from read `i` at `position` left in the buffer: the part
      before the starting position and the part after the position reached untouched, and
      in between exactly the data of the replies, in order. */
  ghost predicate Contents(fetch: SegmentSource, i: nat, cal: Bytes, position: nat, r: CalibrationRun) {
    && position <= r.position <= |r.cal| == |cal|
    && r.cal[..position] == cal[..position]
    && r.cal[r.position..] == cal[r.position..]
    && r.cal[position..r.position] == Collected(fetch, i, r.asks)
  }

  /** A turn that stores a segment keeps the contents property of the rest of the loop. */
  lemma {:induction false} ContentsStep(fetch: SegmentSource, limit: nat, segment: int, i: nat,
                                        cal: Bytes, position: nat, seg: Bytes)
    requires segment > 0 && position < |cal| && Answers(fetch, limit)
    requires fetch(i, Min(segment, |cal| - position)) == Some(seg)
    requires position + |seg| <= |cal|
    requires var cal' := Store(cal, position, seg);
             Contents(fetch, i + 1, cal', position + |seg|,
                      CalibrationLoop(fetch, limit, segment, i + 1, cal', position + |seg|))
    ensures Contents(fetch, i, cal, position, CalibrationLoop(fetch, limit, segment, i, cal, position))
  {
    var next := Min(segment, |cal| - position);
    var cal' := Store(cal, position, seg);
    var rest := CalibrationLoop(fetch, limit, segment, i + 1, cal', position + |seg|);
    var r := CalibrationLoop(fetch, limit, segment, i, cal, position);
    CalibrationStep(fetch, limit, segment, i, cal, position, seg);
    StoreSlices(cal, position, seg);
    var tail := Collected(fetch, i + 1, rest.asks);
    assert Collected(fetch, i, r.asks) == seg + tail by {
      assert r.asks[0] == next && r.asks[1..] == rest.asks;
    }
    StoreThenFill(cal, cal', rest.cal, seg, tail, position, rest.position);
  }

  /** A turn whose request goes unanswered ends the loop with the buffer untouched. */
  lemma {:induction false} ContentsStop(fetch: SegmentSource, limit: nat, segment: int, i: nat,
                                        cal: Bytes, position: nat)
    requires segment > 0 && position < |cal| && Answers(fetch, limit)
    requires fetch(i, Min(segment, |cal| - position)).None?
    ensures Contents(fetch, i, cal, position, CalibrationLoop(fetch, limit, segment, i, cal, position))
  {
    var next := Min(segment, |cal| - position);
    var r := CalibrationLoop(fetch, limit, segment, i, cal, position);
    assert r == CalibrationRun(cal, position, i + 1, [next]);
    assert Collected(fetch, i, [next]) == Got(fetch, i, next) + Collected(fetch, i + 1, []);
  }

  /** The buffer the loop leaves: untouched before the starting position and after the
      position reached, and in between exactly the data of the replies, in order. */
  lemma {:induction false} CalibrationLoopContents(fetch: SegmentSource, limit: nat, segment: int, i: nat,
                                                   cal: Bytes, position: nat)
    requires segment > 0 && position <= |cal| && Answers(fetch, limit)
    ensures Contents(fetch, i, cal, position, CalibrationLoop(fetch, limit, segment, i, cal, position))
    decreases limit - i
  {
    if position < |cal| {
      var next := Min(segment, |cal| - position);
      match fetch(i, next)
      case None =>
        ContentsStop(fetch, limit, segment, i, cal, position);
      case Some(seg) =>
        CalibrationLoopContents(fetch, limit, segment, i + 1, Store(cal, position, seg), position + |seg|);
        ContentsStep(fetch, limit, segment, i, cal, position, seg);
    } else {
      var r := CalibrationLoop(fetch, limit, segment, i, cal, position);
      assert r == CalibrationRun(cal, position, i, []);
    }
  }

  /** The lengths asked for when `n` bytes are fetched a segment at a time: whole
      segments, then what is left. */
  function PlannedAsks(n: int, segment: int): (asks: seq<int>)
    requires segment > 0
    ensures forall j :: 0 <= j < |asks| ==> 0 < asks[j] <= segment
    decreases n
  {
    if n <= 0 then [] else [Min(segment, n)] + PlannedAsks(n - segment, segment)
  }

  /** The plan covers the `n` bytes with the fewest requests, the length divided by the
      segment rounded up, and every request but the last asks for a whole segment. */
  lemma {:induction false} PlannedAsksCover(n: nat, segment: int)
    requires segment > 0
    ensures var count := |PlannedAsks(n, segment)|;
            n <= count * segment && (n > 0 ==> (count - 1) * segment < n)
    ensures forall j :: 0 <= j < |PlannedAsks(n, segment)| - 1 ==> PlannedAsks(n, segment)[j] == segment
    decreases n
  {
    var asks := PlannedAsks(n, segment);
    if n > segment {
      var later := PlannedAsks(n - segment, segment);
      PlannedAsksCover(n - segment, segment);
      assert asks == [segment] + later;
      MulStep(|later|, segment);
      forall j | 1 <= j < |asks| - 1 ensures asks[j] == segment {
        assert asks[j] == later[j - 1];
      }
    } else if n > 0 {
      assert PlannedAsks(n - segment, segment) == [];
    }
  }

  /** One more factor of `s`, and one fewer. */
  lemma {:induction false} MulStep(c: int, s: int)
    ensures (c + 1) * s == c * s + s && (c - 1) * s == c * s - s
  {
  }

  /** A read that answers every request of up to a segment with exactly the bytes asked
      for. */
  ghost predicate Full(fetch: SegmentSource, j: nat, segment: int) {
    forall ask :: 0 < ask <= segment ==> fetch(j, ask).Some? && |fetch(j, ask).value| == ask
  }

  /** A run of the loop from `position` that filled the buffer asking for the planned
      lengths. */
  ghost predicate FillsPlan(cal: Bytes, position: nat, segment: int, r: CalibrationRun)
    requires segment > 0
  {
    r.position == |cal| && r.asks == PlannedAsks(|cal| - position, segment)
  }

  /** A full reply carries exactly the length asked for, which is the first planned ask,
      and the rest of the plan covers what is left. */
  lemma {:induction false} FullTurn(fetch: SegmentSource, segment: int, i: nat, cal: Bytes, position: nat)
    requires segment > 0 && position < |cal| && Full(fetch, i, segment)
    ensures var next := Min(segment, |cal| - position);
            && fetch(i, next).Some? && |fetch(i, next).value| == next
            && PlannedAsks(|cal| - position, segment) == [next] + PlannedAsks(|cal| - (position + next), segment)
  {
    var n, next := |cal| - position, Min(segment, |cal| - position);
    assert fetch(i, next).Some? && |fetch(i, next).value| == next;
    if n <= segment {
      assert PlannedAsks(n - segment, segment) == [] && PlannedAsks(0, segment) == [];
    }
  }

  /** A turn that takes the first planned ask keeps the plan for the rest of the loop. */
  lemma {:induction false} FullStep(fetch: SegmentSource, limit: nat, segment: int, i: nat,
                                    cal: Bytes, position: nat, seg: Bytes)
    requires segment > 0 && position < |cal| && Answers(fetch, limit)
    requires fetch(i, Min(segment, |cal| - position)) == Some(seg)
    requires position + |seg| <= |cal|
    requires PlannedAsks(|cal| - position, segment)
             == [Min(segment, |cal| - position)] + PlannedAsks(|cal| - (position + |seg|), segment)
    requires var cal' := Store(cal, position, seg);
             FillsPlan(cal', position + |seg|, segment,
                       CalibrationLoop(fetch, limit, segment, i + 1, cal', position + |seg|))
    ensures FillsPlan(cal, position, segment, CalibrationLoop(fetch, limit, segment, i, cal, position))
  {
    CalibrationStep(fetch, limit, segment, i, cal, position, seg);
  }

  /** When every reply carries a whole segment, the loop fills the buffer and its
      requests ask for the planned lengths. */
  lemma {:induction false} CalibrationWithFullReplies(fetch: SegmentSource, limit: nat, segment: int, i: nat,
                                                      cal: Bytes, position: nat)
    requires segment > 0 && position <= |cal| && Answers(fetch, limit)
    requires forall j :: i <= j < i + |PlannedAsks(|cal| - position, segment)| ==> Full(fetch, j, segment)
    ensures FillsPlan(cal, position, segment, CalibrationLoop(fetch, limit, segment, i, cal, position))
    decreases |cal| - position
  {
    if position < |cal| {
      var next := Min(segment, |cal| - position);
      assert Full(fetch, i, segment);
      FullTurn(fetch, segment, i, cal, position);
      var seg := fetch(i, next).value;
      CalibrationWithFullReplies(fetch, limit, segment, i + 1, Store(cal, position, seg), position + |seg|);
      FullStep(fetch, limit, segment, i, cal, position, seg);
    } else {
      var r := CalibrationLoop(fetch, limit, segment, i, cal, position);
      assert r == CalibrationRun(cal, position, i, []);
    }
  }

  /** A reply to a segment request in the session that carries at least a whole segment. */
  predicate FullReply(k: ImuConstants, reports: seq<Option<Bytes>>, j: nat, segment: int) {
    match ReadNth(reports, j)
    case None => false
    case Some(v) => |v| > ImuMsgIdOffset && |v| >= ImuHeaderSize + segment && v[ImuMsgIdOffset] as int == k.calDataGetNextSegment % 256
  }

  /** Every request of the plan for `n` bytes, from read `i` on, gets a full reply. */
  ghost predicate FullRepliesFrom(k: ImuConstants, reports: seq<Option<Bytes>>, i: nat, n: int, segment: int)
    requires segment > 0
  {
    forall j :: i <= j < i + |PlannedAsks(n, segment)| ==> FullReply(k, reports, j, segment)
  }

  /** Such a reply hands back exactly the length asked for, up to a segment. */
  lemma {:induction false} FullReplyIsFull(k: ImuConstants, reports: seq<Option<Bytes>>, j: nat, segment: int)
    requires FullReply(k, reports, j, segment)
    ensures Full(Segments(k, reports), j, segment)
  {
    var v := ReadNth(reports, j).value;
    forall ask | 0 < ask <= segment
      ensures Segments(k, reports)(j, ask).Some? && |Segments(k, reports)(j, ask).value| == ask
    {
      assert ParseImuReply(k.calDataGetNextSegment, ask, v).Some?;
    }
  }

  /** A 100-byte blob fetched 40 bytes at a time takes three requests, asking for 40, 40
      and 20 bytes. */
  lemma {:induction false} CalibrationExample(k: ImuConstants, reports: seq<Option<Bytes>>, cal: Bytes)
    requires |cal| == 100
    requires forall j :: 3 <= j < 6 ==> FullReply(k, reports, j, 40)
    ensures var r := CalibrationLoop(Segments(k, reports), |reports|, 40, 3, cal, 0);
            r.asks == [40, 40, 20] && r.nextRead == 6 && r.position == 100
  {
    assert PlannedAsks(100, 40) == [40, 40, 20] by {
      assert PlannedAsks(-20, 40) == [];
      assert PlannedAsks(20, 40) == [20];
      assert PlannedAsks(60, 40) == [40, 20];
    }
    forall j | 3 <= j < 6 ensures Full(Segments(k, reports), j, 40) {
      FullReplyIsFull(k, reports, j, 40);
    }
    CalibrationWithFullReplies(Segments(k, reports), |reports|, 40, 3, cal, 0);
  }

  /** Some leading frames, `n` copies of a middle frame, and a closing frame. */
  function Bracketed(first: seq<Bytes>, middle: Bytes, n: nat, last: Bytes): (frames: seq<Bytes>)
    ensures |frames| == |first| + n + 1
    ensures frames[..|first|] == first
    ensures forall j :: |first| <= j < |first| + n ==> frames[j] == middle
    ensures frames[|first| + n] == last
  {
    var frames := first + seq(n, _ => middle) + [last];
    assert frames[..|first|] == first;
    frames
  }

  /** The frames `imuOpen` writes when it makes `n` segment requests: the stop signal,
      the static id and calibration length requests, the segment requests, and the start
      signal. */
  function OpenFrames(k: ImuConstants, crc: Crc32, n: nat): (frames: seq<Bytes>)
    ensures |frames| == n + 4
    ensures frames[..3] == [SignalFrame(crc, k.startImuData, 0), Request(crc, k.getStaticId),
                            Request(crc, k.getCalDataLength)]
    ensures forall j :: 3 <= j < n + 3 ==> frames[j] == Request(crc, k.calDataGetNextSegment)
    ensures frames[n + 3] == SignalFrame(crc, k.startImuData, 1)
  {
    Bracketed([SignalFrame(crc, k.startImuData, 0), Request(crc, k.getStaticId), Request(crc, k.getCalDataLength)],
              Request(crc, k.calDataGetNextSegment), n, SignalFrame(crc, k.startImuData, 1))
  }

  /** The run of the calibration loop `imuOpen` makes once the length came back. */
  function OpenCalibration(k: ImuConstants, maxPayloadSize: int, reports: seq<Option<Bytes>>, clen: Bytes)
    : (run: CalibrationRun)
    requires maxPayloadSize > ImuHeaderSize
    ensures |run.cal| == U32le(clen, 0)
  {
    CalibrationLoop(Segments(k, reports), |reports|, maxPayloadSize - ImuHeaderSize, 3, Zeros(U32le(clen, 0)), 0)
  }

  /** What `imuOpen` writes and fills once the device is open: the frames, and the
      calibration buffer when the length came back. */
  function CalibrationPhase(k: ImuConstants, crc: Crc32, maxPayloadSize: int, reports: seq<Option<Bytes>>)
    : (r: (seq<Bytes>, Option<Bytes>))
    requires maxPayloadSize > ImuHeaderSize
    ensures |r.0| >= 4 && r.0 == OpenFrames(k, crc, |r.0| - 4)
    ensures r.1.Some? <==> SendAndRecv(reports, 2, k.getCalDataLength, 4).Some?
    ensures r.1.Some? ==> |r.1.value| == U32le(SendAndRecv(reports, 2, k.getCalDataLength, 4).value, 0)
    ensures r.1.None? ==> r.0 == OpenFrames(k, crc, 0)
  {
    match SendAndRecv(reports, 2, k.getCalDataLength, 4)
    case None => (OpenFrames(k, crc, 0), None)
    case Some(clen) =>
      var run := OpenCalibration(k, maxPayloadSize, reports, clen);
      (OpenFrames(k, crc, |run.asks|), Some(run.cal))
  }

  /** `imuOpen`. The reads, in order: the reply to the stop signal (ignored), the static
      id, the calibration length, one per segment request, and the reply to the start
      signal (ignored). Only the device selection can make it fail. */
  function ImuOpen(k: ImuConstants, crc: Crc32, infos: seq<DeviceInfo>, reports: seq<Option<Bytes>>): (r: ImuOpenRun)
    ensures r.result.Ok? <==> SelectDevice(Imu, infos).Ok?
    ensures r.result.Err? ==> r.sent == [] && r.calibration.None?
    ensures r.result.Ok? ==>
              var info := SelectDevice(Imu, infos).value;
              && r.result.value.productId == info.productId.value
              && r.result.value.maxPayloadSize == ImuMaxPayloadSize(info.productId.value)
              && r.result.value.maxPayloadSize > ImuHeaderSize
              && r.result.value.staticId == StaticId(k, reports)
    ensures r.result.Ok? ==> |r.sent| >= 4 && r.sent == OpenFrames(k, crc, |r.sent| - 4)
    ensures r.calibration.Some? <==> r.result.Ok? && SendAndRecv(reports, 2, k.getCalDataLength, 4).Some?
    ensures r.calibration.Some? ==>
              |r.calibration.value| == U32le(SendAndRecv(reports, 2, k.getCalDataLength, 4).value, 0)
    ensures r.result.Ok? && r.calibration.None? ==> r.sent == OpenFrames(k, crc, 0)
  {
    match SelectDevice(Imu, infos)
    case Err(_) => ImuOpenRun([], Err(NoHandle), None)
    case Ok(info) =>
      var productId := info.productId.value;
      var imu := OpenedImu(productId, ImuMaxPayloadSize(productId), StaticId(k, reports));
      var phase := CalibrationPhase(k, crc, imu.maxPayloadSize, reports);
      ImuOpenRun(phase.0, Ok(imu), phase.1)
  }

  /** The buffer of the calibration run: the replies' data from the start, then the zeros
      it was created with. */
  lemma {:induction false} OpenCalibrationContents(k: ImuConstants, maxPayloadSize: int,
                                                   reports: seq<Option<Bytes>>, clen: Bytes)
    requires maxPayloadSize > ImuHeaderSize
    ensures var run := OpenCalibration(k, maxPayloadSize, reports, clen);
            && run.cal[..run.position] == Collected(Segments(k, reports), 3, run.asks)
            && (forall j :: run.position <= j < |run.cal| ==> run.cal[j] == 0)
  {
    var segment := maxPayloadSize - ImuHeaderSize;
    var zeros := Zeros(U32le(clen, 0));
    var fetch := Segments(k, reports);
    var run := CalibrationLoop(fetch, |reports|, segment, 3, zeros, 0);
    assert OpenCalibration(k, maxPayloadSize, reports, clen) == run;
    CalibrationLoopContents(fetch, |reports|, segment, 3, zeros, 0);
    assert run.cal[..run.position] == Collected(fetch, 3, run.asks) by {
      assert run.cal[..run.position] == run.cal[0..run.position];
    }
    forall j | run.position <= j < |run.cal| ensures run.cal[j] == 0 {
      assert run.cal[j] == run.cal[run.position..][j - run.position];
      assert zeros[j] == zeros[run.position..][j - run.position];
    }
  }

  /** When every segment request is answered with a whole segment, the run fills the
      buffer in the planned requests. */
  lemma {:induction false} OpenCalibrationWithFullReplies(k: ImuConstants, maxPayloadSize: int,
                                                          reports: seq<Option<Bytes>>, clen: Bytes)
    requires maxPayloadSize > ImuHeaderSize
    requires FullRepliesFrom(k, reports, 3, U32le(clen, 0), maxPayloadSize - ImuHeaderSize)
    ensures var run := OpenCalibration(k, maxPayloadSize, reports, clen);
            run.position == U32le(clen, 0) && run.asks == PlannedAsks(U32le(clen, 0), maxPayloadSize - ImuHeaderSize)
  {
    var segment := maxPayloadSize - ImuHeaderSize;
    var zeros := Zeros(U32le(clen, 0));
    var fetch := Segments(k, reports);
    assert |zeros| - 0 == U32le(clen, 0);
    forall j | 3 <= j < 3 + |PlannedAsks(|zeros| - 0, segment)| ensures Full(fetch, j, segment) {
      FullReplyIsFull(k, reports, j, segment);
    }
    CalibrationWithFullReplies(fetch, |reports|, segment, 3, zeros, 0);
    assert OpenCalibration(k, maxPayloadSize, reports, clen) == CalibrationLoop(fetch, |reports|, segment, 3, zeros, 0);
  }

  /** Once the length came back, `imuOpen` makes one segment request per turn of the
      loop and keeps the loop's buffer. */
  lemma {:induction false} ImuOpenFetchesCalibration(k: ImuConstants, crc: Crc32, infos: seq<DeviceInfo>,
                                                     reports: seq<Option<Bytes>>)
    requires ImuOpen(k, crc, infos, reports).calibration.Some?
    ensures var r := ImuOpen(k, crc, infos, reports);
            var clen := SendAndRecv(reports, 2, k.getCalDataLength, 4).value;
            var run := OpenCalibration(k, r.result.value.maxPayloadSize, reports, clen);
            r.sent == OpenFrames(k, crc, |run.asks|) && r.calibration.value == run.cal
  {
  }
}
