/** HID report framing: the optional leading report id on incoming reports and the
    report id 0x00 put in front of every outgoing report. */
module Device {
  import opened ByteSeq
  import opened Wrappers

  /** `normalizeInReport`: some platforms deliver a full 65-byte report with its
      report id 0x00 still in front; such a leading zero is dropped. */
  function NormalizeInReport(report: Bytes): (r: Bytes)
    ensures |report| - 1 <= |r| <= |report|
    ensures r == report[|report| - |r|..]
    ensures |r| < |report| <==> |report| >= 65 && report[0] == 0
  {
    if |report| >= 65 && report[0] == 0 then report[1..] else report
  }

  /** The bytes `writeOutReport` hands to the HID layer: report id 0x00, then the payload. */
  function OutReport(payload: Bytes): (frame: Bytes)
    ensures |frame| == 1 + |payload|
    ensures frame[0] == 0 && frame[1..] == payload
  {
    [0] + payload
  }

  /** One `readTimeout`: the next raw report normalized, or `None` when nothing arrived
      in time (or the read failed). Reports still queued are the rest of `reports`. */
  function ReadTimeout(reports: seq<Option<Bytes>>): (r: Option<Bytes>)
    ensures r.Some? <==> |reports| > 0 && reports[0].Some?
    ensures r.Some? ==> r.value == NormalizeInReport(reports[0].value)
  {
    if |reports| == 0 then None
    else match reports[0]
      case None => None
      case Some(raw) => Some(NormalizeInReport(raw))
  }

  /** The reports left after one read. */
  function Rest(reports: seq<Option<Bytes>>): (r: seq<Option<Bytes>>)
    ensures |reports| > 0 ==> |r| == |reports| - 1
    ensures |reports| == 0 ==> r == []
  {
    if |reports| == 0 then [] else reports[1..]
  }

  /** The `i`-th read of a session, counting from 0. */
  function ReadNth(reports: seq<Option<Bytes>>, i: nat): (r: Option<Bytes>)
    ensures r.Some? <==> i < |reports| && reports[i].Some?
    ensures r.Some? ==> r.value == NormalizeInReport(reports[i].value)
  {
    if i < |reports| then ReadTimeout(reports[i..]) else None
  }

  /** Reading on after one read is reading one further along. */
  lemma {:induction false} ReadNthRest(reports: seq<Option<Bytes>>, i: nat)
    ensures ReadNth(Rest(reports), i) == ReadNth(reports, i + 1)
    ensures ReadNth(reports, 0) == ReadTimeout(reports)
  {
  }

  /** A full-size outgoing frame read back as an incoming report loses exactly its
      report id; a shorter one keeps it. */
  lemma {:induction false} NormalizeUndoesOutReport(payload: Bytes)
    ensures |payload| >= 64 ==> NormalizeInReport(OutReport(payload)) == payload
    ensures |payload| < 64 ==> NormalizeInReport(OutReport(payload)) == OutReport(payload)
  {
    var frame := OutReport(payload);
    assert frame[0] == 0;
    assert |payload| >= 64 ==> NormalizeInReport(frame) == frame[1..];
  }

  /** Normalizing is not idempotent: a 66-byte report opening with two zeros loses
      one byte per pass. */
  lemma {:induction false} NormalizeDropsOnePerPass(report: Bytes)
    requires |report| >= 66 && report[0] == 0 && report[1] == 0
    ensures NormalizeInReport(NormalizeInReport(report)) == report[2..]
  {
    var once := NormalizeInReport(report);
    assert once == report[1..];
    assert once[0] == 0 && |once| >= 65;
    assert once[1..] == report[2..];
  }
}
