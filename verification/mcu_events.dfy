/** The MCU's pushed reports and the listener `mcuOpen` installs for them.

    The listener keeps two values of its own, the last brightness and whether the
    screen is on. They start from what the open sequence read (see McuSession) and are
    not the fields of the opened-device record, which the listener never updates. */
module McuEvents {
  import opened ByteSeq
  import opened Wrappers
  import opened Pack
  import opened McuPacket
  import opened Text

  /** The listener's state. */
  datatype McuState = McuState(brightness: Byte, active: bool)

  datatype EventKind =
    | ScreenOn | ScreenOff | BrightnessUp | BrightnessDown
    | DisplayMode2D | DisplayMode3D | BlendCycle | ControlToggle
    | VolumeUp | VolumeDown | Unknown

  /** An event handed to the caller's callback; every event carries the brightness the
      listener holds after the report. */
  datatype McuEvent =
    | Notice(kind: EventKind, timestamp: int, brightness: Byte)
    | Message(timestamp: int, message: Bytes, brightness: Byte)

  // Virtual button codes of a button-pressed report.
  const DisplayToggleButton: int := 0x1
  const BrightnessUpButton: int := 0x6
  const BrightnessDownButton: int := 0x7
  const VolumeUpButton: int := 0x8
  const VolumeDownButton: int := 0x9
  const DisplayMode2DButton: int := 0xa
  const DisplayMode3DButton: int := 0xb
  const BlendCycleButton: int := 0xc
  const ControlToggleButton: int := 0xf

  // Offsets in a pushed report (after its report id is gone).
  const TimestampOffset: nat := 7
  const DataOffset: nat := 22
  const ButtonCodeOffset: nat := 26
  const ButtonValueOffset: nat := 30

  /** A report that gets past the listener's guards: full length and the packet head. */
  predicate Accepted(c: McuConstants, report: Bytes) {
    |report| >= c.maxPacketSize && |report| > 0 && report[0] == c.packetHead
  }

  /** A report that can change the brightness: a brightness button press. */
  predicate IsBrightnessPress(c: McuConstants, report: Bytes)
    requires c.Valid()
  {
    && Accepted(c, report)
    && U16le(report, MsgIdOffset) == c.pButtonPressed
    && (report[ButtonCodeOffset] == BrightnessUpButton || report[ButtonCodeOffset] == BrightnessDownButton)
  }

  /** A report that can switch the screen: a display-toggled report or the display
      toggle button. */
  predicate IsScreenSwitch(c: McuConstants, report: Bytes)
    requires c.Valid()
  {
    && Accepted(c, report)
    && (|| U16le(report, MsgIdOffset) == c.pDisplayToggled
        || (U16le(report, MsgIdOffset) == c.pButtonPressed && report[ButtonCodeOffset] == DisplayToggleButton))
  }

  /** The screen event for a new `active` value. */
  function ScreenEvent(active: bool): EventKind {
    if active then ScreenOn else ScreenOff
  }

  /** The kinds of the buttons that neither switch the screen nor set the brightness. */
  const OtherButtons: map<int, EventKind> := map[
    DisplayMode2DButton := DisplayMode2D, DisplayMode3DButton := DisplayMode3D,
    BlendCycleButton := BlendCycle, ControlToggleButton := ControlToggle,
    VolumeUpButton := VolumeUp, VolumeDownButton := VolumeDown]

  /** The button-pressed branch of the listener, given the button code and value. */
  function PressButton(st: McuState, code: Byte, value: Byte, timestamp: int): (r: (McuState, McuEvent))
    ensures r.1.Notice? && r.1.brightness == r.0.brightness
    ensures code == DisplayToggleButton ==> r.0 == st.(active := value != 0) && r.1.kind == ScreenEvent(value != 0)
    ensures code == BrightnessUpButton || code == BrightnessDownButton ==> r.0 == st.(brightness := value)
    ensures code != DisplayToggleButton && code != BrightnessUpButton && code != BrightnessDownButton ==>
              r.0 == st && r.1.kind == (if code in OtherButtons then OtherButtons[code] else Unknown)
  {
    if code == DisplayToggleButton then
      var active := value != 0;
      (st.(active := active), Notice(ScreenEvent(active), timestamp, st.brightness))
    else if code == BrightnessUpButton then
      (st.(brightness := value), Notice(BrightnessUp, timestamp, value))
    else if code == BrightnessDownButton then
      (st.(brightness := value), Notice(BrightnessDown, timestamp, value))
    else if code == DisplayMode2DButton then (st, Notice(DisplayMode2D, timestamp, st.brightness))
    else if code == DisplayMode3DButton then (st, Notice(DisplayMode3D, timestamp, st.brightness))
    else if code == BlendCycleButton then (st, Notice(BlendCycle, timestamp, st.brightness))
    else if code == ControlToggleButton then (st, Notice(ControlToggle, timestamp, st.brightness))
    else if code == VolumeUpButton then (st, Notice(VolumeUp, timestamp, st.brightness))
    else if code == VolumeDownButton then (st, Notice(VolumeDown, timestamp, st.brightness))
    else (st, Notice(Unknown, timestamp, st.brightness))
  }

  /** The listener's dispatch on a report whose report id is already gone. */
  function Dispatch(c: McuConstants, st: McuState, report: Bytes): (r: (McuState, Option<McuEvent>))
    requires c.Valid()
    ensures r.1.None? ==> r.0 == st
    ensures r.1.Some? ==> r.1.value.brightness == r.0.brightness
    ensures r.0.brightness != st.brightness ==> IsBrightnessPress(c, report)
    ensures r.0.active != st.active ==> IsScreenSwitch(c, report)
    ensures r.0.active != st.active ==> r.1 == Some(Notice(ScreenEvent(r.0.active), U32le(report, TimestampOffset), r.0.brightness))
  {
    if |report| < c.maxPacketSize then (st, None)
    else if report[0] != c.packetHead then (st, None)
    else
      var timestamp := U32le(report, TimestampOffset);
      var msgId := U16le(report, MsgIdOffset);
      var d := report[DataOffset..];
      if msgId == c.pStartHeartbeat then (st, None)
      else if msgId == c.pDisplayToggled then
        var active := d[0] != 0;
        (st.(active := active), Some(Notice(ScreenEvent(active), timestamp, st.brightness)))
      else if msgId == c.pButtonPressed then
        var (next, e) := PressButton(st, d[4], d[8], timestamp);
        (next, Some(e))
      else if msgId == c.pAsyncTextLog then
        (st, Some(Message(timestamp, TrimAtNul(d), st.brightness)))
      else if msgId == c.pEndHeartbeat then (st, None)
      else (st, Some(Notice(Unknown, timestamp, st.brightness)))
  }

  /** Drops one leading 0x00, whatever the report's length. */
  function StripReportId(raw: Bytes): (report: Bytes)
    ensures report == raw || (|raw| > 0 && raw[0] == 0 && report == raw[1..])
  {
    if |raw| > 0 && raw[0] == 0 then raw[1..] else raw
  }

  /** The listener: strip a report id, then dispatch. */
  function OnData(c: McuConstants, st: McuState, raw: Bytes): (r: (McuState, Option<McuEvent>))
    requires c.Valid()
  {
    Dispatch(c, st, StripReportId(raw))
  }

  /** Exactly one leading 0x00 is taken for a report id; a report starting with a
      different byte is dispatched as it is. */
  lemma {:induction false} OnDataStripsOneZero(c: McuConstants, st: McuState, report: Bytes)
    requires c.Valid()
    ensures OnData(c, st, [0] + report) == Dispatch(c, st, report)
    ensures |report| > 0 && report[0] != 0 ==> OnData(c, st, report) == Dispatch(c, st, report)
  {
    assert ([0] + report)[1..] == report;
  }

  /** Short reports and reports without the packet head change nothing and emit nothing. */
  lemma {:induction false} DispatchIgnoresForeignReports(c: McuConstants, st: McuState, report: Bytes)
    requires c.Valid()
    requires !Accepted(c, report)
    ensures Dispatch(c, st, report) == (st, None)
  {
  }

  /** Heartbeats are swallowed. */
  lemma {:induction false} DispatchHeartbeat(c: McuConstants, st: McuState, report: Bytes)
    requires c.Valid() && Accepted(c, report)
    requires U16le(report, MsgIdOffset) == c.pStartHeartbeat || U16le(report, MsgIdOffset) == c.pEndHeartbeat
    ensures Dispatch(c, st, report) == (st, None)
  {
    var ids := c.MessageIds();
    assert ids[7] == c.pStartHeartbeat && ids[8] == c.pDisplayToggled && ids[9] == c.pButtonPressed;
    assert ids[10] == c.pAsyncTextLog && ids[11] == c.pEndHeartbeat;
  }

  /** A display-toggled report sets `active` from its first data byte and reports the
      screen state with the unchanged brightness. */
  lemma {:induction false} DispatchDisplayToggled(c: McuConstants, st: McuState, report: Bytes)
    requires c.Valid() && Accepted(c, report)
    requires U16le(report, MsgIdOffset) == c.pDisplayToggled
    ensures var active := report[DataOffset] != 0;
            Dispatch(c, st, report)
              == (st.(active := active), Some(Notice(ScreenEvent(active), U32le(report, TimestampOffset), st.brightness)))
  {
    var ids := c.MessageIds();
    assert ids[7] == c.pStartHeartbeat && ids[8] == c.pDisplayToggled;
  }

  /** A button press: the display toggle button behaves like a display-toggled report,
      the brightness buttons store the new brightness (byte 30) and report it, and every
      other code leaves the state alone, mapping unlisted codes to an unknown event. */
  lemma {:induction false} DispatchButton(c: McuConstants, st: McuState, report: Bytes)
    requires c.Valid() && Accepted(c, report)
    requires U16le(report, MsgIdOffset) == c.pButtonPressed
    ensures var code, value := report[ButtonCodeOffset], report[ButtonValueOffset];
            var ts := U32le(report, TimestampOffset);
            var r := Dispatch(c, st, report);
            && (code == DisplayToggleButton ==>
                  r == (st.(active := value != 0), Some(Notice(ScreenEvent(value != 0), ts, st.brightness))))
            && (code == BrightnessUpButton ==> r == (st.(brightness := value), Some(Notice(BrightnessUp, ts, value))))
            && (code == BrightnessDownButton ==> r == (st.(brightness := value), Some(Notice(BrightnessDown, ts, value))))
            && ((code !in OtherButtons && code != DisplayToggleButton && code != BrightnessUpButton
                 && code != BrightnessDownButton) ==> r == (st, Some(Notice(Unknown, ts, st.brightness))))
            && (code in OtherButtons ==> r == (st, Some(Notice(OtherButtons[code], ts, st.brightness))))
  {
    var ids := c.MessageIds();
    assert ids[7] == c.pStartHeartbeat && ids[8] == c.pDisplayToggled && ids[9] == c.pButtonPressed;
    var d := report[DataOffset..];
    assert d[4] == report[ButtonCodeOffset] && d[8] == report[ButtonValueOffset];
  }

  /** A text-log report is passed on with its text cut at the first NUL. */
  lemma {:induction false} DispatchTextLog(c: McuConstants, st: McuState, report: Bytes)
    requires c.Valid() && Accepted(c, report)
    requires U16le(report, MsgIdOffset) == c.pAsyncTextLog
    ensures Dispatch(c, st, report)
              == (st, Some(Message(U32le(report, TimestampOffset), TrimAtNul(report[DataOffset..]), st.brightness)))
  {
    var ids := c.MessageIds();
    assert ids[7] == c.pStartHeartbeat && ids[8] == c.pDisplayToggled && ids[9] == c.pButtonPressed;
    assert ids[10] == c.pAsyncTextLog;
  }

  /** Any other message id is reported as unknown and changes nothing. */
  lemma {:induction false} DispatchOtherMessage(c: McuConstants, st: McuState, report: Bytes)
    requires c.Valid() && Accepted(c, report)
    requires U16le(report, MsgIdOffset) !in {c.pStartHeartbeat, c.pDisplayToggled, c.pButtonPressed,
                                              c.pAsyncTextLog, c.pEndHeartbeat}
    ensures Dispatch(c, st, report) == (st, Some(Notice(Unknown, U32le(report, TimestampOffset), st.brightness)))
  {
  }

  /** The listener over a stream of raw reports: the final state and the events emitted. */
  function Listen(c: McuConstants, st: McuState, raws: seq<Bytes>): (r: (McuState, seq<McuEvent>))
    requires c.Valid()
    ensures |r.1| <= |raws|
    ensures (forall i :: 0 <= i < |raws| ==> !IsBrightnessPress(c, StripReportId(raws[i])))
            ==> r.0.brightness == st.brightness
    ensures (forall i :: 0 <= i < |raws| ==> !IsScreenSwitch(c, StripReportId(raws[i])))
            ==> r.0.active == st.active
    decreases |raws|
  {
    if |raws| == 0 then (st, [])
    else
      var (next, e) := OnData(c, st, raws[0]);
      var (last, events) := Listen(c, next, raws[1..]);
      assert forall i :: 1 <= i < |raws| ==> raws[1..][i - 1] == raws[i];
      (last, (if e.Some? then [e.value] else []) + events)
  }
}
