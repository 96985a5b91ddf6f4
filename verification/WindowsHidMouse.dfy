/**
 * The driver-backed Windows mouse: relative motion is split into 16-bit reports, scrolling into 8-bit
 * wheel and pan reports, and every report carries the button byte.
 */
module WindowsHidMouse {
  import opened Basics
  import opened Bytes
  import opened MouseInput
  import opened Rounding
  import opened Scroll
  import AxisScaling
  import EvdevMouse

  const MOUSE_INPUT_REPORT_SIZE: nat := 7
  const INT16_MIN: int := -32768
  const INT16_MAX: int := 32767
  const DETENT_LIMIT: int := 127

  // ----- Report packing ----------------------------------------------------------------------

  datatype Report = Report(buttons: bv8, x: int, y: int, wheel: int, pan: int)

  predicate Fits(r: Report) {
    Int16(r.x) && Int16(r.y) && Int8(r.wheel) && Int8(r.pan)
  }

  ghost predicate AllFit(reports: seq<Report>) {
    forall k :: 0 <= k < |reports| ==> Fits(reports[k])
  }

  function Pack(r: Report): (bytes: seq<Byte>)
    requires Fits(r)
    ensures |bytes| == MOUSE_INPUT_REPORT_SIZE
  {
    [r.buttons as Byte,
     LowByte(ToUnsigned(r.x, 65536)), HighByte(ToUnsigned(r.x, 65536)),
     LowByte(ToUnsigned(r.y, 65536)), HighByte(ToUnsigned(r.y, 65536)),
     ToUnsigned(r.wheel, 256), ToUnsigned(r.pan, 256)]
  }

  /** What the HID class driver reads from the seven bytes. */
  function Decode(bytes: seq<Byte>): Report
    requires |bytes| == MOUSE_INPUT_REPORT_SIZE
  {
    Report(bytes[0] as bv8, DecodeInt16(bytes[1], bytes[2]), DecodeInt16(bytes[3], bytes[4]),
           DecodeInt8(bytes[5]), DecodeInt8(bytes[6]))
  }

  lemma PackRoundTrip(r: Report)
    requires Fits(r)
    ensures Decode(Pack(r)) == r
  {
    Int16RoundTrip(r.x);
    Int16RoundTrip(r.y);
    assert (r.buttons as Byte) as bv8 == r.buttons;
  }

  // ----- Splitting motion --------------------------------------------------------------------

  function Chunk(v: int): (c: int)
    ensures Int16(c)
    ensures v > 0 ==> 0 < c <= v
    ensures v < 0 ==> v <= c < 0
    ensures v == 0 ==> c == 0
  {
    ClampInt(v, INT16_MIN, INT16_MAX)
  }

  function Magnitude(v: int): nat {
    if v < 0 then -v else v
  }

  ghost predicate AllInt16(chunks: seq<(int, int)>) {
    forall k :: 0 <= k < |chunks| ==> Int16(chunks[k].0) && Int16(chunks[k].1)
  }

  /** The displacements of the reports one motion is split into. */
  function Chunks(x: int, y: int): (chunks: seq<(int, int)>)
    ensures AllInt16(chunks)
    decreases Magnitude(x) + Magnitude(y)
  {
    if x == 0 && y == 0 then []
    else [(Chunk(x), Chunk(y))] + Chunks(x - Chunk(x), y - Chunk(y))
  }

  function SumX(chunks: seq<(int, int)>): int {
    if chunks == [] then 0 else chunks[0].0 + SumX(chunks[1..])
  }

  function SumY(chunks: seq<(int, int)>): int {
    if chunks == [] then 0 else chunks[0].1 + SumY(chunks[1..])
  }

  /** How many 16-bit displacements a distance needs on one axis. */
  function Needed(v: int): nat {
    if v >= 0 then (v + 32766) / 32767 else (-v + 32767) / 32768
  }

  /** No motion is lost or invented, and no more reports are sent than the wider axis needs. */
  lemma {:induction false} ChunksConserve(x: int, y: int)
    ensures SumX(Chunks(x, y)) == x && SumY(Chunks(x, y)) == y
    ensures |Chunks(x, y)| == Max(Needed(x), Needed(y))
    decreases Magnitude(x) + Magnitude(y)
  {
    if x != 0 || y != 0 {
      var rest := Chunks(x - Chunk(x), y - Chunk(y));
      assert Chunks(x, y)[1..] == rest;
      ChunksConserve(x - Chunk(x), y - Chunk(y));
      OneFewer(x);
      OneFewer(y);
    }
  }

  lemma OneFewer(v: int)
    ensures Needed(v - Chunk(v)) == if v == 0 then 0 else Needed(v) - 1
    ensures v != 0 ==> Needed(v) > 0
  {
  }

  /** Any way of splitting the same motion into 16-bit reports needs at least as many. */
  lemma {:induction false} FewestReports(chunks: seq<(int, int)>)
    requires AllInt16(chunks)
    ensures |chunks| >= |Chunks(SumX(chunks), SumY(chunks))|
  {
    SumBounds(chunks);
    ChunksConserve(SumX(chunks), SumY(chunks));
  }

  lemma {:induction false} SumBounds(chunks: seq<(int, int)>)
    requires AllInt16(chunks)
    ensures INT16_MIN * |chunks| <= SumX(chunks) <= INT16_MAX * |chunks|
    ensures INT16_MIN * |chunks| <= SumY(chunks) <= INT16_MAX * |chunks|
    decreases |chunks|
  {
    if chunks != [] {
      SumBounds(chunks[1..]);
    }
  }

  // ----- Splitting detents -------------------------------------------------------------------

  function DetentChunk(v: int): (c: int)
    ensures Int8(c)
    ensures v > 0 ==> 0 < c <= v
    ensures v < 0 ==> v <= c < 0
  {
    ClampInt(v, -DETENT_LIMIT, DETENT_LIMIT)
  }

  function DetentChunks(v: int): (chunks: seq<int>)
    ensures forall k :: 0 <= k < |chunks| ==> Int8(chunks[k])
    decreases Magnitude(v)
  {
    if v == 0 then [] else [DetentChunk(v)] + DetentChunks(v - DetentChunk(v))
  }

  /** One report for every 127 detents, and one for the rest. */
  lemma {:induction false} DetentReports(v: int)
    ensures |DetentChunks(v)| == (Magnitude(v) + 126) / 127
    decreases Magnitude(v)
  {
    if v != 0 {
      DetentReports(v - DetentChunk(v));
    }
  }

  // ----- The emitter -------------------------------------------------------------------------

  datatype Mouse = Mouse(buttons: bv8, verticalRemainder: int, horizontalRemainder: int)

  const CREATED: Mouse := Mouse(0, 0, 0)

  /** HID orders left, right, middle, side, extra; other buttons have no bit. */
  function HidButtonBit(button: int): (bit: int)
    ensures -1 <= bit <= 4
    ensures bit >= 0 <==> 0 <= button <= 4
  {
    if button == 0 then 0
    else if button == 1 then 2
    else if button == 2 then 1
    else if button == 3 || button == 4 then button
    else -1
  }

  function ButtonMask(button: int): bv8 {
    var bit := HidButtonBit(button);
    if bit < 0 then 0 else (1 as bv8) << bit
  }

  function WithButton(buttons: bv8, button: int, pressed: bool): bv8 {
    if pressed then buttons | ButtonMask(button) else buttons & !ButtonMask(button)
  }

  function After(m: Mouse, i: Input): Mouse {
    match i
    case ButtonChange(b, pressed) => m.(buttons := WithButton(m.buttons, b, pressed))
    case VerticalScroll(d) => m.(verticalRemainder := Accumulate(m.verticalRemainder, d).remainder)
    case HorizontalScroll(d) => m.(horizontalRemainder := Accumulate(m.horizontalRemainder, d).remainder)
    case _ => m
  }

  function MotionReports(buttons: bv8, chunks: seq<(int, int)>): (reports: seq<Report>)
    ensures |reports| == |chunks|
    ensures forall k :: 0 <= k < |chunks| ==> reports[k] == Report(buttons, chunks[k].0, chunks[k].1, 0, 0)
  {
    seq(|chunks|, k requires 0 <= k < |chunks| => Report(buttons, chunks[k].0, chunks[k].1, 0, 0))
  }

  function ScrollReports(buttons: bv8, chunks: seq<int>, vertical: bool): (reports: seq<Report>)
    ensures |reports| == |chunks|
    ensures forall k :: 0 <= k < |chunks| ==>
              reports[k] == Report(buttons, 0, 0, if vertical then chunks[k] else 0, if vertical then 0 else chunks[k])
  {
    seq(|chunks|, k requires 0 <= k < |chunks| =>
      Report(buttons, 0, 0, if vertical then chunks[k] else 0, if vertical then 0 else chunks[k]))
  }

  /** The HID reports of one call; absolute motion has none, it goes to the injection fallback. */
  function Reports(m: Mouse, i: Input): (reports: seq<Report>)
    ensures AllFit(reports)
  {
    match i
    case RelativeMotion(x, y) => MotionReports(m.buttons, Chunks(x, y))
    case AbsoluteMotion(_, _, _, _, _, _, _) => []
    case ButtonChange(b, _) => if HidButtonBit(b) < 0 then [] else [Report(After(m, i).buttons, 0, 0, 0, 0)]
    case VerticalScroll(d) => ScrollReports(m.buttons, DetentChunks(Accumulate(m.verticalRemainder, d).detents), true)
    case HorizontalScroll(d) =>
      ScrollReports(m.buttons, DetentChunks(Accumulate(m.horizontalRemainder, d).detents), false)
  }

  // ----- The reader --------------------------------------------------------------------------

  /** Where the pointer and the wheels have moved to, and the buttons of the last report. */
  datatype Reader = Reader(buttons: bv8, x: int, y: int, wheel: int, pan: int)

  function Apply(r: Reader, bytes: seq<Byte>): Reader
    requires |bytes| == MOUSE_INPUT_REPORT_SIZE
  {
    var d := Decode(bytes);
    Reader(d.buttons, r.x + d.x, r.y + d.y, r.wheel + d.wheel, r.pan + d.pan)
  }

  ghost predicate WellSized(log: seq<seq<Byte>>) {
    forall k :: 0 <= k < |log| ==> |log[k]| == MOUSE_INPUT_REPORT_SIZE
  }

  function Replay(r: Reader, log: seq<seq<Byte>>): Reader
    requires WellSized(log)
    decreases |log|
  {
    if log == [] then r else Replay(Apply(r, log[0]), log[1..])
  }

  lemma {:induction false} ReplayConcat(r: Reader, a: seq<seq<Byte>>, b: seq<seq<Byte>>)
    requires WellSized(a) && WellSized(b)
    ensures Replay(r, a + b) == Replay(Replay(r, a), b)
    decreases |a|
  {
    if a == [] {
      assert a + b == b;
    } else {
      assert (a + b)[1..] == a[1..] + b;
      ReplayConcat(Apply(r, a[0]), a[1..], b);
    }
  }

  function PackAll(reports: seq<Report>): (log: seq<seq<Byte>>)
    requires AllFit(reports)
    ensures |log| == |reports| && WellSized(log)
  {
    if reports == [] then [] else [Pack(reports[0])] + PackAll(reports[1..])
  }

  lemma PackAllFirst(first: Report, rest: seq<Report>)
    requires Fits(first) && AllFit(rest)
    ensures AllFit([first] + rest)
    ensures PackAll([first] + rest) == [Pack(first)] + PackAll(rest)
  {
    hide Pack, Fits;
    assert ([first] + rest)[1..] == rest;
  }

  lemma ReplayFirst(r: Reader, bytes: seq<Byte>, log: seq<seq<Byte>>)
    requires |bytes| == MOUSE_INPUT_REPORT_SIZE && WellSized(log)
    ensures WellSized([bytes] + log)
    ensures Replay(r, [bytes] + log) == Replay(Apply(r, bytes), log)
  {
    hide Apply;
    assert ([bytes] + log)[1..] == log;
  }

  /** What one packed report does to the reader. */
  function Moved(r: Reader, report: Report): Reader {
    Reader(report.buttons, r.x + report.x, r.y + report.y, r.wheel + report.wheel, r.pan + report.pan)
  }

  lemma ApplyPacked(r: Reader, report: Report)
    requires Fits(report)
    ensures Apply(r, Pack(report)) == Moved(r, report)
  {
    hide Pack, Decode;
    PackRoundTrip(report);
  }

  lemma ReplayPacked(r: Reader, first: Report, rest: seq<Report>)
    requires Fits(first) && AllFit(rest)
    ensures AllFit([first] + rest)
    ensures Replay(r, PackAll([first] + rest)) == Replay(Moved(r, first), PackAll(rest))
  {
    hide Pack, Apply, Replay, PackAll, Moved, Fits, AllFit;
    PackAllFirst(first, rest);
    ReplayFirst(r, Pack(first), PackAll(rest));
    ApplyPacked(r, first);
  }

  /** The reader adds up the displacements of a run of motion reports. */
  lemma {:induction false} ReplayMotion(r: Reader, buttons: bv8, chunks: seq<(int, int)>)
    requires chunks != [] ==> r.buttons == buttons
    requires AllInt16(chunks)
    ensures AllFit(MotionReports(buttons, chunks))
    ensures Replay(r, PackAll(MotionReports(buttons, chunks))) == r.(x := r.x + SumX(chunks), y := r.y + SumY(chunks))
    decreases |chunks|
  {
    if chunks != [] {
      var c := chunks[0];
      var rest := MotionReports(buttons, chunks[1..]);
      var first := Report(buttons, c.0, c.1, 0, 0);
      assert MotionReports(buttons, chunks) == [first] + rest;
      ReplayMotion(r.(x := r.x + c.0, y := r.y + c.1), buttons, chunks[1..]);
      hide Replay, PackAll, MotionReports;
      ReplayPacked(r, first, rest);
    }
  }

  function ScrollReport(buttons: bv8, detents: int, vertical: bool): Report {
    Report(buttons, 0, 0, if vertical then detents else 0, if vertical then 0 else detents)
  }

  lemma FirstScrollReport(buttons: bv8, v: int, vertical: bool)
    requires v != 0
    ensures ScrollReports(buttons, DetentChunks(v), vertical)
         == [ScrollReport(buttons, DetentChunk(v), vertical)]
            + ScrollReports(buttons, DetentChunks(v - DetentChunk(v)), vertical)
  {
    hide DetentChunk;
    assert DetentChunks(v) == [DetentChunk(v)] + DetentChunks(v - DetentChunk(v));
    hide DetentChunks;
  }

  lemma {:induction false} ReplayScroll(r: Reader, v: int, vertical: bool)
    ensures AllFit(ScrollReports(r.buttons, DetentChunks(v), vertical))
    ensures Replay(r, PackAll(ScrollReports(r.buttons, DetentChunks(v), vertical)))
         == if vertical then r.(wheel := r.wheel + v) else r.(pan := r.pan + v)
    decreases Magnitude(v)
  {
    if v == 0 {
      assert ScrollReports(r.buttons, DetentChunks(v), vertical) == [];
      ReplayNothing(r);
    } else {
      var c := DetentChunk(v);
      var rest := ScrollReports(r.buttons, DetentChunks(v - c), vertical);
      var first := ScrollReport(r.buttons, c, vertical);
      FirstScrollReport(r.buttons, v, vertical);
      hide Replay, PackAll, ScrollReports, DetentChunks, DetentChunk;
      ReplayScroll(if vertical then r.(wheel := r.wheel + c) else r.(pan := r.pan + c), v - c, vertical);
      ReplayPacked(r, first, rest);
    }
  }

  // ----- Whole runs --------------------------------------------------------------------------

  function Run(inputs: seq<Input>): (out: (Mouse, seq<seq<Byte>>))
    ensures WellSized(out.1)
  {
    if inputs == [] then (CREATED, [])
    else
      var (m, log) := Run(inputs[..|inputs| - 1]);
      var i := inputs[|inputs| - 1];
      (After(m, i), log + PackAll(Reports(m, i)))
  }

  const IDLE: Reader := Reader(0, 0, 0, 0, 0)

  ghost predicate Received(m: Mouse, a: Asked, r: Reader) {
    && r == Reader(m.buttons, a.x, a.y, r.wheel, r.pan)
    && a.vertical == UNITS_PER_DETENT * r.wheel + m.verticalRemainder
    && a.horizontal == UNITS_PER_DETENT * r.pan + m.horizontalRemainder
    && -UNITS_PER_DETENT < m.verticalRemainder < UNITS_PER_DETENT
    && -UNITS_PER_DETENT < m.horizontalRemainder < UNITS_PER_DETENT
  }

  lemma StepReceived(m: Mouse, i: Input, a: Asked, r: Reader)
    requires Received(m, a, r)
    ensures Received(After(m, i), AddAsked(a, i), Replay(r, PackAll(Reports(m, i))))
  {
    hide Chunks, DetentChunks, Replay, PackAll, MotionReports, ScrollReports, WithButton, Accumulate;
    match i
    case RelativeMotion(x, y) =>
      ChunksConserve(x, y);
      ReplayMotion(r, m.buttons, Chunks(x, y));
    case AbsoluteMotion(_, _, _, _, _, _, _) =>
      ReplayNothing(r);
    case ButtonChange(_, _) =>
      StepButton(m, i, r);
    case VerticalScroll(distance) =>
      ReplayScroll(r, Accumulate(m.verticalRemainder, distance).detents, true);
    case HorizontalScroll(distance) =>
      ReplayScroll(r, Accumulate(m.horizontalRemainder, distance).detents, false);
  }

  lemma ReplayNothing(r: Reader)
    ensures Replay(r, PackAll([])) == r
  {
  }

  lemma StepButton(m: Mouse, i: Input, r: Reader)
    requires i.ButtonChange? && r.buttons == m.buttons
    ensures Replay(r, PackAll(Reports(m, i))) == r.(buttons := After(m, i).buttons)
  {
    if HidButtonBit(i.button) >= 0 {
      var report := Report(After(m, i).buttons, 0, 0, 0, 0);
      assert [report] + [] == [report];
      hide ButtonMask;
      ReplayPacked(r, report, []);
    } else {
      NoBits(m.buttons, i.button);
    }
  }

  /** After any history the reader is where the caller asked it to be, up to the carried remainders. */
  lemma {:induction false} RunRefines(inputs: seq<Input>)
    ensures Received(Run(inputs).0, AskedFor(inputs), Replay(IDLE, Run(inputs).1))
  {
    if inputs != [] {
      var before, i := inputs[..|inputs| - 1], inputs[|inputs| - 1];
      RunRefines(before);
      var (m, log) := Run(before);
      StepReceived(m, i, AskedFor(before), Replay(IDLE, log));
      ReplayConcat(IDLE, log, PackAll(Reports(m, i)));
    }
  }

  /** The Windows wheel and the two Linux wheels together turn by the same number of detents. */
  lemma {:induction false} SameDetentsAsLinux(config: EvdevMouse.Config, inputs: seq<Input>)
    ensures var windows := Replay(IDLE, Run(inputs).1);
            var log := EvdevMouse.Run(config, inputs).1;
            var relative := EvdevMouse.Replay(EvdevMouse.Relative, log);
            var absolute := EvdevMouse.Replay(EvdevMouse.Absolute, log);
            && windows.wheel == relative.wheel + absolute.wheel
            && windows.pan == relative.hwheel + absolute.hwheel
            && windows.x == relative.relX && windows.y == relative.relY
  {
    RunRefines(inputs);
    EvdevMouse.RunRefines(config, inputs);
    SameRemainders(config, inputs);
  }

  lemma SameStep(m: Mouse, l: EvdevMouse.Mouse, i: Input)
    requires m.verticalRemainder == l.verticalRemainder && m.horizontalRemainder == l.horizontalRemainder
    ensures After(m, i).verticalRemainder == EvdevMouse.After(l, i).verticalRemainder
    ensures After(m, i).horizontalRemainder == EvdevMouse.After(l, i).horizontalRemainder
  {
    hide Accumulate, ButtonMask, EvdevMouse.WithButton, EvdevMouse.ButtonDevice;
  }

  lemma {:induction false} SameRemainders(config: EvdevMouse.Config, inputs: seq<Input>)
    ensures Run(inputs).0.verticalRemainder == EvdevMouse.Run(config, inputs).0.verticalRemainder
    ensures Run(inputs).0.horizontalRemainder == EvdevMouse.Run(config, inputs).0.horizontalRemainder
    decreases |inputs|
  {
    if inputs != [] {
      var before := inputs[..|inputs| - 1];
      SameRemainders(config, before);
      EvdevMouse.RunSnoc(config, inputs);
      SameStep(Run(before).0, EvdevMouse.Run(config, before).0, inputs[|inputs| - 1]);
    }
  }

  // ----- Buttons -----------------------------------------------------------------------------

  /** The buttons pressed and not released since. */
  function Held(inputs: seq<Input>): set<int> {
    if inputs == [] then {}
    else
      var held := Held(inputs[..|inputs| - 1]);
      match inputs[|inputs| - 1]
      case ButtonChange(b, pressed) => if pressed then held + {b} else held - {b}
      case _ => held
  }

  predicate Down(buttons: bv8, button: int) {
    buttons & ButtonMask(button) != 0
  }

  lemma MaskFacts(button: int, other: int)
    requires 0 <= button <= 4 && 0 <= other <= 4
    ensures ButtonMask(button) != 0
    ensures button != other ==> ButtonMask(button) & ButtonMask(other) == 0
  {
    assert ButtonMask(0) == 1 && ButtonMask(1) == 4 && ButtonMask(2) == 2 && ButtonMask(3) == 8 && ButtonMask(4) == 16;
  }

  lemma NoBits(buttons: bv8, button: int)
    requires HidButtonBit(button) < 0
    ensures WithButton(buttons, button, true) == WithButton(buttons, button, false) == buttons
  {
    assert ButtonMask(button) == 0;
  }

  lemma ButtonStep(buttons: bv8, button: int, other: int)
    requires 0 <= other <= 4
    ensures Down(WithButton(buttons, button, true), other) == (button == other || Down(buttons, other))
    ensures Down(WithButton(buttons, button, false), other) == (button != other && Down(buttons, other))
  {
    if 0 <= button <= 4 {
      MaskFacts(button, other);
      MaskFacts(button, button);
      hide ButtonMask;
      MaskStep(buttons, ButtonMask(button), ButtonMask(other), true);
      MaskStep(buttons, ButtonMask(button), ButtonMask(other), false);
    } else {
      NoBits(buttons, button);
    }
  }

  lemma {:induction false} MaskIsHeld(inputs: seq<Input>, button: int)
    requires 0 <= button <= 4
    ensures Down(Run(inputs).0.buttons, button) <==> button in Held(inputs)
    decreases |inputs|
  {
    hide Down, ButtonMask, WithButton, PackAll, Reports;
    if inputs != [] {
      var before, i := inputs[..|inputs| - 1], inputs[|inputs| - 1];
      MaskIsHeld(before, button);
      if i.ButtonChange? {
        ButtonStep(Run(before).0.buttons, i.button, button);
      }
    } else {
      NothingDown(button);
    }
  }

  /** The last report's button byte shows exactly the five buttons that are held. */
  lemma ReportedButtonsAreHeld(inputs: seq<Input>, button: int)
    requires 0 <= button <= 4
    ensures Down(Replay(IDLE, Run(inputs).1).buttons, button) <==> button in Held(inputs)
  {
    hide Down, Replay, Run, Held;
    RunRefines(inputs);
    MaskIsHeld(inputs, button);
  }

  /** Bit by bit, as the report descriptor orders the buttons: left, right, middle, side, extra. */
  lemma ReportedBits(inputs: seq<Input>)
    ensures var buttons, held := Replay(IDLE, Run(inputs).1).buttons, Held(inputs);
            && (buttons & 0x01 != 0 <==> 0 in held)
            && (buttons & 0x02 != 0 <==> 2 in held)
            && (buttons & 0x04 != 0 <==> 1 in held)
            && (buttons & 0x08 != 0 <==> 3 in held)
            && (buttons & 0x10 != 0 <==> 4 in held)
            && buttons & 0xE0 == 0
  {
    hide Replay, Run, Held;
    RunRefines(inputs);
    NoOtherBits(inputs);
    forall button | 0 <= button <= 4
      ensures Down(Run(inputs).0.buttons, button) <==> button in Held(inputs)
    {
      MaskIsHeld(inputs, button);
    }
    FiveMasks();
    hide ButtonMask;
  }

  lemma FiveMasks()
    ensures ButtonMask(0) == 0x01 && ButtonMask(2) == 0x02 && ButtonMask(1) == 0x04
    ensures ButtonMask(3) == 0x08 && ButtonMask(4) == 0x10
  {
  }

  lemma {:induction false} NoOtherBits(inputs: seq<Input>)
    ensures Run(inputs).0.buttons & 0xE0 == 0
    decreases |inputs|
  {
    hide ButtonMask, PackAll, Reports;
    if inputs != [] {
      var before, i := inputs[..|inputs| - 1], inputs[|inputs| - 1];
      NoOtherBits(before);
      if i.ButtonChange? {
        MaskInside(i.button);
        StaysInside(Run(before).0.buttons, ButtonMask(i.button));
      }
    }
  }

  lemma MaskInside(button: int)
    ensures ButtonMask(button) & 0xE0 == 0
  {
    if 0 <= button <= 4 {
      FiveMasks();
    }
  }

  lemma StaysInside(buttons: bv8, mask: bv8)
    requires buttons & 0xE0 == 0 && mask & 0xE0 == 0
    ensures (buttons | mask) & 0xE0 == 0 && (buttons & !mask) & 0xE0 == 0
  {
  }

  lemma NothingDown(button: int)
    ensures !Down(0, button)
  {
    var mask := ButtonMask(button);
    assert (0 as bv8) & mask == 0;
  }

  lemma PackedSplit(first: Report, rest: seq<Report>)
    requires Fits(first) && AllFit(rest)
    ensures AllFit([first] + rest)
    ensures PackAll([first] + rest) == [Pack(first)] + PackAll(rest)
  {
    assert ([first] + rest)[1..] == rest;
  }

  /** What is still to be submitted for a motion of (x, y). */
  ghost function MotionBytes(buttons: bv8, x: int, y: int): seq<seq<Byte>> {
    PackAll(MotionReports(buttons, Chunks(x, y)))
  }

  lemma MotionSplit(buttons: bv8, x: int, y: int)
    requires x != 0 || y != 0
    ensures MotionBytes(buttons, x, y) ==
            [Pack(Report(buttons, Chunk(x), Chunk(y), 0, 0))] + MotionBytes(buttons, x - Chunk(x), y - Chunk(y))
  {
    var first := Report(buttons, Chunk(x), Chunk(y), 0, 0);
    var rest := MotionReports(buttons, Chunks(x - Chunk(x), y - Chunk(y)));
    assert MotionReports(buttons, Chunks(x, y)) == [first] + rest;
    hide Pack;
    PackedSplit(first, rest);
  }

  lemma NoMotion(buttons: bv8)
    ensures MotionBytes(buttons, 0, 0) == []
  {
  }

  ghost function ScrollBytes(buttons: bv8, detents: int, vertical: bool): seq<seq<Byte>> {
    PackAll(ScrollReports(buttons, DetentChunks(detents), vertical))
  }

  lemma ScrollSplit(buttons: bv8, detents: int, vertical: bool)
    requires detents != 0
    ensures var c := DetentChunk(detents);
            ScrollBytes(buttons, detents, vertical) ==
            [Pack(Report(buttons, 0, 0, if vertical then c else 0, if vertical then 0 else c))]
            + ScrollBytes(buttons, detents - c, vertical)
  {
    var c := DetentChunk(detents);
    var first := Report(buttons, 0, 0, if vertical then c else 0, if vertical then 0 else c);
    var rest := ScrollReports(buttons, DetentChunks(detents - c), vertical);
    assert ScrollReports(buttons, DetentChunks(detents), vertical) == [first] + rest;
    hide Pack;
    PackedSplit(first, rest);
  }

  lemma NoDetents(buttons: bv8, vertical: bool)
    ensures ScrollBytes(buttons, 0, vertical) == []
  {
  }

  // ----- The device --------------------------------------------------------------------------

  datatype Status = Ok | DeviceClosed | SubmitFailed

  /** `WindowsHidMouse`: the state moves first, so a failed report loses what it carried. */
  class WindowsHidMouse {
    var open: bool
    var buttons: bv8
    var verticalRemainder: int
    var horizontalRemainder: int
    var submitted: seq<seq<Byte>>

    function View(): Mouse
      reads this
    {
      Mouse(buttons, verticalRemainder, horizontalRemainder)
    }

    constructor ()
      ensures open && View() == CREATED && submitted == []
    {
      open, buttons, verticalRemainder, horizontalRemainder, submitted := true, 0, 0, 0, [];
    }

    method Emit(x: int, y: int, wheel: int, pan: int) returns (ok: bool)
      requires Fits(Report(buttons, x, y, wheel, pan))
      modifies this`submitted
      ensures submitted == if ok then old(submitted) + [Pack(Report(buttons, x, y, wheel, pan))] else old(submitted)
    {
      var report := new Byte[MOUSE_INPUT_REPORT_SIZE](_ => 0);
      report[0] := buttons as Byte;
      report[1] := LowByte(ToUnsigned(x, 65536));
      report[2] := HighByte(ToUnsigned(x, 65536));
      report[3] := LowByte(ToUnsigned(y, 65536));
      report[4] := HighByte(ToUnsigned(y, 65536));
      report[5] := ToUnsigned(wheel, 256);
      report[6] := ToUnsigned(pan, 256);
      assert report[..] == Pack(Report(buttons, x, y, wheel, pan));
      ok := *;
      if ok {
        submitted := submitted + [report[..]];
      }
    }

    method SubmitRelativeMotion(x0: int, y0: int) returns (ok: bool)
      modifies this`submitted
      ensures old(submitted) <= submitted <= old(submitted) + MotionBytes(buttons, x0, y0)
      ensures ok ==> submitted == old(submitted) + MotionBytes(buttons, x0, y0)
    {
      hide MotionBytes, Pack;
      var x, y := x0, y0;
      ghost var target := submitted + MotionBytes(buttons, x0, y0);
      while x != 0 || y != 0
        invariant old(submitted) <= submitted
        invariant submitted + MotionBytes(buttons, x, y) == target
        decreases Magnitude(x) + Magnitude(y)
      {
        MotionSplit(buttons, x, y);
        var reportX, reportY := Chunk(x), Chunk(y);
        ok := Emit(reportX, reportY, 0, 0);
        if !ok {
          return;
        }
        x, y := x - reportX, y - reportY;
      }
      NoMotion(buttons);
      ok := true;
    }

    method SubmitDetents(total: int, vertical: bool) returns (ok: bool)
      modifies this`submitted
      ensures old(submitted) <= submitted <= old(submitted) + ScrollBytes(buttons, total, vertical)
      ensures ok ==> submitted == old(submitted) + ScrollBytes(buttons, total, vertical)
    {
      hide ScrollBytes, Pack;
      var detents := total;
      ghost var target := submitted + ScrollBytes(buttons, total, vertical);
      while detents != 0
        invariant old(submitted) <= submitted
        invariant submitted + ScrollBytes(buttons, detents, vertical) == target
        decreases Magnitude(detents)
      {
        ScrollSplit(buttons, detents, vertical);
        var c := DetentChunk(detents);
        ok := Emit(0, 0, if vertical then c else 0, if vertical then 0 else c);
        if !ok {
          return;
        }
        detents := detents - c;
      }
      NoDetents(buttons, vertical);
      ok := true;
    }

    method SubmitButton(button: int, pressed: bool) returns (ok: bool)
      modifies this`buttons, this`submitted
      ensures View() == After(old(View()), ButtonChange(button, pressed))
      ensures var sent := PackAll(Reports(old(View()), ButtonChange(button, pressed)));
              submitted == if ok then old(submitted) + sent else old(submitted)
    {
      hide ButtonMask, WithButton, Pack;
      if HidButtonBit(button) < 0 {
        NoBits(buttons, button);
        return true;
      }
      buttons := WithButton(buttons, button, pressed);
      ghost var report := Report(buttons, 0, 0, 0, 0);
      PackedSplit(report, []);
      assert [report] + [] == [report];
      ok := Emit(0, 0, 0, 0);
    }

    method Submit(i: Input) returns (status: Status)
      modifies this
      ensures status.DeviceClosed? <==> !old(open)
      ensures open == old(open)
      ensures View() == if open then After(old(View()), i) else old(View())
      ensures open ==> old(submitted) <= submitted <= old(submitted) + PackAll(Reports(old(View()), i))
      ensures status.Ok? ==> submitted == old(submitted) + PackAll(Reports(old(View()), i))
      ensures status.DeviceClosed? ==> submitted == old(submitted)
    {
      if !open {
        return DeviceClosed;
      }
      hide ButtonMask, WithButton, Pack, PackAll;
      var ok := true;
      match i {
        case RelativeMotion(x, y) =>
          ok := SubmitRelativeMotion(x, y);
        case AbsoluteMotion(_, _, _, _, _, _, _) =>
        case ButtonChange(button, pressed) =>
          ok := SubmitButton(button, pressed);
        case VerticalScroll(distance) =>
          var c := Accumulate(verticalRemainder, distance);
          verticalRemainder := c.remainder;
          ok := SubmitDetents(c.detents, true);
        case HorizontalScroll(distance) =>
          var c := Accumulate(horizontalRemainder, distance);
          horizontalRemainder := c.remainder;
          ok := SubmitDetents(c.detents, false);
      }
      return if ok then Ok else SubmitFailed;
    }

    method Close()
      modifies this`open
      ensures !open
    {
      open := false;
    }
  }
}
