/**
 * The Linux mouse is two event devices, one relative and one absolute. Buttons and wheels follow the
 * device that moved last, so a button can be pressed on one device and the motion can switch to the
 * other before it is released. The readers below know nothing of each other: each folds its own events.
 */
module EvdevMouse {
  import opened AxisScaling
  import opened Basics
  import opened MouseInput
  import opened Scroll

  datatype Device = Relative | Absolute

  datatype Event =
    | RelX(v: int) | RelY(v: int)
    | Wheel(v: int) | HWheel(v: int) | WheelHighRes(v: int) | HWheelHighRes(v: int)
    | AbsX(v: int) | AbsY(v: int)
    | Button(button: int, down: bool)
    | Syn

  datatype Sent = Sent(device: Device, event: Event)

  /** What the device was created with: the geometry and which high-resolution wheel codes exist. */
  datatype Config = Config(
    desktop: PointerViewport, viewport: PointerViewport, verticalHighRes: bool, horizontalHighRes: bool)

  // ----- Buttons -----------------------------------------------------------------------------

  const EXTRA_BUTTON: int := 4

  /** Left, middle, right, side and extra are 0..4; any other value counts as left. */
  function KnownButton(button: int): (b: int)
    ensures 0 <= b <= EXTRA_BUTTON
    ensures 0 <= button <= EXTRA_BUTTON ==> b == button
  {
    if 0 <= button <= EXTRA_BUTTON then button else 0
  }

  function ButtonMask(button: int): bv8 {
    (1 as bv8) << KnownButton(button)
  }

  predicate Has(mask: bv8, button: int) {
    mask & ButtonMask(button) != 0
  }

  function WithButton(mask: bv8, button: int, pressed: bool): bv8 {
    if pressed then mask | ButtonMask(button) else mask & !ButtonMask(button)
  }

  lemma ButtonMasks()
    ensures ButtonMask(0) == 1 && ButtonMask(1) == 2 && ButtonMask(2) == 4 && ButtonMask(3) == 8 && ButtonMask(4) == 16
  {
  }

  /** Setting or clearing one button's bit is seen at that button and nowhere else. */
  lemma WithButtonHas(mask: bv8, button: int, pressed: bool, other: int)
    ensures Has(WithButton(mask, button, pressed), other) ==
            if KnownButton(other) == KnownButton(button) then pressed else Has(mask, other)
  {
    ButtonMasks();
    var b, o := KnownButton(button), KnownButton(other);
    assert ButtonMask(button) == ButtonMask(b) && ButtonMask(other) == ButtonMask(o);
    MaskOps(mask, ButtonMask(b), ButtonMask(o));
  }

  // ----- The emitter -------------------------------------------------------------------------

  datatype Mouse = Mouse(
    last: Device,
    relativeButtons: bv8,
    absoluteButtons: bv8,
    verticalRemainder: int,
    horizontalRemainder: int)
  {
    function Buttons(device: Device): bv8 {
      if device.Absolute? then absoluteButtons else relativeButtons
    }

    function SetButtons(device: Device, mask: bv8): Mouse {
      if device.Absolute? then this.(absoluteButtons := mask) else this.(relativeButtons := mask)
    }
  }

  const CREATED: Mouse := Mouse(Relative, 0, 0, 0, 0)

  /** A release goes to a device that holds the button, the relative one first. */
  function ButtonDevice(m: Mouse, button: int, pressed: bool): Device {
    if !pressed && Has(m.relativeButtons, button) then Relative
    else if !pressed && Has(m.absoluteButtons, button) then Absolute
    else m.last
  }

  function On(device: Device, events: seq<Event>): (sent: seq<Sent>)
    ensures |sent| == |events|
    ensures forall i :: 0 <= i < |sent| ==> sent[i] == Sent(device, events[i])
  {
    seq(|events|, i requires 0 <= i < |events| => Sent(device, events[i]))
  }

  function RelativeEvents(x: int, y: int): seq<Event> {
    (if x != 0 then [RelX(x)] else []) + (if y != 0 then [RelY(y)] else []) + [Syn]
  }

  function AxisValue(integral: int, fraction: real, fractional: bool, source: int, configured: bool, span: Span): int {
    if configured
    then LinuxScaleToViewport(if fractional then fraction else integral as real, source, span)
    else LinuxScale(integral, source)
  }

  datatype Position = Position(x: int, y: int)

  /** The axis values an absolute motion stands for. */
  function PositionOf(config: Config, i: Input): Position
    requires i.AbsoluteMotion?
  {
    var xs, ys := XSpan(config.desktop, config.viewport), YSpan(config.desktop, config.viewport);
    Position(
      AxisValue(i.x, i.absoluteX, i.fractional, i.width, config.viewport.width > 0, xs),
      AxisValue(i.y, i.absoluteY, i.fractional, i.height, config.viewport.height > 0, ys))
  }

  function AbsoluteEvents(config: Config, i: Input): seq<Event>
    requires i.AbsoluteMotion?
  {
    [AbsX(PositionOf(config, i).x), AbsY(PositionOf(config, i).y), Syn]
  }

  function VerticalEvents(remainder: int, distance: int, highRes: bool): seq<Event> {
    var detents := Accumulate(remainder, distance).detents;
    (if detents != 0 then [Wheel(detents)] else []) + (if highRes then [WheelHighRes(distance)] else []) + [Syn]
  }

  function HorizontalEvents(remainder: int, distance: int, highRes: bool): seq<Event> {
    var detents := Accumulate(remainder, distance).detents;
    (if detents != 0 then [HWheel(detents)] else []) + (if highRes then [HWheelHighRes(distance)] else []) + [Syn]
  }

  /** Where an input is written and what. */
  function Report(config: Config, m: Mouse, i: Input): (Device, seq<Event>) {
    match i
    case RelativeMotion(x, y) => (Relative, RelativeEvents(x, y))
    case AbsoluteMotion(_, _, _, _, _, _, _) => (Absolute, AbsoluteEvents(config, i))
    case ButtonChange(b, pressed) => (ButtonDevice(m, b, pressed), [Button(KnownButton(b), pressed), Syn])
    case VerticalScroll(d) => (m.last, VerticalEvents(m.verticalRemainder, d, config.verticalHighRes))
    case HorizontalScroll(d) => (m.last, HorizontalEvents(m.horizontalRemainder, d, config.horizontalHighRes))
  }

  function After(m: Mouse, i: Input): Mouse {
    match i
    case RelativeMotion(_, _) => m.(last := Relative)
    case AbsoluteMotion(_, _, _, _, _, _, _) => m.(last := Absolute)
    case ButtonChange(b, pressed) =>
      var device := ButtonDevice(m, b, pressed);
      m.SetButtons(device, WithButton(m.Buttons(device), b, pressed))
    case VerticalScroll(distance) => m.(verticalRemainder := Accumulate(m.verticalRemainder, distance).remainder)
    case HorizontalScroll(distance) => m.(horizontalRemainder := Accumulate(m.horizontalRemainder, distance).remainder)
  }

  // ----- The readers -------------------------------------------------------------------------

  datatype Reader = Reader(
    down: set<int>,
    relX: int, relY: int,
    wheel: int, hwheel: int, wheelHighRes: int, hwheelHighRes: int,
    absX: int, absY: int)

  const IDLE: Reader := Reader({}, 0, 0, 0, 0, 0, 0, 0, 0)

  function Apply(r: Reader, e: Event): Reader {
    match e
    case RelX(v) => r.(relX := r.relX + v)
    case RelY(v) => r.(relY := r.relY + v)
    case Wheel(v) => r.(wheel := r.wheel + v)
    case HWheel(v) => r.(hwheel := r.hwheel + v)
    case WheelHighRes(v) => r.(wheelHighRes := r.wheelHighRes + v)
    case HWheelHighRes(v) => r.(hwheelHighRes := r.hwheelHighRes + v)
    case AbsX(v) => r.(absX := v)
    case AbsY(v) => r.(absY := v)
    case Button(b, down) => r.(down := if down then r.down + {b} else r.down - {b})
    case Syn => r
  }

  /** One device's reader sees the events written to that device, in order. */
  function Replay(device: Device, log: seq<Sent>): Reader {
    if log == [] then IDLE
    else
      var before := Replay(device, log[..|log| - 1]);
      var last := log[|log| - 1];
      if last.device == device then Apply(before, last.event) else before
  }

  function ApplyAll(r: Reader, events: seq<Event>): Reader {
    if events == [] then r else Apply(ApplyAll(r, events[..|events| - 1]), events[|events| - 1])
  }

  lemma {:induction false} ReplayOn(log: seq<Sent>, target: Device, events: seq<Event>, device: Device)
    ensures Replay(device, log + On(target, events)) ==
            if device == target then ApplyAll(Replay(device, log), events) else Replay(device, log)
    decreases |events|
  {
    if events == [] {
      assert log + On(target, events) == log;
    } else {
      var shorter := events[..|events| - 1];
      ReplayOn(log, target, shorter, device);
      var all := log + On(target, events);
      assert all[..|all| - 1] == log + On(target, shorter);
    }
  }

  lemma ApplySnoc(r: Reader, events: seq<Event>, e: Event)
    ensures ApplyAll(r, events + [e]) == Apply(ApplyAll(r, events), e)
  {
    var all := events + [e];
    assert all[..|all| - 1] == events;
  }

  /** The reader after an optional event. */
  function Maybe(r: Reader, events: seq<Event>): Reader {
    if events == [] then r else Apply(r, events[0])
  }

  /** A report is at most two values and a SYN_REPORT. */
  lemma ApplyReport(r: Reader, a: seq<Event>, b: seq<Event>)
    requires |a| <= 1 && |b| <= 1
    ensures ApplyAll(r, a + b + [Syn]) == Maybe(Maybe(r, a), b)
  {
    ApplySnoc(r, a + b, Syn);
    if a != [] {
      assert a == [] + [a[0]];
      ApplySnoc(r, [], a[0]);
    }
    if b != [] {
      assert b == [b[0]];
      ApplySnoc(r, a, b[0]);
    } else {
      assert a + b == a;
    }
  }

  // ----- Buttons: the readers hold exactly the masks -------------------------------------------

  ghost predicate KeysAre(down: set<int>, mask: bv8) {
    forall b :: b in down <==> 0 <= b <= EXTRA_BUTTON && Has(mask, b)
  }

  /** Everything a pair of readers shows about a mouse. */
  ghost predicate Shows(m: Mouse, relative: Reader, absolute: Reader) {
    KeysAre(relative.down, m.relativeButtons) && KeysAre(absolute.down, m.absoluteButtons)
  }

  lemma ButtonKeys(down: set<int>, mask: bv8, button: int, pressed: bool)
    requires KeysAre(down, mask)
    ensures KeysAre(if pressed then down + {KnownButton(button)} else down - {KnownButton(button)},
                    WithButton(mask, button, pressed))
  {
    var b := KnownButton(button);
    var down' := if pressed then down + {b} else down - {b};
    forall other
      ensures other in down' <==> 0 <= other <= EXTRA_BUTTON && Has(WithButton(mask, button, pressed), other)
    {
      WithButtonHas(mask, button, pressed, other);
    }
  }

  // ----- Totals over a history -----------------------------------------------------------------

  function Run(config: Config, inputs: seq<Input>): (Mouse, seq<Sent>)
    decreases |inputs|
  {
    if inputs == [] then (CREATED, [])
    else
      var (m, log) := Run(config, inputs[..|inputs| - 1]);
      var i := inputs[|inputs| - 1];
      var (device, events) := Report(config, m, i);
      (After(m, i), log + On(device, events))
  }

  /** Where the last absolute motion of a history points; the origin before the first. */
  function LastPosition(config: Config, inputs: seq<Input>): Position
    decreases |inputs|
  {
    if inputs == [] then Position(0, 0)
    else if inputs[|inputs| - 1].AbsoluteMotion? then PositionOf(config, inputs[|inputs| - 1])
    else LastPosition(config, inputs[..|inputs| - 1])
  }

  /** Only the absolute reader shows a position, and it shows this one. */
  ghost predicate Points(p: Position, relative: Reader, absolute: Reader) {
    Position(absolute.absX, absolute.absY) == p && Position(relative.absX, relative.absY) == Position(0, 0)
  }

  /** The two readers together have received what was asked, up to the carried remainders. */
  ghost predicate Received(config: Config, m: Mouse, a: Asked, relative: Reader, absolute: Reader) {
    && relative.relX == a.x && relative.relY == a.y && absolute.relX == 0 && absolute.relY == 0
    && a.vertical == UNITS_PER_DETENT * (relative.wheel + absolute.wheel) + m.verticalRemainder
    && a.horizontal == UNITS_PER_DETENT * (relative.hwheel + absolute.hwheel) + m.horizontalRemainder
    && -UNITS_PER_DETENT < m.verticalRemainder < UNITS_PER_DETENT
    && -UNITS_PER_DETENT < m.horizontalRemainder < UNITS_PER_DETENT
    && relative.wheelHighRes + absolute.wheelHighRes == (if config.verticalHighRes then a.vertical else 0)
    && relative.hwheelHighRes + absolute.hwheelHighRes == (if config.horizontalHighRes then a.horizontal else 0)
  }

  /** What one input adds at the device it is written to; the other device's reader does not move. */
  lemma ReportApplies(config: Config, m: Mouse, i: Input, r: Reader)
    ensures var t := ApplyAll(r, Report(config, m, i).1);
            match i
            case RelativeMotion(x, y) => t == r.(relX := r.relX + x, relY := r.relY + y)
            case AbsoluteMotion(_, _, _, _, _, _, _) =>
              t == r.(absX := PositionOf(config, i).x, absY := PositionOf(config, i).y)
            case ButtonChange(b, pressed) =>
              t == r.(down := if pressed then r.down + {KnownButton(b)} else r.down - {KnownButton(b)})
            case VerticalScroll(d) =>
              t == r.(wheel := r.wheel + Accumulate(m.verticalRemainder, d).detents,
                      wheelHighRes := r.wheelHighRes + if config.verticalHighRes then d else 0)
            case HorizontalScroll(d) =>
              t == r.(hwheel := r.hwheel + Accumulate(m.horizontalRemainder, d).detents,
                      hwheelHighRes := r.hwheelHighRes + if config.horizontalHighRes then d else 0)
  {
    hide ApplyAll, PositionOf;
    match i
    case RelativeMotion(x, y) =>
      ApplyReport(r, if x != 0 then [RelX(x)] else [], if y != 0 then [RelY(y)] else []);
    case AbsoluteMotion(_, _, _, _, _, _, _) =>
      var es := AbsoluteEvents(config, i);
      assert es == [es[0]] + [es[1]] + [Syn];
      ApplyReport(r, [es[0]], [es[1]]);
    case ButtonChange(b, pressed) =>
      var e := Button(KnownButton(b), pressed);
      assert [e, Syn] == [e] + [] + [Syn];
      ApplyReport(r, [e], []);
    case VerticalScroll(d) =>
      var detents := Accumulate(m.verticalRemainder, d).detents;
      ApplyReport(r, if detents != 0 then [Wheel(detents)] else [],
                  if config.verticalHighRes then [WheelHighRes(d)] else []);
    case HorizontalScroll(d) =>
      var detents := Accumulate(m.horizontalRemainder, d).detents;
      ApplyReport(r, if detents != 0 then [HWheel(detents)] else [],
                  if config.horizontalHighRes then [HWheelHighRes(d)] else []);
  }

  /** The reader an input reaches, when it is this device's. */
  function Reached(config: Config, m: Mouse, i: Input, device: Device, r: Reader): Reader {
    if device == Report(config, m, i).0 then ApplyAll(r, Report(config, m, i).1) else r
  }

  lemma StepShows(config: Config, m: Mouse, i: Input, p: Position, relative: Reader, absolute: Reader)
    requires Shows(m, relative, absolute) && Points(p, relative, absolute)
    ensures Shows(After(m, i), Reached(config, m, i, Relative, relative), Reached(config, m, i, Absolute, absolute))
    ensures Points(if i.AbsoluteMotion? then PositionOf(config, i) else p,
                   Reached(config, m, i, Relative, relative), Reached(config, m, i, Absolute, absolute))
  {
    hide ApplyAll, KeysAre, Has, WithButton, PositionOf, Accumulate;
    ReportApplies(config, m, i, relative);
    ReportApplies(config, m, i, absolute);
    if i.ButtonChange? {
      ButtonKeys(relative.down, m.relativeButtons, i.button, i.pressed);
      ButtonKeys(absolute.down, m.absoluteButtons, i.button, i.pressed);
    }
  }

  lemma StepReceived(config: Config, m: Mouse, i: Input, a: Asked, relative: Reader, absolute: Reader)
    requires Received(config, m, a, relative, absolute)
    ensures Received(config, After(m, i), AddAsked(a, i),
                     Reached(config, m, i, Relative, relative), Reached(config, m, i, Absolute, absolute))
  {
    hide ApplyAll, ButtonDevice, WithButton;
    ReportApplies(config, m, i, relative);
    ReportApplies(config, m, i, absolute);
  }

  // ----- A release frees exactly one holder ----------------------------------------------------

  function Holders(m: Mouse, button: int): nat {
    (if Has(m.relativeButtons, button) then 1 else 0) + (if Has(m.absoluteButtons, button) then 1 else 0)
  }

  /** While any device holds the button, a release clears it on exactly one holding device. */
  lemma ReleaseFreesOneHolder(config: Config, m: Mouse, button: int)
    ensures var released := ButtonChange(button, false);
            && (Holders(m, button) > 0 ==> Has(m.Buttons(Report(config, m, released).0), button))
            && Holders(After(m, released), button) == (if Holders(m, button) > 0 then Holders(m, button) - 1 else 0)
            && forall other :: KnownButton(other) != KnownButton(button) ==>
                 (Has(After(m, released).relativeButtons, other) == Has(m.relativeButtons, other)
                 && Has(After(m, released).absoluteButtons, other) == Has(m.absoluteButtons, other))
  {
    hide Has, WithButton;
    var target := ButtonDevice(m, button, false);
    WithButtonHas(m.Buttons(target), button, false, button);
    forall other | KnownButton(other) != KnownButton(button)
      ensures Has(WithButton(m.Buttons(target), button, false), other) == Has(m.Buttons(target), other)
    {
      WithButtonHas(m.Buttons(target), button, false, other);
    }
  }

  /** However it came to be held, two releases free a button everywhere: both readers see it up. */
  lemma TwoReleasesFree(config: Config, inputs: seq<Input>, button: int)
    ensures var log := Run(config, inputs + [ButtonChange(button, false), ButtonChange(button, false)]).1;
            KnownButton(button) !in Replay(Relative, log).down && KnownButton(button) !in Replay(Absolute, log).down
  {
    var release := ButtonChange(button, false);
    var all := inputs + [release, release];
    var one := inputs + [release];
    assert all[..|all| - 1] == one && one[..|one| - 1] == inputs;
    var m := Run(config, inputs).0;
    RunSnoc(config, one);
    RunSnoc(config, all);
    ReleaseFreesOneHolder(config, m, button);
    ReleaseFreesOneHolder(config, After(m, release), button);
    RunRefines(config, all);
    var m2 := Run(config, all).0;
    hide Run, Replay;
    assert Holders(m2, button) == 0;
    assert Has(m2.relativeButtons, KnownButton(button)) == Has(m2.relativeButtons, button);
    assert Has(m2.absoluteButtons, KnownButton(button)) == Has(m2.absoluteButtons, button);
  }

  /** After any history, however the motion switched devices in between. */
  lemma {:induction false} RunRefines(config: Config, inputs: seq<Input>)
    ensures var (m, log) := Run(config, inputs);
            var relative, absolute := Replay(Relative, log), Replay(Absolute, log);
            && Shows(m, relative, absolute)
            && Received(config, m, AskedFor(inputs), relative, absolute)
            && Points(LastPosition(config, inputs), relative, absolute)
    decreases |inputs|
  {
    if inputs == [] {
      assert forall b :: !Has(0, b);
    } else {
      var before, i := inputs[..|inputs| - 1], inputs[|inputs| - 1];
      RunRefines(config, before);
      var (m, log) := Run(config, before);
      var (device, events) := Report(config, m, i);
      ReplayOn(log, device, events, Relative);
      ReplayOn(log, device, events, Absolute);
      hide Run, Replay, ApplyAll;
      ReportApplies(config, m, i, Replay(device, log));
      StepShows(config, m, i, LastPosition(config, before), Replay(Relative, log), Replay(Absolute, log));
      assert Run(config, inputs) == (After(m, i), log + On(device, events)) by { RunSnoc(config, inputs); }
      StepReceived(config, m, i, AskedFor(before), Replay(Relative, log), Replay(Absolute, log));
      assert AskedFor(inputs) == AddAsked(AskedFor(before), i);
    }
  }

  lemma RunSnoc(config: Config, inputs: seq<Input>)
    requires inputs != []
    ensures var (m, log) := Run(config, inputs[..|inputs| - 1]);
            var i := inputs[|inputs| - 1];
            Run(config, inputs) == (After(m, i), log + On(Report(config, m, i).0, Report(config, m, i).1))
  {
  }

  // ----- The device --------------------------------------------------------------------------

  datatype Status = Ok | DeviceClosed | WriteFailed

  /** `UinputMouse`: a failed write stops the call before it has changed any state. */
  class UinputMouse {
    const config: Config
    var relativeOpen: bool
    var absoluteOpen: bool
    var last: Device
    var relativeButtons: bv8
    var absoluteButtons: bv8
    var verticalRemainder: int
    var horizontalRemainder: int
    var log: seq<Sent>

    function View(): Mouse
      reads this
    {
      Mouse(last, relativeButtons, absoluteButtons, verticalRemainder, horizontalRemainder)
    }

    constructor (config: Config)
      ensures this.config == config && relativeOpen && absoluteOpen && View() == CREATED && log == []
    {
      this.config := config;
      relativeOpen, absoluteOpen, last, relativeButtons, absoluteButtons := true, true, Relative, 0, 0;
      verticalRemainder, horizontalRemainder, log := 0, 0, [];
    }

    method Emit(device: Device, event: Event) returns (ok: bool)
      modifies this`log
      ensures log == if ok then old(log) + [Sent(device, event)] else old(log)
    {
      ok := *;
      if ok {
        log := log + [Sent(device, event)];
      }
    }

    /** The events one call writes, in order; it stops at the first write that fails. */
    method EmitReport(device: Device, events: seq<Event>) returns (ok: bool)
      modifies this`log
      ensures old(log) <= log <= old(log) + On(device, events)
      ensures ok ==> log == old(log) + On(device, events)
    {
      var i := 0;
      ghost var all := On(device, events);
      while i < |events|
        invariant 0 <= i <= |events|
        invariant log == old(log) + all[..i]
      {
        ok := Emit(device, events[i]);
        if !ok {
          return false;
        }
        assert all[..i + 1] == all[..i] + [all[i]];
        i := i + 1;
      }
      ok := true;
    }

    method Submit(i: Input) returns (status: Status)
      modifies this
      ensures (status == DeviceClosed) <==> !(old(relativeOpen) && old(absoluteOpen))
      ensures relativeOpen == old(relativeOpen) && absoluteOpen == old(absoluteOpen)
      ensures status.Ok? ==>
                && View() == After(old(View()), i)
                && log == old(log) + On(Report(config, old(View()), i).0, Report(config, old(View()), i).1)
      ensures !status.Ok? ==> View() == old(View())
      ensures old(log) <= log <= old(log) + On(Report(config, old(View()), i).0, Report(config, old(View()), i).1)
      ensures status.DeviceClosed? ==> log == old(log)
    {
      if !relativeOpen || !absoluteOpen {
        return DeviceClosed;
      }
      hide LinuxScale, LinuxScaleToViewport;
      var ok: bool;
      match i {
        case RelativeMotion(x, y) =>
          ok := EmitReport(Relative, RelativeEvents(x, y));
          if ok { last := Relative; }
        case AbsoluteMotion(_, _, _, _, _, _, _) =>
          ok := EmitReport(Absolute, AbsoluteEvents(config, i));
          if ok { last := Absolute; }
        case ButtonChange(button, pressed) =>
          ok := SubmitButton(button, pressed);
        case VerticalScroll(distance) =>
          ok := EmitReport(last, VerticalEvents(verticalRemainder, distance, config.verticalHighRes));
          if ok { verticalRemainder := Accumulate(verticalRemainder, distance).remainder; }
        case HorizontalScroll(distance) =>
          ok := EmitReport(last, HorizontalEvents(horizontalRemainder, distance, config.horizontalHighRes));
          if ok { horizontalRemainder := Accumulate(horizontalRemainder, distance).remainder; }
      }
      return if ok then Ok else WriteFailed;
    }

    method SubmitButton(button: int, pressed: bool) returns (ok: bool)
      modifies this`relativeButtons, this`absoluteButtons, this`log
      ensures ghost var i := ButtonChange(button, pressed);
              && View() == (if ok then After(old(View()), i) else old(View()))
              && old(log) <= log <= old(log) + On(Report(config, old(View()), i).0, Report(config, old(View()), i).1)
              && (ok ==> log == old(log) + On(Report(config, old(View()), i).0, Report(config, old(View()), i).1))
    {
      hide ButtonDevice, WithButton, KnownButton, Has;
      ghost var m := View();
      var kind := ButtonDevice(View(), button, pressed);
      assert Report(config, m, ButtonChange(button, pressed)) == (kind, [Button(KnownButton(button), pressed), Syn]);
      ok := EmitReport(kind, [Button(KnownButton(button), pressed), Syn]);
      if ok {
        if kind.Absolute? {
          absoluteButtons := WithButton(absoluteButtons, button, pressed);
        } else {
          relativeButtons := WithButton(relativeButtons, button, pressed);
        }
      }
    }

    method Close()
      modifies this`relativeOpen, this`absoluteOpen
      ensures !relativeOpen && !absoluteOpen
    {
      relativeOpen, absoluteOpen := false, false;
    }
  }
}
