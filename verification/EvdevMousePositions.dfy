/**
 * Where the Linux mouse points and which of its two devices an input reaches, said of the inputs, the
 * geometry and what the readers show.
 */
module EvdevMousePositions {
  import opened AxisScaling
  import opened EvdevMouse
  import opened MouseInput
  import opened Rounding

  // ----- Which device ------------------------------------------------------------------------------

  /** The kind of the last motion; relative before the first. */
  function MovedLast(inputs: seq<Input>): Device
    decreases |inputs|
  {
    if inputs == [] then Relative
    else
      match inputs[|inputs| - 1]
      case RelativeMotion(_, _) => Relative
      case AbsoluteMotion(_, _, _, _, _, _, _) => Absolute
      case _ => MovedLast(inputs[..|inputs| - 1])
  }

  lemma {:induction false} LastIsMovedLast(config: Config, inputs: seq<Input>)
    ensures Run(config, inputs).0.last == MovedLast(inputs)
    decreases |inputs|
  {
    hide Report, Has, WithButton;
    if inputs != [] {
      LastIsMovedLast(config, inputs[..|inputs| - 1]);
    }
  }

  /** Five buttons are known; any other value is taken for the left one. */
  function Taken(button: int): int {
    if 1 <= button <= 4 then button else 0
  }

  /** The device of an input: motion its own, a release where the button shows, the rest with the motion. */
  function Recipient(moved: Device, relative: Reader, absolute: Reader, i: Input): Device {
    match i
    case RelativeMotion(_, _) => Relative
    case AbsoluteMotion(_, _, _, _, _, _, _) => Absolute
    case ButtonChange(b, pressed) =>
      if !pressed && Taken(b) in relative.down then Relative
      else if !pressed && Taken(b) in absolute.down then Absolute
      else moved
    case _ => moved
  }

  /** After any history, everything the next input writes goes to this device. */
  lemma InputReaches(config: Config, inputs: seq<Input>, i: Input)
    ensures var log, longer := Run(config, inputs).1, Run(config, inputs + [i]).1;
            && log <= longer
            && forall k :: |log| <= k < |longer| ==>
                 longer[k].device == Recipient(MovedLast(inputs), Replay(Relative, log), Replay(Absolute, log), i)
  {
    hide Replay, LastPosition, Has, MovedLast;
    var all := inputs + [i];
    assert all[..|all| - 1] == inputs;
    RunSnoc(config, all);
    RunRefines(config, inputs);
    LastIsMovedLast(config, inputs);
    hide Run;
    SameHas(Run(config, inputs).0.relativeButtons, i);
    SameHas(Run(config, inputs).0.absoluteButtons, i);
  }

  lemma SameHas(mask: bv8, i: Input)
    ensures i.ButtonChange? ==> Has(mask, i.button) == Has(mask, Taken(i.button))
  {
  }

  /** After any history, a button change shows at that device, as that button, and nowhere else. */
  lemma ButtonShows(config: Config, inputs: seq<Input>, button: int, pressed: bool, device: Device)
    ensures var log, longer := Run(config, inputs).1, Run(config, inputs + [ButtonChange(button, pressed)]).1;
            var to := Recipient(MovedLast(inputs), Replay(Relative, log), Replay(Absolute, log),
                                ButtonChange(button, pressed));
            var before, after := Replay(device, log), Replay(device, longer);
            if device != to then after == before
            else after == before.(down := if pressed then before.down + {Taken(button)}
                                          else before.down - {Taken(button)})
  {
    hide Replay, LastPosition, Has, MovedLast, ApplyAll;
    var i := ButtonChange(button, pressed);
    var all := inputs + [i];
    assert all[..|all| - 1] == inputs;
    RunSnoc(config, all);
    RunRefines(config, inputs);
    LastIsMovedLast(config, inputs);
    hide Run;
    var (m, log) := Run(config, inputs);
    SameHas(m.relativeButtons, i);
    SameHas(m.absoluteButtons, i);
    ReplayOn(log, Report(config, m, i).0, Report(config, m, i).1, device);
    ReportApplies(config, m, i, Replay(device, log));
  }

  // ----- Where the pointer is ------------------------------------------------------------------------

  /** The last absolute motion of a history. */
  function LastMotion(inputs: seq<Input>): (last: seq<Input>)
    ensures |last| <= 1 && (last != [] ==> last[0].AbsoluteMotion?)
    decreases |inputs|
  {
    if inputs == [] then []
    else if inputs[|inputs| - 1].AbsoluteMotion? then [inputs[|inputs| - 1]]
    else LastMotion(inputs[..|inputs| - 1])
  }

  lemma {:induction false} PointsAtLastMotion(config: Config, inputs: seq<Input>)
    ensures LastPosition(config, inputs) ==
            if LastMotion(inputs) == [] then Position(0, 0) else PositionOf(config, LastMotion(inputs)[0])
    decreases |inputs|
  {
    hide PositionOf;
    if inputs != [] {
      PointsAtLastMotion(config, inputs[..|inputs| - 1]);
    }
  }

  /** Without a viewport: the whole part of the coordinate's share of the full axis. */
  predicate Plain(n: int, value: int, limit: int) {
    if limit <= 0 || value <= 0 then n == 0
    else if value >= limit then n == 65535
    else n * limit <= value * 65535 < (n + 1) * limit
  }

  /**
   * With one: the coordinate's share of the viewport's `reach` units, counted from the viewport's first
   * unit, goes to the nearest of 65536 positions on the desktop, halves up.
   */
  predicate Mapped(n: int, value: real, limit: int, first: int, reach: int, desktop: int) {
    if limit <= 0 then n == 0
    else desktop > 0 && Nearest(n, Along(value, limit, first, reach) * 65535.0 / desktop as real)
  }

  predicate Nearest(n: int, v: real) {
    -0.5 < n as real - v <= 0.5
  }

  /** The viewport's first unit, and the share of its reach that the clamped coordinate is of its limit. */
  function Along(value: real, limit: int, first: int, reach: int): real
    requires limit > 0
  {
    var v := if value < 0.0 then 0.0 else if value > limit as real then limit as real else value;
    first as real + v * reach as real / limit as real
  }

  lemma TargetIsAlong(value: real, limit: int, s: Span)
    requires limit > 0 && s.viewportSize > 0
    ensures Target(value, limit, s) == Along(value, limit, s.viewportOffset - s.desktopOffset, s.viewportSize - 1)
  {
  }

  lemma ViewportMapped(value: real, limit: int, s: Span)
    requires Contained(s)
    ensures Mapped(LinuxScaleToViewport(value, limit, s), value, limit,
                   s.viewportOffset - s.desktopOffset, s.viewportSize - 1, s.desktopSize)
  {
    hide Target, Along, WindowsScaleToViewport, Lround;
    if limit > 0 {
      ScalingsAgree(value, limit, s);
      TargetInViewport(value, limit, s);
      TargetIsAlong(value, limit, s);
      ImageNearest(Target(value, limit, s), s.desktopSize);
      hide LinuxScaleToViewport;
    }
  }

  lemma ImageNearest(t: real, desktop: int)
    requires 0.0 <= t && 0 < desktop
    ensures Nearest(Image(t, desktop), t * 65535.0 / desktop as real)
  {
    NonNegative(t, desktop as real);
  }

  lemma NonNegative(t: real, d: real)
    requires 0.0 <= t && 0.0 < d
    ensures t * 65535.0 / d >= 0.0
  {
  }

  /** One axis of a motion, from its own coordinate and its own side of the geometry. */
  predicate Pointed(n: int, i: Input, value: int, precise: real, limit: int, first: int, size: int, desktop: int)
    requires i.AbsoluteMotion?
  {
    if size > 0 then Mapped(n, if i.fractional then precise else value as real, limit, first, size - 1, desktop)
    else Plain(n, value, limit)
  }

  /**
   * After any history, in any geometry the runtime accepts: the absolute device points where the last
   * absolute motion asked, across from its x and down from its y, and at the origin before the first.
   */
  lemma PointerShowsLastMotion(config: Config, inputs: seq<Input>)
    requires Int32Viewport(config.desktop) && Int32Viewport(config.viewport)
    requires AcceptedGeometry(config.desktop, config.viewport)
    ensures var r, last := Replay(Absolute, Run(config, inputs).1), LastMotion(inputs);
            var d, v := config.desktop, config.viewport;
            if last == [] then r.absX == 0 && r.absY == 0
            else
              var i := last[0];
              && Pointed(r.absX, i, i.x, i.absoluteX, i.width, v.offsetX - d.offsetX, v.width, d.width)
              && Pointed(r.absY, i, i.y, i.absoluteY, i.height, v.offsetY - d.offsetY, v.height, d.height)
  {
    hide Run, Replay, LinuxScale, LinuxScaleToViewport, Mapped, Contained;
    RunRefines(config, inputs);
    PointsAtLastMotion(config, inputs);
    if LastMotion(inputs) != [] && config.viewport.width > 0 {
      var i := LastMotion(inputs)[0];
      AcceptedIff(config.desktop, config.viewport);
      var across, down := XSpan(config.desktop, config.viewport), YSpan(config.desktop, config.viewport);
      ViewportMapped(if i.fractional then i.absoluteX else i.x as real, i.width, across);
      ViewportMapped(if i.fractional then i.absoluteY else i.y as real, i.height, down);
    }
  }
}
