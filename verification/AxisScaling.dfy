/**
 * Absolute pointer coordinates: a source coordinate is mapped into a target viewport of the desktop
 * and then onto the 0..65535 range both operating systems use. Floats are modelled as reals.
 */
module AxisScaling {
  import opened Rounding

  const ABSOLUTE_AXIS_MAX: int := 65535
  const INT32_MIN: int := -0x8000_0000
  const INT32_MAX: int := 0x7FFF_FFFF

  datatype PointerViewport = PointerViewport(offsetX: int, offsetY: int, width: int, height: int)

  predicate Int32(v: int) {
    INT32_MIN <= v <= INT32_MAX
  }

  predicate Int32Viewport(v: PointerViewport) {
    Int32(v.offsetX) && Int32(v.offsetY) && Int32(v.width) && Int32(v.height)
  }

  predicate ValidDimensions(v: PointerViewport) {
    v.width >= 0 && v.height >= 0 && ((v.width == 0 && v.height == 0) || (v.width > 0 && v.height > 0))
  }

  /** The geometry part of `validate_mouse_options`, whose sums are computed in 64 bits. */
  predicate AcceptedGeometry(desktop: PointerViewport, viewport: PointerViewport) {
    && ValidDimensions(desktop) && ValidDimensions(viewport)
    && (desktop.width > 0) == (viewport.width > 0)
    && (desktop.width > 0 ==>
          && viewport.offsetX >= desktop.offsetX && viewport.offsetY >= desktop.offsetY
          && viewport.offsetX + viewport.width <= desktop.offsetX + desktop.width
          && viewport.offsetY + viewport.height <= desktop.offsetY + desktop.height)
  }

  /** One axis of a geometry: where the viewport lies inside the desktop. */
  datatype Span = Span(viewportOffset: int, viewportSize: int, desktopOffset: int, desktopSize: int)

  function XSpan(desktop: PointerViewport, viewport: PointerViewport): Span {
    Span(viewport.offsetX, viewport.width, desktop.offsetX, desktop.width)
  }

  function YSpan(desktop: PointerViewport, viewport: PointerViewport): Span {
    Span(viewport.offsetY, viewport.height, desktop.offsetY, desktop.height)
  }

  ghost predicate Contained(s: Span) {
    && 0 < s.viewportSize && 0 < s.desktopSize <= INT32_MAX
    && Int32(s.viewportOffset) && Int32(s.desktopOffset)
    && s.desktopOffset <= s.viewportOffset
    && s.viewportOffset + s.viewportSize <= s.desktopOffset + s.desktopSize
  }

  /** With a viewport, the runtime accepts exactly the geometries that contain it on both axes. */
  lemma AcceptedIff(desktop: PointerViewport, viewport: PointerViewport)
    requires Int32Viewport(desktop) && Int32Viewport(viewport) && viewport.width > 0
    ensures AcceptedGeometry(desktop, viewport) <==>
            Contained(XSpan(desktop, viewport)) && Contained(YSpan(desktop, viewport))
  {
  }

  // ----- The two implementations -------------------------------------------------------------

  /** The distance between the first and the last unit of the viewport. */
  function Reach(s: Span): (span: int)
    ensures 0 <= span
    ensures s.viewportSize > 0 ==> span == s.viewportSize - 1
  {
    if s.viewportSize - 1 > 0 then s.viewportSize - 1 else 0
  }

  function Share(part: real, span: real, whole: real): real
    requires whole != 0.0
  {
    part * span / whole
  }

  /** The position inside the desktop a source coordinate stands for. */
  function Target(value: real, source: int, s: Span): real
    requires source > 0
  {
    var clamped := ClampReal(value, 0.0, source as real);
    (s.viewportOffset - s.desktopOffset) as real
    + Share(clamped, Reach(s) as real, source as real)
  }

  function LinuxScaleToViewport(value: real, source: int, s: Span): int {
    if source <= 0 || s.desktopSize <= 0 || s.viewportSize <= 0 then 0
    else
      var normalized := ClampReal(Target(value, source, s) / s.desktopSize as real, 0.0, 1.0);
      Lround(normalized * ABSOLUTE_AXIS_MAX as real)
  }

  function WindowsScale(value: real, dimension: int): int {
    if dimension <= 1 then 0
    else Lround(ClampReal(value, 0.0, dimension as real) * ABSOLUTE_AXIS_MAX as real / dimension as real)
  }

  function WindowsScaleToViewport(value: real, source: int, s: Span): int {
    if source <= 0 || s.viewportSize <= 0 || s.desktopSize <= 0 then 0
    else WindowsScale(Target(value, source, s), s.desktopSize)
  }

  /** The integer path Linux takes when no viewport is configured. */
  function LinuxScale(value: int, limit: int): (n: int)
    ensures 0 <= n <= ABSOLUTE_AXIS_MAX
    ensures limit > 0 && value >= limit ==> n == ABSOLUTE_AXIS_MAX
    ensures limit <= 0 || value <= 0 ==> n == 0
    ensures 0 <= value <= limit && 0 < limit ==> n * limit <= value * 65535 < (n + 1) * limit
  {
    if limit <= 0 then 0
    else
      var clamped := ClampInt(value, 0, limit);
      QuotientBound(clamped, limit);
      clamped * ABSOLUTE_AXIS_MAX / limit
  }

  lemma QuotientBound(v: int, limit: int)
    requires 0 <= v <= limit && 0 < limit
    ensures 0 <= v * ABSOLUTE_AXIS_MAX / limit <= ABSOLUTE_AXIS_MAX
    ensures v == limit ==> v * ABSOLUTE_AXIS_MAX / limit == ABSOLUTE_AXIS_MAX
    ensures v == 0 ==> v * ABSOLUTE_AXIS_MAX / limit == 0
    ensures var q := v * ABSOLUTE_AXIS_MAX / limit;
            q * limit <= v * 65535 < (q + 1) * limit
  {
    var q := v * ABSOLUTE_AXIS_MAX / limit;
    assert v * ABSOLUTE_AXIS_MAX <= limit * ABSOLUTE_AXIS_MAX;
    assert q * limit <= v * ABSOLUTE_AXIS_MAX < q * limit + limit;
    if q > ABSOLUTE_AXIS_MAX {
      IntTimes(ABSOLUTE_AXIS_MAX + 1, q, limit);
    }
    if q < 0 {
      IntTimes(q, -1, limit);
    }
    if v == limit && q < ABSOLUTE_AXIS_MAX {
      IntTimes(q + 1, ABSOLUTE_AXIS_MAX, limit);
    }
  }

  /** The integer path keeps order too. */
  lemma LinuxScaleMonotone(a: int, b: int, limit: int)
    requires a <= b
    ensures LinuxScale(a, limit) <= LinuxScale(b, limit)
  {
    if limit > 0 {
      var v, w := ClampInt(a, 0, limit), ClampInt(b, 0, limit);
      IntQuotientMonotone(v * ABSOLUTE_AXIS_MAX, w * ABSOLUTE_AXIS_MAX, limit);
    }
  }

  lemma IntQuotientMonotone(n: int, m: int, d: int)
    requires n <= m && 0 < d
    ensures n / d <= m / d
  {
    var x, y := n / d, m / d;
    assert x * d <= n && m < y * d + d;
    if x > y {
      IntTimes(y + 1, x, d);
    }
  }

  lemma IntTimes(a: int, b: int, c: int)
    requires a <= b && 0 < c
    ensures a * c <= b * c
  {
  }

  lemma RealTimes(a: real, b: real, c: real)
    requires a < b && 0.0 < c
    ensures a * c < b * c
  {
  }

  // ----- Exact arithmetic --------------------------------------------------------------------

  /** The share of a span a clamped coordinate covers lies between nothing and the whole span. */
  lemma ShareBounds(c: real, span: real, source: real)
    requires 0.0 <= c <= source && 0.0 < source && 0.0 <= span
    ensures 0.0 <= Share(c, span, source) <= span
  {
    assert c * span <= source * span;
    var q := c * span / source;
    assert q * source == c * span;
    if q > span {
      RealTimes(span, q, source);
    }
    if q < 0.0 {
      RealTimes(q, 0.0, source);
    }
  }

  lemma QuotientMonotone(a: real, b: real, d: real)
    requires a <= b && 0.0 < d
    ensures a / d <= b / d
  {
    var x, y := a / d, b / d;
    assert x * d == a && y * d == b;
    if x > y {
      RealTimes(y, x, d);
    }
  }

  /** The target never leaves the viewport, so the offset difference and the clamp are harmless. */
  lemma TargetInViewport(value: real, source: int, s: Span)
    requires Contained(s) && source > 0
    ensures Int32(s.viewportOffset - s.desktopOffset)
    ensures 0 <= s.viewportOffset - s.desktopOffset
    ensures (s.viewportOffset - s.desktopOffset) as real <= Target(value, source, s)
         <= (s.viewportOffset - s.desktopOffset + s.viewportSize - 1) as real
    ensures 0.0 <= Target(value, source, s) <= (s.desktopSize - 1) as real
  {
    ShareBounds(ClampReal(value, 0.0, source as real), Reach(s) as real, source as real);
    hide Share;
    var first := s.viewportOffset - s.desktopOffset;
    var share := Share(ClampReal(value, 0.0, source as real), Reach(s) as real, source as real);
    assert Target(value, source, s) == first as real + share;
    assert (first + Reach(s)) as real == first as real + Reach(s) as real;
  }

  /** Without either clamp: the target as a fraction of the desktop. */
  function Image(target: real, desktopSize: int): int
    requires desktopSize > 0
  {
    Lround(target * ABSOLUTE_AXIS_MAX as real / desktopSize as real)
  }

  lemma ImageMonotone(a: real, b: real, desktopSize: int)
    requires a <= b && desktopSize > 0
    ensures Image(a, desktopSize) <= Image(b, desktopSize)
  {
    QuotientMonotone(a * ABSOLUTE_AXIS_MAX as real, b * ABSOLUTE_AXIS_MAX as real, desktopSize as real);
    LroundMonotone(a * ABSOLUTE_AXIS_MAX as real / desktopSize as real,
                   b * ABSOLUTE_AXIS_MAX as real / desktopSize as real);
  }

  lemma ScaledQuotient(t: real, d: real, k: real)
    requires d > 0.0
    ensures t / d * k == t * k / d
  {
    var x := t / d;
    assert x * d == t;
    assert (x * k) * d == t * k;
  }

  /** In an accepted geometry neither clamp fires and both systems send the same axis value. */
  lemma ScalingsAgree(value: real, source: int, s: Span)
    requires Contained(s) && source > 0
    ensures LinuxScaleToViewport(value, source, s) == WindowsScaleToViewport(value, source, s)
         == Image(Target(value, source, s), s.desktopSize)
    ensures 0.0 <= Target(value, source, s) / s.desktopSize as real < 1.0
  {
    var t := Target(value, source, s);
    var d := s.desktopSize as real;
    TargetInViewport(value, source, s);
    NormalizedInside(t, d);
    ScaledQuotient(t, d, ABSOLUTE_AXIS_MAX as real);
    assert LinuxScaleToViewport(value, source, s)
        == Lround(ClampReal(t / d, 0.0, 1.0) * ABSOLUTE_AXIS_MAX as real);
    assert WindowsScaleToViewport(value, source, s) == WindowsScale(t, s.desktopSize);
    hide Target, LinuxScaleToViewport, WindowsScaleToViewport;
    if s.desktopSize == 1 {
      assert t == 0.0;
    }
  }

  lemma NormalizedInside(t: real, d: real)
    requires 0.0 <= t < d
    ensures 0.0 <= t / d < 1.0
  {
    var q := t / d;
    assert q * d == t;
    if q > 1.0 {
      RealTimes(1.0, q, d);
    }
    if q < 0.0 {
      RealTimes(q, 0.0, d);
    }
  }

  /** Moving the source coordinate up never moves the pointer down. */
  lemma ScalingMonotone(a: real, b: real, source: int, s: Span)
    requires Contained(s) && source > 0 && a <= b
    ensures LinuxScaleToViewport(a, source, s) <= LinuxScaleToViewport(b, source, s)
  {
    ScalingsAgree(a, source, s);
    ScalingsAgree(b, source, s);
    TargetMonotone(a, b, source, s);
    hide Target, Image;
    ImageMonotone(Target(a, source, s), Target(b, source, s), s.desktopSize);
  }

  lemma TargetMonotone(a: real, b: real, source: int, s: Span)
    requires source > 0 && a <= b
    ensures Target(a, source, s) <= Target(b, source, s)
  {
    var ca, cb := ClampReal(a, 0.0, source as real), ClampReal(b, 0.0, source as real);
    var span := Reach(s) as real;
    assert ca * span <= cb * span;
    QuotientMonotone(ca * span, cb * span, source as real);
  }

  /** The pointer lands between the images of the viewport's two edges, and reaches both. */
  lemma ScalingBetweenEdges(value: real, source: int, s: Span)
    requires Contained(s) && source > 0
    ensures var first := s.viewportOffset - s.desktopOffset;
            var last := first + s.viewportSize - 1;
            var scaled := LinuxScaleToViewport(value, source, s);
            && 0 <= Image(first as real, s.desktopSize)
            && Image(first as real, s.desktopSize) <= scaled <= Image(last as real, s.desktopSize)
            && (value <= 0.0 ==> scaled == Image(first as real, s.desktopSize))
            && (value >= source as real ==> scaled == Image(last as real, s.desktopSize))
            && Image(last as real, s.desktopSize) <= ABSOLUTE_AXIS_MAX
  {
    var first, last := s.viewportOffset - s.desktopOffset, s.viewportOffset - s.desktopOffset + s.viewportSize - 1;
    ScalingsAgree(value, source, s);
    TargetInViewport(value, source, s);
    EdgeTargets(value, source, s);
    hide Target;
    var t := Target(value, source, s);
    ImageMonotone(first as real, t, s.desktopSize);
    ImageMonotone(t, last as real, s.desktopSize);
    ImageMonotone(0.0, first as real, s.desktopSize);
    ImageMonotone(last as real, s.desktopSize as real, s.desktopSize);
    WholeDesktop(s.desktopSize as real);
  }

  lemma EdgeTargets(value: real, source: int, s: Span)
    requires Contained(s) && source > 0
    ensures value <= 0.0 ==> Target(value, source, s) == (s.viewportOffset - s.desktopOffset) as real
    ensures value >= source as real ==>
              Target(value, source, s) == (s.viewportOffset - s.desktopOffset + s.viewportSize - 1) as real
  {
    var span := (s.viewportSize - 1) as real;
    if value <= 0.0 {
      assert 0.0 * span / source as real == 0.0;
    }
    if value >= source as real {
      FullShare(span, source as real);
    }
  }

  lemma FullShare(span: real, source: real)
    requires source > 0.0
    ensures source * span / source == span
  {
    assert span * source == source * span;
  }

  lemma WholeDesktop(d: real)
    requires d > 0.0
    ensures d * ABSOLUTE_AXIS_MAX as real / d == ABSOLUTE_AXIS_MAX as real
  {
    FullShare(ABSOLUTE_AXIS_MAX as real, d);
  }

  // ----- What the receiver recovers ----------------------------------------------------------

  /** The desktop position a receiver reads back from an axis value. */
  function Recovered(axis: int, desktopSize: int): real {
    axis as real * desktopSize as real / ABSOLUTE_AXIS_MAX as real
  }

  ghost predicate Within(a: real, b: real, tolerance: real) {
    -tolerance <= a - b <= tolerance
  }

  lemma RecoveryError(t: real, n: int, desktopSize: int)
    requires desktopSize > 0 && n == Image(t, desktopSize)
    ensures Within(Recovered(n, desktopSize), t, desktopSize as real / 131070.0)
  {
    var d := desktopSize as real;
    var image := t * 65535.0 / d;
    QuotientTimes(t * 65535.0, d);
    hide Within;
    RecoveryGap(t, n as real, d, image);
    assert Recovered(n, desktopSize) == n as real * d / 65535.0;
  }

  lemma QuotientTimes(t: real, d: real)
    requires d > 0.0
    ensures t / d * d == t
  {
  }

  lemma RecoveryGap(t: real, k: real, d: real, image: real)
    requires 0.0 < d && image * d == t * 65535.0 && -0.5 <= image - k <= 0.5
    ensures Within(k * d / 65535.0, t, d / 131070.0)
  {
    var error := image - k;
    HalfOf(error, d);
    var gap, scaled := error * d, k * d;
    assert gap == image * d - scaled;
    ScaledDown(t, scaled, d, gap);
  }

  lemma HalfOf(error: real, d: real)
    requires -0.5 <= error <= 0.5 && 0.0 < d
    ensures -0.5 * d <= error * d <= 0.5 * d
  {
  }

  lemma ScaledDown(t: real, scaled: real, d: real, gap: real)
    requires gap == t * 65535.0 - scaled && -0.5 * d <= gap <= 0.5 * d
    ensures Within(scaled / 65535.0, t, d / 131070.0)
  {
  }

  /** Desktops up to 65535 units: every target is recovered within half a unit. */
  lemma RecoveryWithinHalf(value: real, source: int, s: Span)
    requires Contained(s) && source > 0 && s.desktopSize <= ABSOLUTE_AXIS_MAX
    ensures Within(Recovered(LinuxScaleToViewport(value, source, s), s.desktopSize), Target(value, source, s), 0.5)
  {
    ScalingsAgree(value, source, s);
    RecoveryError(Target(value, source, s), LinuxScaleToViewport(value, source, s), s.desktopSize);
    assert s.desktopSize as real / 131070.0 <= 0.5;
  }

  /**
   * The bound is exact: with the whole desktop as viewport, half a unit is met for every source
   * coordinate if and only if the desktop has at most 65535 units.
   */
  lemma HalfUnitIffSmallDesktop(source: int, size: int)
    requires source > 0 && 1 < size <= INT32_MAX
    ensures var s := Span(0, size, 0, size);
            (forall value: real ::
               Within(Recovered(LinuxScaleToViewport(value, source, s), size), Target(value, source, s), 0.5))
            <==> size <= ABSOLUTE_AXIS_MAX
  {
    var s := Span(0, size, 0, size);
    if size <= ABSOLUTE_AXIS_MAX {
      forall value: real
        ensures Within(Recovered(LinuxScaleToViewport(value, source, s), size), Target(value, source, s), 0.5)
      {
        RecoveryWithinHalf(value, source, s);
      }
    } else {
      var value := MidpointMissed(source, size);
      assert !Within(Recovered(LinuxScaleToViewport(value, source, s), size), Target(value, source, s), 0.5);
    }
  }

  /** On a larger desktop the midpoint between the first two axis values is read back too far away. */
  lemma MidpointMissed(source: int, size: int) returns (value: real)
    requires source > 0 && ABSOLUTE_AXIS_MAX < size <= INT32_MAX
    ensures var s := Span(0, size, 0, size);
            !Within(Recovered(LinuxScaleToViewport(value, source, s), size), Target(value, source, s), 0.5)
  {
    var s := Span(0, size, 0, size);
    var d := size as real;
    var t := d / 131070.0;
    var span := (size - 1) as real;
    value := SourceFor(t, span, source as real);
    hide Share;
    assert Reach(s) as real == span && (s.viewportOffset - s.desktopOffset) as real == 0.0;
    assert Target(value, source, s) == t;
    hide Target;
    ScalingsAgree(value, source, s);
    assert t * 65535.0 == 0.5 * d;
    HalfImage(d);
    assert LinuxScaleToViewport(value, source, s) == 1;
    assert Recovered(1, size) - t == t;
  }

  /** Every point of the span is the image of some source coordinate. */
  lemma SourceFor(t: real, span: real, source: real) returns (value: real)
    requires 0.0 <= t <= span && 0.0 < span && 0.0 < source
    ensures 0.0 <= value <= source
    ensures Share(value, span, source) == t
  {
    value := Share(t, source, span);
    ShareBounds(t, source, span);
    assert value * span == t * source == source * t;
    FullShare(t, source);
    assert value * span / source == source * t / source;
  }

  lemma HalfImage(d: real)
    requires d > 0.0
    ensures Lround((0.5 * d) / d) == 1
  {
    FullShare(0.5, d);
    assert d * 0.5 == 0.5 * d;
  }
}
