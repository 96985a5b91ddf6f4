/**
 * Where the reader of a touch device sees its contacts, said of the coordinates the caller gave: in the
 * contact's slot, and on the single-touch axes that follow the contact placed last.
 */
module EvdevTouchPositions {
  import opened Basics
  import opened EvdevTouch
  import opened Rounding

  predicate Names(op: Op, id: int) {
    (op.Place? && op.contact.id == id) || (op.Release? && op.id == id)
  }

  /** The last call about a contact. */
  function LastNaming(ops: seq<Op>, id: int): Option<Op>
    decreases |ops|
  {
    if ops == [] then None
    else if Names(ops[|ops| - 1], id) then Some(ops[|ops| - 1])
    else LastNaming(ops[..|ops| - 1], id)
  }

  /** These values stand for this contact: nearest units of the three scales, and the clamped angle. */
  predicate Reports(x: int, y: int, pressure: int, orientation: int, c: TouchContact) {
    && OnScale(x, c.x, 19200)
    && OnScale(y, c.y, 10800)
    && OnScale(pressure, c.pressure, 253)
    && orientation == if c.orientation < -90 then -90 else if c.orientation > 90 then 90 else c.orientation
  }

  lemma SampledReports(c: TouchContact)
    ensures var s := Sampled(c);
            Reports(s.x, s.y, s.pressure, s.orientation, c)
  {
    ScaledIsNearest(c.x, TOUCH_AXIS_MAX_X);
    ScaledIsNearest(c.y, TOUCH_AXIS_MAX_Y);
    ScaledIsNearest(c.pressure, TOUCH_PRESSURE_MAX);
    hide ScaleNormalizedAxis, OnScale;
  }

  /** A contact that is held was last named by a placement, and holds that one's sample. */
  ghost predicate HeldSince(m: Model, last: Option<Op>, id: int) {
    id in m.live ==> id >= 0 && last.Some? && last.value.Place? && m.live[id].sample == Sampled(last.value.contact)
  }

  lemma {:induction false} HeldIsLastPlaced(ops: seq<Op>, id: int)
    ensures HeldSince(MeantBy(ops), LastNaming(ops, id), id)
    decreases |ops|
  {
    hide Sampled;
    if ops != [] {
      HeldIsLastPlaced(ops[..|ops| - 1], id);
    }
  }

  /**
   * After any run, the slot of every contact the device holds shows the position, pressure and angle its
   * last placement asked for.
   */
  lemma SlotShowsPlacement(ops: seq<Op>, trackpad: bool, id: int)
    requires id in Run(ops, trackpad).0.contacts
    ensures var (e, written) := Run(ops, trackpad);
            var shown := Replay(FRESH_READER, written).frame.slots;
            var last := LastNaming(ops, id);
            && last.Some? && last.value.Place? && last.value.contact.id == id
            && 0 <= e.contacts[id] < |shown|
            && var slot := shown[e.contacts[id]];
               Reports(slot.x, slot.y, slot.pressure, slot.orientation, last.value.contact)
  {
    hide Run, MeantBy, Replay, Sampled, Reports;
    RunRefines(ops, trackpad);
    HeldIsLastPlaced(ops, id);
    LastNames(ops, id);
    var (e, written) := Run(ops, trackpad);
    assert Shows(Replay(FRESH_READER, written).frame, e.contacts[id], MeantBy(ops).live[id]);
    SampledReports(LastNaming(ops, id).value.contact);
  }

  lemma {:induction false} LastNames(ops: seq<Op>, id: int)
    ensures LastNaming(ops, id).Some? ==> Names(LastNaming(ops, id).value, id)
    decreases |ops|
  {
    if ops != [] {
      LastNames(ops[..|ops| - 1], id);
    }
  }

  // ----- The single-touch axes ---------------------------------------------------------------------

  /** The last value written to an axis. */
  function LastValue(events: seq<Event>, axis: Axis): Option<int>
    decreases |events|
  {
    if events == [] then None
    else if events[|events| - 1].Abs? && events[|events| - 1].axis == axis then Some(events[|events| - 1].value)
    else LastValue(events[..|events| - 1], axis)
  }

  lemma {:induction false} LastValueConcat(a: seq<Event>, b: seq<Event>, axis: Axis)
    ensures LastValue(a + b, axis) == if LastValue(b, axis).Some? then LastValue(b, axis) else LastValue(a, axis)
    decreases |b|
  {
    if b == [] {
      assert a + b == a;
    } else {
      assert (a + b)[..|a + b| - 1] == a + b[..|b| - 1];
      LastValueConcat(a, b[..|b| - 1], axis);
    }
  }

  predicate SingleTouch(axis: Axis) {
    axis.AbsX? || axis.AbsY? || axis.AbsPressure?
  }

  lemma {:induction false} LastValueNone(events: seq<Event>, axis: Axis)
    requires forall i :: 0 <= i < |events| ==> !(events[i].Abs? && events[i].axis == axis)
    ensures LastValue(events, axis) == None
    decreases |events|
  {
    if events != [] {
      LastValueNone(events[..|events| - 1], axis);
    }
  }

  function PlacedValue(s: Sample, axis: Axis): int {
    if axis.AbsX? then s.x else if axis.AbsY? then s.y else s.pressure
  }

  lemma SampleValues(s: Sample, axis: Axis)
    requires SingleTouch(axis)
    ensures LastValue(SampleEvents(s) + [Syn], axis) == Some(PlacedValue(s, axis))
  {
    var es := SampleEvents(s);
    var at := if axis.AbsX? then 1 else if axis.AbsY? then 3 else 5;
    assert es + [Syn] == es[..at] + (es[at..] + [Syn]);
    LastValueConcat(es[..at], es[at..] + [Syn], axis);
    LastValueNone(es[at..] + [Syn], axis);
  }

  /** What one call leaves on a single-touch axis. */
  lemma CallValues(e: Emitter, op: Op, trackpad: bool, axis: Axis)
    requires SingleTouch(axis)
    ensures LastValue(Emit(e, op, trackpad).1, axis) ==
            if op.Place? && PlaceStatus(e, op.contact.id).Ok?
            then Some(PlacedValue(Sampled(op.contact), axis))
            else None
  {
    hide Sampled, SampleEvents, LastValue;
    var events := Emit(e, op, trackpad).1;
    if op.Place? && PlaceStatus(e, op.contact.id).Ok? {
      var select := SelectEvents(e.currentSlot, SlotFor(e.contacts, op.contact.id));
      var front := select + PlaceHeader(e, op.contact.id, trackpad);
      var tail := SampleEvents(Sampled(op.contact)) + [Syn];
      assert events == front + tail;
      LastValueConcat(front, tail, axis);
      SampleValues(Sampled(op.contact), axis);
    } else {
      LastValueNone(events, axis);
    }
  }

  /** The contact of the last placement that was accepted. */
  function LastAccepted(ops: seq<Op>, trackpad: bool): Option<TouchContact>
    decreases |ops|
  {
    if ops == [] then None
    else
      var op := ops[|ops| - 1];
      if op.Place? && PlaceStatus(Run(ops[..|ops| - 1], trackpad).0, op.contact.id).Ok? then Some(op.contact)
      else LastAccepted(ops[..|ops| - 1], trackpad)
  }

  lemma {:induction false} AxisFollows(ops: seq<Op>, trackpad: bool, axis: Axis)
    requires SingleTouch(axis)
    ensures var last := LastAccepted(ops, trackpad);
            LastValue(Run(ops, trackpad).1, axis)
            == if last.Some? then Some(PlacedValue(Sampled(last.value), axis)) else None
    decreases |ops|
  {
    hide Sampled, PlaceStatus, Emit, LastValue;
    if ops == [] {
      LastValueNone([], axis);
    } else {
      var before, op := ops[..|ops| - 1], ops[|ops| - 1];
      var (e, written) := Run(before, trackpad);
      AxisFollows(before, trackpad, axis);
      CallValues(e, op, trackpad, axis);
      LastValueConcat(written, Emit(e, op, trackpad).1, axis);
    }
  }

  /** After any run, the single-touch axes show the contact placed last, and nothing before the first. */
  lemma SingleTouchShowsLast(ops: seq<Op>, trackpad: bool)
    ensures var written, last := Run(ops, trackpad).1, LastAccepted(ops, trackpad);
            var x, y, pressure := LastValue(written, AbsX), LastValue(written, AbsY), LastValue(written, AbsPressure);
            && last.None? == x.None? == y.None? == pressure.None?
            && (last.Some? ==> OnScale(x.value, last.value.x, 19200)
                               && OnScale(y.value, last.value.y, 10800)
                               && OnScale(pressure.value, last.value.pressure, 253))
  {
    hide Run, LastAccepted, LastValue, Sampled, OnScale;
    AxisFollows(ops, trackpad, AbsX);
    AxisFollows(ops, trackpad, AbsY);
    AxisFollows(ops, trackpad, AbsPressure);
    if LastAccepted(ops, trackpad).Some? {
      SampledReports(LastAccepted(ops, trackpad).value);
    }
  }
}
