/**
 * The Linux multitouch emitter and the reader on the other side of the event device.
 *
 * `Emitter` is the state of one uinput touch device between two calls and `Emit` is what one call
 * writes. `Reader` is a multi-touch type B reader: it updates slots as events arrive and publishes a
 * frame at every SYN_REPORT. `Model` is what the caller meant: the contacts placed and not yet
 * released. The theorems say that every published frame is the caller's model.
 */
module EvdevTouch {
  import opened Basics
  import opened Collections
  import opened Rounding

  const TOUCH_AXIS_MAX_X: nat := 19200
  const TOUCH_AXIS_MAX_Y: nat := 10800
  const TOUCH_MAX_CONTACTS: nat := 16
  const TOUCH_TRACKING_ID_COUNT: nat := 65536
  const TOUCH_PRESSURE_MAX: nat := 253

  // ----- Wire events -------------------------------------------------------------------------

  datatype Axis =
    | AbsX | AbsY | AbsPressure
    | MtSlot | MtTrackingId | MtPositionX | MtPositionY | MtPressure | MtOrientation

  datatype Key =
    | BtnTouch | BtnLeft
    | ToolFinger | ToolDoubleTap | ToolTripleTap | ToolQuadTap | ToolQuintTap

  datatype Event = Abs(axis: Axis, value: int) | KeyChange(key: Key, down: bool) | Syn

  // ----- What the caller asks for ------------------------------------------------------------

  datatype TouchContact = TouchContact(id: int, x: real, y: real, pressure: real, orientation: int)

  datatype Op = Place(contact: TouchContact) | Release(id: int) | Button(pressed: bool)

  datatype Status = Ok | DeviceClosed | InvalidId | TooManyContacts | WriteFailed

  /** The axis values one contact is reported with. */
  datatype Sample = Sample(x: int, y: int, pressure: int, orientation: int)

  function Sampled(contact: TouchContact): (s: Sample)
    ensures 0 <= s.x <= TOUCH_AXIS_MAX_X && 0 <= s.y <= TOUCH_AXIS_MAX_Y
    ensures 0 <= s.pressure <= TOUCH_PRESSURE_MAX && -90 <= s.orientation <= 90
  {
    Sample(ScaleNormalizedAxis(contact.x, TOUCH_AXIS_MAX_X),
           ScaleNormalizedAxis(contact.y, TOUCH_AXIS_MAX_Y),
           ScaleNormalizedAxis(contact.pressure, TOUCH_PRESSURE_MAX),
           ClampInt(contact.orientation, -90, 90))
  }

  /** A live contact: its last sample and how many placements of new contacts came before it. */
  datatype Live = Live(sample: Sample, ordinal: nat)

  datatype Model = Model(live: map<int, Live>, placements: nat, button: bool)

  const NO_CONTACTS: Model := Model(map[], 0, false)

  ghost predicate Accepts(m: Model, id: int) {
    id >= 0 && (id in m.live || |m.live| < 16)
  }

  ghost function Placed(m: Model, id: int, sample: Sample): Model {
    if !Accepts(m, id) then m
    else if id in m.live then m.(live := m.live[id := Live(sample, m.live[id].ordinal)])
    else Model(m.live[id := Live(sample, m.placements)], m.placements + 1, m.button)
  }

  ghost function Released(m: Model, id: int): Model {
    m.(live := m.live - {id})
  }

  /** The meaning of a call, stated without slots, tracking ids or events. */
  ghost function Meant(m: Model, op: Op): Model {
    match op
    case Place(c) => Placed(m, c.id, Sampled(c))
    case Release(id) => Released(m, id)
    case Button(pressed) => m.(button := pressed)
  }

  // ----- The emitter -------------------------------------------------------------------------

  datatype Emitter = Emitter(contacts: map<int, int>, currentSlot: int, nextTrackingId: nat)

  const CREATED: Emitter := Emitter(map[], -1, 0)

  /** The first slot at or after `from` that no contact uses; the slot count when there is none. */
  function LowestFree(used: set<int>, from: nat): (slot: nat)
    requires from <= TOUCH_MAX_CONTACTS
    ensures from <= slot <= TOUCH_MAX_CONTACTS
    ensures slot < TOUCH_MAX_CONTACTS ==> slot !in used
    ensures forall s :: from <= s < slot ==> s in used
    decreases used, TOUCH_MAX_CONTACTS - from
  {
    if from == TOUCH_MAX_CONTACTS || from !in used then from else LowestFree(used, from + 1)
  }

  function SlotFor(contacts: map<int, int>, id: int): int {
    if id in contacts then contacts[id] else LowestFree(contacts.Values, 0)
  }

  ghost predicate NoSyn(events: seq<Event>) {
    forall i :: 0 <= i < |events| ==> !events[i].Syn?
  }

  function SelectEvents(currentSlot: int, slot: int): (events: seq<Event>)
    ensures NoSyn(events)
  {
    if currentSlot == slot then [] else [Abs(MtSlot, slot)]
  }

  function ToolEvents(count: nat): (events: seq<Event>)
    ensures NoSyn(events)
  {
    [KeyChange(BtnTouch, count != 0),
     KeyChange(ToolFinger, count == 1),
     KeyChange(ToolDoubleTap, count == 2),
     KeyChange(ToolTripleTap, count == 3),
     KeyChange(ToolQuadTap, count == 4),
     KeyChange(ToolQuintTap, count >= 5)]
  }

  function SampleEvents(s: Sample): (events: seq<Event>)
    ensures NoSyn(events)
  {
    [Abs(AbsX, s.x), Abs(MtPositionX, s.x), Abs(AbsY, s.y), Abs(MtPositionY, s.y),
     Abs(AbsPressure, s.pressure), Abs(MtPressure, s.pressure), Abs(MtOrientation, s.orientation)]
  }

  function PlaceStatus(e: Emitter, id: int): Status {
    if id < 0 then InvalidId
    else if SlotFor(e.contacts, id) == TOUCH_MAX_CONTACTS then TooManyContacts
    else Ok
  }

  function WithContact(e: Emitter, id: int, slot: int): Emitter {
    if id in e.contacts then e.(currentSlot := slot)
    else Emitter(e.contacts[id := slot], slot, (e.nextTrackingId + 1) % TOUCH_TRACKING_ID_COUNT)
  }

  function AfterPlace(e: Emitter, id: int): Emitter
    requires PlaceStatus(e, id).Ok?
  {
    WithContact(e, id, SlotFor(e.contacts, id))
  }

  function PlaceHeader(e: Emitter, id: int, trackpad: bool): (events: seq<Event>)
    ensures NoSyn(events)
  {
    if id in e.contacts then []
    else [Abs(MtTrackingId, e.nextTrackingId)]
         + if trackpad then ToolEvents(|e.contacts| + 1) else [KeyChange(BtnTouch, true)]
  }

  function PlaceEvents(e: Emitter, id: int, sample: Sample, trackpad: bool): seq<Event>
    requires PlaceStatus(e, id).Ok?
  {
    SelectEvents(e.currentSlot, SlotFor(e.contacts, id)) + PlaceHeader(e, id, trackpad)
    + SampleEvents(sample) + [Syn]
  }

  /**
   * The emitter after a placement whose write number `k`, counted from 0, failed: table and current slot
   * have moved, and a new tracking id counts as used once its own write was tried.
   */
  function AfterInterrupted(e: Emitter, id: int, k: nat): Emitter
    requires PlaceStatus(e, id).Ok?
  {
    var slot := SlotFor(e.contacts, id);
    if k < |SelectEvents(e.currentSlot, slot)| then e.(contacts := AfterPlace(e, id).contacts, currentSlot := slot)
    else AfterPlace(e, id)
  }

  lemma PlaceEventsParts(e: Emitter, id: int, sample: Sample, trackpad: bool)
    requires PlaceStatus(e, id).Ok?
    ensures PlaceEvents(e, id, sample, trackpad)
         == SelectEvents(e.currentSlot, SlotFor(e.contacts, id)) + PlaceHeader(e, id, trackpad)
            + SampleEvents(sample) + [Syn]
  {
  }

  /** What was written, and the state it was written from, give the state after a placement. */
  lemma WrittenPlacement(
    e: Emitter, after: Emitter, id: int, sample: Sample, trackpad: bool,
    start: seq<Event>, written: seq<Event>, ok: bool)
    requires PlaceStatus(e, id).Ok?
    requires after.contacts == AfterPlace(e, id).contacts && after.currentSlot == SlotFor(e.contacts, id)
    requires start <= written <= start + PlaceEvents(e, id, sample, trackpad)
    requires ok <==> written == start + PlaceEvents(e, id, sample, trackpad)
    requires var tried := |written| - |start| >= |SelectEvents(e.currentSlot, SlotFor(e.contacts, id))|;
             after.nextTrackingId == if id in e.contacts || !tried then e.nextTrackingId
                                     else (e.nextTrackingId + 1) % TOUCH_TRACKING_ID_COUNT
    ensures ok ==> after == AfterPlace(e, id)
    ensures !ok ==>
              var events, k := PlaceEvents(e, id, sample, trackpad), |written| - |start|;
              0 <= k < |events| && written == start + events[..k] && after == AfterInterrupted(e, id, k)
  {
    hide SlotFor, SelectEvents, PlaceHeader, SampleEvents;
    var events, k := PlaceEvents(e, id, sample, trackpad), |written| - |start|;
    assert written[|start|..] == events[..k];
  }

  function AfterRelease(e: Emitter, id: int): Emitter
    requires id in e.contacts
  {
    e.(contacts := e.contacts - {id}, currentSlot := e.contacts[id])
  }

  function ReleaseTail(remaining: nat, trackpad: bool): (events: seq<Event>)
    ensures NoSyn(events)
  {
    if trackpad then ToolEvents(remaining)
    else if remaining == 0 then [KeyChange(BtnTouch, false)]
    else []
  }

  function ReleaseEvents(e: Emitter, id: int, trackpad: bool): seq<Event>
    requires id in e.contacts
  {
    SelectEvents(e.currentSlot, e.contacts[id]) + [Abs(MtTrackingId, -1)]
    + ReleaseTail(|AfterRelease(e, id).contacts|, trackpad) + [Syn]
  }

  /** One call on an open device whose writes all succeed: the new state and the events written. */
  function Emit(e: Emitter, op: Op, trackpad: bool): (Emitter, seq<Event>) {
    match op
    case Place(c) =>
      if PlaceStatus(e, c.id).Ok? then (AfterPlace(e, c.id), PlaceEvents(e, c.id, Sampled(c), trackpad)) else (e, [])
    case Release(id) =>
      if id in e.contacts then (AfterRelease(e, id), ReleaseEvents(e, id, trackpad)) else (e, [])
    case Button(pressed) => (e, [KeyChange(BtnLeft, pressed), Syn])
  }

  // ----- The reader --------------------------------------------------------------------------

  datatype Slot = Slot(trackingId: int, x: int, y: int, pressure: int, orientation: int)

  datatype DeviceState = DeviceState(slot: int, slots: seq<Slot>, keys: set<Key>)

  /** `now` is updated event by event, `frame` is what the last SYN_REPORT published. */
  datatype Reader = Reader(now: DeviceState, frame: DeviceState)

  const IDLE: DeviceState := DeviceState(0, seq(16, _ => Slot(-1, 0, 0, 0, 0)), {})

  function WithAxis(slot: Slot, axis: Axis, v: int): Slot {
    match axis
    case MtTrackingId => slot.(trackingId := v)
    case MtPositionX => slot.(x := v)
    case MtPositionY => slot.(y := v)
    case MtPressure => slot.(pressure := v)
    case MtOrientation => slot.(orientation := v)
    case _ => slot
  }

  /** Multi-touch type B: slot axes apply to the selected slot, single-touch axes to none. */
  function Apply(s: DeviceState, event: Event): DeviceState {
    match event
    case Syn => s
    case KeyChange(key, down) => s.(keys := if down then s.keys + {key} else s.keys - {key})
    case Abs(axis, v) =>
      if axis.MtSlot? then if 0 <= v < |s.slots| then s.(slot := v) else s
      else if 0 <= s.slot < |s.slots| then s.(slots := s.slots[s.slot := WithAxis(s.slots[s.slot], axis, v)])
      else s
  }

  function Read(r: Reader, event: Event): Reader {
    if event.Syn? then r.(frame := r.now) else r.(now := Apply(r.now, event))
  }

  function Replay(r: Reader, events: seq<Event>): Reader
    decreases |events|
  {
    if events == [] then r else Replay(Read(r, events[0]), events[1..])
  }

  lemma {:induction false} ReplayConcat(r: Reader, a: seq<Event>, b: seq<Event>)
    ensures Replay(r, a + b) == Replay(Replay(r, a), b)
    decreases a
  {
    if a == [] {
      assert a + b == b;
    } else {
      assert (a + b)[0] == a[0] && (a + b)[1..] == a[1..] + b;
      ReplayConcat(Read(r, a[0]), a[1..], b);
    }
  }

  function ApplyAll(s: DeviceState, events: seq<Event>): DeviceState
    decreases |events|
  {
    if events == [] then s else ApplyAll(Apply(s, events[0]), events[1..])
  }

  ghost predicate OneFrame(events: seq<Event>) {
    events == [] || (events[|events| - 1].Syn? && NoSyn(events[..|events| - 1]))
  }

  /** A report ending in its only SYN_REPORT publishes the state after all of its events at once. */
  lemma {:induction false} ReplayReport(r: Reader, body: seq<Event>)
    requires NoSyn(body)
    ensures Replay(r, body + [Syn]) == Reader(ApplyAll(r.now, body), ApplyAll(r.now, body))
    decreases |body|
  {
    var events := body + [Syn];
    if body == [] {
      assert events == [Syn] && events[1..] == [];
    } else {
      assert events[0] == body[0] && events[1..] == body[1..] + [Syn];
      ReplayReport(Read(r, body[0]), body[1..]);
    }
  }

  lemma {:induction false} ApplyConcat(s: DeviceState, a: seq<Event>, b: seq<Event>)
    ensures ApplyAll(s, a + b) == ApplyAll(ApplyAll(s, a), b)
    decreases |a|
  {
    if a == [] {
      assert a + b == b;
    } else {
      assert (a + b)[0] == a[0] && (a + b)[1..] == a[1..] + b;
      ApplyConcat(Apply(s, a[0]), a[1..], b);
    }
  }

  lemma ApplyOne(s: DeviceState, a: Event)
    ensures ApplyAll(s, [a]) == Apply(s, a)
  {
    assert [a][1..] == [];
  }

  lemma ApplyThree(s: DeviceState, a: Event, b: Event, c: Event)
    ensures ApplyAll(s, [a, b, c]) == Apply(Apply(Apply(s, a), b), c)
  {
    assert [a, b, c] == [a] + ([b] + [c]);
    ApplyConcat(s, [a], [b] + [c]);
    ApplyConcat(Apply(s, a), [b], [c]);
    ApplyOne(s, a);
    ApplyOne(Apply(s, a), b);
    ApplyOne(Apply(Apply(s, a), b), c);
  }

  // ----- The slot table ----------------------------------------------------------------------

  ghost predicate TableOk(contacts: map<int, int>) {
    && (forall id :: id in contacts ==> 0 <= id && 0 <= contacts[id] < TOUCH_MAX_CONTACTS)
    && (forall a, b :: a in contacts && b in contacts && contacts[a] == contacts[b] ==> a == b)
  }

  /** A new contact finds a slot exactly when fewer than sixteen contacts are live. */
  lemma TableFullIffSixteen(contacts: map<int, int>)
    requires TableOk(contacts)
    ensures |contacts| <= 16
    ensures LowestFree(contacts.Values, 0) == 16 <==> |contacts| == 16
  {
    FullTable(contacts, TOUCH_MAX_CONTACTS);
  }

  // ----- Refinement --------------------------------------------------------------------------

  const TOOL_KEYS: set<Key> := {ToolFinger, ToolDoubleTap, ToolTripleTap, ToolQuadTap, ToolQuintTap}

  function ToolsFor(count: nat): set<Key> {
    if count == 0 then {}
    else if count == 1 then {ToolFinger}
    else if count == 2 then {ToolDoubleTap}
    else if count == 3 then {ToolTripleTap}
    else if count == 4 then {ToolQuadTap}
    else {ToolQuintTap}
  }

  function TrackingIdOf(live: Live): nat {
    live.ordinal % 65536
  }

  /** A reader shows a live contact in `slot` with this sample and tracking id. */
  ghost predicate Shows(s: DeviceState, slot: int, live: Live)
    requires 0 <= slot < |s.slots|
  {
    s.slots[slot] == Slot(TrackingIdOf(live), live.sample.x, live.sample.y, live.sample.pressure,
                          live.sample.orientation)
  }

  ghost predicate Held(m: Model, s: DeviceState, trackpad: bool) {
    && (BtnTouch in s.keys <==> m.live != map[])
    && (BtnLeft in s.keys <==> m.button)
    && s.keys * TOOL_KEYS == if trackpad then ToolsFor(|m.live|) else {}
  }

  ghost predicate OrdinalsOk(m: Model) {
    && (forall id :: id in m.live ==> m.live[id].ordinal < m.placements)
    && (forall a, b :: a in m.live && b in m.live && m.live[a].ordinal == m.live[b].ordinal ==> a == b)
  }

  ghost predicate LiveShown(contacts: map<int, int>, m: Model, s: DeviceState)
    requires contacts.Keys == m.live.Keys && TableOk(contacts) && |s.slots| == TOUCH_MAX_CONTACTS
  {
    forall id :: id in m.live ==> Shows(s, contacts[id], m.live[id])
  }

  ghost predicate RestVacant(contacts: map<int, int>, s: DeviceState) {
    forall slot :: 0 <= slot < |s.slots| && slot !in contacts.Values ==> s.slots[slot].trackingId == -1
  }

  ghost predicate Agrees(e: Emitter, m: Model, s: DeviceState) {
    && TableOk(e.contacts)
    && |s.slots| == TOUCH_MAX_CONTACTS
    && e.contacts.Keys == m.live.Keys
    && (if e.currentSlot == -1 then m.placements == 0 else e.currentSlot == s.slot && 0 <= s.slot < |s.slots|)
    && e.nextTrackingId == m.placements % TOUCH_TRACKING_ID_COUNT
    && OrdinalsOk(m)
    && LiveShown(e.contacts, m, s)
    && RestVacant(e.contacts, s)
  }

  /** The reader's published frame is the caller's model, and nothing is pending. */
  ghost predicate Refines(e: Emitter, m: Model, r: Reader, trackpad: bool) {
    r.now == r.frame && Agrees(e, m, r.frame) && Held(m, r.frame, trackpad)
  }

  lemma SelectApplies(e: Emitter, s: DeviceState, slot: int)
    requires |s.slots| == TOUCH_MAX_CONTACTS && 0 <= slot < TOUCH_MAX_CONTACTS
    requires e.currentSlot == -1 || e.currentSlot == s.slot
    ensures ApplyAll(s, SelectEvents(e.currentSlot, slot)) == s.(slot := slot)
  {
    ApplyOne(s, Abs(MtSlot, slot));
  }

  lemma ToolsApply(s: DeviceState, count: nat)
    ensures var t := ApplyAll(s, ToolEvents(count));
            && t.slot == s.slot && t.slots == s.slots
            && (BtnTouch in t.keys <==> count != 0)
            && (BtnLeft in t.keys <==> BtnLeft in s.keys)
            && t.keys * TOOL_KEYS == ToolsFor(count)
  {
    var es := ToolEvents(count);
    assert es == es[..3] + es[3..];
    ApplyConcat(s, es[..3], es[3..]);
    assert es[..3] == [es[0], es[1], es[2]] && es[3..] == [es[3], es[4], es[5]];
    ApplyThree(s, es[0], es[1], es[2]);
    ApplyThree(ApplyAll(s, es[..3]), es[3], es[4], es[5]);
  }

  /** The reader with another content in its selected slot. */
  function Put(s: DeviceState, slot: Slot): DeviceState
    requires 0 <= s.slot < |s.slots|
  {
    s.(slots := s.slots[s.slot := slot])
  }

  lemma PutApply(s: DeviceState, slot: Slot, axis: Axis, v: int)
    requires 0 <= s.slot < |s.slots| && !axis.MtSlot?
    ensures Apply(Put(s, slot), Abs(axis, v)) == Put(s, WithAxis(slot, axis, v))
  {
  }

  lemma SampleApplies(s: DeviceState, sample: Sample)
    requires 0 <= s.slot < |s.slots|
    ensures ApplyAll(s, SampleEvents(sample)) ==
            Put(s, Slot(s.slots[s.slot].trackingId, sample.x, sample.y, sample.pressure, sample.orientation))
  {
    hide ApplyAll, Apply;
    var start := s.slots[s.slot];
    assert s == Put(s, start);
    hide Put;
    var a := [Abs(AbsX, sample.x), Abs(MtPositionX, sample.x), Abs(AbsY, sample.y)];
    var b := [Abs(MtPositionY, sample.y), Abs(AbsPressure, sample.pressure), Abs(MtPressure, sample.pressure)];
    var c := Abs(MtOrientation, sample.orientation);
    assert SampleEvents(sample) == a + (b + [c]);
    hide SampleEvents;
    var second := start.(x := sample.x);
    var third := second.(y := sample.y, pressure := sample.pressure);
    ApplyConcat(s, a, b + [c]);
    ApplyConcat(Put(s, second), b, [c]);
    ApplyThree(s, a[0], a[1], a[2]);
    PutApply(s, start, AbsX, sample.x);
    PutApply(s, start, MtPositionX, sample.x);
    PutApply(s, second, AbsY, sample.y);
    ApplyThree(Put(s, second), b[0], b[1], b[2]);
    PutApply(s, second, MtPositionY, sample.y);
    PutApply(s, second.(y := sample.y), AbsPressure, sample.pressure);
    PutApply(s, second.(y := sample.y), MtPressure, sample.pressure);
    ApplyOne(Put(s, third), c);
    PutApply(s, third, MtOrientation, sample.orientation);
  }

  /** Before the sample: a new contact has taken its tracking id and told the button state. */
  lemma HeaderApplies(e: Emitter, s: DeviceState, id: int, trackpad: bool)
    requires 0 <= s.slot < |s.slots|
    requires BtnTouch in s.keys <==> e.contacts != map[]
    requires s.keys * TOOL_KEYS == if trackpad then ToolsFor(|e.contacts|) else {}
    ensures var t := ApplyAll(s, PlaceHeader(e, id, trackpad));
            && t.slot == s.slot
            && t.slots == (if id in e.contacts then s.slots
                           else s.slots[s.slot := s.slots[s.slot].(trackingId := e.nextTrackingId)])
            && BtnTouch in t.keys
            && (BtnLeft in t.keys <==> BtnLeft in s.keys)
            && t.keys * TOOL_KEYS ==
               if trackpad then ToolsFor(if id in e.contacts then |e.contacts| else |e.contacts| + 1) else {}
  {
    if id !in e.contacts {
      var first := Abs(MtTrackingId, e.nextTrackingId);
      var s1 := Apply(s, first);
      var keys := if trackpad then ToolEvents(|e.contacts| + 1) else [KeyChange(BtnTouch, true)];
      ApplyConcat(s, [first], keys);
      ApplyOne(s, first);
      ApplyOne(s1, KeyChange(BtnTouch, true));
      ToolsApply(s1, |e.contacts| + 1);
    }
  }

  /** `slot` is where the emitter puts contact `id`: its own slot, or one nobody uses. */
  ghost predicate Placeable(contacts: map<int, int>, id: int, slot: int) {
    && 0 <= id && 0 <= slot < TOUCH_MAX_CONTACTS
    && (if id in contacts then contacts[id] == slot else slot !in contacts.Values)
  }

  /** Emitter and model accept the same contacts. */
  lemma AcceptedTogether(e: Emitter, m: Model, id: int)
    requires TableOk(e.contacts) && e.contacts.Keys == m.live.Keys
    ensures |e.contacts| == |m.live|
    ensures PlaceStatus(e, id).Ok? <==> Accepts(m, id)
    ensures PlaceStatus(e, id).Ok? ==> Placeable(e.contacts, id, SlotFor(e.contacts, id))
  {
    TableFullIffSixteen(e.contacts);
    assert |e.contacts.Keys| == |m.live.Keys|;
  }

  lemma PlaceRefines(e: Emitter, m: Model, r: Reader, id: int, sample: Sample, trackpad: bool)
    requires Refines(e, m, r, trackpad) && PlaceStatus(e, id).Ok?
    ensures OneFrame(PlaceEvents(e, id, sample, trackpad))
    ensures Refines(AfterPlace(e, id), Placed(m, id, sample), Replay(r, PlaceEvents(e, id, sample, trackpad)), trackpad)
  {
    AcceptedTogether(e, m, id);
    var slot := SlotFor(e.contacts, id);
    var body := PlaceBody(e, r.now, id, slot, sample, trackpad);
    ReplayReport(r, body);
    assert (body + [Syn])[..|body|] == body;
    PlacedAgrees(e, m, r.now, ApplyAll(r.now, body), id, slot, sample);
  }

  /** What the events of a placement leave in the reader before the frame is published. */
  lemma PlaceBody(e: Emitter, s: DeviceState, id: int, slot: int, sample: Sample, trackpad: bool)
    returns (body: seq<Event>)
    requires |s.slots| == TOUCH_MAX_CONTACTS && 0 <= slot < TOUCH_MAX_CONTACTS
    requires e.currentSlot == -1 || e.currentSlot == s.slot
    requires BtnTouch in s.keys <==> e.contacts != map[]
    requires s.keys * TOOL_KEYS == if trackpad then ToolsFor(|e.contacts|) else {}
    ensures SelectEvents(e.currentSlot, slot) + PlaceHeader(e, id, trackpad) + SampleEvents(sample) + [Syn]
         == body + [Syn]
    ensures NoSyn(body)
    ensures var t := ApplyAll(s, body);
            && t.slot == slot
            && t.slots == s.slots[slot := Slot(if id in e.contacts then s.slots[slot].trackingId else e.nextTrackingId,
                                               sample.x, sample.y, sample.pressure, sample.orientation)]
            && BtnTouch in t.keys
            && (BtnLeft in t.keys <==> BtnLeft in s.keys)
            && t.keys * TOOL_KEYS ==
               if trackpad then ToolsFor(if id in e.contacts then |e.contacts| else |e.contacts| + 1) else {}
  {
    hide SelectEvents, PlaceHeader, SampleEvents, ApplyAll, ToolsFor;
    var select := SelectEvents(e.currentSlot, slot);
    var header := PlaceHeader(e, id, trackpad);
    var values := SampleEvents(sample);
    body := select + header + values;
    var s1 := s.(slot := slot);
    var s2 := ApplyAll(s1, header);
    assert body == select + (header + values);
    ApplyConcat(s, select, header + values);
    ApplyConcat(s1, header, values);
    SelectApplies(e, s, slot);
    HeaderApplies(e, s1, id, trackpad);
    SampleApplies(s2, sample);
  }

  /** What a slot holds after a placement: an old contact keeps its tracking id. */
  function Filled(e: Emitter, s: DeviceState, id: int, slot: int, sample: Sample): Slot
    requires 0 <= slot < |s.slots|
  {
    Slot(if id in e.contacts then s.slots[slot].trackingId else e.nextTrackingId,
         sample.x, sample.y, sample.pressure, sample.orientation)
  }

  /** What an accepted placement means for the contacts. */
  lemma PlacedLive(m: Model, id: int, sample: Sample)
    requires Accepts(m, id)
    ensures var m' := Placed(m, id, sample);
            && m'.live.Keys == m.live.Keys + {id}
            && m'.live[id] == Live(sample, if id in m.live then m.live[id].ordinal else m.placements)
            && (forall k :: k in m.live && k != id ==> m'.live[k] == m.live[k])
            && m'.placements == (if id in m.live then m.placements else m.placements + 1)
            && |m'.live| == (if id in m.live then |m.live| else |m.live| + 1)
  {
    var m' := Placed(m, id, sample);
    assert m'.live.Keys == m.live.Keys + {id};
    assert |m'.live.Keys| == |m'.live| && |m.live.Keys| == |m.live|;
  }

  lemma SameSize(contacts: map<int, int>, m: Model)
    requires contacts.Keys == m.live.Keys
    ensures |contacts| == |m.live|
  {
    assert |contacts.Keys| == |contacts| && |m.live.Keys| == |m.live|;
  }

  /** The table side of a placement, once the reader's slots are known. */
  lemma PlacedAgrees(e: Emitter, m: Model, s: DeviceState, t: DeviceState, id: int, slot: int, sample: Sample)
    requires Agrees(e, m, s) && Placeable(e.contacts, id, slot) && Accepts(m, id)
    requires t.slot == slot
    requires t.slots == s.slots[slot := Filled(e, s, id, slot, sample)]
    ensures Agrees(WithContact(e, id, slot), Placed(m, id, sample), t)
    ensures |Placed(m, id, sample).live| == if id in e.contacts then |e.contacts| else |e.contacts| + 1
  {
    hide TableOk, RestVacant, OrdinalsOk, LiveShown, Placed, Filled;
    PlacedLive(m, id, sample);
    PlacedTable(e, id, slot);
    PlacedVacancy(e, id, slot, s, t);
    PlacedOrdinals(m, id, sample);
    NextTrackingId(m.placements);
    SameSize(e.contacts, m);
    PlacedShown(e, m, s, t, id, slot, sample);
  }

  lemma NextTrackingId(n: nat)
    ensures (n + 1) % TOUCH_TRACKING_ID_COUNT == (n % TOUCH_TRACKING_ID_COUNT + 1) % TOUCH_TRACKING_ID_COUNT
  {
  }

  lemma PlacedOrdinals(m: Model, id: int, sample: Sample)
    requires OrdinalsOk(m)
    ensures OrdinalsOk(Placed(m, id, sample))
  {
  }

  lemma PlacedShown(e: Emitter, m: Model, s: DeviceState, t: DeviceState, id: int, slot: int, sample: Sample)
    requires Agrees(e, m, s) && Placeable(e.contacts, id, slot) && Accepts(m, id)
    requires t.slots == s.slots[slot := Filled(e, s, id, slot, sample)]
    ensures var contacts := WithContact(e, id, slot).contacts;
            var m' := Placed(m, id, sample);
            TableOk(contacts) && contacts.Keys == m'.live.Keys && LiveShown(contacts, m', t)
  {
    hide RestVacant, OrdinalsOk, Placed, Shows, Filled;
    var e' := WithContact(e, id, slot);
    var m' := Placed(m, id, sample);
    PlacedTable(e, id, slot);
    PlacedLive(m, id, sample);
    forall k | k in m'.live
      ensures Shows(t, e'.contacts[k], m'.live[k])
    {
      if k == id {
        FilledShows(e, m, s, t, id, slot, sample);
      } else {
        assert Shows(s, e.contacts[k], m.live[k]);
        StillShows(s, t, slot, Filled(e, s, id, slot, sample), e.contacts[k], m.live[k]);
      }
    }
  }

  lemma FilledShows(e: Emitter, m: Model, s: DeviceState, t: DeviceState, id: int, slot: int, sample: Sample)
    requires Agrees(e, m, s) && Placeable(e.contacts, id, slot)
    requires t.slots == s.slots[slot := Filled(e, s, id, slot, sample)]
    ensures Shows(t, slot, Live(sample, if id in m.live then m.live[id].ordinal else m.placements))
  {
    hide RestVacant, OrdinalsOk;
    if id in m.live {
      assert Shows(s, e.contacts[id], m.live[id]);
    }
  }

  lemma StillShows(s: DeviceState, t: DeviceState, slot: int, content: Slot, other: int, live: Live)
    requires 0 <= slot < |s.slots| && 0 <= other < |s.slots| && other != slot
    requires t.slots == s.slots[slot := content] && Shows(s, other, live)
    ensures Shows(t, other, live)
  {
  }

  lemma PlacedTable(e: Emitter, id: int, slot: int)
    requires TableOk(e.contacts) && Placeable(e.contacts, id, slot)
    ensures var e' := WithContact(e, id, slot);
            && TableOk(e'.contacts) && e'.contacts.Keys == e.contacts.Keys + {id}
            && e'.contacts[id] == slot
            && (forall k :: k in e.contacts ==> e'.contacts[k] == e.contacts[k])
            && (forall k :: k in e.contacts && k != id ==> e.contacts[k] != slot)
  {
    forall k | k in e.contacts && k != id
      ensures e.contacts[k] != slot
    {
      assert e.contacts[k] in e.contacts.Values;
    }
  }

  lemma TableWithout(contacts: map<int, int>, id: int)
    requires TableOk(contacts)
    ensures TableOk(contacts - {id})
  {
  }

  lemma PlacedVacancy(e: Emitter, id: int, slot: int, s: DeviceState, t: DeviceState)
    requires TableOk(e.contacts) && Placeable(e.contacts, id, slot) && RestVacant(e.contacts, s)
    requires |t.slots| == |s.slots| && forall k :: 0 <= k < |s.slots| && k != slot ==> t.slots[k] == s.slots[k]
    ensures RestVacant(WithContact(e, id, slot).contacts, t)
  {
    var e' := WithContact(e, id, slot);
    PlacedTable(e, id, slot);
    forall k | 0 <= k < |t.slots| && k !in e'.contacts.Values
      ensures t.slots[k].trackingId == -1
    {
      assert e'.contacts[id] in e'.contacts.Values;
      if k in e.contacts.Values {
        var other := KeyOf(e.contacts, k);
        assert false;
      }
    }
  }

  lemma ReleaseRefines(e: Emitter, m: Model, r: Reader, id: int, trackpad: bool)
    requires Refines(e, m, r, trackpad) && id in e.contacts
    ensures OneFrame(ReleaseEvents(e, id, trackpad))
    ensures Refines(AfterRelease(e, id), Released(m, id), Replay(r, ReleaseEvents(e, id, trackpad)), trackpad)
  {
    hide ReleaseEvents, ToolsFor, Replay;
    var e' := AfterRelease(e, id);
    var m' := Released(m, id);
    assert e'.contacts.Keys == m'.live.Keys;
    assert |e'.contacts.Keys| == |m'.live.Keys|;
    var body := ReleaseBody(e, r.now, id, trackpad);
    ReplayReport(r, body);
    assert (body + [Syn])[..|body|] == body;
    ReleasedAgrees(e, m, r.now, ApplyAll(r.now, body), id);
  }

  /** What the events of a release leave in the reader before the frame is published. */
  lemma ReleaseBody(e: Emitter, s: DeviceState, id: int, trackpad: bool) returns (body: seq<Event>)
    requires id in e.contacts && |s.slots| == TOUCH_MAX_CONTACTS && 0 <= e.contacts[id] < TOUCH_MAX_CONTACTS
    requires e.currentSlot == -1 || e.currentSlot == s.slot
    requires BtnTouch in s.keys && (!trackpad ==> s.keys * TOOL_KEYS == {})
    ensures ReleaseEvents(e, id, trackpad) == body + [Syn] && NoSyn(body)
    ensures var t := ApplyAll(s, body);
            var count := |e.contacts - {id}|;
            && t.slot == e.contacts[id]
            && t.slots == s.slots[t.slot := s.slots[t.slot].(trackingId := -1)]
            && (BtnTouch in t.keys <==> count != 0)
            && (BtnLeft in t.keys <==> BtnLeft in s.keys)
            && t.keys * TOOL_KEYS == if trackpad then ToolsFor(count) else {}
  {
    hide SelectEvents, ApplyAll, ToolsFor, ToolEvents;
    var slot := e.contacts[id];
    var count := |e.contacts - {id}|;
    var select := SelectEvents(e.currentSlot, slot);
    var drop := Abs(MtTrackingId, -1);
    var tail := ReleaseTail(count, trackpad);
    var s1 := s.(slot := slot);
    var s2 := Apply(s1, drop);
    body := select + ([drop] + tail);
    assert ReleaseEvents(e, id, trackpad) == body + [Syn];
    ApplyConcat(s, select, [drop] + tail);
    ApplyConcat(s1, [drop], tail);
    SelectApplies(e, s, slot);
    ApplyOne(s1, drop);
    ToolsApply(s2, count);
    ApplyOne(s2, KeyChange(BtnTouch, false));
    ApplyNone(s2);
  }

  lemma ApplyNone(s: DeviceState)
    ensures ApplyAll(s, []) == s
  {
  }

  lemma ReleasedAgrees(e: Emitter, m: Model, s: DeviceState, t: DeviceState, id: int)
    requires Agrees(e, m, s) && id in e.contacts
    requires t.slot == e.contacts[id]
    requires t.slots == s.slots[t.slot := s.slots[t.slot].(trackingId := -1)]
    ensures Agrees(AfterRelease(e, id), Released(m, id), t)
  {
    var e' := AfterRelease(e, id);
    var m' := Released(m, id);
    forall other | other in m'.live
      ensures Shows(t, e'.contacts[other], m'.live[other])
    {
      assert Shows(s, e.contacts[other], m.live[other]);
    }
    forall k | k in e.contacts.Values && k != t.slot
      ensures k in e'.contacts.Values
    {
      var other := KeyOf(e.contacts, k);
      assert e'.contacts[other] == k;
    }
  }

  /** Any call keeps the reader's frame equal to the model, in at most one frame. */
  lemma StepRefines(e: Emitter, m: Model, r: Reader, op: Op, trackpad: bool)
    requires Refines(e, m, r, trackpad)
    ensures OneFrame(Emit(e, op, trackpad).1)
    ensures Refines(Emit(e, op, trackpad).0, Meant(m, op), Replay(r, Emit(e, op, trackpad).1), trackpad)
  {
    hide PlaceEvents, ReleaseEvents, Sampled, Placed, ApplyAll, Replay, PlaceStatus;
    match op
    case Place(c) =>
      AcceptedTogether(e, m, c.id);
      if PlaceStatus(e, c.id).Ok? {
        PlaceRefines(e, m, r, c.id, Sampled(c), trackpad);
      } else {
        ReplayNone(r);
        NotPlaced(m, c.id, Sampled(c));
      }
    case Release(id) =>
      if id in e.contacts {
        ReleaseRefines(e, m, r, id, trackpad);
      } else {
        assert m.live - {id} == m.live;
        ReplayNone(r);
      }
    case Button(pressed) =>
      ButtonRefines(e, m, r, pressed, trackpad);
  }

  lemma NotPlaced(m: Model, id: int, sample: Sample)
    requires !Accepts(m, id)
    ensures Placed(m, id, sample) == m
  {
  }

  lemma ReplayNone(r: Reader)
    ensures Replay(r, []) == r
  {
  }

  lemma ButtonRefines(e: Emitter, m: Model, r: Reader, pressed: bool, trackpad: bool)
    requires Refines(e, m, r, trackpad)
    ensures OneFrame([KeyChange(BtnLeft, pressed), Syn])
    ensures Refines(e, m.(button := pressed), Replay(r, [KeyChange(BtnLeft, pressed), Syn]), trackpad)
  {
    hide Replay, ApplyAll, ToolsFor;
    var body := [KeyChange(BtnLeft, pressed)];
    assert [KeyChange(BtnLeft, pressed), Syn] == body + [Syn];
    ReplayReport(r, body);
    ApplyOne(r.now, body[0]);
  }

  // ----- Whole runs --------------------------------------------------------------------------

  function Run(ops: seq<Op>, trackpad: bool): (Emitter, seq<Event>)
    decreases |ops|
  {
    if ops == [] then (CREATED, [])
    else
      var (e, written) := Run(ops[..|ops| - 1], trackpad);
      var (e', more) := Emit(e, ops[|ops| - 1], trackpad);
      (e', written + more)
  }

  ghost function MeantBy(ops: seq<Op>): Model
    decreases |ops|
  {
    if ops == [] then NO_CONTACTS else Meant(MeantBy(ops[..|ops| - 1]), ops[|ops| - 1])
  }

  const FRESH_READER: Reader := Reader(IDLE, IDLE)

  /** Replaying everything a device ever wrote shows exactly the contacts the caller holds. */
  lemma {:induction false} RunRefines(ops: seq<Op>, trackpad: bool)
    ensures var (e, written) := Run(ops, trackpad);
            Refines(e, MeantBy(ops), Replay(FRESH_READER, written), trackpad)
    decreases |ops|
  {
    if ops != [] {
      var before := ops[..|ops| - 1];
      var (e, written) := Run(before, trackpad);
      RunRefines(before, trackpad);
      var r := Replay(FRESH_READER, written);
      StepRefines(e, MeantBy(before), r, ops[|ops| - 1], trackpad);
      ReplayConcat(FRESH_READER, written, Emit(e, ops[|ops| - 1], trackpad).1);
    }
  }

  /** The tracking id a reader has in a contact's slot. */
  function IdShown(e: Emitter, s: DeviceState, id: int): Option<int> {
    if id in e.contacts && 0 <= e.contacts[id] < |s.slots| then Some(s.slots[e.contacts[id]].trackingId) else None
  }

  /** Two live contacts share a tracking id exactly when their placements are a multiple of 65536 apart. */
  lemma SharedTrackingId(ops: seq<Op>, trackpad: bool, a: int, b: int)
    requires a in MeantBy(ops).live && b in MeantBy(ops).live
    ensures var (e, written) := Run(ops, trackpad);
            var shown := Replay(FRESH_READER, written).frame;
            && IdShown(e, shown, a).Some? && IdShown(e, shown, b).Some?
            && (IdShown(e, shown, a) == IdShown(e, shown, b) <==>
                (MeantBy(ops).live[a].ordinal - MeantBy(ops).live[b].ordinal) % TOUCH_TRACKING_ID_COUNT == 0)
  {
    hide Run, MeantBy, Replay;
    RunRefines(ops, trackpad);
    var (e, written) := Run(ops, trackpad);
    ShownTrackingIds(e, MeantBy(ops), Replay(FRESH_READER, written).frame, a, b);
    SameRemainder(MeantBy(ops).live[a].ordinal, MeantBy(ops).live[b].ordinal);
  }

  lemma ShownTrackingIds(e: Emitter, m: Model, s: DeviceState, a: int, b: int)
    requires Agrees(e, m, s) && a in m.live && b in m.live
    ensures IdShown(e, s, a) == Some(TrackingIdOf(m.live[a])) && IdShown(e, s, b) == Some(TrackingIdOf(m.live[b]))
  {
    hide RestVacant, OrdinalsOk, TrackingIdOf;
    assert Shows(s, e.contacts[a], m.live[a]);
    assert Shows(s, e.contacts[b], m.live[b]);
  }

  lemma SameRemainder(x: nat, y: nat)
    ensures x % 65536 == y % 65536 <==> (x - y) % 65536 == 0
  {
  }

  /** No live contact has outlived 65535 later placements: then all live tracking ids differ. */
  lemma DistinctTrackingIds(ops: seq<Op>, trackpad: bool, a: int, b: int)
    requires var m := MeantBy(ops);
             && a in m.live && b in m.live && a != b
             && forall id :: id in m.live ==> m.placements - 1 - m.live[id].ordinal <= 65535
    ensures var (e, written) := Run(ops, trackpad);
            var shown := Replay(FRESH_READER, written).frame;
            && IdShown(e, shown, a).Some? && IdShown(e, shown, b).Some?
            && IdShown(e, shown, a) != IdShown(e, shown, b)
  {
    hide Run, MeantBy, Replay;
    RunRefines(ops, trackpad);
    SharedTrackingId(ops, trackpad, a, b);
    var m := MeantBy(ops);
    var d := m.live[a].ordinal - m.live[b].ordinal;
    assert -65536 < d < 65536 && d != 0;
  }

  // ----- Where the guarantees stop -----------------------------------------------------------

  function TouchAt(id: int): Op {
    Place(TouchContact(id, 0.0, 0.0, 0.0, 0))
  }

  /** Contact 0 goes down and stays; contact 1 is tapped `taps` times beside it. */
  function Taps(taps: nat): seq<Op> {
    if taps == 0 then [TouchAt(0)] else Taps(taps - 1) + [TouchAt(1), Release(1)]
  }

  lemma MeantBySnoc(ops: seq<Op>, op: Op)
    ensures MeantBy(ops + [op]) == Meant(MeantBy(ops), op)
  {
    assert (ops + [op])[..|ops|] == ops;
  }

  /** Only contact 0 is down, placed first, after `n` placements in all. */
  function OnlyFirst(sample: Sample, n: nat): Model {
    Model(map[0 := Live(sample, 0)], n, false)
  }

  lemma TapMeans(first: Sample, tap: Sample, n: nat)
    requires n > 0
    ensures Placed(OnlyFirst(first, n), 1, tap).live - {1} == OnlyFirst(first, n).live
    ensures Placed(OnlyFirst(first, n), 1, tap).placements == n + 1
    ensures !Placed(OnlyFirst(first, n), 1, tap).button
  {
    var m := OnlyFirst(first, n);
    assert |m.live| == 1;
    assert m.live[1 := Live(tap, n)] - {1} == m.live;
  }

  lemma {:induction false} TapsMean(taps: nat)
    ensures MeantBy(Taps(taps)) == OnlyFirst(Sampled(TouchAt(0).contact), taps + 1)
  {
    hide Sampled, Placed, MeantBy;
    var first, tap := Sampled(TouchAt(0).contact), Sampled(TouchAt(1).contact);
    if taps == 0 {
      MeantBySnoc([], TouchAt(0));
      assert [] + [TouchAt(0)] == [TouchAt(0)];
      FirstMeans(first);
    } else {
      TapsMean(taps - 1);
      var before := Taps(taps - 1);
      assert Taps(taps) == (before + [TouchAt(1)]) + [Release(1)];
      MeantBySnoc(before, TouchAt(1));
      MeantBySnoc(before + [TouchAt(1)], Release(1));
      TapMeans(first, tap, taps);
    }
  }

  lemma FirstMeans(first: Sample)
    ensures MeantBy([]) == NO_CONTACTS
    ensures Placed(NO_CONTACTS, 0, first) == OnlyFirst(first, 1)
  {
  }

  /** A contact held through 65535 other placements shares its tracking id with the next one. */
  lemma OutlivedTrackingIdRepeats(taps: nat, trackpad: bool)
    requires taps == TOUCH_TRACKING_ID_COUNT - 1
    ensures var ops := Taps(taps) + [TouchAt(2)];
            var (e, written) := Run(ops, trackpad);
            var shown := Replay(FRESH_READER, written).frame;
            && IdShown(e, shown, 0).Some? && IdShown(e, shown, 0) == IdShown(e, shown, 2)
            && e.contacts[0] != e.contacts[2]
  {
    HeldThroughTaps(taps, trackpad);
  }

  /** Whether the held contact's id repeats after `taps` taps depends only on their number. */
  lemma HeldThroughTaps(taps: nat, trackpad: bool)
    ensures var ops := Taps(taps) + [TouchAt(2)];
            var (e, written) := Run(ops, trackpad);
            var shown := Replay(FRESH_READER, written).frame;
            && IdShown(e, shown, 0).Some? && IdShown(e, shown, 2).Some?
            && e.contacts[0] != e.contacts[2]
            && (IdShown(e, shown, 0) == IdShown(e, shown, 2) <==> (taps + 1) % TOUCH_TRACKING_ID_COUNT == 0)
  {
    hide Run, Replay, Sampled, Taps, MeantBy, Placed;
    TapsMean(taps);
    var ops := Taps(taps) + [TouchAt(2)];
    MeantBySnoc(Taps(taps), TouchAt(2));
    LastMeans(Sampled(TouchAt(0).contact), Sampled(TouchAt(2).contact), taps + 1);
    RunRefines(ops, trackpad);
    SharedTrackingId(ops, trackpad, 2, 0);
  }

  lemma LastMeans(first: Sample, last: Sample, n: nat)
    ensures var m := Placed(OnlyFirst(first, n), 2, last);
            && 0 in m.live && 2 in m.live && m.live[0].ordinal == 0 && m.live[2].ordinal == n
  {
    assert |OnlyFirst(first, n).live| == 1;
  }

  // ----- The device --------------------------------------------------------------------------

  /** The first `k` events of a report are all of it only when they are as many. */
  lemma PartOf(start: seq<Event>, events: seq<Event>, k: nat)
    requires k < |events|
    ensures start <= start + events[..k] <= start + events
    ensures start + events[..k] != start + events
    ensures start + events[..k] + [events[k]] == start + events[..k + 1]
  {
    assert |start + events[..k]| < |start + events|;
    assert (start + events)[..|start| + k] == start + events[..k];
  }

  /** `UinputTouchDevice`: every write may fail, and the call then stops where it is. */
  class UinputTouchDevice {
    var open: bool
    var contacts: map<int, int>
    var currentSlot: int
    var nextTrackingId: nat
    var newSlot: bool
    var written: seq<Event>

    function View(): Emitter
      reads this
    {
      Emitter(contacts, currentSlot, nextTrackingId)
    }

    constructor ()
      ensures open && View() == CREATED && written == [] && TableOk(contacts)
    {
      open, contacts, currentSlot, nextTrackingId, newSlot, written := true, map[], -1, 0, false, [];
    }

    method EmitEvent(event: Event) returns (ok: bool)
      modifies this`written
      ensures written == if ok then old(written) + [event] else old(written)
    {
      ok := *;
      if ok {
        written := written + [event];
      }
    }

    method SlotForContact(id: int) returns (slot: int)
      requires TableOk(contacts) && id >= 0
      modifies this`contacts, this`newSlot
      ensures slot == SlotFor(old(contacts), id)
      ensures slot == TOUCH_MAX_CONTACTS ==> contacts == old(contacts)
      ensures slot != TOUCH_MAX_CONTACTS ==>
                contacts == WithContact(old(View()), id, slot).contacts && newSlot == (id !in old(contacts))
      ensures TableOk(contacts)
    {
      if id in contacts {
        newSlot := false;
        return contacts[id];
      }
      slot := 0;
      while slot < TOUCH_MAX_CONTACTS
        invariant 0 <= slot <= TOUCH_MAX_CONTACTS
        invariant LowestFree(contacts.Values, 0) == LowestFree(contacts.Values, slot)
        invariant contacts == old(contacts)
      {
        var used := slot in contacts.Values;
        if !used {
          contacts := contacts[id := slot];
          newSlot := true;
          PlacedTable(old(View()), id, slot);
          return;
        }
        slot := slot + 1;
      }
    }

    method SelectSlot(slot: int) returns (ok: bool)
      modifies this`currentSlot, this`written
      ensures currentSlot == slot
      ensures old(written) <= written <= old(written) + SelectEvents(old(currentSlot), slot)
      ensures ok <==> written == old(written) + SelectEvents(old(currentSlot), slot)
    {
      if currentSlot == slot {
        return true;
      }
      currentSlot := slot;
      ok := EmitEvent(Abs(MtSlot, slot));
    }

    /** One of a report's events; the report is written in full only after its last. */
    method EmitNext(event: Event, ghost start: seq<Event>, ghost es: seq<Event>, ghost k: nat) returns (ok: bool)
      requires k < |es| && es[k] == event && written == start + es[..k]
      modifies this`written
      ensures written == start + es[..if ok then k + 1 else k]
      ensures start <= written <= start + es
      ensures written == start + es <==> ok && k + 1 == |es|
    {
      PartOf(start, es, k);
      if k + 1 < |es| {
        PartOf(start, es, k + 1);
      } else {
        assert es[..k + 1] == es;
      }
      ok := EmitEvent(event);
    }

    method EmitTrackpadToolButtons() returns (ok: bool)
      modifies this`written
      ensures old(written) <= written <= old(written) + ToolEvents(|contacts|)
      ensures ok <==> written == old(written) + ToolEvents(|contacts|)
    {
      var count := |contacts|;
      ghost var start, es := written, ToolEvents(|contacts|);
      assert |es| == 6;
      ok := EmitNext(KeyChange(BtnTouch, count != 0), start, es, 0);
      if !ok { return; }
      ok := EmitNext(KeyChange(ToolFinger, count == 1), start, es, 1);
      if !ok { return; }
      ok := EmitNext(KeyChange(ToolDoubleTap, count == 2), start, es, 2);
      if !ok { return; }
      ok := EmitNext(KeyChange(ToolTripleTap, count == 3), start, es, 3);
      if !ok { return; }
      ok := EmitNext(KeyChange(ToolQuadTap, count == 4), start, es, 4);
      if !ok { return; }
      ok := EmitNext(KeyChange(ToolQuintTap, count >= 5), start, es, 5);
    }

    method EmitSample(s: Sample) returns (ok: bool)
      modifies this`written
      ensures old(written) <= written <= old(written) + SampleEvents(s)
      ensures ok <==> written == old(written) + SampleEvents(s)
    {
      ghost var start, es := written, SampleEvents(s);
      assert |es| == 7;
      ok := EmitNext(Abs(AbsX, s.x), start, es, 0);
      if !ok { return; }
      ok := EmitNext(Abs(MtPositionX, s.x), start, es, 1);
      if !ok { return; }
      ok := EmitNext(Abs(AbsY, s.y), start, es, 2);
      if !ok { return; }
      ok := EmitNext(Abs(MtPositionY, s.y), start, es, 3);
      if !ok { return; }
      ok := EmitNext(Abs(AbsPressure, s.pressure), start, es, 4);
      if !ok { return; }
      ok := EmitNext(Abs(MtPressure, s.pressure), start, es, 5);
      if !ok { return; }
      ok := EmitNext(Abs(MtOrientation, s.orientation), start, es, 6);
    }

    /** Announce a new contact: its tracking id, then the button state. */
    method EmitHeader(trackpad: bool, ghost e: Emitter, ghost id: int) returns (ok: bool)
      requires nextTrackingId == e.nextTrackingId && newSlot == (id !in e.contacts)
      requires id !in e.contacts ==> |contacts| == |e.contacts| + 1
      modifies this`nextTrackingId, this`newSlot, this`written
      ensures old(written) <= written <= old(written) + PlaceHeader(e, id, trackpad)
      ensures ok <==> written == old(written) + PlaceHeader(e, id, trackpad)
      ensures nextTrackingId == if id in e.contacts then e.nextTrackingId
                                else (e.nextTrackingId + 1) % TOUCH_TRACKING_ID_COUNT
      ensures ok ==> !newSlot
    {
      if !newSlot {
        return true;
      }
      var trackingId := nextTrackingId;
      nextTrackingId := (nextTrackingId + 1) % TOUCH_TRACKING_ID_COUNT;
      ok := EmitEvent(Abs(MtTrackingId, trackingId));
      if !ok { return; }
      newSlot := false;
      if trackpad {
        ok := EmitTrackpadToolButtons();
      } else {
        ok := EmitEvent(KeyChange(BtnTouch, true));
      }
    }

    /** Everything a placement writes once its slot is chosen. */
    method WriteContact(slot: int, sample: Sample, trackpad: bool, ghost e: Emitter, ghost id: int) returns (ok: bool)
      requires currentSlot == e.currentSlot && nextTrackingId == e.nextTrackingId && newSlot == (id !in e.contacts)
      requires id !in e.contacts ==> |contacts| == |e.contacts| + 1
      modifies this`currentSlot, this`nextTrackingId, this`newSlot, this`written
      ensures ghost var report :=
                SelectEvents(e.currentSlot, slot) + PlaceHeader(e, id, trackpad) + SampleEvents(sample) + [Syn];
              && old(written) <= written <= old(written) + report
              && (ok <==> written == old(written) + report)
      ensures currentSlot == slot
      ensures ghost var tried := |written| - |old(written)| >= |SelectEvents(e.currentSlot, slot)|;
              nextTrackingId == if id in e.contacts || !tried then e.nextTrackingId
                                else (e.nextTrackingId + 1) % TOUCH_TRACKING_ID_COUNT
    {
      hide SampleEvents, SelectEvents, PlaceHeader;
      ghost var start := written;
      ghost var select, header := SelectEvents(e.currentSlot, slot), PlaceHeader(e, id, trackpad);
      ghost var values := SampleEvents(sample);
      ok := SelectSlot(slot);
      if !ok { return; }
      assert written == start + select;
      ok := EmitHeader(trackpad, e, id);
      if !ok { return; }
      assert written == start + select + header;
      ok := EmitSample(sample);
      if !ok { return; }
      assert written == start + select + header + values;
      ok := EmitEvent(Syn);
    }

    /** With every write accepted this is `Emit`; a failed write leaves a prefix and a sound table. */
    method PlaceTouchContact(contact: TouchContact, trackpad: bool) returns (status: Status)
      requires TableOk(contacts)
      modifies this`contacts, this`currentSlot, this`nextTrackingId, this`newSlot, this`written
      ensures TableOk(contacts)
      ensures !open ==> status == DeviceClosed
      ensures open && !status.WriteFailed? ==>
                && status == PlaceStatus(old(View()), contact.id)
                && View() == Emit(old(View()), Place(contact), trackpad).0
                && written == old(written) + Emit(old(View()), Place(contact), trackpad).1
      ensures old(written) <= written
      ensures status.DeviceClosed? || status.InvalidId? || status.TooManyContacts? ==>
                View() == old(View()) && written == old(written)
      ensures status.WriteFailed? ==>
                && PlaceStatus(old(View()), contact.id).Ok?
                && var events := PlaceEvents(old(View()), contact.id, Sampled(contact), trackpad);
                var k := |written| - |old(written)|;
                && 0 <= k < |events| && written == old(written) + events[..k]
                && View() == AfterInterrupted(old(View()), contact.id, k)
    {
      if !open {
        return DeviceClosed;
      }
      if contact.id < 0 {
        return InvalidId;
      }
      hide Sampled, TableOk, LowestFree, PlaceEvents, AfterInterrupted;
      ghost var e := View();
      var slot := SlotForContact(contact.id);
      if slot == TOUCH_MAX_CONTACTS {
        return TooManyContacts;
      }
      var ok := WritePlacement(slot, contact.id, Sampled(contact), trackpad, e);
      return if ok then Ok else WriteFailed;
    }

    /** The contact has its slot; `e` is the state before it got one. */
    method WritePlacement(slot: int, id: int, sample: Sample, trackpad: bool, ghost e: Emitter) returns (ok: bool)
      requires PlaceStatus(e, id).Ok? && slot == SlotFor(e.contacts, id)
      requires contacts == AfterPlace(e, id).contacts && newSlot == (id !in e.contacts)
      requires currentSlot == e.currentSlot && nextTrackingId == e.nextTrackingId
      modifies this`currentSlot, this`nextTrackingId, this`newSlot, this`written
      ensures ok ==> View() == AfterPlace(e, id)
      ensures ok ==> written == old(written) + PlaceEvents(e, id, sample, trackpad)
      ensures !ok ==>
                var events, k := PlaceEvents(e, id, sample, trackpad), |written| - |old(written)|;
                && 0 <= k < |events| && written == old(written) + events[..k]
                && View() == AfterInterrupted(e, id, k)
    {
      hide SlotFor, SelectEvents, PlaceHeader, SampleEvents, AfterInterrupted;
      assert id !in e.contacts ==> contacts.Keys == e.contacts.Keys + {id};
      PlaceEventsParts(e, id, sample, trackpad);
      hide PlaceEvents;
      ok := WriteContact(slot, sample, trackpad, e, id);
      WrittenPlacement(e, View(), id, sample, trackpad, old(written), written, ok);
    }

    method ReleaseTouchContact(id: int, trackpad: bool) returns (status: Status)
      requires TableOk(contacts)
      modifies this`contacts, this`currentSlot, this`written
      ensures TableOk(contacts)
      ensures !open ==> status == DeviceClosed && View() == old(View()) && written == old(written)
      ensures open && !status.WriteFailed? ==>
                && status == Ok
                && View() == Emit(old(View()), Release(id), trackpad).0
                && written == old(written) + Emit(old(View()), Release(id), trackpad).1
      ensures old(written) <= written
      ensures status.WriteFailed? ==>
                && id in old(contacts)
                && (contacts == old(contacts) || contacts == old(contacts) - {id})
                && written <= old(written) + ReleaseEvents(old(View()), id, trackpad)
    {
      if !open {
        return DeviceClosed;
      }
      if id !in contacts {
        return Ok;
      }
      hide TableOk;
      ghost var e := View();
      TableWithout(contacts, id);
      var ok := WriteRelease(id, trackpad);
      return if ok then Ok else WriteFailed;
    }

    /** Select the slot, forget the contact, then tell the reader. */
    method WriteRelease(id: int, trackpad: bool) returns (ok: bool)
      requires id in contacts
      modifies this`contacts, this`currentSlot, this`written
      ensures old(written) <= written <= old(written) + ReleaseEvents(old(View()), id, trackpad)
      ensures ok ==> written == old(written) + ReleaseEvents(old(View()), id, trackpad)
      ensures currentSlot == old(contacts)[id]
      ensures contacts == old(contacts) || contacts == old(contacts) - {id}
      ensures ok ==> contacts == old(contacts) - {id}
    {
      hide ToolEvents, SelectEvents, ReleaseTail;
      ghost var select := SelectEvents(currentSlot, contacts[id]);
      ghost var rest := [Abs(MtTrackingId, -1)] + ReleaseTail(|contacts - {id}|, trackpad) + [Syn];
      assert ReleaseEvents(View(), id, trackpad) == select + rest;
      ghost var start := written;
      ok := SelectSlot(contacts[id]);
      if !ok { return; }
      contacts := contacts - {id};
      ok := WriteForgotten(trackpad);
      assert start + (select + rest) == (start + select) + rest;
    }

    /** The selected slot's contact is gone from the table: its end, the buttons, the frame. */
    method WriteForgotten(trackpad: bool) returns (ok: bool)
      modifies this`written
      ensures ghost var rest := [Abs(MtTrackingId, -1)] + ReleaseTail(|contacts|, trackpad) + [Syn];
              && old(written) <= written <= old(written) + rest
              && (ok ==> written == old(written) + rest)
    {
      hide ToolEvents, ReleaseTail;
      ok := EmitEvent(Abs(MtTrackingId, -1));
      if !ok { return; }
      ok := EmitReleaseButtons(trackpad);
      if !ok { return; }
      ok := EmitEvent(Syn);
    }

    method EmitReleaseButtons(trackpad: bool) returns (ok: bool)
      modifies this`written
      ensures old(written) <= written <= old(written) + ReleaseTail(|contacts|, trackpad)
      ensures ok ==> written == old(written) + ReleaseTail(|contacts|, trackpad)
    {
      if trackpad {
        ok := EmitTrackpadToolButtons();
      } else if |contacts| == 0 {
        ok := EmitEvent(KeyChange(BtnTouch, false));
      } else {
        ok := true;
      }
    }

    method EmitTouchButton(pressed: bool) returns (status: Status)
      modifies this`written
      ensures !open ==> status == DeviceClosed && written == old(written)
      ensures open && !status.WriteFailed? ==>
                status == Ok && View() == Emit(old(View()), Button(pressed), true).0
                && written == old(written) + Emit(old(View()), Button(pressed), true).1
      ensures old(written) <= written <= old(written) + [KeyChange(BtnLeft, pressed), Syn]
    {
      if !open {
        return DeviceClosed;
      }
      var ok := EmitEvent(KeyChange(BtnLeft, pressed));
      if !ok { return WriteFailed; }
      ok := EmitEvent(Syn);
      if !ok { return WriteFailed; }
      return Ok;
    }

    method CloseTouchDevice()
      modifies this`open
      ensures !open
    {
      open := false;
    }
  }
}
