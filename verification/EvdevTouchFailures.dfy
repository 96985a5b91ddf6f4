/**
 * What a placement that was cut short by a failed write does to the reader from then on. Everything
 * else is as in `EvdevTouch`: later calls complete, and the reader sees what was written.
 */
module EvdevTouchFailures {
  import opened Basics
  import opened EvdevTouch

  ghost predicate InRange(s: DeviceState) {
    |s.slots| == TOUCH_MAX_CONTACTS && 0 <= s.slot < |s.slots|
  }

  /** Where the reader puts what is meant for `slot`: a slot believed current is not named again. */
  function Target(currentSlot: int, s: DeviceState, slot: int): int {
    if currentSlot == slot then s.slot else slot
  }

  function Content(trackingId: int, sample: Sample): Slot {
    Slot(trackingId, sample.x, sample.y, sample.pressure, sample.orientation)
  }

  /** One call, with every write accepted, in any state of emitter and reader. */
  function RunFrom(e: Emitter, ops: seq<Op>, trackpad: bool): (Emitter, seq<Event>)
    decreases |ops|
  {
    if ops == [] then (e, [])
    else
      var (e1, written) := RunFrom(e, ops[..|ops| - 1], trackpad);
      var (e2, more) := Emit(e1, ops[|ops| - 1], trackpad);
      (e2, written + more)
  }

  lemma RunFromSnoc(e: Emitter, ops: seq<Op>, op: Op, trackpad: bool)
    ensures var (e1, written) := RunFrom(e, ops, trackpad);
            RunFrom(e, ops + [op], trackpad) == (Emit(e1, op, trackpad).0, written + Emit(e1, op, trackpad).1)
  {
    assert (ops + [op])[..|ops|] == ops;
  }

  // ----- What calls write, wherever it lands ---------------------------------------------------

  /** Nothing is pending: the frame shows all the reader has. */
  function Published(s: DeviceState): Reader {
    Reader(s, s)
  }

  lemma SelectReaches(currentSlot: int, s: DeviceState, slot: int)
    requires InRange(s) && 0 <= slot < |s.slots|
    ensures ApplyAll(s, SelectEvents(currentSlot, slot)) == s.(slot := Target(currentSlot, s, slot))
  {
    ApplyOne(s, Abs(MtSlot, slot));
    ApplyNone(s);
  }

  lemma {:induction false} KeysOnly(s: DeviceState, events: seq<Event>)
    requires forall i :: 0 <= i < |events| ==> events[i].KeyChange?
    ensures ApplyAll(s, events) == s.(keys := ApplyAll(s, events).keys)
    decreases |events|
  {
    if events != [] {
      KeysOnly(Apply(s, events[0]), events[1..]);
    }
  }

  lemma HeaderWrites(e: Emitter, s: DeviceState, id: int, trackpad: bool)
    requires InRange(s)
    ensures var t := ApplyAll(s, PlaceHeader(e, id, trackpad));
            var announced := s.slots[s.slot := s.slots[s.slot].(trackingId := e.nextTrackingId)];
            t == DeviceState(s.slot, if id in e.contacts then s.slots else announced, t.keys)
  {
    if id in e.contacts {
      ApplyNone(s);
    } else {
      var first := Abs(MtTrackingId, e.nextTrackingId);
      var keys := if trackpad then ToolEvents(|e.contacts| + 1) else [KeyChange(BtnTouch, true)];
      ApplyConcat(s, [first], keys);
      ApplyOne(s, first);
      KeysOnly(Apply(s, first), keys);
    }
  }

  lemma PlaceWrites(e: Emitter, r: Reader, id: int, sample: Sample, trackpad: bool)
    requires InRange(r.now) && TableOk(e.contacts) && PlaceStatus(e, id).Ok?
    ensures 0 <= SlotFor(e.contacts, id) < TOUCH_MAX_CONTACTS
    ensures var at := Target(e.currentSlot, r.now, SlotFor(e.contacts, id));
            var kept := if id in e.contacts then r.now.slots[at].trackingId else e.nextTrackingId;
            var t := Replay(r, PlaceEvents(e, id, sample, trackpad)).now;
            Replay(r, PlaceEvents(e, id, sample, trackpad))
            == Published(DeviceState(at, r.now.slots[at := Content(kept, sample)], t.keys))
  {
    hide SelectEvents, PlaceHeader, SampleEvents, ApplyAll, Replay, LowestFree;
    var slot := SlotFor(e.contacts, id);
    var select, header := SelectEvents(e.currentSlot, slot), PlaceHeader(e, id, trackpad);
    var values := SampleEvents(sample);
    var s1 := r.now.(slot := Target(e.currentSlot, r.now, slot));
    assert select + header + values == select + (header + values);
    ApplyConcat(r.now, select, header + values);
    ApplyConcat(s1, header, values);
    SelectReaches(e.currentSlot, r.now, slot);
    HeaderWrites(e, s1, id, trackpad);
    SampleApplies(ApplyAll(s1, header), sample);
    ReplayReport(r, select + header + values);
  }

  lemma ReleaseWrites(e: Emitter, r: Reader, id: int, trackpad: bool)
    requires InRange(r.now) && TableOk(e.contacts) && id in e.contacts
    ensures var at := Target(e.currentSlot, r.now, e.contacts[id]);
            var t := Replay(r, ReleaseEvents(e, id, trackpad)).now;
            Replay(r, ReleaseEvents(e, id, trackpad))
            == Published(DeviceState(at, r.now.slots[at := r.now.slots[at].(trackingId := -1)], t.keys))
  {
    var slot := e.contacts[id];
    var tail := ReleaseTail(|AfterRelease(e, id).contacts|, trackpad);
    assert forall i :: 0 <= i < |tail| ==> tail[i].KeyChange?;
    hide SelectEvents, ReleaseTail, ApplyAll, Replay;
    var select, drop := SelectEvents(e.currentSlot, slot), Abs(MtTrackingId, -1);
    var s1 := r.now.(slot := Target(e.currentSlot, r.now, slot));
    assert ReleaseEvents(e, id, trackpad) == (select + ([drop] + tail)) + [Syn];
    ApplyConcat(r.now, select, [drop] + tail);
    ApplyConcat(s1, [drop], tail);
    SelectReaches(e.currentSlot, r.now, slot);
    ApplyOne(s1, drop);
    KeysOnly(Apply(s1, drop), tail);
    ReplayReport(r, select + ([drop] + tail));
  }

  lemma ButtonWrites(r: Reader, pressed: bool)
    ensures var t := Replay(r, [KeyChange(BtnLeft, pressed), Syn]).now;
            Replay(r, [KeyChange(BtnLeft, pressed), Syn]) == Published(r.now.(keys := t.keys))
  {
    var body := [KeyChange(BtnLeft, pressed)];
    assert [KeyChange(BtnLeft, pressed), Syn] == body + [Syn];
    ReplayReport(r, body);
    KeysOnly(r.now, body);
  }

  // ----- A contact's slot from then on -----------------------------------------------------------

  /** The tracking id the reader has for a contact in the table, -1 when it has none. */
  ghost function IdCarried(e: Emitter, s: DeviceState, id: int): Option<int> {
    if InRange(s) && TableOk(e.contacts) && id in e.contacts then Some(s.slots[e.contacts[id]].trackingId) else None
  }

  /**
   * The reader's slot for a contact in the table carries this tracking id, -1 for none. Emitter and
   * reader agree on the current slot, except that a lost slot write leaves the emitter alone on this
   * contact's slot.
   */
  ghost predicate Carries(e: Emitter, s: DeviceState, id: int, trackingId: int) {
    && IdCarried(e, s, id) == Some(trackingId)
    && (e.currentSlot == s.slot || (trackingId == -1 && e.currentSlot == e.contacts[id]))
  }

  lemma PlaceCarries(e: Emitter, r: Reader, id: int, trackingId: int, other: int, sample: Sample, trackpad: bool)
    requires Carries(e, r.now, id, trackingId) && PlaceStatus(e, other).Ok?
    ensures Carries(AfterPlace(e, other), Replay(r, PlaceEvents(e, other, sample, trackpad)).now, id, trackingId)
  {
    hide PlaceEvents, Replay, LowestFree;
    PlaceWrites(e, r, other, sample, trackpad);
    if other != id {
    }
  }

  lemma ReleaseCarries(e: Emitter, r: Reader, id: int, trackingId: int, other: int, trackpad: bool)
    requires Carries(e, r.now, id, trackingId) && other in e.contacts && other != id
    ensures Carries(AfterRelease(e, other), Replay(r, ReleaseEvents(e, other, trackpad)).now, id, trackingId)
  {
    hide ReleaseEvents, Replay;
    ReleaseWrites(e, r, other, trackpad);
    TableWithout(e.contacts, other);
  }

  lemma StepCarries(e: Emitter, r: Reader, id: int, trackingId: int, op: Op, trackpad: bool)
    requires Carries(e, r.now, id, trackingId) && op != Release(id)
    ensures var (e', more) := Emit(e, op, trackpad);
            Carries(e', Replay(r, more).now, id, trackingId)
  {
    hide PlaceEvents, ReleaseEvents, Replay, PlaceStatus, AfterPlace, AfterRelease, Sampled;
    ReplayNone(r);
    match op
    case Place(c) =>
      if PlaceStatus(e, c.id).Ok? {
        PlaceCarries(e, r, id, trackingId, c.id, Sampled(c), trackpad);
      }
    case Release(other) =>
      if other in e.contacts {
        ReleaseCarries(e, r, id, trackingId, other, trackpad);
      }
    case Button(pressed) =>
      ButtonWrites(r, pressed);
  }

  lemma {:induction false} RunCarries(e: Emitter, r: Reader, id: int, trackingId: int, ops: seq<Op>, trackpad: bool)
    requires Carries(e, r.now, id, trackingId) && Release(id) !in ops
    ensures var (e', more) := RunFrom(e, ops, trackpad);
            Carries(e', Replay(r, more).now, id, trackingId)
    decreases |ops|
  {
    hide Carries, Emit;
    if ops == [] {
      ReplayNone(r);
    } else {
      var before, op := ops[..|ops| - 1], ops[|ops| - 1];
      RunCarries(e, r, id, trackingId, before, trackpad);
      var (e1, written) := RunFrom(e, before, trackpad);
      StepCarries(e1, Replay(r, written), id, trackingId, op, trackpad);
      ReplayConcat(r, written, Emit(e1, op, trackpad).1);
    }
  }

  // ----- The interruption --------------------------------------------------------------------------

  /** Without a frame end, only the pending state moves. */
  lemma {:induction false} ReplayPending(r: Reader, events: seq<Event>)
    requires NoSyn(events)
    ensures Replay(r, events) == r.(now := ApplyAll(r.now, events))
    decreases |events|
  {
    if events != [] {
      ReplayPending(Read(r, events[0]), events[1..]);
    }
  }

  /** Neither the current slot nor any tracking id is written. */
  ghost predicate Harmless(events: seq<Event>) {
    forall i :: 0 <= i < |events| ==>
      !events[i].Syn? && (events[i].Abs? ==> !events[i].axis.MtSlot? && !events[i].axis.MtTrackingId?)
  }

  /** The current slot and the tracking id in it, in a reader with all its slots. */
  ghost function CurrentId(s: DeviceState): Option<(int, int)> {
    if InRange(s) then Some((s.slot, s.slots[s.slot].trackingId)) else None
  }

  lemma {:induction false} HarmlessKeepsIds(s: DeviceState, events: seq<Event>)
    requires Harmless(events)
    ensures CurrentId(ApplyAll(s, events)) == CurrentId(s)
    decreases |events|
  {
    if events != [] {
      assert Harmless(events[1..]);
      HarmlessKeepsIds(Apply(s, events[0]), events[1..]);
    }
  }

  /** A new contact's events: the slot, the tracking id, and nothing else that names either. */
  lemma NewContactEvents(e: Emitter, id: int, sample: Sample, trackpad: bool) returns (rest: seq<Event>)
    requires PlaceStatus(e, id).Ok? && id !in e.contacts
    ensures Harmless(rest)
    ensures PlaceEvents(e, id, sample, trackpad)
         == SelectEvents(e.currentSlot, SlotFor(e.contacts, id)) + [Abs(MtTrackingId, e.nextTrackingId)] + rest + [Syn]
  {
    hide SelectEvents, SlotFor;
    var keys := if trackpad then ToolEvents(|e.contacts| + 1) else [KeyChange(BtnTouch, true)];
    var values := SampleEvents(sample);
    rest := keys + values;
    assert Harmless(keys) && Harmless(values);
  }

  /** The slot the reader is on, with all its slots there and a sound table on the other side. */
  ghost function SlotShown(e: Emitter, s: DeviceState): Option<int> {
    if InRange(s) && TableOk(e.contacts) then Some(s.slot) else None
  }

  /** Emitter and reader agree on the current slot. */
  ghost predicate Synced(e: Emitter, s: DeviceState) {
    SlotShown(e, s) == Some(e.currentSlot)
  }

  /** Reader and emitter as a run of completed calls leaves them, for a contact about to be placed. */
  ghost predicate Ready(e: Emitter, s: DeviceState, id: int) {
    && InRange(s) && TableOk(e.contacts) && PlaceStatus(e, id).Ok?
    && 0 <= SlotFor(e.contacts, id) < TOUCH_MAX_CONTACTS
    && (e.currentSlot == -1 || e.currentSlot == s.slot)
    && (id !in e.contacts ==> s.slots[SlotFor(e.contacts, id)].trackingId == -1)
  }

  lemma RefinesReady(e: Emitter, m: Model, r: Reader, id: int, trackpad: bool)
    requires Refines(e, m, r, trackpad) && PlaceStatus(e, id).Ok?
    ensures InRange(r.now) ==> Ready(e, r.now, id)
  {
    AcceptedTogether(e, m, id);
  }

  /** What an interrupted placement of a new contact leaves: its id is there iff that write was reached. */
  lemma Interrupted(e: Emitter, r: Reader, id: int, sample: Sample, k: nat, trackpad: bool)
    requires Ready(e, r.now, id) && id !in e.contacts && k < |PlaceEvents(e, id, sample, trackpad)|
    ensures var select := SelectEvents(e.currentSlot, SlotFor(e.contacts, id));
            var e' := AfterInterrupted(e, id, k);
            var now := Replay(r, PlaceEvents(e, id, sample, trackpad)[..k]).now;
            && Carries(e', now, id, if k > |select| then e.nextTrackingId else -1)
            && (k >= |select| ==> Synced(e', now))
  {
    var slot := SlotFor(e.contacts, id);
    var select := SelectEvents(e.currentSlot, slot);
    var events := PlaceEvents(e, id, sample, trackpad);
    var rest := NewContactEvents(e, id, sample, trackpad);
    var announce := [Abs(MtTrackingId, e.nextTrackingId)];
    var s1 := r.now.(slot := slot);
    PlacedTable(e, id, slot);
    SelectReaches(e.currentSlot, r.now, slot);
    hide PlaceEvents, ApplyAll, Replay, LowestFree;
    assert |select| <= 1;
    if k < |select| {
      assert events[..k] == [];
      ReplayNone(r);
    } else if k == |select| {
      assert events[..k] == select;
      ReplayPending(r, select);
    } else {
      var part := rest[..k - |select| - 1];
      assert events[..k] == select + (announce + part);
      assert Harmless(part) && NoSyn(select + (announce + part));
      hide Harmless, NoSyn, SelectEvents;
      ReplayPending(r, select + (announce + part));
      ApplyConcat(r.now, select, announce + part);
      Announced(s1, e.nextTrackingId, part);
    }
  }

  /** The tracking id is written to the current slot, and what follows leaves it there. */
  lemma Announced(s: DeviceState, trackingId: int, part: seq<Event>)
    requires InRange(s) && Harmless(part)
    ensures CurrentId(ApplyAll(s, [Abs(MtTrackingId, trackingId)] + part)) == Some((s.slot, trackingId))
  {
    hide ApplyAll, Harmless;
    ApplyConcat(s, [Abs(MtTrackingId, trackingId)], part);
    ApplyOne(s, Abs(MtTrackingId, trackingId));
    HarmlessKeepsIds(Apply(s, Abs(MtTrackingId, trackingId)), part);
  }

  /** The last call of a run places the contact again; the reader then shows this in its slot. */
  lemma PlacedAgain(e: Emitter, r: Reader, id: int, trackingId: int, sample: Sample, trackpad: bool)
    requires Carries(e, r.now, id, trackingId) && PlaceStatus(e, id).Ok?
    ensures var shown := Replay(r, PlaceEvents(e, id, sample, trackpad)).frame;
            && |shown.slots| == TOUCH_MAX_CONTACTS
            && shown.slots[e.contacts[id]].trackingId == trackingId
            && (trackingId != -1 ==> shown.slots[e.contacts[id]] == Content(trackingId, sample))
  {
    hide PlaceEvents, Replay;
    PlaceWrites(e, r, id, sample, trackpad);
  }

  // ----- Whole runs with one interruption ----------------------------------------------------------

  lemma {:induction false} ReplayInRange(r: Reader, events: seq<Event>)
    requires CurrentId(r.now).Some?
    ensures CurrentId(Replay(r, events).now).Some?
    decreases |events|
  {
    if events != [] {
      ReplayInRange(Read(r, events[0]), events[1..]);
    }
  }

  /** Everything written: a run of completed calls, `k` events of a placement, and more completed calls. */
  function Written(before: seq<Op>, contact: TouchContact, k: nat, after: seq<Op>, trackpad: bool): seq<Event>
    requires PlaceStatus(Run(before, trackpad).0, contact.id).Ok?
    requires k < |PlaceEvents(Run(before, trackpad).0, contact.id, Sampled(contact), trackpad)|
  {
    var (e, written) := Run(before, trackpad);
    written + PlaceEvents(e, contact.id, Sampled(contact), trackpad)[..k]
    + RunFrom(AfterInterrupted(e, contact.id, k), after, trackpad).1
  }

  /** After the interruption and before the later calls. */
  lemma AfterInterruption(before: seq<Op>, contact: TouchContact, k: nat, trackpad: bool)
    requires var e := Run(before, trackpad).0;
             && PlaceStatus(e, contact.id).Ok? && contact.id !in e.contacts
             && k < |PlaceEvents(e, contact.id, Sampled(contact), trackpad)|
    ensures var (e, written) := Run(before, trackpad);
            var select := SelectEvents(e.currentSlot, SlotFor(e.contacts, contact.id));
            var e' := AfterInterrupted(e, contact.id, k);
            var part := PlaceEvents(e, contact.id, Sampled(contact), trackpad)[..k];
            var now := Replay(FRESH_READER, written + part).now;
            && Carries(e', now, contact.id, if k > |select| then e.nextTrackingId else -1)
            && (k >= |select| ==> Synced(e', now))
  {
    hide Run, Replay, PlaceEvents, Refines, Carries, Synced, AfterInterrupted, Sampled;
    var (e, written) := Run(before, trackpad);
    var r := Replay(FRESH_READER, written);
    RunRefines(before, trackpad);
    ReplayInRange(FRESH_READER, written);
    RefinesReady(e, MeantBy(before), r, contact.id, trackpad);
    Interrupted(e, r, contact.id, Sampled(contact), k, trackpad);
    ReplayConcat(FRESH_READER, written, PlaceEvents(e, contact.id, Sampled(contact), trackpad)[..k]);
  }

  /**
   * A new contact's placement stops after `k` events. Whatever completes later, short of its release, a
   * later placement shows it in its slot, with its own id and its new sample, if and only if the
   * interrupted call got as far as its tracking id; otherwise the reader never learns of it.
   */
  lemma ShownIffAnnounced(
    before: seq<Op>, contact: TouchContact, k: nat, after: seq<Op>, last: TouchContact, trackpad: bool)
    requires var e := Run(before, trackpad).0;
             && PlaceStatus(e, contact.id).Ok? && contact.id !in e.contacts
             && k < |PlaceEvents(e, contact.id, Sampled(contact), trackpad)|
    requires Release(contact.id) !in after && last.id == contact.id
    ensures var e := Run(before, trackpad).0;
            var select := SelectEvents(e.currentSlot, SlotFor(e.contacts, contact.id));
            var table := RunFrom(AfterInterrupted(e, contact.id, k), after + [Place(last)], trackpad).0.contacts;
            var shown := Replay(FRESH_READER, Written(before, contact, k, after + [Place(last)], trackpad)).frame.slots;
            && contact.id in table && 0 <= table[contact.id] < |shown|
            && (shown[table[contact.id]] == Content(e.nextTrackingId, Sampled(last)) <==> k > |select|)
            && (shown[table[contact.id]].trackingId == -1 <==> k <= |select|)
  {
    hide Run, RunFrom, Replay, PlaceEvents, AfterInterrupted, Sampled, SelectEvents;
    var id := contact.id;
    var (e, written) := Run(before, trackpad);
    var trackingId := if k > |SelectEvents(e.currentSlot, SlotFor(e.contacts, id))| then e.nextTrackingId else -1;
    var e1 := AfterInterrupted(e, id, k);
    var start := written + PlaceEvents(e, id, Sampled(contact), trackpad)[..k];
    var r := Replay(FRESH_READER, start);
    AfterInterruption(before, contact, k, trackpad);
    RunCarries(e1, r, id, trackingId, after, trackpad);
    var (e2, more) := RunFrom(e1, after, trackpad);
    ReplayConcat(FRESH_READER, start, more);
    RunFromSnoc(e1, after, Place(last), trackpad);
    PlacedAgain(e2, Replay(r, more), id, trackingId, Sampled(last), trackpad);
    var report := PlaceEvents(e2, id, Sampled(last), trackpad);
    assert start + (more + report) == (start + more) + report;
    ReplayConcat(FRESH_READER, start + more, report);
  }

  // ----- The way out: release and place again ----------------------------------------------------

  lemma PlaceSyncs(e: Emitter, r: Reader, id: int, sample: Sample, trackpad: bool)
    requires Synced(e, r.now) && PlaceStatus(e, id).Ok?
    ensures Synced(AfterPlace(e, id), Replay(r, PlaceEvents(e, id, sample, trackpad)).now)
    ensures var slot := SlotFor(e.contacts, id);
            var shown := Replay(r, PlaceEvents(e, id, sample, trackpad)).frame.slots;
            && 0 <= slot < |shown| && AfterPlace(e, id).contacts[id] == slot
            && (id !in e.contacts ==> shown[slot] == Content(e.nextTrackingId, sample))
  {
    hide PlaceEvents, Replay, LowestFree;
    PlaceWrites(e, r, id, sample, trackpad);
    if id !in e.contacts {
      PlacedTable(e, id, SlotFor(e.contacts, id));
    }
  }

  lemma StepSyncs(e: Emitter, r: Reader, op: Op, trackpad: bool)
    requires Synced(e, r.now)
    ensures Synced(Emit(e, op, trackpad).0, Replay(r, Emit(e, op, trackpad).1).now)
  {
    hide PlaceEvents, ReleaseEvents, Replay, PlaceStatus, AfterPlace, Sampled;
    ReplayNone(r);
    match op
    case Place(c) =>
      if PlaceStatus(e, c.id).Ok? {
        PlaceSyncs(e, r, c.id, Sampled(c), trackpad);
      }
    case Release(id) =>
      if id in e.contacts {
        ReleaseWrites(e, r, id, trackpad);
        TableWithout(e.contacts, id);
      }
    case Button(pressed) =>
      ButtonWrites(r, pressed);
  }

  lemma {:induction false} RunSyncs(e: Emitter, r: Reader, ops: seq<Op>, trackpad: bool)
    requires Synced(e, r.now)
    ensures var (e', more) := RunFrom(e, ops, trackpad);
            Synced(e', Replay(r, more).now)
    decreases |ops|
  {
    hide Synced, Emit;
    if ops == [] {
      ReplayNone(r);
    } else {
      var before, op := ops[..|ops| - 1], ops[|ops| - 1];
      RunSyncs(e, r, before, trackpad);
      var (e1, written) := RunFrom(e, before, trackpad);
      StepSyncs(e1, Replay(r, written), op, trackpad);
      ReplayConcat(r, written, Emit(e1, op, trackpad).1);
    }
  }

  /** If at least the slot was selected, a contact that is new again after later calls is announced. */
  lemma NewAgainIsShown(
    before: seq<Op>, contact: TouchContact, k: nat, after: seq<Op>, last: TouchContact, trackpad: bool)
    requires var e := Run(before, trackpad).0;
             && PlaceStatus(e, contact.id).Ok? && contact.id !in e.contacts
             && |SelectEvents(e.currentSlot, SlotFor(e.contacts, contact.id))| <= k
             && k < |PlaceEvents(e, contact.id, Sampled(contact), trackpad)|
    requires var e2 := RunFrom(AfterInterrupted(Run(before, trackpad).0, contact.id, k), after, trackpad).0;
             last.id !in e2.contacts && PlaceStatus(e2, last.id).Ok?
    ensures var e1 := AfterInterrupted(Run(before, trackpad).0, contact.id, k);
            var table := RunFrom(e1, after + [Place(last)], trackpad).0.contacts;
            var shown := Replay(FRESH_READER, Written(before, contact, k, after + [Place(last)], trackpad)).frame.slots;
            && last.id in table && 0 <= table[last.id] < |shown|
            && shown[table[last.id]] == Content(RunFrom(e1, after, trackpad).0.nextTrackingId, Sampled(last))
  {
    hide Run, RunFrom, Replay, PlaceEvents, AfterInterrupted, Sampled, SelectEvents, Synced, Carries;
    var (e, written) := Run(before, trackpad);
    var e1 := AfterInterrupted(e, contact.id, k);
    var start := written + PlaceEvents(e, contact.id, Sampled(contact), trackpad)[..k];
    var r := Replay(FRESH_READER, start);
    AfterInterruption(before, contact, k, trackpad);
    RunSyncs(e1, r, after, trackpad);
    var (e2, more) := RunFrom(e1, after, trackpad);
    ReplayConcat(FRESH_READER, start, more);
    RunFromSnoc(e1, after, Place(last), trackpad);
    PlaceSyncs(e2, Replay(r, more), last.id, Sampled(last), trackpad);
    var report := PlaceEvents(e2, last.id, Sampled(last), trackpad);
    assert start + (more + report) == (start + more) + report;
    ReplayConcat(FRESH_READER, start + more, report);
  }

  // ----- A lost slot write -------------------------------------------------------------------------

  /**
   * When the slot write is the one that fails, the contact's next placement or release lands on the
   * contact the reader was at: that one moves to the new sample under its own id, or is lifted.
   */
  lemma LostSlotWriteHitsNeighbour(e: Emitter, m: Model, r: Reader, id: int, other: int, sample: Sample, trackpad: bool)
    requires Refines(e, m, r, trackpad) && PlaceStatus(e, id).Ok?
    requires other in e.contacts && other != id && e.contacts[other] == r.now.slot
    requires SelectEvents(e.currentSlot, SlotFor(e.contacts, id)) != []
    ensures var e1 := AfterInterrupted(e, id, 0);
            && id in e1.contacts && PlaceStatus(e1, id).Ok?
            && var slot, hit := e1.contacts[id], e.contacts[other];
            && 0 <= slot < |r.now.slots| && 0 <= hit < |r.now.slots| && slot != hit
            && Replay(r, PlaceEvents(e1, id, sample, trackpad)).frame.slots
               == r.now.slots[hit := Content(TrackingIdOf(m.live[other]), sample)]
            && Replay(r, ReleaseEvents(e1, id, trackpad)).frame.slots
               == r.now.slots[hit := r.now.slots[hit].(trackingId := -1)]
            && (id !in e.contacts ==> r.now.slots[slot].trackingId == -1)
  {
    hide PlaceEvents, ReleaseEvents, Replay, LowestFree, RestVacant;
    var e1 := AfterInterrupted(e, id, 0);
    AcceptedTogether(e, m, id);
    RefinesReady(e, m, r, id, trackpad);
    PlacedTable(e, id, SlotFor(e.contacts, id));
    assert Shows(r.now, e.contacts[other], m.live[other]);
    PlaceWrites(e1, r, id, sample, trackpad);
    ReleaseWrites(e1, r, id, trackpad);
  }

  function TouchOf(id: int, x: real, y: real): TouchContact {
    TouchContact(id, x, y, 1.0, 0)
  }

  /**
   * The run: contact 0 is placed, the slot write of contact 1 is lost, contact 1 is placed again. The
   * reader sees contact 0 jump to where contact 1 is, and no second contact.
   */
  lemma NeighbourMovesRun(x: real, y: real, trackpad: bool)
    ensures var before, contact := [Place(TouchOf(0, 0.0, 0.0))], TouchOf(1, x, y);
            var e := Run(before, trackpad).0;
            && PlaceStatus(e, 1).Ok? && e.contacts == map[0 := 0]
            && 0 < |PlaceEvents(e, 1, Sampled(contact), trackpad)|
            && Replay(FRESH_READER, Written(before, contact, 0, [Place(contact)], trackpad)).frame.slots
               == IDLE.slots[0 := Content(0, Sampled(contact))]
  {
    hide Run, RunFrom, Replay, PlaceEvents, Sampled, PlaceStatus, AfterInterrupted, TableOk, SlotFor;
    var first, contact := TouchOf(0, 0.0, 0.0), TouchOf(1, x, y);
    var before := [Place(first)];
    OneContact(first, trackpad);
    var (e, written) := Run(before, trackpad);
    SecondSlot(e);
    SomeEvents(e, 1, Sampled(contact), trackpad);
    var e1 := AfterInterrupted(e, 1, 0);
    OnePlacement(e1, contact, trackpad);
    var report := PlaceEvents(e1, 1, Sampled(contact), trackpad);
    assert written + PlaceEvents(e, 1, Sampled(contact), trackpad)[..0] + report == written + report;
    ReplayConcat(FRESH_READER, written, report);
    SecondLandsOnFirst(Replay(FRESH_READER, written), Sampled(first), Sampled(contact), trackpad);
  }

  lemma SomeEvents(e: Emitter, id: int, sample: Sample, trackpad: bool)
    requires PlaceStatus(e, id).Ok?
    ensures |PlaceEvents(e, id, sample, trackpad)| > 0
  {
  }

  /** With its slot write lost, the second contact's sample lands in the first one's slot. */
  lemma SecondLandsOnFirst(r: Reader, first: Sample, second: Sample, trackpad: bool)
    requires r.now.slot == 0 && r.now.slots == IDLE.slots[0 := Content(0, first)]
    ensures var e1 := Emitter(map[0 := 0, 1 := 1], 1, 1);
            && PlaceStatus(e1, 1).Ok?
            && Replay(r, PlaceEvents(e1, 1, second, trackpad)).frame.slots == IDLE.slots[0 := Content(0, second)]
  {
    hide PlaceEvents, Replay;
    var e1 := Emitter(map[0 := 0, 1 := 1], 1, 1);
    PlaceWrites(e1, r, 1, second, trackpad);
  }

  lemma OnePlacement(e: Emitter, contact: TouchContact, trackpad: bool)
    requires PlaceStatus(e, contact.id).Ok?
    ensures RunFrom(e, [Place(contact)], trackpad).1 == PlaceEvents(e, contact.id, Sampled(contact), trackpad)
  {
    hide PlaceEvents, PlaceStatus, Sampled;
    RunFromSnoc(e, [], Place(contact), trackpad);
    assert [] + [Place(contact)] == [Place(contact)];
    assert RunFrom(e, [], trackpad) == (e, []);
    var events := PlaceEvents(e, contact.id, Sampled(contact), trackpad);
    assert [] + events == events;
  }

  lemma OneContact(first: TouchContact, trackpad: bool)
    requires first.id == 0
    ensures var (e, written) := Run([Place(first)], trackpad);
            var now := Replay(FRESH_READER, written).now;
            && e == Emitter(map[0 := 0], 0, 1)
            && now.slot == 0 && now.slots == IDLE.slots[0 := Content(0, Sampled(first))]
  {
    hide PlaceEvents, Sampled, Replay;
    assert [Place(first)][..0] == [];
    assert LowestFree({}, 0) == 0;
    assert SlotFor(CREATED.contacts, 0) == 0;
    PlaceWrites(CREATED, FRESH_READER, 0, Sampled(first), trackpad);
    assert Run([], trackpad) == (CREATED, []);
    var events := PlaceEvents(CREATED, 0, Sampled(first), trackpad);
    assert [] + events == events;
  }

  lemma SecondSlot(e: Emitter)
    requires e == Emitter(map[0 := 0], 0, 1)
    ensures SlotFor(e.contacts, 1) == 1 && PlaceStatus(e, 1).Ok? && TableOk(e.contacts)
    ensures AfterInterrupted(e, 1, 0) == Emitter(map[0 := 0, 1 := 1], 1, 1)
    ensures TableOk(AfterInterrupted(e, 1, 0).contacts) && PlaceStatus(AfterInterrupted(e, 1, 0), 1).Ok?
  {
    assert e.contacts.Values == {0};
    assert LowestFree({0}, 0) == LowestFree({0}, 1) == 1;
  }
}
