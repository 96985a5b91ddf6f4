/**
 * The Windows touchscreen: contacts live in packed arrays in placement order, releasing one shifts the
 * later ones down, and every injected frame carries all of them with one-frame edge flags.
 */
module WindowsTouch {
  import opened Basics
  import opened Rounding
  import opened Scroll

  const MAX_CONTACTS: nat := 10

  /** The pointer flag bits the code sets and clears. */
  datatype Flags = Flags(inRange: bool, inContact: bool, down: bool, update: bool, up: bool, canceled: bool)
  {
    predicate HasEdge() {
      down || update || up || canceled
    }

    function WithoutEdges(): Flags {
      Flags(inRange, inContact, false, false, false, false)
    }
  }

  const NO_FLAGS: Flags := Flags(false, false, false, false, false, false)

  /** One entry of an injected frame; the location arrives already mapped to pixels. */
  datatype Pointer = Pointer(
    flags: Flags, pointerId: int, x: int, y: int,
    hasPressure: bool, pressure: int, hasOrientation: bool, orientation: int)

  const NO_ENTRY: Pointer := Pointer(NO_FLAGS, 0, 0, 0, false, 0, false, 0)

  datatype TouchContact = TouchContact(id: int, touching: bool, x: int, y: int, pressure: real, orientation: int)

  datatype Transition = Update | Release | Cancel | Leave

  datatype Op = Place(contact: TouchContact) | Remove(id: int, transition: Transition) | Refresh

  datatype Status = Ok | DeviceClosed | InvalidId | TooManyContacts | InjectFailed

  // ----- One contact -------------------------------------------------------------------------

  function PlacedFlags(f: Flags, touching: bool, wasTouching: bool): Flags {
    if touching then
      f.(inRange := true, inContact := true, update := f.update || wasTouching, down := f.down || !wasTouching)
    else f.(inRange := true, inContact := false, update := true)
  }

  function RemovedFlags(f: Flags, transition: Transition, wasTouching: bool): Flags {
    var g := f.(inRange := false, inContact := false);
    match transition
    case Cancel => g.(canceled := true, up := g.up || wasTouching, update := g.update || !wasTouching)
    case Leave => g.(update := true)
    case _ => g.(up := g.up || wasTouching, update := g.update || !wasTouching)
  }

  /** C++ remainders keep the sign of the dividend; the code folds them into 0..359. */
  function Degrees(orientation: int): (d: int)
    ensures 0 <= d < 360 && (orientation - d) % 360 == 0
  {
    DegreesFold(orientation);
    (TruncatedRemainder(orientation, 360) + 360) % 360
  }

  lemma DegreesFold(orientation: int)
    ensures var d := (TruncatedRemainder(orientation, 360) + 360) % 360;
            0 <= d < 360 && (orientation - d) % 360 == 0
  {
    var q, r := TruncatedQuotient(orientation, 360), TruncatedRemainder(orientation, 360);
    hide TruncatedQuotient, TruncatedRemainder;
    var d := if r < 0 then r + 360 else r;
    assert (r + 360) % 360 == d;
    assert orientation - d == (if r < 0 then q - 1 else q) * 360;
  }

  function PlacedPointer(p: Pointer, c: TouchContact, wasTouching: bool): Pointer {
    Pointer(PlacedFlags(p.flags, c.touching, wasTouching), c.id, c.x, c.y,
            c.touching && c.pressure > 0.0,
            if c.touching && c.pressure > 0.0 then Lround(ClampReal(c.pressure, 0.0, 1.0) * 1024.0)
            else if c.touching then 512 else 0,
            c.orientation != 0,
            if c.orientation != 0 then Degrees(c.orientation) else 0)
  }

  // ----- The placement-ordered list ------------------------------------------------------------

  datatype Contact = Contact(id: int, touching: bool, pointer: Pointer)

  type Contacts = seq<Contact>

  predicate Has(list: Contacts, id: int) {
    exists k :: 0 <= k < |list| && list[k].id == id
  }

  /** The slot of a contact, or the length of the list when it has none. */
  function Find(list: Contacts, id: int): (k: nat)
    ensures k <= |list|
    ensures k < |list| ==> list[k].id == id
    ensures forall j :: 0 <= j < k ==> list[j].id != id
  {
    if list == [] then 0 else if list[0].id == id then 0 else 1 + Find(list[1..], id)
  }

  function PlaceStatus(list: Contacts, id: int): Status {
    if id < 0 then InvalidId
    else if Find(list, id) == |list| >= MAX_CONTACTS then TooManyContacts
    else Ok
  }

  /** The list with room for the contact: a new one goes to the end, untouched. */
  function Entered(list: Contacts, id: int): Contacts {
    if Find(list, id) < |list| then list else list + [Contact(id, false, NO_ENTRY)]
  }

  function Injected(list: Contacts): seq<Pointer> {
    seq(|list|, k requires 0 <= k < |list| => list[k].pointer)
  }

  /** The list with the edges of the call still in place, as it is injected. */
  function Marked(list: Contacts, op: Op): Contacts
    requires op.Place? || op.Remove?
  {
    match op
    case Place(c) =>
      var entered := Entered(list, c.id);
      var k := Find(list, c.id);
      entered[k := entered[k].(pointer := PlacedPointer(entered[k].pointer, c, entered[k].touching))]
    case Remove(id, transition) =>
      var k := Find(list, id);
      if k == |list| then list
      else
        var flags := RemovedFlags(list[k].pointer.flags, transition, list[k].touching);
        list[k := list[k].(pointer := list[k].pointer.(flags := flags))]
    case Refresh => list
  }

  /** The list after a call whose injection succeeded. */
  function After(list: Contacts, op: Op): Contacts {
    match op
    case Place(c) =>
      if !PlaceStatus(list, c.id).Ok? then list
      else
        var marked := Marked(list, op);
        var k := Find(list, c.id);
        marked[k := Contact(c.id, c.touching, marked[k].pointer.(flags := marked[k].pointer.flags.WithoutEdges()))]
    case Remove(id, _) =>
      var k := Find(list, id);
      if k == |list| then list else list[..k] + list[k + 1..]
    case Refresh => list
  }

  /** The frames a call injects: at most one. */
  function Frames(list: Contacts, op: Op): seq<seq<Pointer>> {
    match op
    case Place(c) => if PlaceStatus(list, c.id).Ok? then [Injected(Marked(list, op))] else []
    case Remove(id, _) => if Find(list, id) < |list| then [Injected(Marked(list, op))] else []
    case Refresh => if list != [] then [Injected(list)] else []
  }

  // ----- Invariants --------------------------------------------------------------------------

  ghost predicate Distinct(list: Contacts) {
    && |list| <= 10
    && (forall k :: 0 <= k < |list| ==> list[k].id >= 0)
    && (forall j, k :: 0 <= j < k < |list| ==> list[j].id != list[k].id)
  }

  /** Stored flags hold no edges, and say in range and, exactly when touching, in contact. */
  ghost predicate Clean(list: Contacts) {
    forall k :: 0 <= k < |list| ==>
      && list[k].pointer.pointerId == list[k].id
      && list[k].pointer.flags == Flags(true, list[k].touching, false, false, false, false)
  }

  lemma AfterKeepsDistinct(list: Contacts, op: Op)
    requires Distinct(list)
    ensures Distinct(After(list, op))
  {
    hide Find, PlacedPointer, RemovedFlags;
    match op
    case Place(c) =>
    case Remove(id, _) =>
      if Find(list, id) < |list| {
        WithoutKeepsDistinct(list, Find(list, id));
      }
    case Refresh =>
  }

  lemma AfterKeepsClean(list: Contacts, op: Op)
    requires Distinct(list) && Clean(list)
    ensures Clean(After(list, op))
  {
    match op
    case Place(c) => PlaceKeepsClean(list, c);
    case Remove(id, transition) => RemoveKeepsClean(list, id, transition);
    case Refresh =>
  }

  lemma PlaceKeepsClean(list: Contacts, c: TouchContact)
    requires Clean(list)
    ensures Clean(After(list, Place(c)))
  {
    hide Find;
  }

  lemma RemoveKeepsClean(list: Contacts, id: int, transition: Transition)
    requires Clean(list)
    ensures Clean(After(list, Remove(id, transition)))
  {
    hide Find;
    if Find(list, id) < |list| {
      var k := Find(list, id);
      var rest := list[..k] + list[k + 1..];
      assert forall j :: 0 <= j < k ==> rest[j] == list[j];
      assert forall j :: k <= j < |rest| ==> rest[j] == list[j + 1];
    }
  }

  /** A new contact is turned away exactly when ten are there. */
  lemma TurnedAwayIffTen(list: Contacts, id: int)
    requires Distinct(list)
    ensures PlaceStatus(list, id) ==
            if id < 0 then InvalidId else if !Has(list, id) && |list| == 10 then TooManyContacts else Ok
  {
    if Has(list, id) {
      var k :| 0 <= k < |list| && list[k].id == id;
      FindIn(list, id, k);
    }
  }

  // ----- What the frames mean ------------------------------------------------------------------

  /** What a consumer of the frames believes: which pointers are in range and which of them touch. */
  datatype Reader = Reader(touching: map<int, bool>, wellFormed: bool)

  const NOTHING_SEEN: Reader := Reader(map[], true)

  function Touches(r: Reader, id: int): bool {
    id in r.touching && r.touching[id]
  }

  /** A frame entry obeys the pointer contract against what was known before it. */
  predicate EntryOk(r: Reader, p: Pointer) {
    && (p.flags.down <==> p.flags.inContact && !Touches(r, p.pointerId))
    && (p.flags.up ==> Touches(r, p.pointerId) && !p.flags.inContact && !p.flags.inRange)
  }

  function See(touching: map<int, bool>, frame: seq<Pointer>): map<int, bool> {
    if frame == [] then touching
    else
      var before := See(touching, frame[..|frame| - 1]);
      var p := frame[|frame| - 1];
      if p.flags.inRange then before[p.pointerId := p.flags.inContact] else before - {p.pointerId}
  }

  ghost function ReadFrame(r: Reader, frame: seq<Pointer>): Reader {
    Reader(See(r.touching, frame), r.wellFormed && forall k :: 0 <= k < |frame| ==> EntryOk(r, frame[k]))
  }

  ghost function ReadAll(r: Reader, frames: seq<seq<Pointer>>): Reader {
    if frames == [] then r else ReadFrame(ReadAll(r, frames[..|frames| - 1]), frames[|frames| - 1])
  }

  ghost predicate Believes(r: Reader, list: Contacts) {
    && (forall id :: id in r.touching <==> Find(list, id) < |list|)
    && (forall id :: id in r.touching ==> r.touching[id] == list[Find(list, id)].touching)
  }

  ghost predicate DistinctFrame(frame: seq<Pointer>) {
    forall j, k :: 0 <= j < k < |frame| ==> frame[j].pointerId != frame[k].pointerId
  }

  lemma {:induction false} SeeAbsent(touching: map<int, bool>, frame: seq<Pointer>, id: int)
    requires forall k :: 0 <= k < |frame| ==> frame[k].pointerId != id
    ensures id in See(touching, frame) <==> id in touching
    ensures id in touching ==> See(touching, frame)[id] == touching[id]
    decreases |frame|
  {
    if frame != [] {
      SeeAbsent(touching, frame[..|frame| - 1], id);
    }
  }

  /** Each pointer of a frame decides its own entry. */
  lemma {:induction false} SeePresent(touching: map<int, bool>, frame: seq<Pointer>, k: nat)
    requires DistinctFrame(frame) && k < |frame|
    ensures var p := frame[k];
            && (p.pointerId in See(touching, frame) <==> p.flags.inRange)
            && (p.flags.inRange ==> See(touching, frame)[p.pointerId] == p.flags.inContact)
    decreases |frame|
  {
    if k < |frame| - 1 {
      SeePresent(touching, frame[..|frame| - 1], k);
    }
  }

  /**
   * `to` sends each entry of the frame to its place in the list that remains, or to -1 when it is going;
   * `from` is the way back.
   */
  ghost predicate FrameShows(marked: Contacts, list: Contacts, to: seq<int>, from: seq<int>) {
    && Distinct(marked) && Distinct(list) && |to| == |marked| && |from| == |list|
    && (forall k :: 0 <= k < |marked| ==> marked[k].pointer.pointerId == marked[k].id)
    && (forall k :: 0 <= k < |to| ==> -1 <= to[k] < |list|)
    && (forall k :: 0 <= k < |from| ==> 0 <= from[k] < |marked| && to[from[k]] == k)
    && (forall k :: 0 <= k < |to| ==> if to[k] == -1 then !marked[k].pointer.flags.inRange
                                      else marked[k].id == list[to[k]].id && marked[k].pointer.flags.inRange
                                           && marked[k].pointer.flags.inContact == list[to[k]].touching)
  }

  /** The frame of `marked` leaves exactly the contacts of `list` in range, touching as they do there. */
  ghost predicate Leaves(marked: Contacts, list: Contacts) {
    exists to, from :: FrameShows(marked, list, to, from)
  }

  /** What a frame says about one id of the injected list, and about any other. */
  lemma SeenAt(touching: map<int, bool>, marked: Contacts, id: int)
    requires Distinct(marked) && forall k :: 0 <= k < |marked| ==> marked[k].pointer.pointerId == marked[k].id
    ensures var k := Find(marked, id);
            var seen := See(touching, Injected(marked));
            && (k < |marked| ==> (id in seen <==> marked[k].pointer.flags.inRange))
            && (k < |marked| && id in seen ==> seen[id] == marked[k].pointer.flags.inContact)
            && (k == |marked| ==> (id in seen <==> id in touching))
  {
    hide See, Find;
    var k := Find(marked, id);
    var frame := Injected(marked);
    if k < |marked| {
      SeePresent(touching, frame, k);
    } else {
      SeeAbsent(touching, frame, id);
    }
  }

  /** An id is in the list that remains exactly when its entry is not going. */
  lemma RemainsAt(marked: Contacts, list: Contacts, to: seq<int>, from: seq<int>, id: int)
    requires FrameShows(marked, list, to, from)
    ensures var k := Find(marked, id);
            if k < |marked| && to[k] >= 0 then Find(list, id) == to[k] else Find(list, id) == |list|
  {
    hide Find;
    var k, n := Find(marked, id), Find(list, id);
    if n < |list| {
      FindIn(marked, id, from[n]);
    }
    if k < |marked| && to[k] >= 0 {
      FindIn(list, id, to[k]);
    }
  }

  /** The reader after a frame knows exactly the contacts the frame leaves in range. */
  lemma FrameBelieved(r: Reader, marked: Contacts, list: Contacts)
    requires Leaves(marked, list)
    requires forall id :: id in r.touching ==> Find(marked, id) < |marked|
    ensures Believes(ReadFrame(r, Injected(marked)), list)
  {
    hide Find, See, Injected;
    var to, from :| FrameShows(marked, list, to, from);
    var seen := See(r.touching, Injected(marked));
    forall id
      ensures id in seen <==> Find(list, id) < |list|
      ensures id in seen ==> seen[id] == list[Find(list, id)].touching
    {
      SeenAt(r.touching, marked, id);
      RemainsAt(marked, list, to, from, id);
    }
  }

  /** Which entry of a frame carries edges, and which. */
  lemma PlaceEdges(list: Contacts, c: TouchContact)
    requires Distinct(list) && Clean(list) && PlaceStatus(list, c.id).Ok?
    ensures var k := Find(list, c.id);
            var marked := Marked(list, Place(c));
            var was := k < |list| && list[k].touching;
            && k < |marked|
            && marked[k].pointer.flags == Flags(true, c.touching, c.touching && !was, !c.touching || was, false, false)
            && forall j :: 0 <= j < |marked| && j != k ==> !marked[j].pointer.flags.HasEdge() && marked[j] == list[j]
  {
  }

  lemma RemoveEdges(list: Contacts, id: int, transition: Transition)
    requires Distinct(list) && Clean(list) && Find(list, id) < |list|
    ensures var k := Find(list, id);
            var marked := Marked(list, Remove(id, transition));
            var f := marked[k].pointer.flags;
            && |marked| == |list|
            && !f.inRange && !f.inContact && !f.down
            && (f.up <==> list[k].touching && transition != Leave)
            && (f.update <==> !f.up)
            && (f.canceled <==> transition == Cancel)
            && forall j :: 0 <= j < |marked| && j != k ==> !marked[j].pointer.flags.HasEdge() && marked[j] == list[j]
  {
    hide Find, RemovedFlags;
    var k := Find(list, id);
    FlagsOfRemoved(list[k].pointer.flags, transition, list[k].touching);
  }

  lemma FlagsOfRemoved(before: Flags, transition: Transition, wasTouching: bool)
    requires !before.HasEdge()
    ensures var f := RemovedFlags(before, transition, wasTouching);
            && !f.inRange && !f.inContact && !f.down
            && (f.up <==> wasTouching && transition != Leave)
            && (f.update <==> !f.up)
            && (f.canceled <==> transition == Cancel)
  {
  }

  lemma FindIn(list: Contacts, id: int, k: nat)
    requires Distinct(list) && k < |list| && list[k].id == id
    ensures Find(list, id) == k
  {
  }

  /** `marked` is the injected list: the old contacts in place, perhaps one more, each under its own id. */
  ghost predicate Marks(list: Contacts, marked: Contacts) {
    && Distinct(list) && Distinct(marked) && |list| <= |marked|
    && (forall j :: 0 <= j < |list| ==> marked[j].id == list[j].id)
    && (forall j :: 0 <= j < |marked| ==> marked[j].pointer.pointerId == marked[j].id)
  }

  lemma MarkedEntriesOk(r: Reader, list: Contacts, marked: Contacts)
    requires Believes(r, list) && Marks(list, marked)
    requires forall j :: 0 <= j < |marked| ==>
               var f := marked[j].pointer.flags;
               var was := j < |list| && list[j].touching;
               (f.down <==> f.inContact && !was) && (f.up ==> was && !f.inContact && !f.inRange)
    ensures forall j :: 0 <= j < |marked| ==> EntryOk(r, marked[j].pointer)
  {
    forall j | 0 <= j < |marked|
      ensures EntryOk(r, marked[j].pointer)
    {
      if j < |list| {
        FindIn(list, list[j].id, j);
      } else {
      }
    }
  }

  lemma MarkedKnows(r: Reader, list: Contacts, marked: Contacts)
    requires Believes(r, list) && Marks(list, marked)
    ensures forall id :: id in r.touching ==> Find(marked, id) < |marked|
  {
    forall id | id in r.touching
      ensures Find(marked, id) < |marked|
    {
      var j := Find(list, id);
      FindIn(marked, id, j);
    }
  }

  lemma PlaceRefines(r: Reader, list: Contacts, c: TouchContact)
    requires Distinct(list) && Clean(list) && Believes(r, list) && r.wellFormed && PlaceStatus(list, c.id).Ok?
    ensures Believes(ReadFrame(r, Injected(Marked(list, Place(c)))), After(list, Place(c)))
    ensures ReadFrame(r, Injected(Marked(list, Place(c)))).wellFormed
  {
    hide Marked, After, PlaceStatus, Find, Believes, See, Clean, Distinct, EntryOk, Marks, Leaves, Injected;
    var marked := Marked(list, Place(c));
    var after := After(list, Place(c));
    PlaceFlags(list, c);
    PlaceMarks(list, c);
    MarkedKnows(r, list, marked);
    MarkedEntriesOk(r, list, marked);
    SameLeaves(list, marked, after);
    FrameBelieved(r, marked, after);
    EveryEntryOk(r, marked);
  }

  lemma EveryEntryOk(r: Reader, marked: Contacts)
    requires forall j :: 0 <= j < |marked| ==> EntryOk(r, marked[j].pointer)
    ensures ReadFrame(r, Injected(marked)).wellFormed == r.wellFormed
  {
    hide EntryOk, See;
  }

  lemma PlaceMarks(list: Contacts, c: TouchContact)
    requires Distinct(list) && Clean(list) && PlaceStatus(list, c.id).Ok?
    ensures Marks(list, Marked(list, Place(c))) && Distinct(After(list, Place(c)))
  {
    AfterKeepsDistinct(list, Place(c));
    EnteredId(list, c.id);
    hide Find, PlacedFlags;
  }

  /** What the flags of a placement's frame say, entry by entry. */
  lemma PlaceFlags(list: Contacts, c: TouchContact)
    requires Distinct(list) && Clean(list) && PlaceStatus(list, c.id).Ok?
    ensures var marked, after := Marked(list, Place(c)), After(list, Place(c));
            |after| == |marked| && forall j :: 0 <= j < |marked| ==>
              var f := marked[j].pointer.flags;
              var was := j < |list| && list[j].touching;
              && marked[j].id == after[j].id && f.inRange && f.inContact == after[j].touching
              && (f.down <==> f.inContact && !was) && (f.up ==> was && !f.inContact && !f.inRange)
  {
    PlaceEdges(list, c);
    hide Marked, After, PlaceStatus, Find, Marks, Distinct;
  }

  /** A frame whose entries all stay where they are. */
  lemma SameLeaves(list: Contacts, marked: Contacts, after: Contacts)
    requires Marks(list, marked) && Distinct(after) && |after| == |marked|
    requires forall j :: 0 <= j < |marked| ==>
               var f := marked[j].pointer.flags;
               marked[j].id == after[j].id && f.inRange && f.inContact == after[j].touching
    ensures Leaves(marked, after)
  {
    hide Distinct;
    var same := seq(|marked|, j => j);
    assert FrameShows(marked, after, same, same);
  }

  lemma RemoveMarks(list: Contacts, id: int, transition: Transition)
    requires Distinct(list) && Clean(list) && Find(list, id) < |list|
    ensures Marks(list, Marked(list, Remove(id, transition)))
  {
    hide Find, RemovedFlags;
    var marked := Marked(list, Remove(id, transition));
    assert forall j :: 0 <= j < |marked| ==> marked[j].id == list[j].id && marked[j].pointer.pointerId == list[j].id;
  }

  lemma RemoveShifts(list: Contacts, id: int, transition: Transition)
    requires Find(list, id) < |list|
    ensures var after, k := After(list, Remove(id, transition)), Find(list, id);
            |after| == |list| - 1 && forall j :: 0 <= j < |after| ==> after[j] == if j < k then list[j] else list[j + 1]
  {
    hide Find;
  }

  lemma RemoveLeaves(list: Contacts, id: int, transition: Transition)
    requires Distinct(list) && Clean(list) && Find(list, id) < |list|
    ensures Leaves(Marked(list, Remove(id, transition)), After(list, Remove(id, transition)))
  {
    var k := Find(list, id);
    RemoveEdges(list, id, transition);
    RemoveMarks(list, id, transition);
    RemoveShifts(list, id, transition);
    AfterKeepsDistinct(list, Remove(id, transition));
    hide Marked, After, Find, Distinct, Leaves;
    LeavesWithout(list, Marked(list, Remove(id, transition)), After(list, Remove(id, transition)), k);
  }

  lemma LeavesWithout(list: Contacts, marked: Contacts, after: Contacts, k: nat)
    requires Clean(list) && Distinct(marked) && Distinct(after)
    requires k < |list| == |marked| == |after| + 1
    requires forall j :: 0 <= j < |marked| ==> marked[j].pointer.pointerId == marked[j].id
    requires forall j :: 0 <= j < |marked| && j != k ==> marked[j] == list[j]
    requires forall j :: 0 <= j < k ==> after[j] == list[j]
    requires forall j :: k <= j < |after| ==> after[j] == list[j + 1]
    requires !marked[k].pointer.flags.inRange
    ensures Leaves(marked, after)
  {
    hide Distinct;
    var to := seq(|marked|, j => if j < k then j else if j == k then -1 else j - 1);
    var from := seq(|after|, j => if j < k then j else j + 1);
    forall j | 0 <= j < |to| && to[j] != -1
      ensures marked[j].id == after[to[j]].id && marked[j].pointer.flags.inRange
      ensures marked[j].pointer.flags.inContact == after[to[j]].touching
    {
      if j < k {
        assert after[j] == list[j];
      } else {
        assert after[j - 1] == list[j - 1 + 1];
      }
    }
    assert forall j :: 0 <= j < |from| ==> to[from[j]] == j;
    assert FrameShows(marked, after, to, from);
  }

  lemma RemoveEntries(list: Contacts, id: int, transition: Transition)
    requires Distinct(list) && Clean(list) && Find(list, id) < |list|
    ensures var marked := Marked(list, Remove(id, transition));
            forall j :: 0 <= j < |marked| ==>
              var f := marked[j].pointer.flags;
              var was := j < |list| && list[j].touching;
              (f.down <==> f.inContact && !was) && (f.up ==> was && !f.inContact && !f.inRange)
  {
    RemoveEdges(list, id, transition);
    hide Marked, Find;
  }

  lemma RemoveRefines(r: Reader, list: Contacts, id: int, transition: Transition)
    requires Distinct(list) && Clean(list) && Believes(r, list) && r.wellFormed && Find(list, id) < |list|
    ensures Believes(ReadFrame(r, Injected(Marked(list, Remove(id, transition)))), After(list, Remove(id, transition)))
    ensures ReadFrame(r, Injected(Marked(list, Remove(id, transition)))).wellFormed
  {
    hide Marked, After, Find, Believes, See, Clean, Distinct, Leaves;
    var marked := Marked(list, Remove(id, transition));
    RemoveMarks(list, id, transition);
    RemoveEntries(list, id, transition);
    RemoveLeaves(list, id, transition);
    MarkedKnows(r, list, marked);
    MarkedEntriesOk(r, list, marked);
    FrameBelieved(r, marked, After(list, Remove(id, transition)));
  }

  lemma RefreshRefines(r: Reader, list: Contacts)
    requires Distinct(list) && Clean(list) && Believes(r, list) && r.wellFormed
    ensures Believes(ReadFrame(r, Injected(list)), list) && ReadFrame(r, Injected(list)).wellFormed
    ensures forall k :: 0 <= k < |list| ==> !Injected(list)[k].flags.HasEdge()
  {
    MarkedKnows(r, list, list);
    MarkedEntriesOk(r, list, list);
    SameLeaves(list, list, list);
    hide Leaves, Believes, See, Distinct;
    FrameBelieved(r, list, list);
  }

  lemma ReadOne(r: Reader, frame: seq<Pointer>)
    ensures ReadAll(r, [frame]) == ReadFrame(r, frame)
    ensures ReadAll(r, []) == r
  {
    assert [frame][..0] == [];
    assert ReadAll(r, [frame][..0]) == r;
  }

  lemma StepRefines(r: Reader, list: Contacts, op: Op)
    requires Distinct(list) && Clean(list) && Believes(r, list) && r.wellFormed
    ensures Distinct(After(list, op)) && Clean(After(list, op))
    ensures Believes(ReadAll(r, Frames(list, op)), After(list, op)) && ReadAll(r, Frames(list, op)).wellFormed
  {
    hide Marked, ReadAll, Believes, Clean, Distinct, ReadFrame;
    AfterKeepsDistinct(list, op);
    AfterKeepsClean(list, op);
    ReadOne(r, Injected(list));
    match op
    case Place(c) =>
      if PlaceStatus(list, c.id).Ok? {
        ReadOne(r, Injected(Marked(list, op)));
        PlaceRefines(r, list, c);
      }
    case Remove(id, transition) =>
      if Find(list, id) < |list| {
        ReadOne(r, Injected(Marked(list, op)));
        RemoveRefines(r, list, id, transition);
      }
    case Refresh =>
      RefreshRefines(r, list);
  }

  // ----- Whole runs --------------------------------------------------------------------------

  function Run(ops: seq<Op>): (Contacts, seq<seq<Pointer>>)
    decreases |ops|
  {
    if ops == [] then ([], [])
    else
      var (list, frames) := Run(ops[..|ops| - 1]);
      var op := ops[|ops| - 1];
      (After(list, op), frames + Frames(list, op))
  }

  lemma {:induction false} ReadConcat(r: Reader, a: seq<seq<Pointer>>, b: seq<seq<Pointer>>)
    ensures ReadAll(r, a + b) == ReadAll(ReadAll(r, a), b)
    decreases |b|
  {
    hide ReadFrame;
    if b == [] {
      assert a + b == a;
    } else {
      assert (a + b)[..|a + b| - 1] == a + b[..|b| - 1];
      ReadConcat(r, a, b[..|b| - 1]);
    }
  }

  /**
   * With every injection accepted, a consumer of the frames knows exactly the placed contacts and which
   * of them touch, saw DOWN on exactly the frames where one starts touching, and never a stray UP.
   */
  lemma {:induction false} RunRefines(ops: seq<Op>)
    ensures var (list, frames) := Run(ops);
            && Distinct(list) && Clean(list)
            && Believes(ReadAll(NOTHING_SEEN, frames), list)
            && ReadAll(NOTHING_SEEN, frames).wellFormed
    decreases |ops|
  {
    if ops != [] {
      var (list, frames) := Run(ops[..|ops| - 1]);
      var op := ops[|ops| - 1];
      RunRefines(ops[..|ops| - 1]);
      hide Believes, Clean, Distinct, After, Frames, ReadAll;
      StepRefines(ReadAll(NOTHING_SEEN, frames), list, op);
      ReadConcat(NOTHING_SEEN, frames, Frames(list, op));
    }
  }

  /**
   * A touching contact stops touching without any UP exactly when it is placed again as hovering or
   * leaves; every other way of stopping sends UP.
   */
  lemma LiftWithoutUp(list: Contacts, op: Op, id: int)
    requires Distinct(list) && Clean(list)
    requires Find(list, id) < |list| && list[Find(list, id)].touching
    requires var now := After(list, op);
             Find(now, id) == |now| || !now[Find(now, id)].touching
    ensures Frames(list, op) == [Injected(Marked(list, op))]
    ensures var k := Find(list, id);
            k < |Marked(list, op)| &&
            (!Marked(list, op)[k].pointer.flags.up <==> op.Place? || (op.Remove? && op.transition == Leave))
  {
    if op.Place? && op.contact.id == id {
      PlaceEdges(list, op.contact);
    } else if op.Remove? && op.id == id {
      RemoveEdges(list, id, op.transition);
    } else {
      OthersStay(list, op, id);
      assert false;
    }
  }

  /** A call about one contact leaves every other contact as it was. */
  lemma OthersStay(list: Contacts, op: Op, id: int)
    requires Distinct(list) && Find(list, id) < |list|
    requires op.Place? ==> op.contact.id != id
    requires op.Remove? ==> op.id != id
    ensures var now := After(list, op);
            Find(now, id) < |now| && now[Find(now, id)] == list[Find(list, id)]
  {
    AfterKeepsDistinct(list, op);
    var at := WhereAfter(list, op, Find(list, id));
    hide Find, After, Distinct;
    FindIn(After(list, op), id, at);
  }

  /** The new place of a contact the call does not name. */
  lemma WhereAfter(list: Contacts, op: Op, k: nat) returns (at: nat)
    requires k < |list|
    requires op.Place? ==> op.contact.id != list[k].id
    requires op.Remove? ==> op.id != list[k].id
    ensures at < |After(list, op)| && After(list, op)[at] == list[k]
  {
    hide Find, PlacedPointer, RemovedFlags;
    at := k;
    match op
    case Place(c) =>
      PlacedElsewhere(list, c, k);
    case Remove(id, _) =>
      var j := Find(list, id);
      at := if k < j || j == |list| then k else k - 1;
    case Refresh =>
  }

  lemma PlacedElsewhere(list: Contacts, c: TouchContact, k: nat)
    requires k < |list| && c.id != list[k].id
    ensures k < |After(list, Place(c))| && After(list, Place(c))[k] == list[k]
  {
    hide Find, PlacedPointer;
  }

  // ----- Refused injections ------------------------------------------------------------------

  datatype Attempt = Attempt(op: Op, accepted: bool)

  /** A refused placement or removal leaves its edges in the stored flags. */
  function Attempted(list: Contacts, a: Attempt): Contacts {
    if a.accepted || a.op.Refresh? then After(list, a.op)
    else if a.op.Place? && !PlaceStatus(list, a.op.contact.id).Ok? then list
    else Marked(list, a.op)
  }

  function RunAttempts(history: seq<Attempt>): Contacts {
    if history == [] then [] else Attempted(RunAttempts(history[..|history| - 1]), history[|history| - 1])
  }

  predicate About(a: Attempt, id: int) {
    (a.op.Place? && a.op.contact.id == id) || (a.op.Remove? && a.op.id == id)
  }

  /** Whether the last placement or removal naming this contact was accepted. */
  function LastAbout(history: seq<Attempt>, id: int): Option<bool> {
    if history == [] then None
    else if About(history[|history| - 1], id) then Some(history[|history| - 1].accepted)
    else LastAbout(history[..|history| - 1], id)
  }

  lemma AttemptKeepsDistinct(list: Contacts, a: Attempt)
    requires Distinct(list)
    ensures Distinct(Attempted(list, a))
  {
    hide Find, PlacedPointer, RemovedFlags;
    AfterKeepsDistinct(list, a.op);
    if a.op.Place? {
    }
  }

  /** An accepted call leaves no edge on the contact it names and no other contact changed. */
  lemma AcceptedEdges(list: Contacts, op: Op, k: nat) returns (j: nat)
    requires Distinct(list) && k < |After(list, op)|
    ensures var c := After(list, op)[k];
            && (About(Attempt(op, true), c.id) ==> !c.pointer.flags.HasEdge())
            && (!About(Attempt(op, true), c.id) ==> j < |list| && list[j] == c)
  {
    hide Find, After, Distinct;
    j := k;
    match op
    case Place(c) => AcceptedPlacement(list, c, k);
    case Remove(id, transition) => j := AcceptedRemoval(list, id, transition, k);
    case Refresh => AcceptedRefresh(list);
  }

  lemma AcceptedPlacement(list: Contacts, c: TouchContact, k: nat)
    requires Distinct(list) && k < |After(list, Place(c))|
    ensures var d := After(list, Place(c))[k];
            if d.id == c.id then !d.pointer.flags.HasEdge() else k < |list| && list[k] == d
  {
    AfterKeepsDistinct(list, Place(c));
    hide PlacedPointer;
    EnteredId(list, c.id);
    hide Find;
  }

  lemma AcceptedRemoval(list: Contacts, id: int, transition: Transition, k: nat) returns (j: nat)
    requires Distinct(list) && k < |After(list, Remove(id, transition))|
    ensures After(list, Remove(id, transition))[k].id != id
    ensures j < |list| && list[j] == After(list, Remove(id, transition))[k]
  {
    hide RemovedFlags;
    var at := Find(list, id);
    j := if at < |list| && k >= at then k + 1 else k;
  }

  lemma AcceptedRefresh(list: Contacts)
    ensures After(list, Refresh) == list
  {
  }

  /** A refused one leaves an edge on the contact it names. */
  lemma RefusedEdges(list: Contacts, op: Op, k: nat)
    requires Distinct(list) && k < |Attempted(list, Attempt(op, false))|
    ensures var c := Attempted(list, Attempt(op, false))[k];
            && (About(Attempt(op, false), c.id) ==> c.pointer.flags.HasEdge())
            && (!About(Attempt(op, false), c.id) ==> k < |list| && list[k] == c)
  {
    hide Find, PlacedPointer, RemovedFlags;
    match op
    case Place(c) =>
      PlacedHasEdge(list, c);
    case Remove(id, transition) =>
      var at := Find(list, id);
      if at < |list| {
        RemovedHasEdge(list[at].pointer.flags, transition, list[at].touching);
      }
    case Refresh =>
  }

  /** Where a contact that is still in the list came from, and what the attempt did to its edges. */
  lemma AttemptEdges(list: Contacts, a: Attempt, k: nat) returns (j: nat)
    requires Distinct(list) && k < |Attempted(list, a)|
    ensures var c := Attempted(list, a)[k];
            && (About(a, c.id) ==> (c.pointer.flags.HasEdge() <==> !a.accepted))
            && (!About(a, c.id) ==> j < |list| && list[j] == c)
  {
    hide Find, After, Marked;
    if a.accepted {
      j := AcceptedEdges(list, a.op, k);
    } else {
      j := k;
      RefusedEdges(list, a.op, k);
    }
  }

  lemma PlacedHasEdge(list: Contacts, c: TouchContact)
    ensures forall p: Pointer, was: bool :: PlacedPointer(p, c, was).flags.HasEdge()
  {
  }

  lemma RemovedHasEdge(f: Flags, transition: Transition, wasTouching: bool)
    ensures RemovedFlags(f, transition, wasTouching).HasEdge()
  {
  }

  /**
   * After any history, refusals included, a contact's stored flags hold edge bits exactly when the last
   * placement or removal naming it was refused.
   */
  lemma {:induction false} EdgesIffLastRefused(history: seq<Attempt>)
    ensures Distinct(RunAttempts(history))
    ensures forall k :: 0 <= k < |RunAttempts(history)| ==>
              var c := RunAttempts(history)[k];
              c.pointer.flags.HasEdge() <==> LastAbout(history, c.id) == Some(false)
    decreases |history|
  {
    if history != [] {
      var before, a := history[..|history| - 1], history[|history| - 1];
      EdgesIffLastRefused(before);
      var list, now := RunAttempts(before), RunAttempts(history);
      AttemptKeepsDistinct(list, a);
      hide Attempted, Distinct;
      forall k | 0 <= k < |now|
        ensures now[k].pointer.flags.HasEdge() <==> LastAbout(history, now[k].id) == Some(false)
      {
        var j := AttemptEdges(list, a, k);
        assert !About(a, now[k].id) ==> list[j] == now[k];
      }
    }
  }

  // ----- The device --------------------------------------------------------------------------

  function Packed(ids: seq<int>, touching: seq<bool>, pointers: seq<Pointer>): (list: Contacts)
    requires |ids| == |touching| == |pointers|
    ensures |list| == |ids|
    ensures forall k :: 0 <= k < |list| ==> list[k] == Contact(ids[k], touching[k], pointers[k])
  {
    seq(|ids|, k requires 0 <= k < |ids| => Contact(ids[k], touching[k], pointers[k]))
  }

  /** `WindowsTouchscreen`: three parallel arrays packed in the first `active` places. */
  class WindowsTouchscreen {
    var open: bool
    const contacts: array<Pointer>
    const contactIds: array<int>
    const contactTouching: array<bool>
    var active: nat
    var newSlot: bool
    var frames: seq<seq<Pointer>>

    /** Absent ids are -1; the places beyond the packed ones are always reset. */
    ghost predicate Valid()
      reads this`active, contacts, contactIds, contactTouching
    {
      && contacts.Length == MAX_CONTACTS && contactIds.Length == MAX_CONTACTS && contactTouching.Length == MAX_CONTACTS
      && active <= MAX_CONTACTS
      && (forall k :: active <= k < MAX_CONTACTS ==> contacts[k] == NO_ENTRY && !contactTouching[k])
      && Distinct(View())
    }

    ghost function View(): Contacts
      reads this`active, contacts, contactIds, contactTouching
    {
      if active <= contacts.Length && active <= contactIds.Length && active <= contactTouching.Length
      then Packed(contactIds[..active], contactTouching[..active], contacts[..active])
      else []
    }

    constructor ()
      ensures Valid() && open && View() == [] && frames == []
      ensures fresh(contacts) && fresh(contactIds) && fresh(contactTouching)
    {
      contacts := new Pointer[MAX_CONTACTS](_ => NO_ENTRY);
      contactIds := new int[MAX_CONTACTS](_ => -1);
      contactTouching := new bool[MAX_CONTACTS](_ => false);
      open, active, newSlot, frames := true, 0, false, [];
    }

    method FindContactSlot(id: int) returns (slot: nat)
      requires Valid()
      ensures slot == Find(View(), id)
    {
      slot := 0;
      while slot < active
        invariant 0 <= slot <= active
        invariant forall j :: 0 <= j < slot ==> View()[j].id != id
      {
        if contactIds[slot] == id {
          FindIn(View(), id, slot);
          return;
        }
        slot := slot + 1;
      }
    }

    /** The contact's slot, taking the next free one for a new contact; the capacity when all are in use. */
    method SlotForContact(id: int) returns (slot: nat)
      requires Valid() && id >= 0
      modifies this`active, this`newSlot, contactIds
      ensures Valid()
      ensures slot == if PlaceStatus(old(View()), id).Ok? then Find(old(View()), id) else MAX_CONTACTS
      ensures View() == if PlaceStatus(old(View()), id).Ok? then Entered(old(View()), id) else old(View())
      ensures PlaceStatus(old(View()), id).Ok? ==> slot < active
    {
      ghost var before := View();
      slot := FindContactSlot(id);
      if slot < active {
        newSlot := false;
        return;
      }
      if active >= MAX_CONTACTS {
        return MAX_CONTACTS;
      }
      contactIds[active] := id;
      active := active + 1;
      newSlot := true;
      assert View() == before + [Contact(id, false, NO_ENTRY)];
    }

    /** Injecting sends the packed pointers; the system may refuse them. */
    method Inject() returns (ok: bool)
      requires Valid()
      modifies this`frames
      ensures frames == if ok then old(frames) + [Injected(View())] else old(frames)
    {
      ghost var list := View();
      assert contacts[..active] == Injected(list);
      ok := *;
      if ok {
        frames := frames + [contacts[..active]];
      }
      assert View() == list;
    }

    method SetPointer(slot: nat, pointer: Pointer)
      requires Valid() && slot < active
      modifies contacts
      ensures Valid()
      ensures slot < |old(View())| && View() == old(View())[slot := old(View())[slot].(pointer := pointer)]
    {
      ghost var before := View();
      contacts[slot] := pointer;
      assert View() == before[slot := before[slot].(pointer := pointer)];
    }

    method SetTouching(slot: nat, touching: bool)
      requires Valid() && slot < active
      modifies contactTouching
      ensures Valid()
      ensures slot < |old(View())| && View() == old(View())[slot := old(View())[slot].(touching := touching)]
    {
      ghost var before := View();
      contactTouching[slot] := touching;
      assert View() == before[slot := before[slot].(touching := touching)];
    }

    method GetContact(slot: nat) returns (touching: bool, pointer: Pointer)
      requires Valid() && slot < active
      ensures active == |View()| && touching == View()[slot].touching && pointer == View()[slot].pointer
    {
      touching, pointer := contactTouching[slot], contacts[slot];
    }

    /** Accepted, a placement is `After`; refused, the contact keeps its place and its edges. */
    method PlaceContact(c: TouchContact) returns (status: Status)
      requires Valid()
      modifies this, contacts, contactIds, contactTouching
      ensures Valid() && open == old(open)
      ensures status == if c.id < 0 then InvalidId else if !open then DeviceClosed
                        else if !PlaceStatus(old(View()), c.id).Ok? then TooManyContacts
                        else if |frames| == |old(frames)| then InjectFailed else Ok
      ensures status.Ok? ==> View() == After(old(View()), Place(c))
      ensures status.Ok? ==> frames == old(frames) + Frames(old(View()), Place(c))
      ensures status.InjectFailed? ==> View() == Marked(old(View()), Place(c)) && frames == old(frames)
      ensures !status.Ok? && !status.InjectFailed? ==> View() == old(View()) && frames == old(frames)
    {
      hide Find, PlacedPointer, Valid, View, Distinct;
      if c.id < 0 {
        return InvalidId;
      }
      if !open {
        return DeviceClosed;
      }
      ghost var before := View();
      var slot := SlotForContact(c.id);
      if slot == MAX_CONTACTS {
        FindAtMost(before);
        return TooManyContacts;
      }
      var wasTouching, pointer := GetContact(slot);
      var placed := PlacedPointer(pointer, c, wasTouching);
      SetPointer(slot, placed);
      assert View() == Marked(before, Place(c));
      var ok := Inject();
      if !ok {
        return InjectFailed;
      }
      SetPointer(slot, placed.(flags := placed.flags.WithoutEdges()));
      newSlot := false;
      SetTouching(slot, c.touching);
      EnteredId(before, c.id);
      assert View() == After(before, Place(c));
      return Ok;
    }

    /** Within every array, the places after `slot` move down by one. */
    method ShiftDown(slot: nat)
      requires active <= contacts.Length == contactIds.Length == contactTouching.Length && slot < active
      modifies contacts, contactIds, contactTouching
      ensures contacts[..] == Shifted(old(contacts[..]), slot, active)
      ensures contactIds[..] == Shifted(old(contactIds[..]), slot, active)
      ensures contactTouching[..] == Shifted(old(contactTouching[..]), slot, active)
    {
      hide Shifted;
      ghost var pointers, ids, touching := contacts[..], contactIds[..], contactTouching[..];
      var index := slot;
      ShiftNone(pointers, slot);
      ShiftNone(ids, slot);
      ShiftNone(touching, slot);
      while index + 1 < active
        invariant slot <= index < active
        invariant contacts[..] == Shifted(pointers, slot, index + 1)
        invariant contactIds[..] == Shifted(ids, slot, index + 1)
        invariant contactTouching[..] == Shifted(touching, slot, index + 1)
      {
        ShiftStep(pointers, slot, index);
        ShiftStep(ids, slot, index);
        ShiftStep(touching, slot, index);
        contacts[index] := contacts[index + 1];
        contactIds[index] := contactIds[index + 1];
        contactTouching[index] := contactTouching[index + 1];
        index := index + 1;
      }
    }

    /** Close the gap: everything after `slot` moves down by one and the last place is reset. */
    method EraseSlot(slot: nat)
      requires Valid() && slot < active
      modifies this`active, contacts, contactIds, contactTouching
      ensures Valid()
      ensures slot < |old(View())| && View() == old(View())[..slot] + old(View())[slot + 1..]
    {
      hide Packed, Shifted, Distinct;
      ghost var n := active;
      ghost var ids, touching, pointers := contactIds[..], contactTouching[..], contacts[..];
      assert contactIds[..n] == ids[..n] && contactTouching[..n] == touching[..n] && contacts[..n] == pointers[..n];
      ErasedPacked(ids, touching, pointers, n, slot);
      WithoutKeepsDistinct(View(), slot);
      ShiftDown(slot);
      contacts[active - 1] := NO_ENTRY;
      contactIds[active - 1] := -1;
      contactTouching[active - 1] := false;
      active := active - 1;
      assert contactIds[..] == Shifted(ids, slot, n)[n - 1 := -1];
      assert contactTouching[..] == Shifted(touching, slot, n)[n - 1 := false];
      assert contacts[..] == Shifted(pointers, slot, n)[n - 1 := NO_ENTRY];
      assert contactIds[..active] == contactIds[..][..n - 1];
      assert contactTouching[..active] == contactTouching[..][..n - 1];
      assert contacts[..active] == contacts[..][..n - 1];
    }

    method ReleaseContact(id: int, transition: Transition) returns (status: Status)
      requires Valid()
      modifies this, contacts, contactIds, contactTouching
      ensures Valid() && open == old(open)
      ensures !open ==> status == DeviceClosed && View() == old(View()) && frames == old(frames)
      ensures open ==> status == Ok || status == InjectFailed
      ensures status.Ok? ==> View() == After(old(View()), Remove(id, transition))
                             && frames == old(frames) + Frames(old(View()), Remove(id, transition))
      ensures status.InjectFailed? ==> View() == Marked(old(View()), Remove(id, transition)) && frames == old(frames)
    {
      hide Find, RemovedFlags, Valid, View, Distinct;
      if !open {
        return DeviceClosed;
      }
      ghost var before := View();
      var slot := FindContactSlot(id);
      if slot == active {
        ActiveIsLength();
        return Ok;
      }
      ActiveIsLength();
      var wasTouching, pointer := GetContact(slot);
      SetPointer(slot, pointer.(flags := RemovedFlags(pointer.flags, transition, wasTouching)));
      assert View() == Marked(before, Remove(id, transition));
      ghost var marked := View();
      var ok := Inject();
      if !ok {
        return InjectFailed;
      }
      EraseSlot(slot);
      assert marked[..slot] == before[..slot] && marked[slot + 1..] == before[slot + 1..];
      return Ok;
    }

    lemma ActiveIsLength()
      requires Valid()
      ensures active == |View()|
    {
    }

    /** One tick of the repeat thread. */
    method RefreshContacts() returns (ok: bool)
      requires Valid()
      modifies this`frames
      ensures frames == old(frames) || (open && active != 0 && frames == old(frames) + Frames(View(), Refresh))
    {
      ok := true;
      if open && active != 0 {
        ok := Inject();
      }
    }

    method Close()
      modifies this`open
      ensures !open
    {
      open := false;
    }
  }

  lemma WithoutKeepsDistinct(list: Contacts, slot: nat)
    requires Distinct(list) && slot < |list|
    ensures Distinct(list[..slot] + list[slot + 1..])
  {
  }

  function Shifted<T>(s: seq<T>, slot: nat, end: nat): (t: seq<T>)
    requires slot < end <= |s|
    ensures |t| == |s|
  {
    s[..slot] + s[slot + 1..end] + s[end - 1..]
  }

  lemma ShiftNone<T>(s: seq<T>, slot: nat)
    requires slot < |s|
    ensures Shifted(s, slot, slot + 1) == s
  {
  }

  lemma ShiftStep<T>(s: seq<T>, slot: nat, index: nat)
    requires slot <= index < |s| - 1
    ensures Shifted(s, slot, index + 1)[index + 1] == s[index + 1]
    ensures Shifted(s, slot, index + 2) == Shifted(s, slot, index + 1)[index := s[index + 1]]
  {
  }

  /** After resetting the last place: the elements without `slot`, then the reset one and the rest. */
  lemma ShiftedEnds<T>(s: seq<T>, slot: nat, end: nat, reset: T)
    requires slot < end <= |s|
    ensures Shifted(s, slot, end)[end - 1 := reset][..end - 1] == s[..slot] + s[slot + 1..end]
    ensures Shifted(s, slot, end)[end - 1 := reset][end..] == s[end..]
  {
  }

  /** Shifting the three sequences down and resetting the last place removes one contact. */
  lemma ErasedPacked(ids: seq<int>, touching: seq<bool>, pointers: seq<Pointer>, n: nat, slot: nat)
    requires |ids| == |touching| == |pointers| && slot < n <= |ids|
    requires forall k :: n <= k < |ids| ==> pointers[k] == NO_ENTRY && !touching[k]
    ensures var ids' := Shifted(ids, slot, n)[n - 1 := -1];
            var touching' := Shifted(touching, slot, n)[n - 1 := false];
            var pointers' := Shifted(pointers, slot, n)[n - 1 := NO_ENTRY];
            var before := Packed(ids[..n], touching[..n], pointers[..n]);
            && Packed(ids'[..n - 1], touching'[..n - 1], pointers'[..n - 1]) == before[..slot] + before[slot + 1..]
            && forall k :: n - 1 <= k < |ids| ==> pointers'[k] == NO_ENTRY && !touching'[k]
  {
    hide Packed, Shifted;
    ShiftedEnds(ids, slot, n, -1);
    ShiftedEnds(touching, slot, n, false);
    ShiftedEnds(pointers, slot, n, NO_ENTRY);
    var touching' := Shifted(touching, slot, n)[n - 1 := false];
    var pointers' := Shifted(pointers, slot, n)[n - 1 := NO_ENTRY];
    forall k | n - 1 <= k < |ids|
      ensures pointers'[k] == NO_ENTRY && !touching'[k]
    {
      if k >= n {
        assert pointers'[k] == pointers'[n..][k - n] == pointers[n..][k - n];
        assert touching'[k] == touching'[n..][k - n] == touching[n..][k - n];
      }
    }
    assert ids[..n][..slot] + ids[..n][slot + 1..] == ids[..slot] + ids[slot + 1..n];
    assert touching[..n][..slot] + touching[..n][slot + 1..] == touching[..slot] + touching[slot + 1..n];
    assert pointers[..n][..slot] + pointers[..n][slot + 1..] == pointers[..slot] + pointers[slot + 1..n];
  }

  lemma FindAtMost(list: Contacts)
    ensures forall id :: Find(list, id) <= |list|
  {
  }

  lemma EnteredId(list: Contacts, id: int)
    ensures Find(list, id) < |Entered(list, id)| && Entered(list, id)[Find(list, id)].id == id
  {
  }
}
