/**
 * What an injected frame of the Windows touchscreen says about each contact beside its flags, in terms
 * of what the caller last placed.
 */
module WindowsTouchPositions {
  import opened Basics
  import opened Rounding
  import opened WindowsTouch

  /** The last contact placed under an id. */
  function LastPlaced(history: seq<Attempt>, id: int): Option<TouchContact>
    decreases |history|
  {
    if history == [] then None
    else
      var op := history[|history| - 1].op;
      if op.Place? && op.contact.id == id then Some(op.contact) else LastPlaced(history[..|history| - 1], id)
  }

  /** Pressure counts to 1024; a touch without one has the middle value, a hovering contact none. */
  predicate PressureSays(p: Pointer, c: TouchContact) {
    if c.touching && c.pressure > 0.0 then p.hasPressure && OnScale(p.pressure, c.pressure, 1024)
    else !p.hasPressure && p.pressure == if c.touching then 512 else 0
  }

  /** An entry stands for this contact: its place, its pressure and the same direction within one turn. */
  predicate Says(p: Pointer, c: TouchContact) {
    && p.pointerId == c.id && p.x == c.x && p.y == c.y
    && PressureSays(p, c)
    && (p.hasOrientation <==> c.orientation != 0)
    && 0 <= p.orientation < 360 && (c.orientation - p.orientation) % 360 == 0
  }

  lemma PlacedSays(p: Pointer, c: TouchContact, wasTouching: bool)
    ensures Says(PlacedPointer(p, c, wasTouching), c)
  {
    PressureOnScale(c.pressure);
    hide PlacedFlags, OnScale, Lround, ClampReal;
  }

  lemma PressureOnScale(pressure: real)
    ensures pressure > 0.0 ==> OnScale(Lround(ClampReal(pressure, 0.0, 1.0) * 1024.0), pressure, 1024)
  {
    ScaledIsNearest(pressure, 1024);
  }

  /** Flags are no part of what an entry says. */
  lemma FlagsApart(p: Pointer, q: Pointer, c: TouchContact)
    requires p == q.(flags := p.flags)
    ensures Says(p, c) <==> Says(q, c)
  {
  }

  /** The entry stands for the last contact placed under its id. */
  ghost predicate Stands(p: Pointer, id: int, history: seq<Attempt>) {
    var c := LastPlaced(history, id);
    c.Some? && c.value.id == id && Says(p, c.value)
  }

  ghost predicate AllStand(list: Contacts, history: seq<Attempt>) {
    forall k :: 0 <= k < |list| ==> Stands(list[k].pointer, list[k].id, history)
  }

  /** Entry `k` of one list says what entry `j` of an earlier one did, under the same id. */
  predicate SameEntry(list: Contacts, k: nat, before: Contacts, j: nat) {
    && k < |list| && j < |before| && list[k].id == before[j].id
    && list[k].pointer == before[j].pointer.(flags := list[k].pointer.flags)
  }

  /** In the injected list: the placed contact as asked, all others as they were. */
  lemma MarkedEntry(list: Contacts, op: Op, k: nat)
    requires Distinct(list) && (op.Remove? || (op.Place? && PlaceStatus(list, op.contact.id).Ok?))
    requires k < |Marked(list, op)|
    ensures var c := Marked(list, op)[k];
            if op.Place? && op.contact.id == c.id then Says(c.pointer, op.contact)
            else SameEntry(Marked(list, op), k, list, k)
  {
    hide Find, PlacedPointer, RemovedFlags, Says;
    match op
    case Place(c) =>
      var at, entered := Find(list, c.id), Entered(list, c.id);
      PlacedSays(entered[at].pointer, c, entered[at].touching);
      if k != at && k < |list| && list[k].id == c.id {
        FindIn(list, c.id, k);
      }
    case Remove(_, _) =>
  }

  /** In the stored list after a call, accepted or not. */
  lemma AttemptEntry(list: Contacts, a: Attempt, k: nat) returns (j: nat)
    requires Distinct(list) && k < |Attempted(list, a)|
    ensures var c := Attempted(list, a)[k];
            if a.op.Place? && a.op.contact.id == c.id then Says(c.pointer, a.op.contact)
            else SameEntry(Attempted(list, a), k, list, j)
  {
    hide Find, PlacedPointer, RemovedFlags, Says, Marked;
    j := k;
    if a.op.Place? && PlaceStatus(list, a.op.contact.id).Ok? {
      if a.accepted {
        SameIds(list, a.op.contact, k);
      }
      MarkedEntry(list, a.op, k);
      FlagsApart(Attempted(list, a)[k].pointer, Marked(list, a.op)[k].pointer, a.op.contact);
    } else if a.op.Place? {
      RefusedIsAbsent(list, a.op.contact.id);
    } else if a.op.Remove? && a.accepted {
      var at := Find(list, a.op.id);
      j := if at < |list| && k >= at then k + 1 else k;
    } else if a.op.Remove? {
      MarkedEntry(list, a.op, k);
    }
  }

  /** The placed list is the injected one with the edges gone. */
  lemma SameIds(list: Contacts, c: TouchContact, k: nat)
    requires PlaceStatus(list, c.id).Ok? && k < |After(list, Place(c))|
    ensures |Marked(list, Place(c))| == |After(list, Place(c))|
    ensures SameEntry(After(list, Place(c)), k, Marked(list, Place(c)), k)
  {
    hide PlacedPointer;
    EnteredId(list, c.id);
    hide Find;
  }

  lemma RefusedIsAbsent(list: Contacts, id: int)
    requires Distinct(list) && !PlaceStatus(list, id).Ok?
    ensures forall k :: 0 <= k < |list| ==> list[k].id != id
  {
  }

  lemma StandsOn(history: seq<Attempt>, a: Attempt, p: Pointer, q: Pointer, id: int)
    requires if a.op.Place? && a.op.contact.id == id then Says(p, a.op.contact)
             else Stands(q, id, history) && p == q.(flags := p.flags)
    ensures Stands(p, id, history + [a])
  {
    hide Says;
    assert (history + [a])[..|history|] == history;
    if !(a.op.Place? && a.op.contact.id == id) {
      FlagsApart(p, q, LastPlaced(history, id).value);
    }
  }

  lemma {:induction false} RunStands(history: seq<Attempt>)
    ensures Distinct(RunAttempts(history)) && AllStand(RunAttempts(history), history)
    decreases |history|
  {
    hide Attempted, Distinct, LastPlaced, Stands, Says;
    EdgesIffLastRefused(history);
    if history != [] {
      var before, a := history[..|history| - 1], history[|history| - 1];
      RunStands(before);
      var list, now := RunAttempts(before), RunAttempts(history);
      assert history == before + [a];
      forall k | 0 <= k < |now|
        ensures Stands(now[k].pointer, now[k].id, history)
      {
        var j := AttemptEntry(list, a, k);
        StandsOn(before, a, now[k].pointer, if j < |list| then list[j].pointer else now[k].pointer, now[k].id);
      }
    }
  }

  /**
   * After any history, accepted or not: in the frame the next call injects, every entry has the place,
   * pressure and orientation the last placement of its contact asked for, and so has the entry that call
   * is about.
   */
  lemma FrameShowsPlacements(history: seq<Attempt>, a: Attempt, i: nat, k: nat)
    requires i < |Frames(RunAttempts(history), a.op)| && k < |Frames(RunAttempts(history), a.op)[i]|
    ensures var p := Frames(RunAttempts(history), a.op)[i][k];
            Stands(p, p.pointerId, history + [a])
  {
    hide Marked, Find, PlaceStatus, RunAttempts, Distinct, LastPlaced, Stands, Says;
    var list := RunAttempts(history);
    RunStands(history);
    var sent := if a.op.Refresh? then list else Marked(list, a.op);
    assert Frames(list, a.op)[i] == Injected(sent);
    if !a.op.Refresh? {
      MarkedEntry(list, a.op, k);
    }
    StandsOn(history, a, sent[k].pointer, if k < |list| then list[k].pointer else sent[k].pointer, sent[k].id);
    StandsUnder(sent[k].pointer, sent[k].id, history + [a]);
  }

  lemma StandsUnder(p: Pointer, id: int, history: seq<Attempt>)
    requires Stands(p, id, history)
    ensures p.pointerId == id
  {
  }
}
