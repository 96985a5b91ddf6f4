/**
 * Force feedback seen from its history alone: which upload an effect's shape comes from, which order it
 * is playing for, and when it adds to the mix, whatever came before, between and after.
 */
module RumbleHistory {
  import opened Basics
  import opened Rumble

  // ----- Shapes: the last accepted upload --------------------------------------------------------

  predicate Uploads(op: Op, id: nat) {
    op.Upload? && op.uploadId == id && !op.source.shape.UnsupportedShape?
  }

  predicate Erases(op: Op, id: nat) {
    op.Erase? && op.eraseId == id
  }

  predicate Orders(op: Op, id: nat) {
    op.Play? && op.playId == id
  }

  /** The upload an effect's shape comes from; none before the first and after an erase. */
  function InForce(ops: seq<Op>, id: nat): Option<Source>
    decreases |ops|
  {
    if ops == [] then None
    else if Uploads(ops[|ops| - 1], id) then Some(ops[|ops| - 1].source)
    else if Erases(ops[|ops| - 1], id) then None
    else InForce(ops[..|ops| - 1], id)
  }

  ghost predicate LastUpload(ops: seq<Op>, id: nat, i: int) {
    && 0 <= i < |ops| && Uploads(ops[i], id)
    && forall j :: i < j < |ops| ==> !Uploads(ops[j], id) && !Erases(ops[j], id)
  }

  /** The upload in force is the last accepted one with no erase after it. */
  lemma {:induction false} InForceIsLastUpload(ops: seq<Op>, id: nat, source: Source)
    ensures InForce(ops, id) == Some(source) <==> exists i :: LastUpload(ops, id, i) && ops[i].source == source
    decreases |ops|
  {
    hide Uploads, Erases;
    if ops != [] {
      var before, last := ops[..|ops| - 1], |ops| - 1;
      InForceIsLastUpload(before, id, source);
      if Uploads(ops[last], id) {
        assert LastUpload(ops, id, last);
      } else if !Erases(ops[last], id) {
        forall i
          ensures LastUpload(ops, id, i) <==> LastUpload(before, id, i)
        {
          assert LastUpload(ops, id, i) ==> i != last;
        }
        assert forall i :: LastUpload(before, id, i) ==> before[i] == ops[i];
      }
    }
  }

  /** An effect without what orders and ticks change. */
  function Shaped(e: Effect): Effect {
    e.(start := 0, end := 0, playbackCount := 1, active := false)
  }

  ghost predicate ShapedBy(m: Mixer, id: nat, source: Option<Source>) {
    && (id in m.effects <==> source.Some?)
    && (source.Some? ==> Normalize(source.value).Some? && Shaped(m.effects[id]) == Normalize(source.value).value)
  }

  lemma NormalizedIsShaped(source: Source)
    ensures Normalize(source).Some? <==> !source.shape.UnsupportedShape?
    ensures Normalize(source).Some? ==> Shaped(Normalize(source).value) == Normalize(source).value
    ensures Normalize(source).Some? ==>
              Normalize(source).value.length == source.length && Normalize(source).value.delay == source.delay
  {
  }

  lemma StepShaped(m: Mixer, op: Op, id: nat, source: Option<Source>)
    requires ShapedBy(m, id, source)
    ensures ShapedBy(After(m, op), id,
                     if Uploads(op, id) then Some(op.source) else if Erases(op, id) then None else source)
  {
    hide Normalize, Scaled, Total;
    if op.Upload? {
      NormalizedIsShaped(op.source);
    }
  }

  /**
   * Over any run: an effect exists exactly while an upload is in force, and its length, delay,
   * magnitudes and envelope are those of that upload.
   */
  lemma {:induction false} EffectIsUpload(ops: seq<Op>, id: nat)
    ensures ShapedBy(Run(ops).0, id, InForce(ops, id))
    decreases |ops|
  {
    hide After, ShapedBy, Uploads, Erases;
    if ops == [] {
      NothingYet(id);
    } else {
      EffectIsUpload(ops[..|ops| - 1], id);
      StepShaped(Run(ops[..|ops| - 1]).0, ops[|ops| - 1], id, InForce(ops[..|ops| - 1], id));
    }
  }

  lemma NothingYet(id: nat)
    ensures ShapedBy(CREATED, id, None) && Run([]).0 == CREATED
  {
  }

  // ----- Playbacks -----------------------------------------------------------------------------

  /** When the playback ordered by a play of this effect begins: the delay is the one then in force. */
  function Begins(ops: seq<Op>, id: nat, i: nat): int
    requires i < |ops| && Orders(ops[i], id) && InForce(ops[..i], id).Some?
  {
    ops[i].at + InForce(ops[..i], id).value.delay * TICKS_PER_MS
  }

  /** The playback is over at `now`, were the effect this long; length zero never ends. */
  predicate Over(begin: int, count: int, length: nat, now: int) {
    length != 0 && begin <= now && begin + length * TICKS_PER_MS * count <= now
  }

  /** Neither another order nor an erase, and no tick that finds the playback over. */
  predicate Leaves(op: Op, id: nat, begin: int, count: int, source: Option<Source>) {
    && !Orders(op, id) && !Erases(op, id)
    && (op.Tick? && source.Some? ==> !Over(begin, count, source.value.length, op.now))
  }

  /** The order an effect is playing for. */
  ghost predicate PlayedBy(ops: seq<Op>, id: nat, i: int) {
    && 0 <= i < |ops| && Orders(ops[i], id) && ops[i].value > 0 && InForce(ops[..i], id).Some?
    && forall j :: i < j < |ops| ==> Leaves(ops[j], id, Begins(ops, id, i), ops[i].value, InForce(ops[..j], id))
  }

  /** An effect that plays since `begin` for `count` times. */
  ghost predicate Plays(m: Mixer, id: nat, begin: int, count: int) {
    && id in m.effects && m.effects[id].active
    && m.effects[id].start == begin && m.effects[id].playbackCount == count
    && m.effects[id].end == EffectEnd(m.effects[id])
  }

  ghost predicate Idle(m: Mixer, id: nat) {
    id in m.effects ==> !m.effects[id].active
  }

  /** A positive order to an existing effect. */
  predicate Starts(op: Op, id: nat, source: Option<Source>) {
    Orders(op, id) && op.value > 0 && source.Some?
  }

  /** The effect plays for the order `i`, and still does after one more call. */
  ghost predicate PlaysOn(before: seq<Op>, op: Op, id: nat, i: int) {
    PlayedBy(before, id, i) && Leaves(op, id, Begins(before, id, i), before[i].value, InForce(before, id))
  }

  lemma PlayedBySnoc(ops: seq<Op>, id: nat, i: int)
    requires ops != []
    ensures var before, last := ops[..|ops| - 1], |ops| - 1;
            PlayedBy(ops, id, i) <==>
              || (i == last && Starts(ops[last], id, InForce(before, id)))
              || PlaysOn(before, ops[last], id, i)
  {
    hide Orders, Leaves, InForce;
    var before, last := ops[..|ops| - 1], |ops| - 1;
    assert forall j :: 0 <= j <= last ==> ops[..j] == before[..j];
    assert before[..last] == before;
    if 0 <= i < last {
      assert ops[..i] == before[..i] && ops[i] == before[i];
      forall j | i < j < |before|
        ensures ops[..j] == before[..j] && ops[j] == before[j]
      {
      }
    }
  }

  /** What one call does to an effect that plays. */
  lemma StepPlays(m: Mixer, op: Op, id: nat, begin: int, count: int, source: Option<Source>)
    requires Plays(m, id, begin, count) && ShapedBy(m, id, source) && count > 0
    ensures Leaves(op, id, begin, count, source) ==> Plays(After(m, op), id, begin, count)
    ensures !Leaves(op, id, begin, count, source) && !(Orders(op, id) && op.value > 0) ==> Idle(After(m, op), id)
  {
    hide Scaled, Total;
    assert source.Some?;
    NormalizedIsShaped(source.value);
    assert m.effects[id].length == source.value.length;
    hide Normalize;
    match op
    case Tick(now) => SettledWhenOver(m.effects[id], now);
    case Upload(other, uploaded) => NormalizedIsShaped(uploaded);
    case _ =>
  }

  lemma SettledWhenOver(e: Effect, now: int)
    requires e.active && e.end == EffectEnd(e)
    ensures Settled(e, now) == if Over(e.start, e.playbackCount, e.length, now) then e.(active := false) else e
  {
  }

  /** What one call does to an effect that does not. */
  lemma StepIdle(m: Mixer, op: Op, id: nat, source: Option<Source>)
    requires Idle(m, id) && ShapedBy(m, id, source) && !Starts(op, id, source)
    ensures Idle(After(m, op), id)
  {
    hide Scaled, Total;
    match op
    case Upload(other, uploaded) => NormalizedIsShaped(uploaded);
    case _ =>
  }

  /** A play order with a positive count starts the effect after its delay. */
  lemma OrderPlays(m: Mixer, op: Op, id: nat, source: Option<Source>)
    requires Starts(op, id, source) && ShapedBy(m, id, source)
    ensures Plays(After(m, op), id, op.at + source.value.delay * TICKS_PER_MS, op.value)
  {
    NormalizedIsShaped(source.value);
  }

  /** The effect plays for the order `i`, if any order has it playing, and is idle otherwise. */
  ghost predicate PlayState(m: Mixer, ops: seq<Op>, id: nat) {
    && (forall i :: PlayedBy(ops, id, i) ==> Plays(m, id, Begins(ops, id, i), ops[i].value))
    && ((forall i :: !PlayedBy(ops, id, i)) ==> Idle(m, id))
  }

  lemma StepPlayState(before: seq<Op>, op: Op, id: nat)
    requires PlayState(Run(before).0, before, id)
    ensures PlayState(After(Run(before).0, op), before + [op], id)
  {
    hide Run, After, Plays, Idle, InForce, PlayedBy, Starts, PlaysOn, ShapedBy;
    var ops, m, source := before + [op], Run(before).0, InForce(before, id);
    assert ops[..|ops| - 1] == before && ops[|ops| - 1] == op;
    EffectIsUpload(before, id);
    forall i
      ensures PlayedBy(ops, id, i) <==> (i == |before| && Starts(op, id, source)) || PlaysOn(before, op, id, i)
    {
      PlayedBySnoc(ops, id, i);
    }
    if Starts(op, id, source) {
      OrderPlays(m, op, id, source);
      OrderedNow(before, op, id);
    } else if i :| PlayedBy(before, id, i) {
      PlayedOn(before, op, id, i);
      StepPlays(m, op, id, Begins(before, id, i), before[i].value, source);
    } else {
      forall i
        ensures !PlaysOn(before, op, id, i)
      {
        PlaysOnPlayed(before, op, id, i);
      }
      StepIdle(m, op, id, source);
    }
  }

  lemma PlaysOnPlayed(before: seq<Op>, op: Op, id: nat, i: int)
    ensures PlaysOn(before, op, id, i) ==> PlayedBy(before, id, i)
  {
  }

  /** One more call that starts nothing leaves the effect playing for this order or for none. */
  lemma PlayedOn(before: seq<Op>, op: Op, id: nat, i: int)
    requires PlayedBy(before, id, i) && !Starts(op, id, InForce(before, id))
    ensures 0 <= i < |before| && Orders(before[i], id) && before[i].value > 0 && InForce(before[..i], id).Some?
    ensures Leaves(op, id, Begins(before, id, i), before[i].value, InForce(before, id))
            <==> PlayedBy(before + [op], id, i)
    ensures PlayedBy(before + [op], id, i) ==>
              (before + [op])[i] == before[i] && Begins(before + [op], id, i) == Begins(before, id, i)
    ensures forall j :: PlayedBy(before + [op], id, j) ==> j == i
    ensures InForce(before, id).Some?
    ensures Orders(op, id) ==> op.value <= 0
  {
    var ops := before + [op];
    assert ops[..|ops| - 1] == before && ops[..i] == before[..i];
    PlayedInForce(before, id, i);
    PlayedBySnoc(ops, id, i);
    forall j | PlayedBy(ops, id, j)
      ensures j == i
    {
      PlayedBySnoc(ops, id, j);
    }
  }

  /** What plays has an upload in force. */
  lemma PlayedInForce(ops: seq<Op>, id: nat, i: int)
    requires PlayedBy(ops, id, i)
    ensures InForce(ops, id).Some?
  {
    assert ops[..|ops|] == ops;
    KeptInForce(ops, id, i, |ops|);
  }

  lemma {:induction false} KeptInForce(ops: seq<Op>, id: nat, i: int, n: int)
    requires PlayedBy(ops, id, i) && i < n <= |ops|
    ensures InForce(ops[..n], id).Some?
    decreases n
  {
    var shorter := ops[..n];
    assert shorter[..n - 1] == ops[..n - 1] && shorter[n - 1] == ops[n - 1];
    if i < n - 1 {
      KeptInForce(ops, id, i, n - 1);
    }
  }

  /** The order just given is the only one the effect plays for. */
  lemma OrderedNow(before: seq<Op>, op: Op, id: nat)
    requires Starts(op, id, InForce(before, id))
    ensures var ops := before + [op];
            && ops[|before|] == op && InForce(ops[..|before|], id).Some?
            && Begins(ops, id, |before|) == op.at + InForce(before, id).value.delay * TICKS_PER_MS
            && PlayedBy(ops, id, |before|)
            && forall i :: PlayedBy(ops, id, i) ==> i == |before|
  {
    var ops := before + [op];
    assert ops[..|before|] == before;
    forall i | PlayedBy(ops, id, i)
      ensures i == |before|
    {
    }
  }

  lemma {:induction false} RunPlayState(ops: seq<Op>, id: nat)
    ensures PlayState(Run(ops).0, ops, id)
    decreases |ops|
  {
    hide After, PlayState;
    if ops == [] {
      IdleAtFirst(id);
    } else {
      var before, op := ops[..|ops| - 1], ops[|ops| - 1];
      RunPlayState(before, id);
      StepPlayState(before, op, id);
      assert before + [op] == ops;
    }
  }

  lemma IdleAtFirst(id: nat)
    ensures PlayState(Run([]).0, [], id)
  {
  }

  /**
   * Over any run: an effect is active exactly when it plays for some order, the last positive one with
   * no later order or erase, given to an existing effect and not yet found over by a tick. Its start and
   * count are that order's.
   */
  lemma ActiveIffPlayed(ops: seq<Op>, id: nat)
    ensures var m := Run(ops).0;
            && (id in m.effects && m.effects[id].active <==> exists i :: PlayedBy(ops, id, i))
            && forall i :: PlayedBy(ops, id, i) ==>
                 id in m.effects && m.effects[id].start == Begins(ops, id, i)
                 && m.effects[id].playbackCount == ops[i].value
  {
    hide Run, PlayedBy;
    RunPlayState(ops, id);
  }

  /** From its begin on, for the ordered number of playbacks of the length now in force. */
  predicate InWindow(ops: seq<Op>, id: nat, i: nat, now: int)
    requires i < |ops| && Orders(ops[i], id) && InForce(ops[..i], id).Some? && InForce(ops, id).Some?
  {
    var begin, length := Begins(ops, id, i), InForce(ops, id).value.length;
    begin <= now && (length == 0 || now < begin + length * TICKS_PER_MS * ops[i].value)
  }

  /**
   * Over any run, with times in any order: an effect adds to the mix at `now` exactly when it plays for
   * some order and `now` lies in that order's window. Otherwise its contribution is nothing.
   */
  lemma ContributesIff(ops: seq<Op>, id: nat, now: int)
    ensures var m := Run(ops).0;
            && (id in m.effects && m.effects[id].Running(now) <==>
                exists i :: PlayedBy(ops, id, i) && InForce(ops, id).Some? && InWindow(ops, id, i, now))
            && (id in m.effects && !m.effects[id].Running(now) ==> Contribution(m.effects[id], now) == Pair(0, 0))
  {
    hide Run, PlayedBy, Contribution, InForce, Begins, Orders;
    var m := Run(ops).0;
    RunPlayState(ops, id);
    EffectIsUpload(ops, id);
    if id in m.effects {
      NormalizedIsShaped(InForce(ops, id).value);
      assert m.effects[id].length == Shaped(m.effects[id]).length;
      hide Normalize;
    }
  }

  // ----- Runs in which time moves forward --------------------------------------------------------

  /** `now` is not before any tick of the run, as it is when time moves forward. */
  ghost predicate NoLaterTick(ops: seq<Op>, now: int) {
    forall i :: 0 <= i < |ops| && ops[i].Tick? ==> ops[i].now <= now
  }

  /** A positive order to an existing effect that no later order, erase or upload overrides. */
  ghost predicate Standing(ops: seq<Op>, id: nat, i: int) {
    && 0 <= i < |ops| && Orders(ops[i], id) && ops[i].value > 0 && InForce(ops[..i], id).Some?
    && forall j :: i < j < |ops| ==> !Orders(ops[j], id) && !Erases(ops[j], id) && !Uploads(ops[j], id)
  }

  lemma {:induction false} StandingInForce(ops: seq<Op>, id: nat, i: int, n: int)
    requires Standing(ops, id, i) && i < n <= |ops|
    ensures InForce(ops[..n], id) == InForce(ops[..i], id)
    decreases n
  {
    var shorter := ops[..n];
    assert shorter[..n - 1] == ops[..n - 1] && shorter[n - 1] == ops[n - 1];
    if i < n - 1 {
      StandingInForce(ops, id, i, n - 1);
    }
  }

  /**
   * When time moves forward, the window is all there is to it: whatever ticks came in between, a
   * standing order has its effect in the mix exactly from its begin to its end.
   */
  lemma StandingOrderWindow(ops: seq<Op>, id: nat, i: int, now: int)
    requires Standing(ops, id, i) && NoLaterTick(ops, now)
    ensures var m := Run(ops).0;
            var begin, length := Begins(ops, id, i), InForce(ops[..i], id).value.length;
            id in m.effects && m.effects[id].Running(now) <==>
              begin <= now && (length == 0 || now < begin + length * TICKS_PER_MS * ops[i].value)
  {
    hide Run, Begins;
    assert ops[..|ops|] == ops;
    StandingInForce(ops, id, i, |ops|);
    ContributesIff(ops, id, now);
    EffectIsUpload(ops, id);
    if InWindow(ops, id, i, now) {
      forall j | i < j < |ops|
        ensures Leaves(ops[j], id, Begins(ops, id, i), ops[i].value, InForce(ops[..j], id))
      {
        StandingInForce(ops, id, i, j);
      }
      assert PlayedBy(ops, id, i);
    } else {
      forall k | PlayedBy(ops, id, k)
        ensures k == i
      {
      }
    }
  }

  // ----- What is dispatched ----------------------------------------------------------------------

  /** Every pair a run ever dispatched was within the gain in force when it was sent. */
  lemma {:induction false} LogBelowGain(ops: seq<Op>, k: nat)
    requires k < |Run(ops).1|
    ensures exists i :: 0 <= i < |ops| && |Run(ops[..i]).1| == k && Within(Run(ops).1[k], Run(ops[..i]).0.gain)
    decreases |ops|
  {
    hide After, Dispatched;
    var before, last := ops[..|ops| - 1], |ops| - 1;
    var (m, log) := Run(before);
    assert ops[..last] == before;
    if k < |log| {
      LogBelowGain(before, k);
      var i :| 0 <= i < |before| && |Run(before[..i]).1| == k && Within(log[k], Run(before[..i]).0.gain);
      assert ops[..i] == before[..i];
    } else {
      DispatchBelowGain(m, ops[last], k - |log|);
      AtMostOne(m, ops[last]);
      assert |Run(ops[..last]).1| == k && Within(Run(ops).1[k], Run(ops[..last]).0.gain);
    }
  }

  lemma AtMostOne(m: Mixer, op: Op)
    ensures |Dispatched(m, op)| <= 1
  {
  }

  predicate Within(pair: (int, int), gain: int) {
    0 <= pair.0 <= gain && 0 <= pair.1 <= gain
  }

  /** The gain is always the last one set, clamped to 16 bits, and full before the first. */
  function GainSet(ops: seq<Op>): int
    decreases |ops|
  {
    if ops == [] then 65535
    else if ops[|ops| - 1].Gain? then Max(0, Min(ops[|ops| - 1].level, 65535))
    else GainSet(ops[..|ops| - 1])
  }

  lemma {:induction false} GainIsLastSet(ops: seq<Op>)
    ensures Run(ops).0.gain == GainSet(ops)
    decreases |ops|
  {
    if ops != [] {
      GainIsLastSet(ops[..|ops| - 1]);
    }
  }
}
