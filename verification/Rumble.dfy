/**
 * Force feedback of the Linux gamepad: effects are uploaded, played and erased by the kernel; a
 * periodic tick mixes the running ones, applies the gain and dispatches the pair when it changed.
 */
module Rumble {
  import opened Basics
  import opened Collections

  const MAXIMUM: int := 65535
  const NO_FINITE_END: nat := 0xFFFF_FFFF_FFFF_FFFF
  const TICKS_PER_MS: int := 1_000_000

  type Magnitude = m: int | 0 <= m <= 65535

  type Word16 = w: int | 0 <= w < 65536

  datatype Envelope = Envelope(attackLength: Word16, attackLevel: Magnitude, fadeLength: Word16, fadeLevel: Magnitude)

  const NO_ENVELOPE: Envelope := Envelope(0, 0, 0, 0)

  /** The payload of an `ff_effect`; levels are signed 16-bit. */
  datatype Shape =
    | RumbleShape(weak: Magnitude, strong: Magnitude)
    | ConstantShape(level: int, envelope: Envelope)
    | PeriodicShape(magnitude: int, envelope: Envelope)
    | RampShape(startLevel: int, endLevel: int, envelope: Envelope)
    | UnsupportedShape

  datatype Source = Source(shape: Shape, length: Word16, delay: Word16)

  datatype Effect = Effect(
    startWeak: Magnitude, startStrong: Magnitude,
    endWeak: Magnitude, endStrong: Magnitude,
    envelope: Envelope,
    length: Word16, delay: Word16,
    start: int, end: int,
    playbackCount: int,
    active: bool)
  {
    /** A replay length of zero means until stopped. */
    predicate Infinite() {
      length == 0
    }

    predicate Running(now: int) {
      active && start <= now && (Infinite() || now < end)
    }
  }

  // ----- Magnitudes --------------------------------------------------------------------------

  function ScaleSignedMagnitude(level: int): (m: Magnitude)
    ensures -32768 < level < 32768 ==> m == 2 * level || m == -2 * level
    ensures level <= -32768 || 32768 <= level ==> m == 65535
  {
    Min((if level < 0 then -level else level) * 2, MAXIMUM)
  }

  function Interpolate(start: Magnitude, end: Magnitude, elapsed: nat, length: nat): (m: int)
    ensures Min(start, end) <= m <= Max(start, end)
    ensures length > 0 && elapsed == 0 ==> m == start
    ensures elapsed >= length ==> m == end
  {
    if length == 0 || elapsed >= length then end
    else
      WeightedBounds(start, end, elapsed, length);
      (start * (length - elapsed) + end * elapsed) / length
  }

  lemma WeightedBounds(start: int, end: int, elapsed: int, length: int)
    requires 0 <= elapsed < length
    ensures Min(start, end) <= (start * (length - elapsed) + end * elapsed) / length <= Max(start, end)
    ensures elapsed == 0 ==> (start * (length - elapsed) + end * elapsed) / length == start
  {
    var low, high := Min(start, end), Max(start, end);
    var weighted := start * (length - elapsed) + end * elapsed;
    Scale(low, start, length - elapsed);
    Scale(start, high, length - elapsed);
    Scale(low, end, elapsed);
    Scale(end, high, elapsed);
    assert low * (length - elapsed) + low * elapsed == low * length;
    assert high * (length - elapsed) + high * elapsed == high * length;
    QuotientBetween(weighted, low, high, length);
    if elapsed == 0 {
      assert weighted == start * length;
      QuotientBetween(weighted, start, start, length);
    }
  }

  lemma Scale(a: int, b: int, c: int)
    requires a <= b && 0 <= c
    ensures a * c <= b * c
  {
  }

  lemma QuotientBetween(n: int, low: int, high: int, d: int)
    requires 0 < d && low * d <= n <= high * d
    ensures low <= n / d <= high
  {
    var q := n / d;
    assert q * d <= n < q * d + d;
    if q < low {
      Scale(q + 1, low, d);
    }
    if q > high {
      Scale(high + 1, q, d);
    }
  }

  /** `v` is the whole part of the point `t` steps of `n` along the line from `a` to `b`. */
  ghost predicate OnLine(v: int, a: int, b: int, t: int, n: int) {
    v * n <= a * (n - t) + b * t < (v + 1) * n
  }

  lemma InterpolateOnLine(start: Magnitude, end: Magnitude, elapsed: nat, length: nat)
    requires elapsed < length
    ensures OnLine(Interpolate(start, end, elapsed, length), start, end, elapsed, length)
  {
    WholePart(start * (length - elapsed) + end * elapsed, length);
  }

  lemma WholePart(n: int, d: int)
    requires d > 0
    ensures n / d * d <= n < (n / d + 1) * d
  {
  }

  /** Only one whole number is on a line at a point. */
  lemma OnLineOnce(v: int, w: int, a: int, b: int, t: int, n: int)
    requires n > 0 && OnLine(v, a, b, t, n) && OnLine(w, a, b, t, n)
    ensures v == w
  {
    if v < w {
      Scale(v + 1, w, n);
    }
    if w < v {
      Scale(w + 1, v, n);
    }
  }

  /** A ramp moves one way only. */
  lemma InterpolateMonotone(start: Magnitude, end: Magnitude, earlier: nat, later: nat, length: nat)
    requires earlier <= later
    ensures start <= end ==> Interpolate(start, end, earlier, length) <= Interpolate(start, end, later, length)
    ensures start >= end ==> Interpolate(start, end, earlier, length) >= Interpolate(start, end, later, length)
  {
    if later < length {
      var a := start * (length - earlier) + end * earlier;
      var b := start * (length - later) + end * later;
      assert b - a == (end - start) * (later - earlier);
      if start <= end {
        Scale(0, end - start, later - earlier);
        QuotientMonotone(a, b, length);
      }
      if start >= end {
        Scale(end - start, 0, later - earlier);
        QuotientMonotone(b, a, length);
      }
    }
  }

  lemma QuotientMonotone(a: int, b: int, d: int)
    requires a <= b && 0 < d
    ensures a / d <= b / d
  {
    var x, y := a / d, b / d;
    assert x * d <= a && b < y * d + d;
    if x > y {
      Scale(y + 1, x, d);
    }
  }

  function ApplyEnvelope(magnitude: Magnitude, e: Envelope, elapsed: nat, remaining: nat): (m: int)
    ensures Min(magnitude, Min(e.attackLevel, e.fadeLevel)) <= m <= Max(magnitude, Max(e.attackLevel, e.fadeLevel))
    ensures elapsed >= e.attackLength && remaining >= e.fadeLength ==> m == magnitude
  {
    if e.attackLength > 0 && elapsed < e.attackLength then
      Interpolate(e.attackLevel, magnitude, elapsed, e.attackLength)
    else if e.fadeLength > 0 && remaining < e.fadeLength then
      Interpolate(e.fadeLevel, magnitude, remaining, e.fadeLength)
    else magnitude
  }

  /** Position within the current playback and what is left of it. */
  function CycleTiming(elapsed: nat, length: nat): (t: (nat, nat))
    ensures length > 0 ==> t.0 < length && t.0 + t.1 == length
  {
    if length == 0 then (elapsed, NO_FINITE_END) else (elapsed % length, length - elapsed % length)
  }

  function ElapsedMs(e: Effect, now: int): nat {
    if now <= e.start then 0 else (now - e.start) / TICKS_PER_MS
  }

  datatype Pair = Pair(weak: int, strong: int)

  function Magnitudes(e: Effect, now: int): (p: Pair)
    ensures 0 <= p.weak <= MAXIMUM && 0 <= p.strong <= MAXIMUM
  {
    var elapsed := ElapsedMs(e, now);
    if e.Infinite() then
      Pair(ApplyEnvelope(e.startWeak, e.envelope, elapsed, NO_FINITE_END),
           ApplyEnvelope(e.startStrong, e.envelope, elapsed, NO_FINITE_END))
    else
      var (at, left) := CycleTiming(elapsed, e.length);
      Pair(ApplyEnvelope(Interpolate(e.startWeak, e.endWeak, at, e.length), e.envelope, at, left),
           ApplyEnvelope(Interpolate(e.startStrong, e.endStrong, at, e.length), e.envelope, at, left))
  }

  /** What an effect adds to the mix: its magnitudes while running, nothing otherwise. */
  function Contribution(e: Effect, now: int): (p: Pair)
    ensures 0 <= p.weak <= MAXIMUM && 0 <= p.strong <= MAXIMUM
    ensures !e.Running(now) ==> p == Pair(0, 0)
  {
    if e.Running(now) then Magnitudes(e, now) else Pair(0, 0)
  }

  // ----- Uploads -----------------------------------------------------------------------------

  function EffectEnd(e: Effect): int {
    e.start + e.length * TICKS_PER_MS * e.playbackCount
  }

  function Plain(s: Source, w0: Magnitude, s0: Magnitude, w1: Magnitude, s1: Magnitude, envelope: Envelope): Effect {
    Effect(w0, s0, w1, s1, envelope, s.length, s.delay, 0, 0, 1, false)
  }

  function Normalize(s: Source): Option<Effect> {
    match s.shape
    case RumbleShape(weak, strong) => Some(Plain(s, weak, strong, weak, strong, NO_ENVELOPE))
    case ConstantShape(level, envelope) =>
      (var m := ScaleSignedMagnitude(level); Some(Plain(s, m, m, m, m, envelope)))
    case PeriodicShape(magnitude, envelope) =>
      (var m := ScaleSignedMagnitude(magnitude); Some(Plain(s, m, m, m, m, envelope)))
    case RampShape(startLevel, endLevel, envelope) =>
      (var a, b := ScaleSignedMagnitude(startLevel), ScaleSignedMagnitude(endLevel);
       Some(Plain(s, a, a, b, b, envelope)))
    case UnsupportedShape => None
  }

  /** Replacing a playing effect keeps its start and count; its end follows the new length. */
  function Replaced(uploaded: Effect, existing: Option<Effect>): Effect {
    if existing.Some? && existing.value.active then
      var playing := existing.value;
      var kept := uploaded.(active := true, start := playing.start, playbackCount := playing.playbackCount);
      kept.(end := EffectEnd(kept))
    else uploaded
  }

  function Played(e: Effect, value: int, now: int): Effect {
    if value <= 0 then e.(active := false)
    else
      var started := e.(active := true, start := now + e.delay * TICKS_PER_MS, playbackCount := value);
      started.(end := EffectEnd(started))
  }

  // ----- Mixing ------------------------------------------------------------------------------

  type Effects = map<nat, Effect>

  function Plus(a: Pair, b: Pair): Pair {
    Pair(a.weak + b.weak, a.strong + b.strong)
  }

  ghost function Choose(ids: set<nat>): (id: nat)
    requires ids != {}
    ensures id in ids
  {
    var id :| id in ids;
    id
  }

  ghost function Total(effects: Effects, ids: set<nat>, now: int): (p: Pair)
    requires ids <= effects.Keys
    ensures 0 <= p.weak && 0 <= p.strong
  {
    if ids == {} then Pair(0, 0)
    else
      Plus(Contribution(effects[Choose(ids)], now), Total(effects, ids - {Choose(ids)}, now))
  }

  /** The mix does not depend on the order in which effects are visited. */
  lemma {:induction false} TotalTakesAny(effects: Effects, ids: set<nat>, now: int, id: nat)
    requires ids <= effects.Keys && id in ids
    ensures Total(effects, ids, now) == Plus(Contribution(effects[id], now), Total(effects, ids - {id}, now))
    decreases |ids|
  {
    hide Contribution;
    var first := Choose(ids);
    if first != id {
      var rest := ids - {first, id};
      assert ids - {first} - {id} == rest && ids - {id} - {first} == rest;
      TotalTakesAny(effects, ids - {first}, now, id);
      TotalTakesAny(effects, ids - {id}, now, first);
      assert Total(effects, ids - {first}, now) == Plus(Contribution(effects[id], now), Total(effects, rest, now));
      assert Total(effects, ids - {id}, now) == Plus(Contribution(effects[first], now), Total(effects, rest, now));
    }
  }

  lemma {:induction false} TotalAgrees(a: Effects, b: Effects, ids: set<nat>, now: int)
    requires ids <= a.Keys && ids <= b.Keys
    requires forall id :: id in ids ==> Contribution(a[id], now) == Contribution(b[id], now)
    ensures Total(a, ids, now) == Total(b, ids, now)
    decreases |ids|
  {
    hide Contribution;
    if ids != {} {
      var id := Choose(ids);
      TotalTakesAny(a, ids, now, id);
      TotalTakesAny(b, ids, now, id);
      TotalAgrees(a, b, ids - {id}, now);
    }
  }

  ghost predicate NoneRunning(effects: Effects, ids: set<nat>, now: int)
    requires ids <= effects.Keys
  {
    forall id :: id in ids ==> !effects[id].Running(now)
  }

  lemma {:induction false} NothingRunningIsSilent(effects: Effects, ids: set<nat>, now: int)
    requires ids <= effects.Keys && NoneRunning(effects, ids, now)
    ensures Total(effects, ids, now) == Pair(0, 0)
    decreases |ids|
  {
    hide Contribution, Total;
    if ids == {} {
      TotalOfNone(effects, now);
    } else {
      var id := Choose(ids);
      TotalTakesAny(effects, ids, now, id);
      NothingRunningIsSilent(effects, ids - {id}, now);
    }
  }

  lemma TotalOfNone(effects: Effects, now: int)
    ensures Total(effects, {}, now) == Pair(0, 0)
  {
  }

  /** The sum, saturated, scaled down by the gain and rounded down. */
  function Scaled(total: int, gain: Magnitude): (m: int)
    requires 0 <= total
    ensures m * 65535 <= Min(total, 65535) * gain < (m + 1) * 65535
    ensures 0 <= m <= gain
    ensures total == 0 ==> m == 0
    ensures gain == MAXIMUM ==> m == Min(total, MAXIMUM)
  {
    ScaledBounds(Min(total, MAXIMUM), gain);
    Min(total, MAXIMUM) * gain / MAXIMUM
  }

  lemma ScaledBounds(m: int, gain: int)
    requires 0 <= m <= MAXIMUM && 0 <= gain <= MAXIMUM
    ensures 0 <= m * gain / MAXIMUM <= gain
    ensures m == 0 ==> m * gain / MAXIMUM == 0
    ensures gain == MAXIMUM ==> m * gain / MAXIMUM == m
    ensures m * gain / MAXIMUM * 65535 <= m * gain < (m * gain / MAXIMUM + 1) * 65535
  {
    Scale(0, m, gain);
    Scale(m, MAXIMUM, gain);
    QuotientBetween(m * gain, 0, gain, MAXIMUM);
    WholePart(m * gain, MAXIMUM);
    if gain == MAXIMUM {
      QuotientBetween(m * gain, m, m, MAXIMUM);
    }
  }

  // ----- The device as a state machine ---------------------------------------------------------

  /** `low` drives the strong motor and `high` the weak one, as last dispatched. */
  datatype Mixer = Mixer(effects: Effects, gain: Magnitude, low: int, high: int)

  const CREATED: Mixer := Mixer(map[], 65535, 0, 0)

  datatype Op =
    | Upload(uploadId: nat, source: Source)
    | Erase(eraseId: nat)
    | Play(playId: nat, value: int, at: int)
    | Gain(level: int)
    | Tick(now: int)
    | Close

  /** An effect found past its end is switched off. */
  function Settled(e: Effect, now: int): Effect {
    if e.active && e.start <= now && !e.Running(now) then e.(active := false) else e
  }

  function Expired(effects: Effects, now: int): (expired: Effects)
    ensures expired.Keys == effects.Keys
  {
    map id | id in effects :: Settled(effects[id], now)
  }

  ghost function Mixed(m: Mixer, now: int): Pair {
    var total := Total(m.effects, m.effects.Keys, now);
    Pair(Scaled(total.weak, m.gain), Scaled(total.strong, m.gain))
  }

  ghost function After(m: Mixer, op: Op): Mixer {
    match op
    case Upload(id, source) =>
      (var uploaded := Normalize(source);
       if uploaded.None? then m
       else
         var existing := if id in m.effects then Some(m.effects[id]) else None;
         m.(effects := m.effects[id := Replaced(uploaded.value, existing)]))
    case Erase(id) => m.(effects := m.effects - {id})
    case Play(id, value, at) =>
      if id in m.effects then m.(effects := m.effects[id := Played(m.effects[id], value, at)]) else m
    case Gain(level) => m.(gain := if level < 0 then 0 else Min(level, MAXIMUM))
    case Tick(now) => m.(effects := Expired(m.effects, now), low := Mixed(m, now).strong, high := Mixed(m, now).weak)
    case Close => m.(low := 0, high := 0)
  }

  /** What the output callback receives: the new pair when it differs from the last one. */
  ghost function Dispatched(m: Mixer, op: Op): seq<(int, int)> {
    var now := After(m, op);
    if now.low == m.low && now.high == m.high then [] else [(now.low, now.high)]
  }

  ghost function Run(ops: seq<Op>): (Mixer, seq<(int, int)>)
    decreases |ops|
  {
    if ops == [] then (CREATED, [])
    else
      var (m, log) := Run(ops[..|ops| - 1]);
      var op := ops[|ops| - 1];
      (After(m, op), log + Dispatched(m, op))
  }

  /** A motor obeying the callback holds the last pair; before the first it is off. */
  function LastOf(log: seq<(int, int)>): (int, int) {
    if log == [] then (0, 0) else log[|log| - 1]
  }

  /**
   * Over any run: the motor holds what the mixer thinks it dispatched, neighbouring dispatches differ,
   * and the first is not silence.
   */
  lemma {:induction false} RunDispatches(ops: seq<Op>)
    ensures var (m, log) := Run(ops);
            && LastOf(log) == (m.low, m.high)
            && (forall i :: 0 < i < |log| ==> log[i - 1] != log[i])
            && (log != [] ==> log[0] != (0, 0))
    decreases |ops|
  {
    hide After;
    if ops != [] {
      RunDispatches(ops[..|ops| - 1]);
    }
  }

  /** Every dispatched strength is at most the gain in force when it is sent. */
  lemma DispatchBelowGain(m: Mixer, op: Op, k: nat)
    requires k < |Dispatched(m, op)|
    ensures 0 <= Dispatched(m, op)[k].0 <= m.gain && 0 <= Dispatched(m, op)[k].1 <= m.gain
  {
    hide Scaled, Expired, Replaced, Played;
  }

  /** Closing leaves the motor off, whatever came before. */
  lemma CloseIsSilent(ops: seq<Op>)
    ensures LastOf(Run(ops + [Close]).1) == (0, 0)
  {
    RunDispatches(ops + [Close]);
    assert (ops + [Close])[..|ops|] == ops;
  }

  /** After a tick the motors have what the effects then present add up to, under the gain then set. */
  lemma TickLeaves(ops: seq<Op>, now: int)
    ensures LastOf(Run(ops + [Tick(now)]).1) == (Mixed(Run(ops).0, now).strong, Mixed(Run(ops).0, now).weak)
  {
    hide Expired, Mixed, LastOf;
    RunDispatches(ops + [Tick(now)]);
    assert (ops + [Tick(now)])[..|ops|] == ops;
  }

  /** When a tick finds no effect in its window, the motor is off after it. */
  lemma QuietTick(ops: seq<Op>, now: int)
    requires var m := Run(ops).0;
             NoneRunning(m.effects, m.effects.Keys, now)
    ensures LastOf(Run(ops + [Tick(now)]).1) == (0, 0)
  {
    hide Run, Scaled, Total, LastOf;
    var m := Run(ops).0;
    TickLeaves(ops, now);
    NothingRunningIsSilent(m.effects, m.effects.Keys, now);
  }

  /**
   * A tick switches off exactly the finite effects past their end; it never changes what the next
   * tick at the same time would mix.
   */
  lemma TickIsIdempotent(m: Mixer, now: int)
    ensures After(After(m, Tick(now)), Tick(now)) == After(m, Tick(now))
    ensures Dispatched(After(m, Tick(now)), Tick(now)) == []
  {
    var once := Expired(m.effects, now);
    assert once.Keys == m.effects.Keys;
    forall id | id in once
      ensures Contribution(once[id], now) == Contribution(m.effects[id], now)
    {
    }
    TotalAgrees(once, m.effects, m.effects.Keys, now);
    assert Expired(once, now) == once;
  }

  /**
   * After a play order the effect contributes in exactly its window: from the delay on, for the
   * ordered number of playbacks, or until stopped when it is infinite.
   */
  lemma PlayedWindow(m: Mixer, id: nat, value: int, at: int, now: int)
    requires id in m.effects
    ensures var e := After(m, Play(id, value, at)).effects[id];
            var begin := at + m.effects[id].delay * TICKS_PER_MS;
            e.Running(now) <==>
              value > 0 && begin <= now
              && (m.effects[id].length == 0 || now < begin + m.effects[id].length * TICKS_PER_MS * value)
  {
  }

  /** The first mixed value of a played effect without an envelope is its start magnitude. */
  lemma PlayStartsAtStart(e: Effect, value: int, at: int)
    requires value > 0 && e.envelope == NO_ENVELOPE
    ensures var p := Played(e, value, at);
            Contribution(p, p.start) == Pair(e.startWeak, e.startStrong)
  {
    var p := Played(e, value, at);
    if e.length > 0 {
      Scale(1, value, e.length * TICKS_PER_MS);
    }
  }

  // ----- The device --------------------------------------------------------------------------

  /** The force-feedback side of `UinputGamepad`. */
  class UinputGamepad {
    var effects: Effects
    var gain: Magnitude
    var lastLow: int
    var lastHigh: int
    var dispatched: seq<(int, int)>

    function View(): Mixer
      reads this
    {
      Mixer(effects, gain, lastLow, lastHigh)
    }

    constructor ()
      ensures View() == CREATED && dispatched == []
    {
      effects, gain, lastLow, lastHigh, dispatched := map[], 65535, 0, 0, [];
    }

    /** The kernel may refuse to hand the effect over; then nothing changes. */
    method UploadRumbleEffect(id: nat, source: Source) returns (begun: bool)
      modifies this`effects
      ensures View() == if begun then After(old(View()), Upload(id, source)) else old(View())
    {
      begun := *;
      if begun {
        var effect := Normalize(source);
        if effect.Some? {
          var existing := if id in effects then Some(effects[id]) else None;
          effects := effects[id := Replaced(effect.value, existing)];
        }
      }
    }

    method EraseRumbleEffect(id: nat) returns (begun: bool)
      modifies this`effects
      ensures View() == if begun then After(old(View()), Erase(id)) else old(View())
    {
      begun := *;
      if begun {
        effects := effects - {id};
      }
    }

    method SetGain(value: int)
      modifies this`gain
      ensures View() == After(old(View()), Gain(value))
    {
      gain := if value < 0 then 0 else Min(value, MAXIMUM);
    }

    method PlayEffect(id: nat, value: int, now: int)
      modifies this`effects
      ensures View() == After(old(View()), Play(id, value, now))
    {
      if id in effects {
        effects := effects[id := Played(effects[id], value, now)];
      }
    }

    method DispatchRumble(low: int, high: int)
      modifies this`lastLow, this`lastHigh, this`dispatched
      ensures lastLow == low && lastHigh == high
      ensures dispatched == old(dispatched) + if old(lastLow) == low && old(lastHigh) == high then [] else [(low, high)]
    {
      if lastLow == low && lastHigh == high {
        return;
      }
      lastLow, lastHigh := low, high;
      dispatched := dispatched + [(low, high)];
    }

    static method VisitEffect(effect: Effect, now: int) returns (settled: Effect, pair: Pair)
      ensures settled == Settled(effect, now) && pair == Contribution(effect, now)
    {
      if !effect.active || now < effect.start {
        return effect, Pair(0, 0);
      }
      if !effect.Infinite() && now >= effect.end {
        return effect.(active := false), Pair(0, 0);
      }
      return effect, Magnitudes(effect, now);
    }

    /** Visit every effect once, in any order: expire it, skip it or add it to the mix. */
    static method MixEffects(effects: Effects, now: int) returns (mixed: Effects, weak: int, strong: int)
      ensures Pair(weak, strong) == Total(effects, effects.Keys, now)
      ensures mixed == Expired(effects, now)
    {
      hide *;
      weak, strong, mixed := 0, 0, effects;
      var todo := effects.Keys;
      MixBegins(effects, now);
      while todo != {}
        invariant todo <= effects.Keys
        invariant MidMix(effects, mixed, todo, now, Pair(weak, strong))
        decreases |todo|
      {
        var id :| id in todo;
        MixStep(effects, mixed, todo, now, Pair(weak, strong), id);
        var settled, pair := VisitEffect(mixed[id], now);
        mixed := mixed[id := settled];
        weak, strong := weak + pair.weak, strong + pair.strong;
        todo := todo - {id};
      }
      MixEnds(effects, mixed, now, Pair(weak, strong));
    }

    method UpdateRumble(now: int)
      modifies this
      ensures View() == After(old(View()), Tick(now))
      ensures dispatched == old(dispatched) + Dispatched(old(View()), Tick(now))
    {
      hide Scaled, Expired, Total;
      var mixed, weak, strong := MixEffects(effects, now);
      effects := mixed;
      DispatchRumble(Scaled(strong, gain), Scaled(weak, gain));
    }

    method CloseGamepad()
      modifies this`lastLow, this`lastHigh, this`dispatched
      ensures View() == After(old(View()), Close)
      ensures dispatched == old(dispatched) + Dispatched(old(View()), Close)
    {
      DispatchRumble(0, 0);
    }
  }

  /** Midway through a tick: effects still to visit are as they were, the others are settled. */
  ghost predicate Visited(start: Effects, effects: Effects, todo: set<nat>, now: int) {
    && effects.Keys == start.Keys
    && (forall id :: id in start.Keys && id in todo ==> effects[id] == start[id])
    && (forall id :: id in start.Keys && id !in todo ==> effects[id] == Settled(start[id], now))
  }

  ghost predicate MidMix(start: Effects, effects: Effects, todo: set<nat>, now: int, sum: Pair) {
    && Visited(start, effects, todo, now)
    && todo <= start.Keys
    && Plus(sum, Total(start, todo, now)) == Total(start, start.Keys, now)
  }

  lemma MixBegins(start: Effects, now: int)
    ensures MidMix(start, start, start.Keys, now, Pair(0, 0))
  {
    hide Total;
  }

  lemma MixStep(start: Effects, effects: Effects, todo: set<nat>, now: int, sum: Pair, id: nat)
    requires MidMix(start, effects, todo, now, sum) && id in todo
    ensures id in effects && id in start && effects[id] == start[id]
    ensures var pair := Contribution(effects[id], now);
            MidMix(start, effects[id := Settled(effects[id], now)], todo - {id}, now,
                   Pair(sum.weak + pair.weak, sum.strong + pair.strong))
  {
    hide Total, Contribution, Settled, Visited;
    VisitedOne(start, effects, todo, now, id);
    TotalTakesAny(start, todo, now, id);
  }

  lemma MixEnds(start: Effects, effects: Effects, now: int, sum: Pair)
    requires MidMix(start, effects, {}, now, sum)
    ensures sum == Total(start, start.Keys, now) && effects == Expired(start, now)
  {
    hide Settled, Contribution, Visited;
    TotalOfNone(start, now);
    VisitedAll(start, effects, now);
  }

  lemma VisitedOne(start: Effects, effects: Effects, todo: set<nat>, now: int, id: nat)
    requires Visited(start, effects, todo, now) && id in todo && id in start.Keys
    ensures id in effects && effects[id] == start[id]
    ensures Visited(start, effects[id := Settled(start[id], now)], todo - {id}, now)
  {
    hide Settled;
  }

  lemma VisitedAll(start: Effects, effects: Effects, now: int)
    requires Visited(start, effects, {}, now)
    ensures effects == Expired(start, now)
  {
    hide Settled;
  }
}
