/**
 * What the motors do for one running effect, said of the upload's own fields, the order that plays it
 * and the gain.
 */
module RumbleMeaning {
  import opened Basics
  import opened Rumble
  import opened RumbleHistory

  /** Twice the absolute level, at most full scale. */
  function Doubled(level: int): (m: int)
    ensures 0 <= m <= 65535
  {
    if level >= 32768 || level <= -32768 then 65535
    else if level >= 0 then 2 * level
    else -2 * level
  }

  /** Rising from the attack level first, falling to the fade level last, as it is between; no end, no fade. */
  ghost predicate Enveloped(v: int, m: int, e: Envelope, at: int, left: Option<int>) {
    if at < e.attackLength then OnLine(v, e.attackLevel, m, at, e.attackLength)
    else if left.Some? && left.value < e.fadeLength then OnLine(v, e.fadeLevel, m, left.value, e.fadeLength)
    else v == m
  }

  /** The value of a ramp: its line over one playback, its start when it never ends. */
  ghost predicate Ramped(m: int, source: Source, startLevel: int, endLevel: int, at: int) {
    if source.length == 0 then m == Doubled(startLevel)
    else OnLine(m, Doubled(startLevel), Doubled(endLevel), at, source.length)
  }

  /** Whole milliseconds into the current playback, and how many are left of it. */
  function At(source: Source, begin: int, now: int): int {
    var elapsed := (now - begin) / 1_000_000;
    if source.length == 0 then elapsed else elapsed % source.length
  }

  function Left(source: Source, begin: int, now: int): Option<int> {
    if source.length == 0 then None else Some(source.length - At(source, begin, now))
  }

  /** The strengths an upload asks for at `now`, when it plays since `begin`. */
  ghost predicate Asks(source: Source, begin: int, now: int, weak: int, strong: int) {
    var at, left := At(source, begin, now), Left(source, begin, now);
    match source.shape
    case RumbleShape(w, s) => weak == w && strong == s
    case ConstantShape(level, e) => weak == strong && Enveloped(weak, Doubled(level), e, at, left)
    case PeriodicShape(level, e) => weak == strong && Enveloped(weak, Doubled(level), e, at, left)
    case RampShape(a, b, e) =>
      weak == strong && exists m :: Ramped(m, source, a, b, at) && Enveloped(weak, m, e, at, left)
    case UnsupportedShape => false
  }

  lemma EnvelopedOnce(v: int, w: int, m: int, e: Envelope, at: int, left: Option<int>)
    requires 0 <= at && (left.Some? ==> 0 <= left.value) && Enveloped(v, m, e, at, left) && Enveloped(w, m, e, at, left)
    ensures v == w
  {
    hide OnLine;
    if at < e.attackLength {
      OnLineOnce(v, w, e.attackLevel, m, at, e.attackLength);
    } else if left.Some? && left.value < e.fadeLength {
      OnLineOnce(v, w, e.fadeLevel, m, left.value, e.fadeLength);
    }
  }

  /** An upload asks for one pair of strengths at a time. */
  lemma AsksOnce(source: Source, begin: int, now: int, weak: int, strong: int, weak': int, strong': int)
    requires begin <= now && Asks(source, begin, now, weak, strong) && Asks(source, begin, now, weak', strong')
    ensures weak == weak' && strong == strong'
  {
    hide Enveloped, OnLine;
    var at, left := At(source, begin, now), Left(source, begin, now);
    match source.shape
    case ConstantShape(level, e) => EnvelopedOnce(weak, weak', Doubled(level), e, at, left);
    case PeriodicShape(level, e) => EnvelopedOnce(weak, weak', Doubled(level), e, at, left);
    case RampShape(a, b, e) =>
      var m :| Ramped(m, source, a, b, at) && Enveloped(weak, m, e, at, left);
      var m' :| Ramped(m', source, a, b, at) && Enveloped(weak', m', e, at, left);
      if source.length > 0 {
        OnLineOnce(m, m', Doubled(a), Doubled(b), at, source.length);
      }
      EnvelopedOnce(weak, weak', m, e, at, left);
    case _ =>
  }

  // ----- One effect --------------------------------------------------------------------------

  lemma EnvelopeApplied(m: Magnitude, e: Envelope, at: nat, left: Option<int>, remaining: nat)
    requires if left.Some? then left.value == remaining else remaining == NO_FINITE_END
    ensures Enveloped(ApplyEnvelope(m, e, at, remaining), m, e, at, left)
  {
    hide OnLine, Interpolate;
    if at < e.attackLength {
      InterpolateOnLine(e.attackLevel, m, at, e.attackLength);
    } else if remaining < e.fadeLength {
      InterpolateOnLine(e.fadeLevel, m, remaining, e.fadeLength);
    }
  }

  lemma LevelDoubled(level: int)
    ensures ScaleSignedMagnitude(level) == Doubled(level)
  {
  }

  /** The value mixed in before the envelope. */
  lemma Ramp(e: Effect, source: Source, a: int, b: int, at: nat)
    requires e.length == source.length && (source.length > 0 ==> at < source.length)
    requires e.startWeak == Doubled(a) && e.endWeak == Doubled(b)
    ensures var m := if source.length == 0 then e.startWeak else Interpolate(e.startWeak, e.endWeak, at, e.length);
            Ramped(m, source, a, b, at)
  {
    hide OnLine, Interpolate;
    if source.length > 0 {
      InterpolateOnLine(e.startWeak, e.endWeak, at, e.length);
    }
  }

  /** Equal ends make no ramp. */
  lemma FlatLine(m: Magnitude, at: nat, length: nat)
    requires at < length
    ensures Interpolate(m, m, at, length) == m
  {
  }

  /** What a started effect mixes in is what its upload asks for. */
  lemma MagnitudesAsked(e: Effect, source: Source, now: int)
    requires e.start <= now && Normalize(source).Some? && Shaped(e) == Normalize(source).value
    ensures var p := Magnitudes(e, now);
            Asks(source, e.start, now, p.weak, p.strong)
  {
    hide Enveloped, OnLine, Interpolate, ApplyEnvelope, Ramped, Doubled, ScaleSignedMagnitude;
    var elapsed := ElapsedMs(e, now);
    var (at, remaining) := CycleTiming(elapsed, e.length);
    assert e.length == source.length == Shaped(e).length && e.envelope == Shaped(e).envelope;
    assert e.startWeak == Shaped(e).startWeak && e.startStrong == Shaped(e).startStrong;
    assert e.endWeak == Shaped(e).endWeak && e.endStrong == Shaped(e).endStrong;
    var left := Left(source, e.start, now);
    var weak := if e.length == 0 then e.startWeak else Interpolate(e.startWeak, e.endWeak, at, e.length);
    var strong := if e.length == 0 then e.startStrong else Interpolate(e.startStrong, e.endStrong, at, e.length);
    if e.length > 0 && !source.shape.RampShape? {
      FlatLine(e.startWeak, at, e.length);
      FlatLine(e.startStrong, at, e.length);
    }
    EnvelopeApplied(weak, e.envelope, at, left, remaining);
    EnvelopeApplied(strong, e.envelope, at, left, remaining);
    match source.shape
    case RumbleShape(_, _) =>
      NoEnvelope(weak, at, left, Magnitudes(e, now).weak);
      NoEnvelope(strong, at, left, Magnitudes(e, now).strong);
    case ConstantShape(level, _) => LevelDoubled(level);
    case PeriodicShape(level, _) => LevelDoubled(level);
    case RampShape(a, b, _) =>
      LevelDoubled(a);
      LevelDoubled(b);
      Ramp(e, source, a, b, at);
    case UnsupportedShape =>
  }

  lemma NoEnvelope(m: int, at: nat, left: Option<int>, v: int)
    requires Enveloped(v, m, NO_ENVELOPE, at, left) && (left.Some? ==> left.value >= 0)
    ensures v == m
  {
  }

  // ----- One effect alone ----------------------------------------------------------------------

  /** Every order another effect plays for is outside its window. */
  ghost predicate Alone(ops: seq<Op>, id: nat, now: int) {
    forall other, i ::
      other != id && PlayedBy(ops, other, i) && InForce(ops, other).Some? ==> !InWindow(ops, other, i, now)
  }

  lemma AloneInMix(ops: seq<Op>, id: nat, i: nat, now: int)
    requires PlayedBy(ops, id, i) && InForce(ops, id).Some? && InWindow(ops, id, i, now) && Alone(ops, id, now)
    ensures var m := Run(ops).0;
            && id in m.effects && m.effects[id].Running(now)
            && NoneRunning(m.effects, m.effects.Keys - {id}, now)
  {
    hide Run, PlayedBy, Contribution, InForce, Begins, Orders, InWindow;
    ContributesIff(ops, id, now);
    var m := Run(ops).0;
    forall other | other in m.effects.Keys - {id}
      ensures !m.effects[other].Running(now)
    {
      ContributesIff(ops, other, now);
    }
  }

  /** The strengths an effect that alone is in its window adds up to. */
  lemma SoloMix(ops: seq<Op>, id: nat, i: nat, source: Source, now: int) returns (weak: int, strong: int)
    requires PlayedBy(ops, id, i) && InForce(ops, id) == Some(source)
    requires InWindow(ops, id, i, now) && Alone(ops, id, now)
    ensures 0 <= weak <= 65535 && 0 <= strong <= 65535
    ensures Asks(source, Begins(ops, id, i), now, weak, strong)
    ensures var m := Run(ops).0;
            Total(m.effects, m.effects.Keys, now) == Pair(weak, strong)
  {
    hide Run, Asks, Magnitudes, Begins, InForce, Normalize, PlayedBy, Total;
    AloneInMix(ops, id, i, now);
    var effects := Run(ops).0.effects;
    var p := Contribution(effects[id], now);
    weak, strong := p.weak, p.strong;
    EffectIsUpload(ops, id);
    ActiveIffPlayed(ops, id);
    MagnitudesAsked(effects[id], source, now);
    TotalTakesAny(effects, effects.Keys, now, id);
    NothingRunningIsSilent(effects, effects.Keys - {id}, now);
  }

  /**
   * After any run, a tick that finds exactly one effect in its window leaves the motors at what that
   * effect asks for, scaled by the gain last set: the low-frequency motor at its strong magnitude, the
   * high-frequency motor at its weak one.
   */
  lemma SoloTick(ops: seq<Op>, id: nat, i: nat, source: Source, now: int) returns (weak: int, strong: int)
    requires PlayedBy(ops, id, i) && InForce(ops, id) == Some(source)
    requires InWindow(ops, id, i, now) && Alone(ops, id, now)
    ensures 0 <= weak <= 65535 && 0 <= strong <= 65535
    ensures Asks(source, Begins(ops, id, i), now, weak, strong)
    ensures LastOf(Run(ops + [Tick(now)]).1) == (strong * GainSet(ops) / 65535, weak * GainSet(ops) / 65535)
  {
    hide Run, Asks, Begins, InForce, PlayedBy, Total, LastOf, InWindow, Alone, Scaled;
    weak, strong := SoloMix(ops, id, i, source, now);
    var m := Run(ops).0;
    TickLeaves(ops, now);
    GainIsLastSet(ops);
    GainApplied(weak, m.gain);
    GainApplied(strong, m.gain);
  }

  lemma GainApplied(total: int, gain: Magnitude)
    requires 0 <= total <= 65535
    ensures Scaled(total, gain) == total * gain / 65535
  {
  }

  /** At full gain a plain rumble effect gets the low-frequency motor its strong and the other its weak magnitude. */
  lemma SoloRumble(ops: seq<Op>, id: nat, i: nat, source: Source, now: int)
    requires PlayedBy(ops, id, i) && InForce(ops, id) == Some(source)
    requires InWindow(ops, id, i, now) && Alone(ops, id, now)
    requires GainSet(ops) == 65535 && source.shape.RumbleShape?
    ensures LastOf(Run(ops + [Tick(now)]).1) == (source.shape.strong, source.shape.weak)
  {
    hide Begins, InForce, PlayedBy, InWindow, Alone, LastOf, Run, GainSet;
    var weak, strong := SoloTick(ops, id, i, source, now);
  }

  /** At full gain a constant level without envelope drives both motors with twice its size, saturated. */
  lemma SoloLevel(ops: seq<Op>, id: nat, i: nat, source: Source, level: int, now: int)
    requires PlayedBy(ops, id, i) && InForce(ops, id) == Some(source)
    requires InWindow(ops, id, i, now) && Alone(ops, id, now) && GainSet(ops) == 65535
    requires source.shape in {ConstantShape(level, NO_ENVELOPE), PeriodicShape(level, NO_ENVELOPE)}
    ensures LastOf(Run(ops + [Tick(now)]).1) == (Doubled(level), Doubled(level))
  {
    hide Begins, InForce, PlayedBy, Alone, LastOf, Run, GainSet;
    var weak, strong := SoloTick(ops, id, i, source, now);
  }
}
