/**
 * The driver-backed Windows keyboard: every HID report carries the eight modifiers and the held usages
 * in ascending order, or ErrorRollOver in every slot when more are held than fit (Appendix C of the
 * Device Class Definition for HID 1.11).
 */
module WindowsHidKeyboard {
  import opened Basics
  import opened Bytes
  import opened Collections

  const KEYBOARD_INPUT_REPORT_SIZE: nat := 18
  const USAGE_OFFSET: nat := 2
  const USAGE_CAPACITY: nat := 16
  const ERROR_ROLLOVER_USAGE: Byte := 1

  /** Keyboard-page usages of keys; 0 means no key and 1..3 are error codes. */
  type Usage = u: int | 4 <= u < 256 witness 4

  type ModifierBit = b: int | 0 <= b < 8

  /** A key event after the scan-code and virtual-key tables: keys without a usage take another path. */
  datatype KeyEvent = Modifier(bit: ModifierBit, pressed: bool) | Key(usage: Usage, pressed: bool) | Unmapped

  datatype Held = Held(modifiers: bv8, usages: set<int>)

  const NOTHING_HELD: Held := Held(0, {})

  function WithModifier(modifiers: bv8, bit: ModifierBit, pressed: bool): bv8 {
    if pressed then modifiers | ((1 as bv8) << bit) else modifiers & !((1 as bv8) << bit)
  }

  predicate HasModifier(modifiers: bv8, bit: ModifierBit) {
    modifiers & ((1 as bv8) << bit) != 0
  }

  function After(h: Held, e: KeyEvent): Held {
    match e
    case Modifier(bit, pressed) => h.(modifiers := WithModifier(h.modifiers, bit, pressed))
    case Key(u, pressed) => h.(usages := if pressed then h.usages + {u} else h.usages - {u})
    case Unmapped => h
  }

  // ----- The report --------------------------------------------------------------------------

  /** The elements from `from` on, the way an ordered set of bytes iterates. */
  function Ascending(s: set<int>, from: nat): (order: seq<Byte>)
    requires from <= 256
    ensures forall k :: 0 <= k < |order| ==> order[k] in s && from <= order[k]
    ensures forall j, k :: 0 <= j < k < |order| ==> order[j] < order[k]
    decreases s, 256 - from
  {
    if from == 256 then []
    else if from in s then [from] + Ascending(s, from + 1)
    else Ascending(s, from + 1)
  }

  ghost predicate ByteSet(s: set<int>) {
    forall u :: u in s ==> 4 <= u < 256
  }

  lemma {:induction false} AscendingHasAll(s: set<int>, from: nat, u: int) returns (k: nat)
    requires from <= 256 && u in s && from <= u < 256
    ensures k < |Ascending(s, from)| && Ascending(s, from)[k] == u
    decreases 256 - from
  {
    if from == u {
      k := 0;
    } else {
      k := AscendingHasAll(s, from + 1, u);
      k := if from in s then k + 1 else k;
    }
  }

  /** Iterating visits each element once. */
  lemma {:induction false} AscendingCount(s: set<int>, from: nat)
    requires from <= 256
    requires forall u :: u in s ==> from <= u < 256
    ensures |Ascending(s, from)| == |s|
    decreases 256 - from
  {
    if from == 256 {
      assert s == {};
    } else if from in s {
      AscendingCount(s - {from}, from + 1);
      SameTail(s, s - {from}, from + 1);
    } else {
      AscendingCount(s, from + 1);
    }
  }

  lemma {:induction false} SameTail(s: set<int>, t: set<int>, from: nat)
    requires from <= 256 && forall u :: from <= u ==> (u in s <==> u in t)
    ensures Ascending(s, from) == Ascending(t, from)
    decreases 256 - from
  {
    if from < 256 {
      SameTail(s, t, from + 1);
    }
  }

  function Padded(order: seq<Byte>): (slots: seq<Byte>)
    ensures |slots| == USAGE_CAPACITY
  {
    if |order| > USAGE_CAPACITY then seq(USAGE_CAPACITY, _ => ERROR_ROLLOVER_USAGE)
    else order + seq(USAGE_CAPACITY - |order|, _ => 0)
  }

  function Slots(usages: set<int>): (slots: seq<Byte>)
    ensures |slots| == USAGE_CAPACITY
  {
    Padded(Ascending(usages, 0))
  }

  function Encode(h: Held): (report: seq<Byte>)
    ensures |report| == KEYBOARD_INPUT_REPORT_SIZE
  {
    [h.modifiers as Byte, 0] + Slots(h.usages)
  }

  // ----- The reader --------------------------------------------------------------------------

  datatype Reading = Keys(modifiers: bv8, usages: set<int>) | RolledOver(modifiers: bv8)

  /** A boot-protocol reader: all slots in error means phantom state, otherwise nonzero slots are keys. */
  ghost function Decode(report: seq<Byte>): Reading
    requires |report| == 18
  {
    if forall k :: 2 <= k < |report| ==> report[k] == 1
    then RolledOver(report[0] as bv8)
    else Keys(report[0] as bv8, set k | 2 <= k < |report| && report[k] != 0 :: report[k])
  }

  /** The report shows exactly what is held, and says so when it cannot. */
  lemma ReportShowsHeld(h: Held)
    requires ByteSet(h.usages)
    ensures Decode(Encode(h)) ==
            if |h.usages| <= 16 then Keys(h.modifiers, h.usages) else RolledOver(h.modifiers)
  {
    var report := Encode(h);
    var order := Ascending(h.usages, 0);
    AscendingCount(h.usages, 0);
    assert (h.modifiers as Byte) as bv8 == h.modifiers;
    assert report[0] == h.modifiers as Byte;
    if |h.usages| > USAGE_CAPACITY {
      assert forall k :: USAGE_OFFSET <= k < |report| ==> report[k] == ERROR_ROLLOVER_USAGE;
    } else {
      assert forall k :: 0 <= k < |order| ==> report[USAGE_OFFSET + k] == order[k];
      assert forall k :: USAGE_OFFSET + |order| <= k < |report| ==> report[k] == 0;
      assert report[USAGE_OFFSET] != ERROR_ROLLOVER_USAGE;
      SlotsAreUsages(h, report, order);
    }
  }

  /** The keys stand in ascending order from byte 2 on, each once; byte 1 stays free. */
  lemma SlotsAscend(h: Held, j: nat, k: nat)
    requires ByteSet(h.usages) && |h.usages| <= 16 && 2 <= j < k < 18 && Encode(h)[k] != 0
    ensures 0 != Encode(h)[j] < Encode(h)[k] && Encode(h)[1] == 0
  {
    var order := Ascending(h.usages, 0);
    AscendingCount(h.usages, 0);
    assert Encode(h)[j] == Slots(h.usages)[j - 2] && Encode(h)[k] == Slots(h.usages)[k - 2];
    assert order[j - 2] in h.usages;
  }

  lemma SlotsAreUsages(h: Held, report: seq<Byte>, order: seq<Byte>)
    requires ByteSet(h.usages) && order == Ascending(h.usages, 0) && |order| <= USAGE_CAPACITY
    requires |report| == KEYBOARD_INPUT_REPORT_SIZE
    requires forall k :: 0 <= k < |order| ==> report[USAGE_OFFSET + k] == order[k]
    requires forall k :: USAGE_OFFSET + |order| <= k < |report| ==> report[k] == 0
    ensures (set k | USAGE_OFFSET <= k < |report| && report[k] != 0 :: report[k]) == h.usages
  {
    var shown: set<int> := set k | USAGE_OFFSET <= k < |report| && report[k] != 0 :: report[k];
    forall u | u in h.usages
      ensures u in shown
    {
      var k := AscendingHasAll(h.usages, 0, u);
      assert report[USAGE_OFFSET + k] == u;
    }
    forall k | USAGE_OFFSET <= k < |report| && report[k] != 0
      ensures report[k] in h.usages
    {
      assert report[USAGE_OFFSET + (k - USAGE_OFFSET)] == order[k - USAGE_OFFSET];
    }
  }

  // ----- Whole histories ---------------------------------------------------------------------

  function HeldAfter(history: seq<KeyEvent>): Held {
    if history == [] then NOTHING_HELD else After(HeldAfter(history[..|history| - 1]), history[|history| - 1])
  }

  /** Every report submitted, one per mapped event. */
  function Reports(history: seq<KeyEvent>): (log: seq<seq<Byte>>)
    ensures forall k :: 0 <= k < |log| ==> |log[k]| == KEYBOARD_INPUT_REPORT_SIZE
  {
    if history == [] then []
    else if history[|history| - 1].Unmapped? then Reports(history[..|history| - 1])
    else Reports(history[..|history| - 1]) + [Encode(HeldAfter(history))]
  }

  /** A key is down when it was pressed at some point and not released since. */
  ghost predicate PressedNotReleased(history: seq<KeyEvent>, u: Usage) {
    exists i :: 0 <= i < |history| && history[i] == Key(u, true)
             && forall j :: i < j < |history| ==> history[j] != Key(u, false)
  }

  ghost predicate ModifierDown(history: seq<KeyEvent>, b: ModifierBit) {
    exists i :: 0 <= i < |history| && history[i] == Modifier(b, true)
             && forall j :: i < j < |history| ==> history[j] != Modifier(b, false)
  }

  lemma {:induction false} HeldIsByteSet(history: seq<KeyEvent>)
    ensures ByteSet(HeldAfter(history).usages)
  {
    if history != [] {
      HeldIsByteSet(history[..|history| - 1]);
    }
  }

  lemma {:induction false} HeldIsPressed(history: seq<KeyEvent>, u: Usage)
    ensures u in HeldAfter(history).usages <==> PressedNotReleased(history, u)
    decreases |history|
  {
    if history != [] {
      var before, e := history[..|history| - 1], history[|history| - 1];
      HeldIsPressed(before, u);
      if PressedNotReleased(before, u) && e != Key(u, false) {
        var i :| 0 <= i < |before| && before[i] == Key(u, true)
                 && forall j :: i < j < |before| ==> before[j] != Key(u, false);
        assert history[i] == Key(u, true);
      }
      if PressedNotReleased(history, u) && e != Key(u, true) {
        var i :| 0 <= i < |history| && history[i] == Key(u, true)
                 && forall j :: i < j < |history| ==> history[j] != Key(u, false);
        assert before[i] == Key(u, true);
      }
      if e == Key(u, true) {
        assert history[|history| - 1] == Key(u, true);
      }
    }
  }

  lemma ModifierStep(modifiers: bv8, bit: ModifierBit, pressed: bool, other: ModifierBit)
    ensures HasModifier(WithModifier(modifiers, bit, pressed), other) ==
            if other == bit then pressed else HasModifier(modifiers, other)
  {
    var a, b := (1 as bv8) << bit, (1 as bv8) << other;
    MaskFacts(bit, other);
    MaskOps(modifiers, a, b);
  }

  lemma MaskFacts(bit: ModifierBit, other: ModifierBit)
    ensures (1 as bv8) << bit != 0
    ensures bit != other ==> ((1 as bv8) << bit) & ((1 as bv8) << other) == 0
  {
  }

  lemma {:induction false} ModifierIsPressed(history: seq<KeyEvent>, b: ModifierBit)
    ensures HasModifier(HeldAfter(history).modifiers, b) <==> ModifierDown(history, b)
    decreases |history|
  {
    hide HasModifier, WithModifier;
    if history == [] {
      NoModifier(b);
    } else {
      var before, e := history[..|history| - 1], history[|history| - 1];
      ModifierIsPressed(before, b);
      if e.Modifier? {
        ModifierStep(HeldAfter(before).modifiers, e.bit, e.pressed, b);
      }
      if ModifierDown(before, b) && e != Modifier(b, false) {
        var i :| 0 <= i < |before| && before[i] == Modifier(b, true)
                 && forall j :: i < j < |before| ==> before[j] != Modifier(b, false);
        assert history[i] == Modifier(b, true);
      }
      if ModifierDown(history, b) && e != Modifier(b, true) {
        var i :| 0 <= i < |history| && history[i] == Modifier(b, true)
                 && forall j :: i < j < |history| ==> history[j] != Modifier(b, false);
        assert before[i] == Modifier(b, true);
      }
      if e == Modifier(b, true) {
        assert history[|history| - 1] == Modifier(b, true);
      }
    }
  }

  lemma NoModifier(b: ModifierBit)
    ensures !HasModifier(0, b)
  {
    var mask := (1 as bv8) << b;
    assert (0 as bv8) & mask == 0;
  }

  /** The last report was encoded from the state the whole history leaves. */
  lemma {:induction false} LastReportIsCurrent(history: seq<KeyEvent>)
    ensures Reports(history) != [] ==> Reports(history)[|Reports(history)| - 1] == Encode(HeldAfter(history))
    ensures Reports(history) == [] ==> HeldAfter(history) == NOTHING_HELD
    decreases |history|
  {
    if history != [] {
      LastReportIsCurrent(history[..|history| - 1]);
    }
  }

  /**
   * After any history the last report decodes to exactly the modifiers and keys pressed and not
   * released, when the keys fit, and to a rollover otherwise; so it recovers as soon as they fit again.
   */
  lemma LastReportShowsPressedKeys(history: seq<KeyEvent>)
    requires Reports(history) != []
    ensures var log := Reports(history);
            var reading := Decode(log[|log| - 1]);
            && (reading.Keys? <==> |HeldAfter(history).usages| <= 16)
            && (forall b: ModifierBit :: HasModifier(reading.modifiers, b) <==> ModifierDown(history, b))
            && (reading.Keys? ==> ByteSet(reading.usages)
                                  && forall u: Usage :: u in reading.usages <==> PressedNotReleased(history, u))
  {
    hide Encode, Decode, HasModifier, Reports, HeldAfter;
    LastReportIsCurrent(history);
    HeldIsByteSet(history);
    ReportShowsHeld(HeldAfter(history));
    forall b: ModifierBit
      ensures HasModifier(HeldAfter(history).modifiers, b) <==> ModifierDown(history, b)
    {
      ModifierIsPressed(history, b);
    }
    forall u: Usage
      ensures u in HeldAfter(history).usages <==> PressedNotReleased(history, u)
    {
      HeldIsPressed(history, u);
    }
  }

  // ----- The device --------------------------------------------------------------------------

  datatype Status = Ok | DeviceClosed | SubmitFailed | Fallback

  /** `WindowsHidKeyboard`: the held sets move first, so the next report that gets through is current. */
  class WindowsHidKeyboard {
    var open: bool
    var modifiers: bv8
    var pressedUsages: set<int>
    var submitted: seq<seq<Byte>>

    function View(): Held
      reads this
    {
      Held(modifiers, pressedUsages)
    }

    constructor ()
      ensures open && View() == NOTHING_HELD && submitted == []
    {
      open, modifiers, pressedUsages, submitted := true, 0, {}, [];
    }

    method Emit() returns (ok: bool)
      modifies this`submitted
      ensures submitted == if ok then old(submitted) + [Encode(View())] else old(submitted)
    {
      hide Padded, Ascending;
      var report := new Byte[KEYBOARD_INPUT_REPORT_SIZE](_ => 0);
      report[0] := modifiers as Byte;
      CopyUsages(report, Ascending(pressedUsages, 0));
      assert report[..] == [report[0], report[1]] + report[USAGE_OFFSET..];
      ok := *;
      if ok {
        submitted := submitted + [report[..]];
      }
    }

    static method CopyUsages(report: array<Byte>, order: seq<Byte>)
      requires report.Length == KEYBOARD_INPUT_REPORT_SIZE
      requires forall k :: USAGE_OFFSET <= k < report.Length ==> report[k] == 0
      modifies report
      ensures report[0] == old(report[0]) && report[1] == old(report[1])
      ensures report[USAGE_OFFSET..] == Padded(order)
    {
      var i := 0;
      if |order| > USAGE_CAPACITY {
        while i < USAGE_CAPACITY
          invariant 0 <= i <= USAGE_CAPACITY
          invariant report[0] == old(report[0]) && report[1] == old(report[1])
          invariant forall k :: USAGE_OFFSET <= k < USAGE_OFFSET + i ==> report[k] == ERROR_ROLLOVER_USAGE
        {
          report[USAGE_OFFSET + i] := ERROR_ROLLOVER_USAGE;
          i := i + 1;
        }
      } else {
        while i < |order|
          invariant 0 <= i <= |order|
          invariant report[0] == old(report[0]) && report[1] == old(report[1])
          invariant forall k :: USAGE_OFFSET <= k < USAGE_OFFSET + i ==> report[k] == order[k - USAGE_OFFSET]
          invariant forall k :: USAGE_OFFSET + i <= k < report.Length ==> report[k] == 0
        {
          report[USAGE_OFFSET + i] := order[i];
          i := i + 1;
        }
      }
    }

    method Submit(e: KeyEvent) returns (status: Status)
      modifies this
      ensures open == old(open)
      ensures status.DeviceClosed? <==> !open
      ensures View() == if open then After(old(View()), e) else old(View())
      ensures status.Fallback? <==> open && e.Unmapped?
      ensures submitted == if status.Ok? then old(submitted) + [Encode(View())] else old(submitted)
    {
      if !open {
        return DeviceClosed;
      }
      var ok: bool;
      match e {
        case Modifier(bit, pressed) =>
          modifiers := WithModifier(modifiers, bit, pressed);
        case Key(usage, pressed) =>
          pressedUsages := if pressed then pressedUsages + {usage} else pressedUsages - {usage};
        case Unmapped =>
          return Fallback;
      }
      ok := Emit();
      return if ok then Ok else SubmitFailed;
    }

    method Close()
      modifies this`open
      ensures !open
    {
      open := false;
    }
  }
}
