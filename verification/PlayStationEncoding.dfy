/**
 * Output reports as a host lays them out, written from the field order alone, and what parsing them must
 * give. The fields a host leaves free are arbitrary here, so these are all the reports there are.
 */
module PlayStationEncoding {
  import opened Basics
  import opened Crc32
  import opened PlayStationReports

  // ----- The trailer -------------------------------------------------------------------------

  /** The four bytes after a payload: the CRC of a byte 0xA2 and the payload, lowest byte first. */
  function Ending(payload: Bytes): (bytes: Bytes)
    ensures |bytes| == 4
  {
    var crc := Crc([0xA2] + payload, 0);
    [(crc & 0xFF) as bv8, ((crc >> 8) & 0xFF) as bv8, ((crc >> 16) & 0xFF) as bv8, ((crc >> 24) & 0xFF) as bv8]
  }

  /** The same report with its last four bytes made its ending. */
  function Finished(report: Bytes): (finished: Bytes)
    requires |report| >= 4
    ensures |finished| == |report|
  {
    report[..|report| - 4] + Ending(report[..|report| - 4])
  }

  lemma FinishedIsStamped(report: Bytes)
    requires |report| >= 4
    ensures Finished(report) == Stamped(report, OUTPUT_CRC_SEED)
  {
    hide Crc;
    CrcComposes([0xA2], Payload(report), 0);
  }

  lemma FinishedPasses(report: Bytes)
    requires |report| >= 4
    ensures TrailerOk(Finished(report), OUTPUT_CRC_SEED)
  {
    hide TrailerOk, Stamped, Finished;
    FinishedIsStamped(report);
    StampedPasses(report, OUTPUT_CRC_SEED);
  }

  /** A report whose trailer is right is its own finished form. */
  lemma RightIsFinished(report: Bytes)
    requires |report| >= 4 && TrailerOk(report, OUTPUT_CRC_SEED)
    ensures Finished(report) == report
  {
    hide Crc, Word, Byte0, Byte1, Byte2, Byte3;
    var n := |report| - 4;
    FinishedIsStamped(report);
    WordBytes(report[n], report[n + 1], report[n + 2], report[n + 3]);
    assert report == report[..n] + [report[n], report[n + 1], report[n + 2], report[n + 3]];
  }

  // ----- DualSense ---------------------------------------------------------------------------

  /** What a host asks for, and whatever else it writes: unused flag bits and the bytes between fields. */
  datatype DualSenseOrder = DualSenseOrder(
    rumble: bool, compatible: bool, left: bv8, right: bv8,
    light: bool, red: bv8, green: bv8, blue: bv8,
    rightTrigger: bool, rightKind: bv8, rightEffect: Bytes,
    leftTrigger: bool, leftKind: bv8, leftEffect: Bytes,
    other0: bv8, other1: bv8, other2: bv8,
    gap1: Bytes, gap2: Bytes, gap3: Bytes)
  {
    predicate Valid() {
      && |rightEffect| == 10 && |leftEffect| == 10
      && |gap1| == 6 && |gap2| == 6 && |gap3| == 5
      && other0 & 0x0D == 0 && other1 & 0x04 == 0 && other2 & 0x04 == 0
    }

    /** No flag at all is set. */
    predicate AllClear() {
      && !rumble && !compatible && !light && !rightTrigger && !leftTrigger
      && other0 == 0 && other1 == 0 && other2 == 0
    }
  }

  function Bit(on: bool, bit: bv8): bv8 {
    if on then bit else 0
  }

  function Fields(
    flag0: bv8, flag1: bv8, right: bv8, left: bv8, gap1: Bytes, rightKind: bv8, rightEffect: Bytes,
    leftKind: bv8, leftEffect: Bytes, gap2: Bytes, flag2: bv8, gap3: Bytes, red: bv8, green: bv8, blue: bv8): Bytes
  {
    [flag0, flag1, right, left] + gap1 + [rightKind] + rightEffect + [leftKind] + leftEffect + gap2
    + [flag2] + gap3 + [red, green, blue]
  }

  /** The 47 bytes every transport carries. */
  function DualSenseBlock(o: DualSenseOrder): (block: Bytes)
    requires o.Valid()
    ensures |block| == 47
  {
    Fields(
      o.other0 | Bit(o.rumble, 0x01) | Bit(o.rightTrigger, 0x04) | Bit(o.leftTrigger, 0x08),
      o.other1 | Bit(o.light, 0x04),
      o.right, o.left, o.gap1, o.rightKind, o.rightEffect, o.leftKind, o.leftEffect, o.gap2,
      o.other2 | Bit(o.compatible, 0x04), o.gap3, o.red, o.green, o.blue)
  }

  /** Bluetooth puts a tag before the block, and a second byte unless the tag's bit 1 is set. */
  datatype Transport = OverUsb | OverBluetooth(tag: bv8, second: bv8)

  function DualSenseHeader(t: Transport): Bytes {
    match t
    case OverUsb => [0x02]
    case OverBluetooth(tag, second) => if tag & 0x02 != 0 then [0x31, tag] else [0x31, tag, second]
  }

  /** A Bluetooth report long enough for a trailer ends in one. */
  function DualSenseReport(t: Transport, o: DualSenseOrder, tail: Bytes): Bytes
    requires o.Valid()
  {
    var report := DualSenseHeader(t) + DualSenseBlock(o) + tail;
    if t.OverBluetooth? && |report| >= 78 then Finished(report) else report
  }

  /** Full scale is 255 there and 65535 here. */
  function Strength(motor: bv8): int {
    motor as int * 257
  }

  /** The outputs a DualSense order stands for; the report itself when it asks for nothing known. */
  function DualSenseMeaning(o: DualSenseOrder, report: Bytes): seq<Output> {
    var rumble :=
      if o.rumble || o.compatible then [Rumble(Strength(o.left), Strength(o.right))]
      else if o.AllClear() then [Rumble(0, 0)]
      else [];
    var light := if o.light then [RgbLed(o.red, o.green, o.blue)] else [];
    var triggers :=
      if o.rightTrigger || o.leftTrigger then
        [AdaptiveTriggers(Bit(o.rightTrigger, 0x04) | Bit(o.leftTrigger, 0x08),
                          o.leftKind, o.rightKind, o.leftEffect, o.rightEffect)]
      else [];
    if rumble + light + triggers == [] then [Raw(report)] else rumble + light + triggers
  }

  lemma DualSenseFlags(o: DualSenseOrder)
    requires o.Valid()
    ensures var b := DualSenseBlock(o);
            && (HasFlag(b[0], 0x01) <==> o.rumble)
            && (HasFlag(b[1], 0x04) <==> o.light)
            && (HasFlag(b[38], 0x04) <==> o.compatible)
            && b[0] & 0x0C == Bit(o.rightTrigger, 0x04) | Bit(o.leftTrigger, 0x08)
            && (b[0] & 0x0C != 0 <==> o.rightTrigger || o.leftTrigger)
            && (b[0] == 0 && b[1] == 0 && b[38] == 0 <==> o.AllClear())
  {
    FlagsOf(o.other0, o.rumble, o.rightTrigger, o.leftTrigger);
    FlagOf(o.other1, o.light);
    FlagOf(o.other2, o.compatible);
  }

  lemma FlagsOf(other: bv8, rumble: bool, right: bool, left: bool)
    requires other & 0x0D == 0
    ensures var f := other | Bit(rumble, 0x01) | Bit(right, 0x04) | Bit(left, 0x08);
            && (HasFlag(f, 0x01) <==> rumble)
            && f & 0x0C == Bit(right, 0x04) | Bit(left, 0x08)
            && (f & 0x0C != 0 <==> right || left)
            && (f == 0 <==> !rumble && !right && !left && other == 0)
  {
  }

  lemma FlagOf(other: bv8, on: bool)
    requires other & 0x04 == 0
    ensures var f := other | Bit(on, 0x04);
            && (HasFlag(f, 0x04) <==> on)
            && (f == 0 <==> !on && other == 0)
  {
  }

  /** Decoding the block where it lies gives the order's outputs. */
  lemma DualSenseBlockDecodes(o: DualSenseOrder, report: Bytes, at: nat)
    requires o.Valid() && at + 47 <= |report| && report[at..at + 47] == DualSenseBlock(o)
    ensures (if DualSenseOutputs(report, at) == [] then [Raw(report)] else DualSenseOutputs(report, at))
         == DualSenseMeaning(o, report)
  {
    var b := DualSenseBlock(o);
    DualSenseFlags(o);
    DualSenseFields(o);
    assert forall i :: 0 <= i < 47 ==> report[at + i] == report[at..at + 47][i] == b[i];
    assert report[at + 22..at + 32] == report[at..at + 47][22..32];
    assert report[at + 11..at + 21] == report[at..at + 47][11..21];
    hide DualSenseBlock, HasFlag;
  }

  /** Where each field of the block is. */
  lemma DualSenseFields(o: DualSenseOrder)
    requires o.Valid()
    ensures var b := DualSenseBlock(o);
            && b[2] == o.right && b[3] == o.left
            && b[10] == o.rightKind && b[11..21] == o.rightEffect
            && b[21] == o.leftKind && b[22..32] == o.leftEffect
            && b[44] == o.red && b[45] == o.green && b[46] == o.blue
  {
  }

  /** The block lies behind the header, a trailer or not. */
  lemma DualSenseLayout(t: Transport, o: DualSenseOrder, tail: Bytes)
    requires o.Valid()
    ensures var at, r := |DualSenseHeader(t)|, DualSenseReport(t, o, tail);
            && |r| == at + 47 + |tail| && r[..at] == DualSenseHeader(t) && r[at..at + 47] == DualSenseBlock(o)
  {
    hide DualSenseBlock, Finished, Ending;
    var at := |DualSenseHeader(t)|;
    var plain := DualSenseHeader(t) + DualSenseBlock(o) + tail;
    assert plain[..at] == DualSenseHeader(t) && plain[at..at + 47] == DualSenseBlock(o);
    if |plain| >= 78 {
      KeepsFront(plain, at);
      KeepsFront(plain, at + 47);
      assert Finished(plain)[at..at + 47] == Finished(plain)[..at + 47][at..] == plain[..at + 47][at..];
    }
  }

  lemma KeepsFront(report: Bytes, n: nat)
    requires |report| >= 4 && n <= |report| - 4
    ensures Finished(report)[..n] == report[..n]
  {
    hide Ending;
  }

  /** The header alone says where the block is, and a trailer that is looked at is right. */
  lemma DualSenseFound(t: Transport, o: DualSenseOrder, tail: Bytes)
    requires o.Valid()
    ensures DualSenseOffset(DualSenseReport(t, o, tail)) == Some(|DualSenseHeader(t)|)
  {
    hide TrailerOk, Finished, DualSenseBlock;
    DualSenseLayout(t, o, tail);
    var r, header := DualSenseReport(t, o, tail), DualSenseHeader(t);
    assert r[0] == r[..|header|][0] == header[0];
    if t.OverBluetooth? {
      assert r[1] == r[..|header|][1] == header[1];
      if |r| >= 78 {
        FinishedPasses(header + DualSenseBlock(o) + tail);
      }
    }
  }

  /**
   * For every order, transport, filler and length: parsing a laid-out DualSense report, stamped where it
   * is long enough, gives exactly what the order asked for.
   */
  lemma DualSenseParses(t: Transport, o: DualSenseOrder, tail: Bytes)
    requires o.Valid()
    ensures var r := DualSenseReport(t, o, tail);
            ParseOutputReports(DualSense, r) == DualSenseMeaning(o, r)
  {
    hide DualSenseOffset, DualSenseOutputs, DualSenseReport, DualSenseBlock, DualSenseMeaning;
    DualSenseFound(t, o, tail);
    DualSenseLayout(t, o, tail);
    DualSenseBlockDecodes(o, DualSenseReport(t, o, tail), |DualSenseHeader(t)|);
  }

  lemma SplitFlags(f: bv8)
    ensures (f & 0xF2) | Bit(HasFlag(f, 0x01), 0x01) | Bit(HasFlag(f, 0x04), 0x04) | Bit(HasFlag(f, 0x08), 0x08) == f
    ensures (f & 0xFB) | Bit(HasFlag(f, 0x04), 0x04) == f
    ensures (f & 0xFC) | Bit(HasFlag(f, 0x01), 0x01) | Bit(HasFlag(f, 0x02), 0x02) == f
    ensures f & 0xF2 & 0x0D == 0 && f & 0xFB & 0x04 == 0 && f & 0xFC & 0x03 == 0
  {
  }

  /** Any 47 bytes are the block of some order. */
  function DualSenseOrderOf(b: Bytes): (o: DualSenseOrder)
    requires |b| == 47
  {
    DualSenseOrder(
      HasFlag(b[0], 0x01), HasFlag(b[38], 0x04), b[3], b[2],
      HasFlag(b[1], 0x04), b[44], b[45], b[46],
      HasFlag(b[0], 0x04), b[10], b[11..21],
      HasFlag(b[0], 0x08), b[21], b[22..32],
      b[0] & 0xF2, b[1] & 0xFB, b[38] & 0xFB,
      b[4..10], b[32..38], b[39..44])
  }

  lemma AnyDualSenseBlock(b: Bytes)
    requires |b| == 47
    ensures DualSenseOrderOf(b).Valid() && DualSenseBlock(DualSenseOrderOf(b)) == b
  {
    SplitFlags(b[0]);
    SplitFlags(b[1]);
    SplitFlags(b[38]);
    BlockParts(b);
    hide HasFlag, Bit, Fields;
  }

  lemma BlockParts(b: Bytes)
    requires |b| == 47
    ensures Fields(b[0], b[1], b[2], b[3], b[4..10], b[10], b[11..21], b[21], b[22..32], b[32..38],
                   b[38], b[39..44], b[44], b[45], b[46]) == b
  {
    assert b[..4] == [b[0], b[1], b[2], b[3]] && b[44..] == [b[44], b[45], b[46]];
    assert b[..10] == b[..4] + b[4..10];
    assert b[..21] == b[..10] + [b[10]] + b[11..21];
    assert b[..32] == b[..21] + [b[21]] + b[22..32];
    assert b[..44] == b[..32] + b[32..38] + [b[38]] + b[39..44];
    assert b == b[..44] + b[44..];
  }

  lemma InThree(report: Bytes, at: nat, n: nat)
    requires at + n <= |report|
    ensures report == report[..at] + report[at..at + n] + report[at + n..]
  {
  }

  ghost predicate LaidOutDualSense(report: Bytes) {
    exists t, o: DualSenseOrder, tail :: o.Valid() && report == DualSenseReport(t, o, tail)
  }

  /** Whatever no host can have laid out like this is handed on raw. */
  lemma DualSenseElseRaw(report: Bytes)
    ensures LaidOutDualSense(report) || ParseOutputReports(DualSense, report) == [Raw(report)]
  {
    hide DualSenseBlock, DualSenseOrderOf, TrailerOk, Finished, HasFlag, LaidOutDualSense, DualSenseOutputs;
    if DualSenseOffset(report).Some? {
      var at := DualSenseOffset(report).value;
      var t := if report[0] == 0x02 then OverUsb else OverBluetooth(report[1], report[2]);
      HeaderFound(report, at, t);
      DualSenseTaken(report, at, t);
    }
  }

  lemma HeaderFound(report: Bytes, at: nat, t: Transport)
    requires DualSenseOffset(report) == Some(at)
    requires t == if report[0] == 0x02 then OverUsb else OverBluetooth(report[1], report[2])
    ensures at + 47 <= |report| && DualSenseHeader(t) == report[..at]
    ensures t.OverBluetooth? && |report| >= 78 ==> TrailerOk(report, OUTPUT_CRC_SEED)
  {
    hide TrailerOk;
  }

  lemma DualSenseTaken(report: Bytes, at: nat, t: Transport)
    requires at + 47 <= |report| && DualSenseHeader(t) == report[..at]
    requires t.OverBluetooth? && |report| >= 78 ==> TrailerOk(report, OUTPUT_CRC_SEED)
    ensures LaidOutDualSense(report)
  {
    var o, tail := DualSenseOrderOf(report[at..at + 47]), report[at + 47..];
    AnyDualSenseBlock(report[at..at + 47]);
    hide DualSenseBlock, DualSenseOrderOf, DualSenseHeader, DualSenseReport, DualSenseOrder.Valid, TrailerOk;
    InThree(report, at, 47);
    ReportOf(t, o, tail, report);
  }

  lemma ReportOf(t: Transport, o: DualSenseOrder, tail: Bytes, report: Bytes)
    requires o.Valid() && report == DualSenseHeader(t) + DualSenseBlock(o) + tail
    requires t.OverBluetooth? && |report| >= 78 ==> TrailerOk(report, OUTPUT_CRC_SEED)
    ensures report == DualSenseReport(t, o, tail)
  {
    hide DualSenseBlock, DualSenseHeader, DualSenseOrder.Valid, TrailerOk, Finished;
    if t.OverBluetooth? && |report| >= 78 {
      RightIsFinished(report);
    }
  }

  // ----- DualShock 4 -------------------------------------------------------------------------

  datatype DualShock4Order = DualShock4Order(
    rumble: bool, left: bv8, right: bv8,
    light: bool, red: bv8, green: bv8, blue: bv8,
    other0: bv8, other1: bv8, gap: bv8)
  {
    predicate Valid() {
      other0 & 0x03 == 0
    }

    predicate AllClear() {
      !rumble && !light && other0 == 0 && other1 == 0
    }
  }

  function DualShock4Block(o: DualShock4Order): (block: Bytes)
    ensures |block| == 8
  {
    [o.other0 | Bit(o.rumble, 0x01) | Bit(o.light, 0x02), o.other1, o.gap, o.right, o.left, o.red, o.green, o.blue]
  }

  /** Over Bluetooth a control byte comes first; its bit 6 announces a trailer. */
  datatype Link = Cable | Radio(control: bv8, second: bv8)

  function DualShock4Header(link: Link): Bytes {
    match link
    case Cable => [0x05]
    case Radio(control, second) => [0x11, control, second]
  }

  function DualShock4Report(link: Link, o: DualShock4Order, tail: Bytes): Bytes {
    var report := DualShock4Header(link) + DualShock4Block(o) + tail;
    if link.Radio? && link.control & 0x40 != 0 && |report| >= 78 then Finished(report) else report
  }

  function DualShock4Meaning(o: DualShock4Order, report: Bytes): seq<Output> {
    var rumble :=
      if o.rumble then [Rumble(Strength(o.left), Strength(o.right))]
      else if o.AllClear() then [Rumble(0, 0)]
      else [];
    var light := if o.light then [RgbLed(o.red, o.green, o.blue)] else [];
    if rumble + light == [] then [Raw(report)] else rumble + light
  }

  lemma DualShock4Flags(other: bv8, rumble: bool, light: bool)
    requires other & 0x03 == 0
    ensures var f := other | Bit(rumble, 0x01) | Bit(light, 0x02);
            && (HasFlag(f, 0x01) <==> rumble) && (HasFlag(f, 0x02) <==> light)
            && (f == 0 <==> !rumble && !light && other == 0)
  {
  }

  lemma DualShock4BlockDecodes(o: DualShock4Order, report: Bytes, at: nat)
    requires o.Valid() && at + 8 <= |report| && report[at..at + 8] == DualShock4Block(o)
    ensures (if DualShock4Outputs(report, at) == [] then [Raw(report)] else DualShock4Outputs(report, at))
         == DualShock4Meaning(o, report)
  {
    var b := DualShock4Block(o);
    DualShock4Fields(o);
    assert forall i :: 0 <= i < 8 ==> report[at + i] == report[at..at + 8][i] == b[i];
    hide DualShock4Block, HasFlag;
  }

  /** Where each field of the block is. */
  lemma DualShock4Fields(o: DualShock4Order)
    requires o.Valid()
    ensures var b := DualShock4Block(o);
            && (HasFlag(b[0], 0x01) <==> o.rumble) && (HasFlag(b[0], 0x02) <==> o.light)
            && (b[0] == 0 && b[1] == 0 <==> o.AllClear())
            && b[3] == o.right && b[4] == o.left && b[5] == o.red && b[6] == o.green && b[7] == o.blue
  {
    DualShock4Flags(o.other0, o.rumble, o.light);
  }

  lemma DualShock4Layout(link: Link, o: DualShock4Order, tail: Bytes)
    ensures var at, r := |DualShock4Header(link)|, DualShock4Report(link, o, tail);
            && |r| == at + 8 + |tail| && r[..at] == DualShock4Header(link) && r[at..at + 8] == DualShock4Block(o)
  {
    hide DualShock4Block, Finished, Ending;
    var at := |DualShock4Header(link)|;
    var plain := DualShock4Header(link) + DualShock4Block(o) + tail;
    assert plain[..at] == DualShock4Header(link) && plain[at..at + 8] == DualShock4Block(o);
    if |plain| >= 78 {
      KeepsFront(plain, at);
      KeepsFront(plain, at + 8);
      assert Finished(plain)[at..at + 8] == Finished(plain)[..at + 8][at..] == plain[..at + 8][at..];
    }
  }

  lemma DualShock4Found(link: Link, o: DualShock4Order, tail: Bytes)
    ensures var r := DualShock4Report(link, o, tail);
            DualShock4Offset(r) ==
            if |r| >= (if link.Cable? then 32 else 78) then Some(|DualShock4Header(link)|) else None
  {
    hide TrailerOk, Finished, DualShock4Block;
    DualShock4Layout(link, o, tail);
    var r, header := DualShock4Report(link, o, tail), DualShock4Header(link);
    assert r[0] == r[..|header|][0] == header[0];
    if link.Radio? {
      assert r[1] == r[..|header|][1] == header[1];
      if |r| >= 78 {
        FinishedPasses(header + DualShock4Block(o) + tail);
      }
    }
  }

  /** The same for a DualShock 4; a report too short for its link is handed on raw. */
  lemma DualShock4Parses(link: Link, o: DualShock4Order, tail: Bytes)
    requires o.Valid()
    ensures var r := DualShock4Report(link, o, tail);
            ParseOutputReports(DualShock4, r) ==
            if |r| >= (if link.Cable? then 32 else 78) then DualShock4Meaning(o, r) else [Raw(r)]
  {
    hide DualShock4Offset, DualShock4Outputs, DualShock4Report, DualShock4Block, DualShock4Meaning;
    DualShock4Found(link, o, tail);
    DualShock4Layout(link, o, tail);
    var r := DualShock4Report(link, o, tail);
    DualShock4BlockDecodes(o, r, |DualShock4Header(link)|);
  }

  function DualShock4OrderOf(b: Bytes): (o: DualShock4Order)
    requires |b| == 8
  {
    DualShock4Order(HasFlag(b[0], 0x01), b[4], b[3], HasFlag(b[0], 0x02), b[5], b[6], b[7], b[0] & 0xFC, b[1], b[2])
  }

  lemma AnyDualShock4Block(b: Bytes)
    requires |b| == 8
    ensures DualShock4OrderOf(b).Valid() && DualShock4Block(DualShock4OrderOf(b)) == b
  {
    SplitFlags(b[0]);
    hide HasFlag, Bit;
  }

  ghost predicate LaidOutDualShock4(report: Bytes) {
    exists link, o: DualShock4Order, tail :: o.Valid() && report == DualShock4Report(link, o, tail)
  }

  lemma DualShock4ElseRaw(report: Bytes)
    ensures LaidOutDualShock4(report) || ParseOutputReports(DualShock4, report) == [Raw(report)]
  {
    hide DualShock4Outputs, LaidOutDualShock4, TrailerOk, HasFlag;
    if DualShock4Offset(report).Some? {
      DualShock4Taken(report, DualShock4Offset(report).value);
    }
  }

  lemma DualShock4Taken(report: Bytes, at: nat)
    requires DualShock4Offset(report) == Some(at)
    ensures LaidOutDualShock4(report)
  {
    var link := if report[0] == 0x05 then Cable else Radio(report[1], report[2]);
    var o, tail := DualShock4OrderOf(report[at..at + 8]), report[at + 8..];
    AnyDualShock4Block(report[at..at + 8]);
    hide DualShock4Block, DualShock4OrderOf, TrailerOk, Finished;
    assert DualShock4Header(link) == report[..at];
    InThree(report, at, 8);
    assert report == DualShock4Header(link) + DualShock4Block(o) + tail;
    if link.Radio? && link.control & 0x40 != 0 {
      RightIsFinished(report);
    }
    assert report == DualShock4Report(link, o, tail);
  }
}
