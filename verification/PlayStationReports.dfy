/**
 * Bluetooth PlayStation reports end in a CRC over a seed byte and everything before it. This module
 * stamps and checks that trailer and parses DualSense and DualShock 4 output reports.
 */
module PlayStationReports {
  import opened Basics
  import opened Crc32
  import CrcPolynomial

  const OUTPUT_CRC_SEED: bv8 := 0xA2
  const FEATURE_CRC_SEED: bv8 := 0xA3
  const TRAILER_SIZE: nat := 4

  const DUALSENSE_USB_OUTPUT_REPORT_ID: bv8 := 0x02
  const DUALSENSE_BT_OUTPUT_REPORT_ID: bv8 := 0x31
  const DUALSHOCK4_USB_OUTPUT_REPORT_ID: bv8 := 0x05
  const DUALSHOCK4_BT_OUTPUT_REPORT_ID: bv8 := 0x11
  const DUALSHOCK4_HWCTL_CRC32: bv8 := 0x40
  const CHECKED_REPORT_SIZE: nat := 78

  predicate HasFlag(value: bv8, flag: bv8) {
    value & flag != 0
  }

  // ----- The trailer -------------------------------------------------------------------------

  function PlayStationSeed(seed: bv8): bv32 {
    Crc([seed], 0)
  }

  function Trailer(crc: bv32): (bytes: Bytes)
    ensures |bytes| == TRAILER_SIZE
  {
    [Byte0(crc), Byte1(crc), Byte2(crc), Byte3(crc)]
  }

  function Payload(report: Bytes): Bytes
    requires |report| >= TRAILER_SIZE
  {
    report[..|report| - TRAILER_SIZE]
  }

  /** `write_playstation_crc`: reports too short for a trailer are left alone. */
  function Stamped(report: Bytes, seed: bv8): (stamped: Bytes)
    ensures |stamped| == |report|
  {
    if |report| < TRAILER_SIZE then report
    else Payload(report) + Trailer(Crc(Payload(report), PlayStationSeed(seed)))
  }

  /** The trailer check: the word read back equals the CRC expected for what precedes it. */
  predicate TrailerOk(report: Bytes, seed: bv8) {
    && |report| >= TRAILER_SIZE
    && var n := |report| - TRAILER_SIZE;
       Word(report[n], report[n + 1], report[n + 2], report[n + 3]) == Crc(Payload(report), PlayStationSeed(seed))
  }

  /** Little-endian, in the last four bytes. */
  method WriteTrailer(report: array<bv8>, crc: bv32)
    requires report.Length >= TRAILER_SIZE
    modifies report
    ensures report[..] == old(report[..report.Length - TRAILER_SIZE]) + Trailer(crc)
  {
    hide Byte0, Byte1, Byte2, Byte3;
    var offset := report.Length - TRAILER_SIZE;
    ghost var payload := report[..offset];
    report[offset] := Byte0(crc);
    report[offset + 1] := Byte1(crc);
    report[offset + 2] := Byte2(crc);
    report[offset + 3] := Byte3(crc);
    assert report[..] == report[..offset] + report[offset..];
    assert report[..offset] == payload;
    assert report[offset..] == Trailer(crc);
  }

  method WritePlayStationCrc(report: array<bv8>, seed: bv8)
    modifies report
    ensures report[..] == Stamped(old(report[..]), seed)
  {
    if report.Length < TRAILER_SIZE {
      return;
    }
    hide Crc, Trailer;
    var offset := report.Length - TRAILER_SIZE;
    var seedCrc := CrcWithMask([seed], 0);
    var crc := CrcWithMask(report[..offset], seedCrc);
    assert Payload(report[..]) == report[..offset];
    WriteTrailer(report, crc);
  }

  /** The broker stamps feature reports with its own CRC routine; the result is the same. */
  method StampFeatureReport(report: array<bv8>)
    modifies report
    ensures report[..] == Stamped(old(report[..]), 0xA3)
  {
    if report.Length < TRAILER_SIZE {
      return;
    }
    hide Crc, Trailer;
    var offset := report.Length - TRAILER_SIZE;
    var crc := CrcWithSeedByte(report[..offset], FEATURE_CRC_SEED);
    assert Payload(report[..]) == report[..offset];
    WriteTrailer(report, crc);
  }

  lemma StampedPasses(report: Bytes, seed: bv8)
    requires |report| >= TRAILER_SIZE
    ensures TrailerOk(Stamped(report, seed), seed)
  {
    hide Crc, Byte0, Byte1, Byte2, Byte3, Word;
    var crc := Crc(Payload(report), PlayStationSeed(seed));
    BytesSpellWord(crc);
    assert Payload(Stamped(report, seed)) == Payload(report);
  }

  /** The register every report with a correct trailer ends in, whatever it contains. */
  ghost const RESIDUE: bv32 := Steps32(ONES)

  /** Checking the trailer is running the register over the whole report, trailer included. */
  lemma TrailerIsResidue(report: Bytes, seed: bv8)
    requires |report| >= TRAILER_SIZE
    ensures TrailerOk(report, seed) <==> Register(Xor(PlayStationSeed(seed), ONES), report) == RESIDUE
  {
    hide Register, Steps32, Word, Xor, PlayStationSeed;
    var n := |report| - TRAILER_SIZE;
    var start := Xor(PlayStationSeed(seed), ONES);
    var r := Register(start, Payload(report));
    var w := Word(report[n], report[n + 1], report[n + 2], report[n + 3]);
    RegisterOverTrailer(start, report);
    XorComplement(r, w);
    if Steps32(Xor(r, w)) == Steps32(ONES) {
      Steps32Injective(Xor(r, w), ONES);
    }
  }

  /** Over report and trailer together, the CRC with its seed is one fixed value exactly when the check passes. */
  lemma PassesIffFixedCrc(report: Bytes, seed: bv8)
    requires |report| >= TRAILER_SIZE
    ensures TrailerOk(report, seed) <==> Crc(report, PlayStationSeed(seed)) == 0x2144_DF1C
  {
    hide Register, Steps32, TrailerOk, Xor, PlayStationSeed;
    TrailerIsResidue(report, seed);
    CrcPolynomial.FinalRegister();
    var r := Register(Xor(PlayStationSeed(seed), ONES), report);
    XorLaws(r, ONES, 0);
    ResidueLiteral();
  }

  lemma ResidueLiteral()
    ensures Xor(0xDEBB_20E3, ONES) == 0x2144_DF1C && Xor(0x2144_DF1C, ONES) == 0xDEBB_20E3
  {
  }

  lemma RegisterOverTrailer(start: bv32, report: Bytes)
    requires |report| >= TRAILER_SIZE
    ensures var n := |report| - TRAILER_SIZE;
            Register(start, report) == Steps32(Xor(Register(start, Payload(report)),
                                                   Word(report[n], report[n + 1], report[n + 2], report[n + 3])))
  {
    hide Register, Steps32, Word, Xor;
    var n := |report| - TRAILER_SIZE;
    assert report == Payload(report) + [report[n], report[n + 1], report[n + 2], report[n + 3]];
    RegisterConcat(start, Payload(report), [report[n], report[n + 1], report[n + 2], report[n + 3]]);
    WordStep(Register(start, Payload(report)), report[n], report[n + 1], report[n + 2], report[n + 3]);
  }

  lemma XorComplement(r: bv32, w: bv32)
    ensures Xor(r, w) == ONES <==> w == Xor(r, ONES)
  {
    hide Xor;
    XorLaws(r, w, 0);
    XorLaws(r, ONES, 0);
    XorLaws(w, r, 0);
    XorLaws(ONES, r, 0);
    XorLaws(r, Xor(r, ONES), 0);
  }

  /** A report that passes the check fails it after any change within four consecutive bytes. */
  lemma AlteredTrailerFails(report: Bytes, altered: Bytes, seed: bv8, at: nat, width: nat)
    requires TrailerOk(report, seed)
    requires AgreeOutside(report, altered, at, width) && report != altered
    ensures !TrailerOk(altered, seed)
  {
    hide Register, TrailerOk, RESIDUE;
    assert |report| >= TRAILER_SIZE by { TrailerLength(report, seed); }
    TrailerIsResidue(report, seed);
    TrailerIsResidue(altered, seed);
    BurstChangesRegister(Xor(PlayStationSeed(seed), ONES), report, altered, at, width);
  }

  lemma TrailerLength(report: Bytes, seed: bv8)
    requires TrailerOk(report, seed)
    ensures |report| >= TRAILER_SIZE
  {
  }

  // ----- Output reports ----------------------------------------------------------------------

  datatype Output =
    | Raw(report: Bytes)
    | Rumble(low: int, high: int)
    | RgbLed(red: bv8, green: bv8, blue: bv8)
    | AdaptiveTriggers(flags: bv8, leftType: bv8, rightType: bv8, leftEffect: Bytes, rightEffect: Bytes)

  /** Where the common block of a DualSense output report starts, when the report is one. */
  function DualSenseOffset(report: Bytes): (offset: Option<nat>)
    ensures offset.Some? ==> offset.value + 46 < |report|
  {
    if |report| >= 48 && report[0] == DUALSENSE_USB_OUTPUT_REPORT_ID then Some(1)
    else if |report| >= 49 && report[0] == DUALSENSE_BT_OUTPUT_REPORT_ID then
      if |report| >= CHECKED_REPORT_SIZE && !TrailerOk(report, OUTPUT_CRC_SEED) then None
      else if HasFlag(report[1], 0x02) then Some(2)
      else if |report| < 50 then None
      else Some(3)
    else None
  }

  function DualShock4Offset(report: Bytes): (offset: Option<nat>)
    ensures offset.Some? ==> offset.value + 7 < |report|
  {
    if |report| >= 32 && report[0] == DUALSHOCK4_USB_OUTPUT_REPORT_ID then Some(1)
    else if |report| >= CHECKED_REPORT_SIZE && report[0] == DUALSHOCK4_BT_OUTPUT_REPORT_ID then
      if HasFlag(report[1], DUALSHOCK4_HWCTL_CRC32) && !TrailerOk(report, OUTPUT_CRC_SEED) then None
      else Some(3)
    else None
  }

  /** `scale_output_byte`: v / 255 of 65535, exactly. */
  function ScaleOutputByte(value: bv8): int {
    (value as int) * 257
  }

  function DualSenseOutputs(report: Bytes, at: nat): seq<Output>
    requires at + 46 < |report|
  {
    var flag0, flag1, flag2 := report[at], report[at + 1], report[at + 38];
    var triggers := flag0 & 0x0C;
    (if HasFlag(flag0, 0x01) || HasFlag(flag2, 0x04)
     then [Rumble(ScaleOutputByte(report[at + 3]), ScaleOutputByte(report[at + 2]))]
     else if flag0 == 0 && flag1 == 0 && flag2 == 0 then [Rumble(0, 0)]
     else [])
    + (if HasFlag(flag1, 0x04) then [RgbLed(report[at + 44], report[at + 45], report[at + 46])] else [])
    + (if triggers != 0
       then [AdaptiveTriggers(triggers, report[at + 21], report[at + 10],
                              report[at + 22..at + 32], report[at + 11..at + 21])]
       else [])
  }

  function DualShock4Outputs(report: Bytes, at: nat): seq<Output>
    requires at + 7 < |report|
  {
    var flag0, flag1 := report[at], report[at + 1];
    (if HasFlag(flag0, 0x01) then [Rumble(ScaleOutputByte(report[at + 4]), ScaleOutputByte(report[at + 3]))]
     else if flag0 == 0 && flag1 == 0 then [Rumble(0, 0)]
     else [])
    + (if HasFlag(flag0, 0x02) then [RgbLed(report[at + 5], report[at + 6], report[at + 7])] else [])
  }

  datatype Profile = DualSense | DualShock4

  /** `parse_output_reports` for the two PlayStation profiles; no other decoder applies to them. */
  function ParseOutputReports(profile: Profile, report: Bytes): (outputs: seq<Output>)
    ensures outputs != []
  {
    var decoded := match profile
      case DualSense =>
        (var offset := DualSenseOffset(report);
         if offset.Some? then DualSenseOutputs(report, offset.value) else [])
      case DualShock4 =>
        (var offset := DualShock4Offset(report);
         if offset.Some? then DualShock4Outputs(report, offset.value) else []);
    if decoded != [] then decoded else [Raw(report)]
  }

  /**
   * A valid DualSense Bluetooth report of at least 78 bytes, changed within four consecutive bytes
   * after byte 0, is always rejected and handed on as one raw report.
   */
  lemma AlteredDualSenseIsRaw(report: Bytes, altered: Bytes, at: nat, width: nat)
    requires |report| >= CHECKED_REPORT_SIZE && report[0] == DUALSENSE_BT_OUTPUT_REPORT_ID
    requires TrailerOk(report, OUTPUT_CRC_SEED)
    requires 1 <= at && AgreeOutside(report, altered, at, width) && report != altered
    ensures DualSenseOffset(report).Some?
    ensures DualSenseOffset(altered).None?
    ensures ParseOutputReports(DualSense, altered) == [Raw(altered)]
  {
    hide TrailerOk;
    assert altered[0] == altered[..at][0] == report[..at][0] == report[0];
    AlteredTrailerFails(report, altered, OUTPUT_CRC_SEED, at, width);
  }

  /**
   * DualShock 4 reports ask for the check themselves: such a change goes unnoticed if and only if it
   * clears the CRC flag in byte 1.
   */
  lemma AlteredDualShock4Accepted(report: Bytes, altered: Bytes, at: nat, width: nat)
    requires |report| >= CHECKED_REPORT_SIZE && report[0] == DUALSHOCK4_BT_OUTPUT_REPORT_ID
    requires HasFlag(report[1], DUALSHOCK4_HWCTL_CRC32) && TrailerOk(report, OUTPUT_CRC_SEED)
    requires 1 <= at && AgreeOutside(report, altered, at, width) && report != altered
    ensures DualShock4Offset(altered).Some? <==> !HasFlag(altered[1], DUALSHOCK4_HWCTL_CRC32)
    ensures HasFlag(altered[1], DUALSHOCK4_HWCTL_CRC32) ==> ParseOutputReports(DualShock4, altered) == [Raw(altered)]
  {
    hide TrailerOk, HasFlag;
    assert altered[0] == altered[..at][0] == report[..at][0] == report[0];
    AlteredTrailerFails(report, altered, OUTPUT_CRC_SEED, at, width);
  }

  /** Stamping is what makes a report acceptable: with the output seed it parses, with another it does not. */
  lemma StampedDualSenseParses(report: Bytes)
    requires |report| >= CHECKED_REPORT_SIZE && report[0] == DUALSENSE_BT_OUTPUT_REPORT_ID
    ensures DualSenseOffset(Stamped(report, OUTPUT_CRC_SEED)) == Some(if HasFlag(report[1], 0x02) then 2 else 3)
  {
    hide TrailerOk, HasFlag, Crc;
    StampedPasses(report, OUTPUT_CRC_SEED);
    var stamped := Stamped(report, OUTPUT_CRC_SEED);
    assert stamped[0] == report[0] && stamped[1] == report[1];
  }

  /** A report stamped with one seed never passes the check with another, so report kinds stay apart. */
  lemma SeedsSeparate(report: Bytes, seed: bv8, other: bv8)
    requires |report| >= TRAILER_SIZE && seed != other
    ensures !TrailerOk(Stamped(report, seed), other)
  {
    hide Register, TrailerOk, RESIDUE, Xor, Crc, ByteStep;
    var stamped := Stamped(report, seed);
    StampedPasses(report, seed);
    TrailerIsResidue(stamped, seed);
    TrailerIsResidue(stamped, other);
    if TrailerOk(stamped, other) {
      SeedRegister(seed);
      SeedRegister(other);
      SuffixInjective(ByteStep(ONES, seed), ByteStep(ONES, other), stamped);
      SeedInjective(seed, other);
    }
  }

  lemma SeedInjective(a: bv8, b: bv8)
    requires ByteStep(ONES, a) == ByteStep(ONES, b)
    ensures a == b
  {
    hide Steps8, Xor, Wide;
    Steps8Injective(Xor(ONES, Wide(a)), Xor(ONES, Wide(b)));
    XorInjective(ONES, Wide(a), Wide(b));
    WideInjective(a, b);
  }

  lemma WideInjective(a: bv8, b: bv8)
    requires Wide(a) == Wide(b)
    ensures a == b
  {
  }
}
