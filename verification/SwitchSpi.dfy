/**
 * Replies of the emulated Switch Pro controller. The interesting one is the flash read: two factory
 * calibration blocks are copied, clipped, into the data window of a 64-byte reply.
 */
module SwitchSpi {
  import opened Basics
  import opened Bytes

  const REPORT_SIZE: nat := 64
  const DATA_AT: nat := 20
  const WINDOW: nat := 44
  const STICK_ADDRESS: nat := 0x603D
  const IMU_ADDRESS: nat := 0x6020
  const READ_FLASH: nat := 0x10
  const DEVICE_INFO: nat := 0x02

  const CONTROLLER_MAC: seq<Byte> := [0x02, 0x00, 0x00, 0x00, 0x00, 0x01]

  const STICK_CALIBRATION: seq<Byte> :=
    [0xFF, 0xF7, 0x7F, 0x00, 0x08, 0x80, 0xFF, 0xF7, 0x7F, 0x00, 0x08, 0x80, 0xFF, 0xF7, 0x7F, 0xFF, 0xF7, 0x7F]

  const IMU_CALIBRATION: seq<Byte> :=
    [0x00, 0x00, 0x00, 0x00, 0x00, 0x00, 0x00, 0x40, 0x00, 0x40, 0x00, 0x40,
     0x00, 0x00, 0x00, 0x00, 0x00, 0x00, 0x3B, 0x34, 0x3B, 0x34, 0x3B, 0x34]

  // ----- The flash and the reply, byte by byte ---------------------------------------------------

  /** The emulated flash: two calibration blocks, zero everywhere else. */
  function Flash(address: int): Byte {
    if STICK_ADDRESS <= address < STICK_ADDRESS + |STICK_CALIBRATION| then STICK_CALIBRATION[address - STICK_ADDRESS]
    else if IMU_ADDRESS <= address < IMU_ADDRESS + |IMU_CALIBRATION| then IMU_CALIBRATION[address - IMU_ADDRESS]
    else 0
  }

  function FlashRange(address: int, size: nat): (bytes: seq<Byte>)
    ensures |bytes| == size
  {
    seq<Byte>(size, i requires 0 <= i < size => Flash(address + i))
  }

  /** The data window of a reply: what was asked for, as far as it fits, then zeros. */
  function Window(address: int, size: nat): (bytes: seq<Byte>)
    ensures |bytes| == WINDOW
  {
    seq<Byte>(WINDOW, i requires 0 <= i < WINDOW => Shown(address, size, i))
  }

  function Shown(address: int, size: nat, i: nat): Byte {
    if i < size then Flash(address + i) else 0
  }

  function ReadU32(report: seq<Byte>, offset: nat): nat
    requires offset + 4 <= |report|
  {
    var a: nat, b: nat, c: nat, d: nat := report[offset], report[offset + 1], report[offset + 2], report[offset + 3];
    a + 0x100 * b + 0x1_0000 * c + 0x100_0000 * d
  }

  predicate UsbCommand(output: seq<Byte>) {
    |output| >= 2 && output[0] == 0x80 && output[1] != 0x04
  }

  predicate Subcommand(output: seq<Byte>) {
    |output| >= 11 && output[0] == 0x01 && (output[10] == READ_FLASH ==> |output| >= 16)
  }

  function UsbReply(command: Byte): (reply: seq<Byte>)
    ensures |reply| == REPORT_SIZE
  {
    [0x81, command, 0] + (if command == 0x01 then [0x03, 1, 0, 0, 0, 0, 2] else [0, 0, 0, 0, 0, 0, 0])
    + seq<Byte>(54, _ => 0)
  }

  /** Bytes 0 to 14: kind, timer, a charged controller at rest, acknowledgement, subcommand. */
  function Head(subcommand: Byte, timer: Byte): (head: seq<Byte>)
    ensures |head| == 15
  {
    [0x21, timer, 0x81, 0, 0, 0, 0x00, 0x08, 0x80, 0x00, 0x08, 0x80, 0,
     if subcommand == READ_FLASH then 0x90 else if subcommand == DEVICE_INFO then 0x82 else 0x80,
     subcommand]
  }

  function DeviceInfo(): (info: seq<Byte>)
    ensures |info| == 12
  {
    [0x04, 0x33, 0x03, 0x02] + CONTROLLER_MAC + [0x01, 0x01]
  }

  /** Bytes 15 to 63. */
  function Body(output: seq<Byte>): (body: seq<Byte>)
    requires Subcommand(output)
    ensures |body| == REPORT_SIZE - 15
  {
    if output[10] == READ_FLASH then output[11..16] + Window(ReadU32(output, 11), output[15])
    else if output[10] == DEVICE_INFO then DeviceInfo() + seq<Byte>(37, _ => 0)
    else seq<Byte>(49, _ => 0)
  }

  function Reply(output: seq<Byte>, timer: Byte): (reply: Option<seq<Byte>>)
    ensures reply.Some? <==> UsbCommand(output) || Subcommand(output)
    ensures reply.Some? ==> |reply.value| == REPORT_SIZE
  {
    if UsbCommand(output) then Some(UsbReply(output[1]))
    else if Subcommand(output) then Some(Head(output[10], timer) + Body(output))
    else None
  }

  // ----- Reads -------------------------------------------------------------------------------

  /** The output report that reads `size` bytes of flash at a 32-bit address. */
  function ReadRequest(address: nat, size: Byte): (output: seq<Byte>)
    ensures Subcommand(output) && output[10] == READ_FLASH && output[15] == size
  {
    [0x01, 0, 0, 0, 0, 0, 0, 0, 0, 0, READ_FLASH]
    + [address % 256, address / 256 % 256, address / 65536 % 256, address / 16777216 % 256]
    + [size]
  }

  lemma ReadsAddress(address: nat, size: Byte)
    requires address < 0x1_0000_0000
    ensures ReadU32(ReadRequest(address, size), 11) == address
  {
    hide ReadU32;
    var output := ReadRequest(address, size);
    assert output[11] == address % 256 && output[12] == address / 256 % 256;
    assert output[13] == address / 65536 % 256 && output[14] == address / 16777216 % 256;
    DigitsOf(address);
    U32Digits(output, 11);
  }

  lemma U32Digits(report: seq<Byte>, offset: nat)
    requires offset + 4 <= |report|
    ensures ReadU32(report, offset)
         == report[offset] as int + 0x100 * report[offset + 1] as int
            + 0x1_0000 * report[offset + 2] as int + 0x100_0000 * report[offset + 3] as int
  {
  }

  lemma DigitsOf(n: nat)
    requires n < 0x1_0000_0000
    ensures n == n % 256 + 0x100 * (n / 256 % 256) + 0x1_0000 * (n / 65536 % 256) + 0x100_0000 * (n / 16777216 % 256)
  {
    var a := n / 256;
    var b := a / 256;
    assert b == n / 65536 && b / 256 == n / 16777216;
  }

  /** The reply's answer to a read: as many bytes as were asked for. */
  function Answer(address: nat, size: Byte, timer: Byte): (bytes: seq<Byte>)
    requires size <= WINDOW
    ensures |bytes| == size
  {
    Reply(ReadRequest(address, size), timer).value[DATA_AT..DATA_AT + size]
  }

  /**
   * A read of any address and any size: acknowledged, the request echoed, and bytes 20 to 63 those of
   * the flash up to the size asked for, zero after it.
   */
  lemma ReadReply(address: nat, size: Byte, timer: Byte)
    requires address < 0x1_0000_0000
    ensures var reply := Reply(ReadRequest(address, size), timer).value;
            && reply[13] == 0x90 && reply[14] == READ_FLASH
            && reply[15..20] == ReadRequest(address, size)[11..16]
            && reply[DATA_AT..] == Window(address, size)
  {
    hide Window, Flash, ReadU32, ReadRequest;
    ReadsAddress(address, size);
    var output := ReadRequest(address, size);
    var reply := Head(READ_FLASH, timer) + Body(output);
    assert reply[15..] == Body(output);
    assert reply[15..20] == Body(output)[..5] == output[11..16];
    assert reply[DATA_AT..] == Body(output)[5..] == Window(address, size);
  }

  lemma AnswerIsFlash(address: nat, size: Byte, timer: Byte)
    requires address < 0x1_0000_0000 && size <= WINDOW
    ensures Answer(address, size, timer) == FlashRange(address, size)
  {
    hide Flash, ReadRequest, Reply;
    ReadReply(address, size, timer);
    var reply := Reply(ReadRequest(address, size), timer).value;
    assert reply[DATA_AT..DATA_AT + size] == reply[DATA_AT..][..size] == Window(address, size)[..size];
    assert Window(address, size)[..size] == FlashRange(address, size);
  }

  lemma FlashRangeSplits(address: int, first: nat, second: nat)
    ensures FlashRange(address, first + second) == FlashRange(address, first) + FlashRange(address + first, second)
  {
    hide Flash;
    var whole := FlashRange(address, first + second);
    assert whole[..first] == FlashRange(address, first);
    assert whole[first..] == FlashRange(address + first, second);
    assert whole == whole[..first] + whole[first..];
  }

  /** Two adjacent reads give what one read of both would. */
  lemma AdjacentReads(address: nat, first: Byte, second: Byte, timer1: Byte, timer2: Byte, timer3: Byte)
    requires address + first < 0x1_0000_0000 && first + second <= WINDOW
    ensures Answer(address, first, timer1) + Answer(address + first, second, timer2)
         == Answer(address, first + second, timer3)
  {
    hide Answer, FlashRange;
    AnswerIsFlash(address, first, timer1);
    AnswerIsFlash(address + first, second, timer2);
    AnswerIsFlash(address, first + second, timer3);
    FlashRangeSplits(address, first, second);
  }

  function Sum(sizes: seq<Byte>): nat {
    if sizes == [] then 0 else sizes[0] + Sum(sizes[1..])
  }

  /** A host reading on from `address` in steps of the given sizes. */
  function Dump(address: nat, sizes: seq<Byte>, timer: Byte): seq<Byte>
    requires forall i :: 0 <= i < |sizes| ==> sizes[i] <= WINDOW
    decreases |sizes|
  {
    if sizes == [] then []
    else Answer(address, sizes[0], timer) + Dump(address + sizes[0], sizes[1..], (timer + 1) % 256)
  }

  /** However a host cuts a range into reads, it gets the range. */
  lemma {:induction false} DumpIsFlash(address: nat, sizes: seq<Byte>, timer: Byte)
    requires forall i :: 0 <= i < |sizes| ==> sizes[i] <= WINDOW
    requires address + Sum(sizes) <= 0x1_0000_0000
    requires address < 0x1_0000_0000
    ensures Dump(address, sizes, timer) == FlashRange(address, Sum(sizes))
    decreases |sizes|
  {
    hide Answer, Flash;
    if sizes != [] {
      AnswerIsFlash(address, sizes[0], timer);
      FlashRangeSplits(address, sizes[0], Sum(sizes[1..]));
      if address + sizes[0] < 0x1_0000_0000 {
        DumpIsFlash(address + sizes[0], sizes[1..], (timer + 1) % 256);
      } else {
        EmptyDump(address + sizes[0], sizes[1..], (timer + 1) % 256);
      }
    }
  }

  lemma {:induction false} EmptyDump(address: nat, sizes: seq<Byte>, timer: Byte)
    requires forall i :: 0 <= i < |sizes| ==> sizes[i] <= WINDOW
    requires Sum(sizes) == 0
    ensures Dump(address, sizes, timer) == []
    decreases |sizes|
  {
    hide Answer;
    if sizes != [] {
      assert Answer(address, sizes[0], timer) == [];
      EmptyDump(address, sizes[1..], (timer + 1) % 256);
    }
  }

  // ----- Byte by byte ----------------------------------------------------------------------------

  predicate ZeroFrom(reply: seq<Byte>, from: nat) {
    forall i :: from <= i < |reply| ==> reply[i] == 0
  }

  /** Kind, timer, a charged controller with its sticks centred and nothing pressed. */
  predicate AtRest(reply: seq<Byte>, timer: Byte) {
    && |reply| == 64 && reply[0] == 0x21 && reply[1] == timer && reply[2] == 0x81
    && reply[3] == 0 && reply[4] == 0 && reply[5] == 0
    && reply[6] == 0x00 && reply[7] == 0x08 && reply[8] == 0x80
    && reply[9] == 0x00 && reply[10] == 0x08 && reply[11] == 0x80 && reply[12] == 0
  }

  /**
   * Every subcommand is acknowledged and named; a device information request gets the firmware and
   * controller type, the address in order and the two closing bytes, any but a flash read nothing else.
   */
  lemma SubcommandBytes(output: seq<Byte>, timer: Byte)
    requires Subcommand(output)
    ensures var r := Reply(output, timer).value;
            && AtRest(r, timer) && r[14] == output[10]
            && (output[10] == 0x10 ==> r[13] == 0x90)
            && (output[10] == 0x02 ==>
                  && r[13] == 0x82 && r[15] == 0x04 && r[16] == 0x33 && r[17] == 0x03 && r[18] == 0x02
                  && r[19] == 0x02 && r[20] == 0 && r[21] == 0 && r[22] == 0 && r[23] == 0 && r[24] == 0x01
                  && r[25] == 0x01 && r[26] == 0x01 && ZeroFrom(r, 27))
            && (output[10] != 0x10 && output[10] != 0x02 ==> r[13] == 0x80 && ZeroFrom(r, 15))
  {
    var head, body := Head(output[10], timer), Body(output);
    assert forall k :: 0 <= k < 15 ==> (head + body)[k] == head[k];
    assert forall k :: 15 <= k < 64 ==> (head + body)[k] == body[k - 15];
    FillBody(output);
    hide Body;
  }

  /** A USB command is named back; the status request alone gets the type and the address reversed. */
  lemma UsbBytes(output: seq<Byte>, timer: Byte)
    requires UsbCommand(output)
    ensures var r := Reply(output, timer).value;
            && |r| == 64 && r[0] == 0x81 && r[1] == output[1] && r[2] == 0
            && (output[1] == 0x01 ==>
                  && r[3] == 0x03 && r[4] == 0x01 && r[5] == 0 && r[6] == 0 && r[7] == 0 && r[8] == 0 && r[9] == 0x02
                  && ZeroFrom(r, 10))
            && (output[1] != 0x01 ==> ZeroFrom(r, 3))
  {
  }

  /** The two calibration reads a host makes. */
  lemma CalibrationReads(timer: Byte)
    ensures Answer(0x603D, 18, timer) ==
            [0xFF, 0xF7, 0x7F, 0x00, 0x08, 0x80, 0xFF, 0xF7, 0x7F, 0x00, 0x08, 0x80, 0xFF, 0xF7, 0x7F, 0xFF, 0xF7, 0x7F]
    ensures Answer(0x6020, 24, timer) ==
            [0x00, 0x00, 0x00, 0x00, 0x00, 0x00, 0x00, 0x40, 0x00, 0x40, 0x00, 0x40,
             0x00, 0x00, 0x00, 0x00, 0x00, 0x00, 0x3B, 0x34, 0x3B, 0x34, 0x3B, 0x34]
    ensures forall address :: !(0x6020 <= address < 0x6038) && !(0x603D <= address < 0x604F) ==> Flash(address) == 0
  {
    hide Answer;
    AnswerIsFlash(0x603D, 18, timer);
    AnswerIsFlash(0x6020, 24, timer);
  }

  // ----- Filling the reply ---------------------------------------------------------------------

  /** Whether reply byte `k` shows an address inside the block. */
  predicate Covered(k: int, address: nat, size: nat, dataAddress: nat, length: nat) {
    DATA_AT <= k < DATA_AT + size && dataAddress <= address + k - DATA_AT < dataAddress + length
  }

  function Overlaid(reply: seq<Byte>, address: nat, size: nat, dataAddress: nat, data: seq<Byte>): (after: seq<Byte>)
    ensures |after| == |reply|
  {
    seq<Byte>(|reply|, k requires 0 <= k < |reply| =>
      if Covered(k, address, size, dataAddress, |data|) then data[address + k - DATA_AT - dataAddress] else reply[k])
  }

  /** `count` elements of `data` from `from` on replace those of `reply` at `to`. */
  function Pasted(reply: seq<Byte>, to: nat, data: seq<Byte>, from: nat, count: nat): (after: seq<Byte>)
    requires to + count <= |reply| && from + count <= |data|
    ensures |after| == |reply|
  {
    reply[..to] + data[from..from + count] + reply[to + count..]
  }

  method CopyBytes(reply: array<Byte>, to: nat, data: seq<Byte>, from: nat, count: nat)
    requires to + count <= reply.Length && from + count <= |data|
    modifies reply
    ensures reply[..] == Pasted(old(reply[..]), to, data, from, count)
  {
    ghost var before := reply[..];
    for i := 0 to count
      invariant reply[..] == Pasted(before, to, data, from, i)
    {
      reply[to + i] := data[from + i];
      assert reply[..] == Pasted(before, to, data, from, i)[to + i := data[from + i]];
      assert data[from..from + i] + [data[from + i]] == data[from..from + i + 1];
      assert Pasted(before, to, data, from, i)[to + i := data[from + i]] == Pasted(before, to, data, from, i + 1);
    }
  }

  /** Copy the part of the block that the read covers and the reply has room for. */
  method CopySpiData(reply: array<Byte>, address: nat, size: nat, dataAddress: nat, data: seq<Byte>)
    requires reply.Length == REPORT_SIZE
    modifies reply
    ensures reply[..] == Overlaid(old(reply[..]), address, size, dataAddress, data)
  {
    hide Pasted, Overlaid;
    var requestedEnd := address + size;
    var dataEnd := dataAddress + |data|;
    var copyBegin := Max(address, dataAddress);
    var copyEnd := Min(requestedEnd, dataEnd);
    ghost var before := reply[..];
    if copyBegin >= copyEnd {
      OverlaysNothing(before, address, size, dataAddress, data);
      return;
    }
    var sourceOffset := copyBegin - dataAddress;
    var destinationOffset := DATA_AT + (copyBegin - address);
    if destinationOffset >= reply.Length {
      OverlaysNothing(before, address, size, dataAddress, data);
      return;
    }
    var copySize := Min(copyEnd - copyBegin, reply.Length - destinationOffset);
    OverlaysCopy(before, address, size, dataAddress, data, sourceOffset, destinationOffset, copySize);
    CopyBytes(reply, destinationOffset, data, sourceOffset, copySize);
  }

  lemma OverlaysNothing(reply: seq<Byte>, address: nat, size: nat, dataAddress: nat, data: seq<Byte>)
    requires |reply| == REPORT_SIZE
    requires Max(address, dataAddress) >= Min(address + size, dataAddress + |data|)
          || DATA_AT + Max(address, dataAddress) - address >= REPORT_SIZE
    ensures Overlaid(reply, address, size, dataAddress, data) == reply
  {
  }

  lemma OverlaysCopy(
    reply: seq<Byte>, address: nat, size: nat, dataAddress: nat, data: seq<Byte>, from: nat, to: nat, count: nat)
    requires |reply| == REPORT_SIZE
    requires from == Max(address, dataAddress) - dataAddress && to == DATA_AT + Max(address, dataAddress) - address
    requires to < REPORT_SIZE && Max(address, dataAddress) < Min(address + size, dataAddress + |data|)
    requires count == Min(Min(address + size, dataAddress + |data|) - Max(address, dataAddress), REPORT_SIZE - to)
    ensures to + count <= |reply| && from + count <= |data|
    ensures Overlaid(reply, address, size, dataAddress, data) == Pasted(reply, to, data, from, count)
  {
  }

  /** The two blocks, overlaid on a window of zeros, are the flash. */
  lemma BlocksAreFlash(reply: seq<Byte>, address: nat, size: nat)
    requires |reply| == REPORT_SIZE && reply[DATA_AT..] == seq<Byte>(WINDOW, _ => 0)
    ensures var once := Overlaid(reply, address, size, STICK_ADDRESS, STICK_CALIBRATION);
            Overlaid(once, address, size, IMU_ADDRESS, IMU_CALIBRATION) == reply[..DATA_AT] + Window(address, size)
  {
    hide Overlaid, Window;
    var once := Overlaid(reply, address, size, STICK_ADDRESS, STICK_CALIBRATION);
    var twice := Overlaid(once, address, size, IMU_ADDRESS, IMU_CALIBRATION);
    forall k | 0 <= k < DATA_AT
      ensures twice[k] == reply[k]
    {
      OverlaidAt(reply, address, size, STICK_ADDRESS, STICK_CALIBRATION, k);
      OverlaidAt(once, address, size, IMU_ADDRESS, IMU_CALIBRATION, k);
    }
    forall i | 0 <= i < WINDOW
      ensures twice[DATA_AT..][i] == Window(address, size)[i]
    {
      assert reply[DATA_AT + i] == reply[DATA_AT..][i] == 0;
      OverlaidAt(reply, address, size, STICK_ADDRESS, STICK_CALIBRATION, DATA_AT + i);
      OverlaidAt(once, address, size, IMU_ADDRESS, IMU_CALIBRATION, DATA_AT + i);
      WindowAt(address, size, i);
    }
    assert twice == twice[..DATA_AT] + twice[DATA_AT..];
  }

  lemma OverlaidAt(reply: seq<Byte>, address: nat, size: nat, dataAddress: nat, data: seq<Byte>, k: nat)
    requires k < |reply|
    ensures Covered(k, address, size, dataAddress, |data|) ==>
              Overlaid(reply, address, size, dataAddress, data)[k] == data[address + k - DATA_AT - dataAddress]
    ensures !Covered(k, address, size, dataAddress, |data|) ==>
              Overlaid(reply, address, size, dataAddress, data)[k] == reply[k]
  {
  }

  lemma WindowAt(address: int, size: nat, i: nat)
    requires i < WINDOW
    ensures Window(address, size)[i] == if i < size then Flash(address + i) else 0
  {
  }

  method SetNeutralControllerState(reply: array<Byte>, timer: Byte)
    requires reply.Length == REPORT_SIZE
    modifies reply
    ensures reply[..] == old(reply[..])[1 := timer][2 := 0x81]
                         [6 := 0x00][7 := 0x08][8 := 0x80][9 := 0x00][10 := 0x08][11 := 0x80]
  {
    reply[1] := timer;
    reply[2] := 0x81;
    reply[6] := 0x00;
    reply[7] := 0x08;
    reply[8] := 0x80;
    reply[9] := 0x00;
    reply[10] := 0x08;
    reply[11] := 0x80;
  }

  method SetSpiReply(reply: array<Byte>, output: seq<Byte>)
    requires reply.Length == REPORT_SIZE && Subcommand(output) && output[10] == READ_FLASH
    requires reply[15..] == seq<Byte>(49, _ => 0)
    modifies reply
    ensures reply[..] == old(reply[..15]) + Body(output)
  {
    hide Overlaid, Window;
    var address := ReadU32(output, 11);
    var size := output[15];
    ghost var before := reply[..];
    CopyBytes(reply, 15, output, 11, 5);
    ghost var echoed := reply[..];
    BlocksAreFlash(echoed, address, size);
    CopySpiData(reply, address, size, STICK_ADDRESS, STICK_CALIBRATION);
    CopySpiData(reply, address, size, IMU_ADDRESS, IMU_CALIBRATION);
    assert echoed[..DATA_AT] == before[..15] + output[11..16];
  }

  method SetDeviceInfoReply(reply: array<Byte>)
    requires reply.Length == REPORT_SIZE
    requires reply[15..] == seq<Byte>(49, _ => 0)
    modifies reply
    ensures reply[..] == old(reply[..15]) + DeviceInfo() + seq<Byte>(37, _ => 0)
  {
    reply[15] := 0x04;
    reply[16] := 0x33;
    reply[17] := 0x03;
    reply[18] := 0x02;
    CopyBytes(reply, 19, CONTROLLER_MAC, 0, |CONTROLLER_MAC|);
    reply[25] := 0x01;
    reply[26] := 0x01;
  }

  method UsbCommandReply(command: Byte) returns (reply: array<Byte>)
    ensures fresh(reply) && reply[..] == UsbReply(command)
  {
    reply := new Byte[REPORT_SIZE](_ => 0);
    reply[0] := 0x81;
    reply[1] := command;
    if command == 0x01 {
      reply[3] := 0x03;
      CopyBytes(reply, 4, ReversedMac(), 0, |CONTROLLER_MAC|);
    }
  }

  function ReversedMac(): (mac: seq<Byte>)
    ensures mac == [1, 0, 0, 0, 0, 2]
  {
    seq<Byte>(|CONTROLLER_MAC|, i requires 0 <= i < |CONTROLLER_MAC| => CONTROLLER_MAC[|CONTROLLER_MAC| - 1 - i])
  }

  method SubcommandReply(output: seq<Byte>, timer: Byte) returns (reply: array<Byte>)
    requires Subcommand(output)
    ensures fresh(reply) && reply[..] == Head(output[10], timer) + Body(output)
  {
    hide Body;
    var subcommand := output[10];
    reply := new Byte[REPORT_SIZE](_ => 0);
    reply[0] := 0x21;
    SetNeutralControllerState(reply, timer);
    var acknowledgement: Byte := 0x80;
    if subcommand == READ_FLASH {
      acknowledgement := 0x90;
    } else if subcommand == DEVICE_INFO {
      acknowledgement := 0x82;
    }
    reply[13] := acknowledgement;
    reply[14] := subcommand;
    assert reply[..15] == Head(subcommand, timer);
    assert reply[15..] == seq<Byte>(49, _ => 0);
    FillBody(output);
    if subcommand == READ_FLASH {
      SetSpiReply(reply, output);
    } else if subcommand == DEVICE_INFO {
      SetDeviceInfoReply(reply);
    } else {
      assert reply[..] == reply[..15] + reply[15..];
    }
  }

  /** Nothing for what the controller ignores, otherwise a fresh 64-byte report. */
  method MakeSwitchProReply(output: seq<Byte>, timer: Byte) returns (answered: bool, reply: array<Byte>)
    ensures answered <==> Reply(output, timer).Some?
    ensures answered ==> fresh(reply) && reply[..] == Reply(output, timer).value
  {
    hide Body, Head, UsbReply;
    if |output| == 0 {
      return false, new Byte[0];
    }
    if output[0] == 0x80 {
      if |output| < 2 || output[1] == 0x04 {
        return false, new Byte[0];
      }
      reply := UsbCommandReply(output[1]);
      return true, reply;
    }
    if output[0] != 0x01 || |output| < 11 || (output[10] == READ_FLASH && |output| < 16) {
      return false, new Byte[0];
    }
    reply := SubcommandReply(output, timer);
    return true, reply;
  }

  lemma FillBody(output: seq<Byte>)
    requires Subcommand(output)
    ensures output[10] == DEVICE_INFO ==>
      Body(output) == DeviceInfo() + seq<Byte>(37, _ => 0)
    ensures output[10] != DEVICE_INFO && output[10] != READ_FLASH ==> Body(output) == seq<Byte>(49, _ => 0)
  {
  }
}
