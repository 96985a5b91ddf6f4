/**
 * Creating a device on Windows: the client turns an accepted profile into a fixed-layout request, and
 * the broker checks every field of what it receives. What the client builds must pass.
 */
module CreateRequest {
  import opened Basics
  import opened Bytes

  const CONTROL_PROTOCOL_VERSION: nat := 5
  const REQUEST_SIZE: nat := 2502
  const MAX_DESCRIPTOR: nat := 2048
  const MAX_INPUT_REPORT: nat := 256
  const MAX_OUTPUT_REPORT: nat := 256
  const TEXT_SIZE: nat := 128
  const MOUSE_INPUT_SIZE: nat := 7
  const KEYBOARD_INPUT_SIZE: nat := 18
  const KEYBOARD_OUTPUT_SIZE: nat := 1
  const MOUSE_DESCRIPTOR_SIZE: nat := 79
  const KEYBOARD_DESCRIPTOR_SIZE: nat := 65
  const PID_BLOCK_SIZE: nat := 1029
  const PID_OUTPUT_SIZE: nat := 22
  const XBOX_SERIES_INPUT_SIZE: nat := 17
  const XBOX_SERIES_OUTPUT_SIZE: nat := 8
  const XBOX_SERIES_PRODUCT: nat := 0x0B12
  const XBOX_SERIES_VERSION: nat := 0x0509
  const DEVICE_GAMEPAD: nat := 1
  const DEVICE_MOUSE: nat := 2
  const DEVICE_KEYBOARD: nat := 3
  const KIND_DUALSHOCK4: nat := 6
  const KNOWN_FLAGS: bv32 := 0x3F

  const LEGACY_RUMBLE_PREFIX: seq<Byte> := [0xA1, 0x02, 0x05, 0x0F, 0x09, 0x97]
  const GAMEPAD_COLLECTION_PREFIX: seq<Byte> := [0x05, 0x01, 0x09, 0x05, 0xA1, 0x01]

  datatype DeviceType = Gamepad | Keyboard | Mouse | Touchscreen | Trackpad | PenTablet

  datatype BusType = UnknownBus | Usb | Bluetooth

  datatype Kind = Generic | Xbox360 | XboxOne | XboxSeries | DualShock4 | DualSense | SwitchPro

  datatype Capabilities = Capabilities(
    rumble: bool, motion: bool, touchpad: bool, rgbLed: bool, battery: bool, adaptiveTriggers: bool)

  const NO_CAPABILITIES: Capabilities := Capabilities(false, false, false, false, false, false)

  datatype Profile = Profile(
    deviceType: DeviceType, kind: Kind, bus: BusType,
    vendorId: nat, productId: nat, version: nat, reportId: nat,
    inputSize: nat, outputSize: nat,
    name: string, manufacturer: string,
    capabilities: Capabilities, descriptor: seq<Byte>)

  /** The fixed HID descriptors; only their lengths matter here. */
  datatype Tables = Tables(
    pidBlock: seq<Byte>, mouse: seq<Byte>, keyboard: seq<Byte>, dualShock4Usb: seq<Byte>, dualSenseUsb: seq<Byte>)
  {
    predicate Valid() {
      && |pidBlock| == PID_BLOCK_SIZE
      && |mouse| == MOUSE_DESCRIPTOR_SIZE
      && |keyboard| == KEYBOARD_DESCRIPTOR_SIZE
      && 0 < |dualShock4Usb| <= MAX_DESCRIPTOR
      && 0 < |dualSenseUsb| <= MAX_DESCRIPTOR
    }
  }

  /** The packed structure; arrays have their full declared length. */
  datatype Request = Request(
    version: nat, size: nat, clientId: nat,
    deviceType: nat, busType: nat, kind: nat, flags: bv32,
    vendorId: nat, productId: nat, deviceVersion: nat, reportId: nat, reserved: seq<Byte>,
    inputSize: nat, outputSize: nat, descriptorSize: nat,
    nameSize: nat, manufacturerSize: nat, stableIdSize: nat,
    descriptor: seq<Byte>, name: string, manufacturer: string, stableId: string)

  // ----- The client: enumerations and flags -----------------------------------------------------

  function ProtocolBusType(bus: BusType): nat {
    match bus
    case UnknownBus => 0
    case Usb => 1
    case Bluetooth => 2
  }

  function ProtocolDeviceType(deviceType: DeviceType): nat {
    match deviceType
    case Gamepad => DEVICE_GAMEPAD
    case Keyboard => DEVICE_KEYBOARD
    case Mouse => DEVICE_MOUSE
    case _ => 0
  }

  function ProtocolKind(kind: Kind): nat {
    match kind
    case Generic => 0
    case Xbox360 => 1
    case XboxOne => 2
    case XboxSeries => 3
    case DualShock4 => KIND_DUALSHOCK4
    case DualSense => 4
    case SwitchPro => 5
  }

  function Flag(on: bool, bit: bv32): bv32 {
    if on then bit else 0
  }

  function GamepadFlags(c: Capabilities): bv32 {
    Flag(c.rumble, 0x01) | Flag(c.motion, 0x02) | Flag(c.touchpad, 0x04)
    | Flag(c.rgbLed, 0x08) | Flag(c.battery, 0x10) | Flag(c.adaptiveTriggers, 0x20)
  }

  /** The flags say exactly which capabilities there are, and set no bit the broker does not know. */
  lemma FlagsRoundTrip(c: Capabilities)
    ensures var f := GamepadFlags(c);
            && f & !KNOWN_FLAGS == 0
            && c == Capabilities(f & 0x01 != 0, f & 0x02 != 0, f & 0x04 != 0,
                                 f & 0x08 != 0, f & 0x10 != 0, f & 0x20 != 0)
  {
  }

  // ----- The client: copies ----------------------------------------------------------------------

  /** As much of the source as fits, then zeros. */
  function Padded<T>(source: seq<T>, copied: nat, size: nat, zero: T): (target: seq<T>)
    requires copied <= |source| && copied <= size
    ensures |target| == size
  {
    source[..copied] + seq(size - copied, _ => zero)
  }

  /** The last place is kept for the terminator. */
  function CopiedText(source: string): (copied: nat)
    ensures copied <= |source| && copied < TEXT_SIZE
  {
    Min(|source|, TEXT_SIZE - 1)
  }

  function CopiedBytes(source: seq<Byte>): (copied: nat)
    ensures copied <= |source| && copied <= MAX_DESCRIPTOR
  {
    Min(|source|, MAX_DESCRIPTOR)
  }

  // ----- The client: profiles ----------------------------------------------------------------------

  predicate MatchesAt<T(==)>(source: seq<T>, needle: seq<T>, at: nat) {
    at + |needle| <= |source| && source[at..at + |needle|] == needle
  }

  /** The first occurrence, or the length of the source. */
  function Search<T(==)>(source: seq<T>, needle: seq<T>, from: nat): (at: nat)
    requires from <= |source|
    ensures from <= at <= |source|
    ensures at < |source| ==> MatchesAt(source, needle, at)
    ensures forall i :: from <= i < at ==> !MatchesAt(source, needle, i)
    decreases |source| - from
  {
    if from == |source| || MatchesAt(source, needle, from) then from else Search(source, needle, from + 1)
  }

  predicate BuiltInLayout(source: seq<Byte>) {
    && |source| >= |GAMEPAD_COLLECTION_PREFIX| + 1
    && source[..|GAMEPAD_COLLECTION_PREFIX|] == GAMEPAD_COLLECTION_PREFIX
    && source[|source| - 1] == 0xC0
  }

  /** The legacy block never starts inside the six leading bytes, so the usage at 3 can be replaced. */
  lemma LegacyIsPastPrefix(source: seq<Byte>)
    requires BuiltInLayout(source)
    ensures Search(source, LEGACY_RUMBLE_PREFIX, 0) >= 6
  {
    var at := Search(source, LEGACY_RUMBLE_PREFIX, 0);
    var prefix := source[..6];
    assert source[0] == prefix[0] && source[1] == prefix[1] && source[2] == prefix[2];
    assert source[3] == prefix[3] && source[4] == prefix[4] && source[5] == prefix[5];
    if at < |source| {
      LegacyBytes(source, at);
    }
  }

  lemma LegacyBytes(source: seq<Byte>, at: nat)
    requires MatchesAt(source, LEGACY_RUMBLE_PREFIX, at)
    ensures at + 6 <= |source| && source[at] == 0xA1 && source[at + 1] == 0x02
  {
    assert source[at] == source[at..at + 6][0] && source[at + 1] == source[at..at + 6][1];
  }

  /** Empty when the source is not the built-in layout. */
  function GenericPidDescriptor(source: seq<Byte>, pidBlock: seq<Byte>): (descriptor: seq<Byte>) {
    if !BuiltInLayout(source) then []
    else
      var at := Search(source, LEGACY_RUMBLE_PREFIX, 0);
      if at == |source| then []
      else
        LegacyIsPastPrefix(source);
        source[..at][3 := 0x04] + pidBlock + [0xC0]
  }

  /** The DualShock 4 and DualSense are always exposed over USB. */
  function EffectiveVhfGamepadProfile(p: Profile, t: Tables): Profile {
    if p.bus != Bluetooth then p
    else if p.kind == DualShock4 then
      p.(bus := Usb, reportId := 1, inputSize := 64, outputSize := 32, descriptor := t.dualShock4Usb)
    else if p.kind == DualSense then
      p.(bus := Usb, reportId := 1, inputSize := 64, outputSize := 48, descriptor := t.dualSenseUsb)
    else p
  }

  function HidKeyboardProfile(p: Profile, t: Tables): Profile {
    p.(deviceType := Keyboard, kind := Generic, reportId := 0, descriptor := t.keyboard,
       inputSize := KEYBOARD_INPUT_SIZE, outputSize := KEYBOARD_OUTPUT_SIZE, capabilities := NO_CAPABILITIES)
  }

  function HidMouseProfile(p: Profile, t: Tables): Profile {
    p.(deviceType := Mouse, kind := Generic, reportId := 0, descriptor := t.mouse,
       inputSize := MOUSE_INPUT_SIZE, outputSize := 0, capabilities := NO_CAPABILITIES)
  }

  predicate Expands(p: Profile) {
    && p.deviceType == Gamepad && p.kind == Generic && p.capabilities.rumble
    && BuiltInLayout(p.descriptor) && Search(p.descriptor, LEGACY_RUMBLE_PREFIX, 0) < |p.descriptor|
  }

  /** The profile as the request states it, before anything is cut to size. */
  function Stated(p: Profile, t: Tables): Profile {
    if Expands(p) then p.(descriptor := GenericPidDescriptor(p.descriptor, t.pidBlock), outputSize := PID_OUTPUT_SIZE)
    else if p.deviceType == Gamepad && p.kind == XboxSeries then
      p.(inputSize := XBOX_SERIES_INPUT_SIZE, outputSize := XBOX_SERIES_OUTPUT_SIZE,
         productId := XBOX_SERIES_PRODUCT, version := XBOX_SERIES_VERSION)
    else p
  }

  function Built(id: nat, profile: Profile, stableId: string, t: Tables): Request {
    var p := Stated(profile, t);
    Request(
      CONTROL_PROTOCOL_VERSION, REQUEST_SIZE, id,
      ProtocolDeviceType(p.deviceType), ProtocolBusType(p.bus), ProtocolKind(p.kind),
      if p.deviceType == Gamepad then GamepadFlags(p.capabilities) else 0,
      p.vendorId, p.productId, p.version, p.reportId, [0, 0, 0, 0, 0, 0, 0],
      Min(p.inputSize, MAX_INPUT_REPORT), Min(p.outputSize, MAX_OUTPUT_REPORT), CopiedBytes(p.descriptor),
      CopiedText(p.name), CopiedText(p.manufacturer), CopiedText(stableId),
      Padded(p.descriptor, CopiedBytes(p.descriptor), MAX_DESCRIPTOR, 0),
      Padded(p.name, CopiedText(p.name), TEXT_SIZE, '\0'),
      Padded(p.manufacturer, CopiedText(p.manufacturer), TEXT_SIZE, '\0'),
      Padded(stableId, CopiedText(stableId), TEXT_SIZE, '\0'))
  }

  // ----- The broker ------------------------------------------------------------------------------

  predicate ZeroFrom<T(==)>(values: seq<T>, from: nat, zero: T) {
    forall i :: from <= i < |values| ==> values[i] == zero
  }

  predicate ValidSizedCString(value: string, size: nat) {
    && size < |value| && value[size] == '\0'
    && '\0' !in value[..size]
    && ZeroFrom(value, size, '\0')
  }

  predicate ValidDeviceFields(r: Request) {
    || r.deviceType == DEVICE_GAMEPAD
    || (&& r.kind == 0 && r.flags == 0 && r.reportId == 0
        && (|| (r.deviceType == DEVICE_KEYBOARD
                && r.inputSize == KEYBOARD_INPUT_SIZE && r.outputSize == KEYBOARD_OUTPUT_SIZE)
            || (r.deviceType == DEVICE_MOUSE && r.inputSize == MOUSE_INPUT_SIZE && r.outputSize == 0)))
  }

  predicate ValidDriverDescriptor(r: Request, t: Tables) {
    || r.deviceType == DEVICE_GAMEPAD
    || (r.deviceType == DEVICE_KEYBOARD && r.descriptorSize == |t.keyboard| && t.keyboard <= r.descriptor)
    || (r.deviceType == DEVICE_MOUSE && r.descriptorSize == |t.mouse| && t.mouse <= r.descriptor)
  }

  predicate ValidDeviceRequest(r: Request, t: Tables) {
    && r.version == CONTROL_PROTOCOL_VERSION && r.size == REQUEST_SIZE && r.clientId != 0
    && (r.deviceType == DEVICE_GAMEPAD || r.deviceType == DEVICE_KEYBOARD || r.deviceType == DEVICE_MOUSE)
    && (r.busType == 0 || r.busType == 1 || r.busType == 2)
    && r.kind <= KIND_DUALSHOCK4
    && ValidDeviceFields(r) && ValidDriverDescriptor(r, t)
    && r.flags & !KNOWN_FLAGS == 0
    && ZeroFrom(r.reserved, 0, 0)
    && 0 < r.inputSize <= MAX_INPUT_REPORT && r.outputSize <= MAX_OUTPUT_REPORT
    && 0 < r.descriptorSize <= MAX_DESCRIPTOR
    && ValidSizedCString(r.name, r.nameSize)
    && ValidSizedCString(r.manufacturer, r.manufacturerSize)
    && ValidSizedCString(r.stableId, r.stableIdSize)
    && ZeroFrom(r.descriptor, r.descriptorSize, 0)
  }

  // ----- What the broker makes of it -----------------------------------------------------------------

  /** No NUL among the characters that get copied. */
  predicate TextOk(text: string) {
    '\0' !in text[..CopiedText(text)]
  }

  /** A copied text of any length is valid exactly when its copied part holds no NUL. */
  lemma CopiedTextValid(text: string)
    ensures ValidSizedCString(Padded(text, CopiedText(text), TEXT_SIZE, '\0'), CopiedText(text)) <==> TextOk(text)
  {
    var copied := CopiedText(text);
    var value := Padded(text, copied, TEXT_SIZE, '\0');
    assert value[..copied] == text[..copied];
  }

  lemma CopiedDescriptorPadded(source: seq<Byte>)
    ensures ZeroFrom(Padded(source, CopiedBytes(source), MAX_DESCRIPTOR, 0), CopiedBytes(source), 0)
    ensures Padded(source, CopiedBytes(source), MAX_DESCRIPTOR, 0)[..CopiedBytes(source)]
         == source[..CopiedBytes(source)]
  {
  }

  lemma CopiedDescriptorEquals(source: seq<Byte>, table: seq<Byte>)
    requires |table| < MAX_DESCRIPTOR
    ensures CopiedBytes(source) == |table| && table <= Padded(source, CopiedBytes(source), MAX_DESCRIPTOR, 0)
      <==> source == table
  {
    if CopiedBytes(source) == |table| {
      CopiedDescriptorPadded(source);
      assert source[..|table|] == source;
      assert Padded(source, |table|, MAX_DESCRIPTOR, 0)[..|table|] == source;
    }
  }

  /** What a profile must be for its request to pass. */
  predicate Acceptable(p: Profile, t: Tables) {
    match p.deviceType
    case Gamepad => p.descriptor != [] && (p.kind == XboxSeries || p.inputSize > 0)
    case Keyboard =>
      p.kind == Generic && p.reportId == 0 && p.descriptor == t.keyboard
      && p.inputSize == KEYBOARD_INPUT_SIZE && p.outputSize == KEYBOARD_OUTPUT_SIZE
    case Mouse =>
      p.kind == Generic && p.reportId == 0 && p.descriptor == t.mouse
      && p.inputSize == MOUSE_INPUT_SIZE && p.outputSize == 0
    case _ => false
  }

  lemma StatedDescriptor(p: Profile, t: Tables)
    requires t.Valid()
    ensures var d := Stated(p, t).descriptor;
            && (d == [] <==> p.descriptor == [])
            && (p.deviceType != Gamepad ==> d == p.descriptor)
            && (CopiedBytes(d) == 0 <==> d == [])
  {
    hide Search;
  }

  lemma FieldsIff(id: nat, p: Profile, stableId: string, t: Tables)
    requires t.Valid()
    ensures var r := Built(id, p, stableId, t);
            && (r.deviceType == DEVICE_GAMEPAD || r.deviceType == DEVICE_KEYBOARD || r.deviceType == DEVICE_MOUSE)
            && ValidDeviceFields(r) && ValidDriverDescriptor(r, t) && 0 < r.inputSize && 0 < r.descriptorSize
            <==> Acceptable(p, t)
  {
    hide Padded, CopiedText, CopiedBytes, GamepadFlags, Search, BuiltInLayout;
    StatedDescriptor(p, t);
    CopiedDescriptorEquals(p.descriptor, t.keyboard);
    CopiedDescriptorEquals(p.descriptor, t.mouse);
  }

  lemma ReservedZero(id: nat, p: Profile, stableId: string, t: Tables)
    ensures ZeroFrom(Built(id, p, stableId, t).reserved, 0, 0)
  {
  }

  /** For every profile, identifier and text: the broker accepts exactly these requests of the client. */
  lemma BuiltValidIff(id: nat, p: Profile, stableId: string, t: Tables)
    requires t.Valid()
    ensures ValidDeviceRequest(Built(id, p, stableId, t), t) <==>
      id != 0 && TextOk(p.name) && TextOk(p.manufacturer) && TextOk(stableId) && Acceptable(p, t)
  {
    hide Padded, CopiedText, CopiedBytes, ValidSizedCString, TextOk, GamepadFlags, Search, BuiltInLayout, ZeroFrom;
    hide Acceptable, ValidDeviceFields, ValidDriverDescriptor;
    CopiedTextValid(p.name);
    CopiedTextValid(p.manufacturer);
    CopiedTextValid(stableId);
    FlagsRoundTrip(p.capabilities);
    FlagsRoundTrip(NO_CAPABILITIES);
    FieldsIff(id, p, stableId, t);
    CopiedDescriptorPadded(Stated(p, t).descriptor);
    ReservedZero(id, p, stableId, t);
  }

  // ----- What the runtime accepts ---------------------------------------------------------------

  /** What the runtime and the backend demand of a gamepad profile before a request is built. */
  predicate GamepadAccepted(p: Profile) {
    && p.deviceType == Gamepad && p.name != "" && p.descriptor != [] && p.inputSize != 0
    && |p.descriptor| <= MAX_DESCRIPTOR && p.inputSize <= MAX_INPUT_REPORT && p.outputSize <= MAX_OUTPUT_REPORT
  }

  predicate NulFree(text: string) {
    '\0' !in text
  }

  lemma NulFreeOk(text: string)
    requires NulFree(text)
    ensures TextOk(text)
  {
  }

  /** Every accepted gamepad, with a nonzero identifier and texts of any length without NUL, passes. */
  lemma AcceptedGamepadPasses(id: nat, p: Profile, stableId: string, t: Tables)
    requires t.Valid() && id != 0 && GamepadAccepted(p)
    requires NulFree(p.name) && NulFree(p.manufacturer) && NulFree(stableId)
    ensures ValidDeviceRequest(Built(id, EffectiveVhfGamepadProfile(p, t), stableId, t), t)
  {
    hide ValidDeviceRequest, Built, TextOk, NulFree;
    BuiltValidIff(id, EffectiveVhfGamepadProfile(p, t), stableId, t);
    NulFreeOk(p.name);
    NulFreeOk(p.manufacturer);
    NulFreeOk(stableId);
  }

  /** Whatever else a keyboard or mouse profile says, its driver-backed form passes. */
  lemma AcceptedInputDevicePasses(id: nat, p: Profile, stableId: string, t: Tables)
    requires t.Valid() && id != 0
    requires NulFree(p.name) && NulFree(p.manufacturer) && NulFree(stableId)
    ensures ValidDeviceRequest(Built(id, HidKeyboardProfile(p, t), stableId, t), t)
    ensures ValidDeviceRequest(Built(id, HidMouseProfile(p, t), stableId, t), t)
  {
    hide ValidDeviceRequest, Built, TextOk, NulFree;
    BuiltValidIff(id, HidKeyboardProfile(p, t), stableId, t);
    BuiltValidIff(id, HidMouseProfile(p, t), stableId, t);
    NulFreeOk(p.name);
    NulFreeOk(p.manufacturer);
    NulFreeOk(stableId);
  }

  /** What a C string reader finds in a text field. */
  function CString(value: string): string {
    if value == "" || value[0] == '\0' then "" else [value[0]] + CString(value[1..])
  }

  lemma {:induction false} CStringStops(text: string, zeros: nat)
    requires NulFree(text)
    ensures CString(text + seq(zeros, _ => '\0')) == text
    decreases |text|
  {
    if text != "" {
      CStringStops(text[1..], zeros);
      assert (text + seq(zeros, _ => '\0'))[1..] == text[1..] + seq(zeros, _ => '\0');
    }
  }

  /** The broker reads the first 127 characters of a text, all of it when it is shorter. */
  lemma TextArrives(text: string)
    requires NulFree(text)
    ensures var value := Padded(text, CopiedText(text), TEXT_SIZE, '\0');
            && CString(value) == text[..CopiedText(text)]
            && (CString(value) == text <==> |text| < TEXT_SIZE)
  {
    var copied := CopiedText(text);
    CStringStops(text[..copied], TEXT_SIZE - copied);
  }

  lemma ExpandedLength(source: seq<Byte>, pidBlock: seq<Byte>)
    requires BuiltInLayout(source) && Search(source, LEGACY_RUMBLE_PREFIX, 0) < |source|
    ensures |GenericPidDescriptor(source, pidBlock)| == Search(source, LEGACY_RUMBLE_PREFIX, 0) + |pidBlock| + 1
  {
    hide Search, BuiltInLayout;
    LegacyIsPastPrefix(source);
  }

  /**
   * The broker gets an accepted gamepad's descriptor whole, unless force feedback was spliced into one
   * that leaves no room for it: then the request passes all the same, with the end cut off.
   */
  lemma DescriptorArrivesIff(id: nat, p: Profile, stableId: string, t: Tables)
    requires t.Valid() && GamepadAccepted(p)
    ensures var r := Built(id, p, stableId, t);
            r.descriptorSize <= |r.descriptor|
            && (r.descriptor[..r.descriptorSize] == Stated(p, t).descriptor <==>
                  !(Expands(p) && Search(p.descriptor, LEGACY_RUMBLE_PREFIX, 0) + PID_BLOCK_SIZE + 1 > MAX_DESCRIPTOR))
  {
    hide Padded, CopiedText, Search, BuiltInLayout, GenericPidDescriptor;
    var d := Stated(p, t).descriptor;
    CopiedDescriptorPadded(d);
    if Expands(p) {
      ExpandedLength(p.descriptor, t.pidBlock);
    }
    assert d[..CopiedBytes(d)] == d <==> |d| <= MAX_DESCRIPTOR;
  }

  /** A descriptor of the built-in layout with `filler` zeros before its rumble block. */
  function Padding(filler: nat): seq<Byte> {
    GAMEPAD_COLLECTION_PREFIX + seq<Byte>(filler, _ => 0) + LEGACY_RUMBLE_PREFIX + [0xC0]
  }

  lemma PaddingSearch(filler: nat)
    ensures BuiltInLayout(Padding(filler))
    ensures Search(Padding(filler), LEGACY_RUMBLE_PREFIX, 0) == 6 + filler < |Padding(filler)|
  {
    hide Search;
    var d := Padding(filler);
    assert d[..6] == GAMEPAD_COLLECTION_PREFIX;
    assert d[6 + filler..6 + filler + 6] == LEGACY_RUMBLE_PREFIX;
    assert MatchesAt(d, LEGACY_RUMBLE_PREFIX, 6 + filler);
    var at := Search(d, LEGACY_RUMBLE_PREFIX, 0);
    LegacyIsPastPrefix(d);
    if at < |d| {
      LegacyBytes(d, at);
    }
  }

  /** Such descriptors exist: the request passes, and what it carries is cut. */
  lemma LongDescriptorCut(id: nat, p: Profile, filler: nat, stableId: string, t: Tables)
    requires t.Valid() && id != 0 && 1013 <= filler <= 2035
    requires NulFree(p.name) && NulFree(p.manufacturer) && NulFree(stableId)
    requires GamepadAccepted(p) && p.descriptor == Padding(filler) && p.kind == Generic && p.capabilities.rumble
    ensures var r := Built(id, p, stableId, t);
            ValidDeviceRequest(r, t) && r.descriptorSize <= |r.descriptor|
            && r.descriptor[..r.descriptorSize] != Stated(p, t).descriptor
  {
    hide ValidDeviceRequest, Built, Padding, Search, NulFree;
    PaddingSearch(filler);
    DescriptorArrivesIff(id, p, stableId, t);
    AcceptedGamepadPasses(id, p, stableId, t);
  }

  // ----- Field by field ------------------------------------------------------------------------------

  /** Every code the broker knows stands for one value, and every other value is code zero. */
  predicate Codes(r: Request, deviceType: DeviceType, bus: BusType, kind: Kind) {
    && (r.deviceType == 1 <==> deviceType == Gamepad)
    && (r.deviceType == 2 <==> deviceType == Mouse)
    && (r.deviceType == 3 <==> deviceType == Keyboard)
    && r.deviceType <= 3
    && (r.busType == 0 <==> bus == UnknownBus)
    && (r.busType == 1 <==> bus == Usb)
    && (r.busType == 2 <==> bus == Bluetooth)
    && (r.kind == 0 <==> kind == Generic)
    && (r.kind == 1 <==> kind == Xbox360)
    && (r.kind == 2 <==> kind == XboxOne)
    && (r.kind == 3 <==> kind == XboxSeries)
    && (r.kind == 4 <==> kind == DualSense)
    && (r.kind == 5 <==> kind == SwitchPro)
    && (r.kind == 6 <==> kind == DualShock4)
  }

  /** One bit for each capability of a gamepad, in the order of the protocol, and no other bit. */
  predicate FlagsSay(flags: bv32, gamepad: bool, c: Capabilities) {
    && flags & !0x3F == 0
    && (flags & 0x01 != 0 <==> gamepad && c.rumble)
    && (flags & 0x02 != 0 <==> gamepad && c.motion)
    && (flags & 0x04 != 0 <==> gamepad && c.touchpad)
    && (flags & 0x08 != 0 <==> gamepad && c.rgbLed)
    && (flags & 0x10 != 0 <==> gamepad && c.battery)
    && (flags & 0x20 != 0 <==> gamepad && c.adaptiveTriggers)
  }

  /** The identity of the device; an Xbox Series gamepad goes by a fixed product and version. */
  predicate Identity(r: Request, id: nat, p: Profile) {
    var series := p.deviceType == Gamepad && p.kind == XboxSeries;
    && r.version == 5 && r.size == 2502 && r.reserved == [0, 0, 0, 0, 0, 0, 0]
    && r.clientId == id && r.vendorId == p.vendorId && r.reportId == p.reportId
    && r.productId == (if series then 0x0B12 else p.productId)
    && r.deviceVersion == (if series then 0x0509 else p.version)
  }

  /** The first 127 characters of the text, then NULs. */
  predicate TextField(value: string, size: nat, text: string) {
    && |value| == 128 && size == Min(|text|, 127)
    && (forall i :: 0 <= i < size ==> value[i] == text[i])
    && (forall i :: size <= i < 128 ==> value[i] == '\0')
  }

  /** A logical collection with the physical interface usage of the rumble motors. */
  predicate RumbleBlockAt(d: seq<Byte>, at: nat) {
    at + 6 <= |d| && d[at..at + 6] == [0xA1, 0x02, 0x05, 0x0F, 0x09, 0x97]
  }

  /** A generic rumble gamepad of the built-in layout gets force feedback in place of its first rumble block. */
  ghost predicate Spliced(p: Profile, at: nat) {
    && p.deviceType == Gamepad && p.kind == Generic && p.capabilities.rumble
    && |p.descriptor| >= 7 && p.descriptor[..6] == [0x05, 0x01, 0x09, 0x05, 0xA1, 0x01]
    && p.descriptor[|p.descriptor| - 1] == 0xC0
    && RumbleBlockAt(p.descriptor, at) && (forall i :: 0 <= i < at ==> !RumbleBlockAt(p.descriptor, i))
  }

  /** The field holds as much of `d` as fits, then zeros, and says how much that is. */
  predicate DescriptorField(r: Request, d: seq<Byte>) {
    && |r.descriptor| == 2048 && r.descriptorSize == Min(|d|, 2048)
    && (forall i :: 0 <= i < r.descriptorSize ==> r.descriptor[i] == d[i])
    && (forall i :: r.descriptorSize <= i < 2048 ==> r.descriptor[i] == 0)
  }

  /** The report sizes and the descriptor, in the three cases there are. */
  ghost predicate Reports(r: Request, p: Profile, pidBlock: seq<Byte>) {
    if p.deviceType == Gamepad && p.kind == XboxSeries then
      r.inputSize == 17 && r.outputSize == 8 && DescriptorField(r, p.descriptor)
    else if exists at: nat :: Spliced(p, at) then
      && r.inputSize == Min(p.inputSize, 256) && r.outputSize == 22
      && forall at: nat :: Spliced(p, at) ==>
           6 <= at && DescriptorField(r, p.descriptor[..3] + [0x04] + p.descriptor[4..at] + pidBlock + [0xC0])
    else
      && r.inputSize == Min(p.inputSize, 256) && r.outputSize == Min(p.outputSize, 256)
      && DescriptorField(r, p.descriptor)
  }

  /** Everything a request says, in terms of the profile alone. */
  ghost predicate Says(r: Request, id: nat, p: Profile, stableId: string, pidBlock: seq<Byte>) {
    && Identity(r, id, p)
    && Codes(r, p.deviceType, p.bus, p.kind)
    && FlagsSay(r.flags, p.deviceType == Gamepad, p.capabilities)
    && TextField(r.name, r.nameSize, p.name)
    && TextField(r.manufacturer, r.manufacturerSize, p.manufacturer)
    && TextField(r.stableId, r.stableIdSize, stableId)
    && Reports(r, p, pidBlock)
  }

  lemma SplicedIffExpands(p: Profile, at: nat)
    ensures Spliced(p, at) <==> Expands(p) && at == Search(p.descriptor, LEGACY_RUMBLE_PREFIX, 0)
  {
    var d, found := p.descriptor, Search(p.descriptor, LEGACY_RUMBLE_PREFIX, 0);
    assert forall i: nat :: MatchesAt(d, LEGACY_RUMBLE_PREFIX, i) <==> RumbleBlockAt(d, i);
    hide Search, MatchesAt;
    if found < at {
      assert found < |d| ==> RumbleBlockAt(d, found);
    }
    if at < found {
      assert !MatchesAt(d, LEGACY_RUMBLE_PREFIX, at);
    }
  }

  lemma TextFieldCopied(text: string)
    ensures TextField(Padded(text, CopiedText(text), TEXT_SIZE, '\0'), CopiedText(text), text)
  {
  }

  lemma DescriptorFieldCopied(r: Request, d: seq<Byte>)
    requires r.descriptorSize == CopiedBytes(d) && r.descriptor == Padded(d, CopiedBytes(d), MAX_DESCRIPTOR, 0)
    ensures DescriptorField(r, d)
  {
  }

  lemma BuiltReports(id: nat, p: Profile, stableId: string, t: Tables)
    ensures Reports(Built(id, p, stableId, t), p, t.pidBlock)
  {
    hide Search, BuiltInLayout, Padded, CopiedText, CopiedBytes, GamepadFlags, DescriptorField, Spliced;
    var r, found := Built(id, p, stableId, t), Search(p.descriptor, LEGACY_RUMBLE_PREFIX, 0);
    DescriptorFieldCopied(r, Stated(p, t).descriptor);
    forall at: nat
      ensures Spliced(p, at) <==> Expands(p) && at == found
    {
      SplicedIffExpands(p, at);
    }
    if Expands(p) {
      LegacyIsPastPrefix(p.descriptor);
      assert Spliced(p, found);
      assert p.descriptor[..found][3 := 0x04] == p.descriptor[..3] + [0x04] + p.descriptor[4..found];
    }
  }

  lemma BuiltFlags(p: Profile)
    ensures var gamepad := p.deviceType == Gamepad;
            FlagsSay(if gamepad then GamepadFlags(p.capabilities) else 0, gamepad, p.capabilities)
  {
  }

  lemma BuiltSays(id: nat, p: Profile, stableId: string, t: Tables)
    ensures Says(Built(id, p, stableId, t), id, p, stableId, t.pidBlock)
  {
    hide Padded, CopiedText, CopiedBytes, GamepadFlags, TextField, Reports, FlagsSay, Search, BuiltInLayout;
    TextFieldCopied(p.name);
    TextFieldCopied(p.manufacturer);
    TextFieldCopied(stableId);
    BuiltFlags(p);
    BuiltReports(id, p, stableId, t);
  }

  /**
   * A Bluetooth DualShock 4 or DualSense is asked for as the USB device of the same identity, with the
   * USB descriptor and report sizes of its own kind.
   */
  lemma BluetoothPlayStationSays(id: nat, p: Profile, stableId: string, t: Tables)
    requires p.deviceType == Gamepad && p.bus == Bluetooth && p.kind in {DualShock4, DualSense}
    ensures var r := Built(id, EffectiveVhfGamepadProfile(p, t), stableId, t);
            && Identity(r, id, p.(reportId := 1)) && Codes(r, Gamepad, Usb, p.kind)
            && FlagsSay(r.flags, true, p.capabilities)
            && TextField(r.name, r.nameSize, p.name)
            && TextField(r.manufacturer, r.manufacturerSize, p.manufacturer)
            && TextField(r.stableId, r.stableIdSize, stableId)
            && r.inputSize == 64 && r.outputSize == (if p.kind == DualSense then 48 else 32)
            && DescriptorField(r, if p.kind == DualSense then t.dualSenseUsb else t.dualShock4Usb)
  {
    hide Built, TextField, FlagsSay, DescriptorField;
    BuiltSays(id, EffectiveVhfGamepadProfile(p, t), stableId, t);
  }

  /** Nothing is left open: a profile, a text and an identifier have one request. */
  lemma SaysOnce(q: Request, r: Request, id: nat, p: Profile, stableId: string, pidBlock: seq<Byte>)
    requires Says(q, id, p, stableId, pidBlock) && Says(r, id, p, stableId, pidBlock)
    ensures q == r
  {
    hide Reports, TextField, FlagsSay;
    TextFieldOnce(q.name, r.name, q.nameSize, r.nameSize, p.name);
    TextFieldOnce(q.manufacturer, r.manufacturer, q.manufacturerSize, r.manufacturerSize, p.manufacturer);
    TextFieldOnce(q.stableId, r.stableId, q.stableIdSize, r.stableIdSize, stableId);
    FlagsOnce(q.flags, r.flags, p.deviceType == Gamepad, p.capabilities);
    ReportsOnce(q, r, p, pidBlock);
  }

  lemma ReportsOnce(q: Request, r: Request, p: Profile, pidBlock: seq<Byte>)
    requires Reports(q, p, pidBlock) && Reports(r, p, pidBlock)
    ensures q.inputSize == r.inputSize && q.outputSize == r.outputSize
    ensures q.descriptorSize == r.descriptorSize && q.descriptor == r.descriptor
  {
    hide DescriptorField;
    if !(p.deviceType == Gamepad && p.kind == XboxSeries) && exists at: nat :: Spliced(p, at) {
      var at: nat :| Spliced(p, at);
      DescriptorOnce(q, r, p.descriptor[..3] + [0x04] + p.descriptor[4..at] + pidBlock + [0xC0]);
    } else {
      DescriptorOnce(q, r, p.descriptor);
    }
  }

  lemma TextFieldOnce(value: string, value': string, size: nat, size': nat, text: string)
    requires TextField(value, size, text) && TextField(value', size', text)
    ensures value == value' && size == size'
  {
  }

  lemma FlagsOnce(flags: bv32, flags': bv32, gamepad: bool, c: Capabilities)
    requires FlagsSay(flags, gamepad, c) && FlagsSay(flags', gamepad, c)
    ensures flags == flags'
  {
  }

  lemma DescriptorOnce(q: Request, r: Request, d: seq<Byte>)
    requires DescriptorField(q, d) && DescriptorField(r, d)
    ensures q.descriptorSize == r.descriptorSize && q.descriptor == r.descriptor
  {
  }

  /** Two profiles with the same request agree in everything a request has room for. */
  lemma SaysWhat(r: Request, id: nat, id': nat, p: Profile, p': Profile, s: string, s': string, pidBlock: seq<Byte>)
    requires Says(r, id, p, s, pidBlock) && Says(r, id', p', s', pidBlock)
    requires p.deviceType in {Gamepad, Mouse, Keyboard} && p'.deviceType in {Gamepad, Mouse, Keyboard}
    ensures id == id' && p.deviceType == p'.deviceType && p.bus == p'.bus && p.kind == p'.kind
    ensures p.vendorId == p'.vendorId && p.reportId == p'.reportId
    ensures p.deviceType == Gamepad ==> p.capabilities == p'.capabilities
    ensures p.kind != XboxSeries || p.deviceType != Gamepad ==> p.productId == p'.productId && p.version == p'.version
    ensures p.name[..r.nameSize] == p'.name[..r.nameSize]
    ensures p.manufacturer[..r.manufacturerSize] == p'.manufacturer[..r.manufacturerSize]
    ensures s[..r.stableIdSize] == s'[..r.stableIdSize]
  {
    hide Reports, TextField;
    TextSaid(r.name, r.nameSize, p.name, p'.name);
    TextSaid(r.manufacturer, r.manufacturerSize, p.manufacturer, p'.manufacturer);
    TextSaid(r.stableId, r.stableIdSize, s, s');
  }

  lemma TextSaid(value: string, size: nat, text: string, text': string)
    requires TextField(value, size, text) && TextField(value, size, text')
    ensures size <= |text| && size <= |text'| && text[..size] == text'[..size]
  {
  }

  /** The lengths the packed structure declares. */
  predicate Declared(r: Request) {
    |r.descriptor| == 2048 && |r.name| == 128 && |r.manufacturer| == 128 && |r.stableId| == 128 && |r.reserved| == 7
  }

  /** The profile a valid request speaks of. */
  function ProfileOf(r: Request, t: Tables): Profile
    requires Declared(r) && ValidDeviceRequest(r, t)
  {
    Profile(
      if r.deviceType == 1 then Gamepad else if r.deviceType == 2 then Mouse else Keyboard,
      [Generic, Xbox360, XboxOne, XboxSeries, DualSense, SwitchPro, DualShock4][r.kind],
      [UnknownBus, Usb, Bluetooth][r.busType],
      r.vendorId, r.productId, r.deviceVersion, r.reportId, r.inputSize, r.outputSize,
      r.name[..r.nameSize], r.manufacturer[..r.manufacturerSize],
      Capabilities(r.flags & 0x01 != 0, r.flags & 0x02 != 0, r.flags & 0x04 != 0,
                   r.flags & 0x08 != 0, r.flags & 0x10 != 0, r.flags & 0x20 != 0),
      r.descriptor[..r.descriptorSize])
  }

  /** For these the client always states something else than the profile. */
  predicate Rewritten(p: Profile) {
    (p.deviceType == Gamepad && p.kind == XboxSeries) || Expands(p)
  }

  /**
   * The broker accepts nothing else: every valid request is, field for field, the one the client builds
   * for the profile it speaks of, unless that is one of the two the client rewrites.
   */
  lemma ValidIsBuilt(r: Request, t: Tables)
    requires Declared(r) && ValidDeviceRequest(r, t) && !Rewritten(ProfileOf(r, t))
    ensures r == Built(r.clientId, ProfileOf(r, t), r.stableId[..r.stableIdSize], t)
  {
    var p, stableId := ProfileOf(r, t), r.stableId[..r.stableIdSize];
    hide Built, Expands, Spliced;
    ValidText(r.name, r.nameSize);
    ValidText(r.manufacturer, r.manufacturerSize);
    ValidText(r.stableId, r.stableIdSize);
    ValidReports(r, p, t);
    assert r.reserved == [0, 0, 0, 0, 0, 0, 0];
    hide TextField, Reports;
    assert Says(r, r.clientId, p, stableId, t.pidBlock);
    BuiltSays(r.clientId, p, stableId, t);
    SaysOnce(r, Built(r.clientId, p, stableId, t), r.clientId, p, stableId, t.pidBlock);
  }

  lemma ValidText(value: string, size: nat)
    requires |value| == 128 && ValidSizedCString(value, size)
    ensures TextField(value, size, value[..size])
  {
  }

  lemma ValidReports(r: Request, p: Profile, t: Tables)
    requires Declared(r) && ValidDeviceRequest(r, t) && p == ProfileOf(r, t) && !Rewritten(p)
    ensures Reports(r, p, t.pidBlock)
  {
    hide Spliced, Expands;
    forall at: nat
      ensures !Spliced(p, at)
    {
      SplicedIffExpands(p, at);
    }
  }

  // ----- Filling the request -----------------------------------------------------------------------

  method CopyString(target: array<char>, source: string) returns (copied: nat)
    requires target.Length == TEXT_SIZE
    modifies target
    ensures copied == CopiedText(source) && target[..] == Padded(source, copied, TEXT_SIZE, '\0')
  {
    for i := 0 to target.Length
      invariant forall k :: 0 <= k < i ==> target[k] == '\0'
    {
      target[i] := '\0';
    }
    copied := Min(|source|, target.Length - 1);
    for i := 0 to copied
      invariant target[..i] == source[..i]
      invariant forall k :: i <= k < target.Length ==> target[k] == '\0'
    {
      target[i] := source[i];
    }
  }

  method CopyBytes(target: array<Byte>, source: seq<Byte>) returns (copied: nat)
    requires target.Length == MAX_DESCRIPTOR
    modifies target
    ensures copied == CopiedBytes(source) && target[..] == Padded(source, copied, MAX_DESCRIPTOR, 0)
  {
    for i := 0 to target.Length
      invariant forall k :: 0 <= k < i ==> target[k] == 0
    {
      target[i] := 0;
    }
    copied := Min(|source|, target.Length);
    for i := 0 to copied
      invariant target[..i] == source[..i]
      invariant forall k :: i <= k < target.Length ==> target[k] == 0
    {
      target[i] := source[i];
    }
  }

  method MakeCreateDeviceRequest(id: nat, profile: Profile, stableId: string, t: Tables) returns (request: Request)
    ensures request == Built(id, profile, stableId, t)
    ensures Says(request, id, profile, stableId, t.pidBlock)
  {
    hide Says, Padded, CopiedText, CopiedBytes, Search, BuiltInLayout, GamepadFlags;
    var p := profile;
    if profile.deviceType == Gamepad && profile.kind == Generic && profile.capabilities.rumble {
      var pid := GenericPidDescriptor(profile.descriptor, t.pidBlock);
      if pid != [] {
        p := p.(descriptor := pid, outputSize := PID_OUTPUT_SIZE);
      }
    }
    if profile.deviceType == Gamepad && profile.kind == XboxSeries {
      p := p.(inputSize := XBOX_SERIES_INPUT_SIZE, outputSize := XBOX_SERIES_OUTPUT_SIZE,
              productId := XBOX_SERIES_PRODUCT, version := XBOX_SERIES_VERSION);
    }
    assert p == Stated(profile, t);
    BuiltSays(id, profile, stableId, t);
    var descriptor := new Byte[MAX_DESCRIPTOR](_ => 0);
    var name := new char[TEXT_SIZE](_ => '\0');
    var manufacturer := new char[TEXT_SIZE](_ => '\0');
    var stable := new char[TEXT_SIZE](_ => '\0');
    var descriptorSize := CopyBytes(descriptor, p.descriptor);
    var nameSize := CopyString(name, p.name);
    var manufacturerSize := CopyString(manufacturer, p.manufacturer);
    var stableSize := CopyString(stable, stableId);
    request := Request(
      CONTROL_PROTOCOL_VERSION, REQUEST_SIZE, id,
      ProtocolDeviceType(p.deviceType), ProtocolBusType(p.bus), ProtocolKind(p.kind),
      if p.deviceType == Gamepad then GamepadFlags(p.capabilities) else 0,
      p.vendorId, p.productId, p.version, p.reportId, [0, 0, 0, 0, 0, 0, 0],
      Min(p.inputSize, MAX_INPUT_REPORT), Min(p.outputSize, MAX_OUTPUT_REPORT), descriptorSize,
      nameSize, manufacturerSize, stableSize,
      descriptor[..], name[..], manufacturer[..], stable[..]);
  }
}
