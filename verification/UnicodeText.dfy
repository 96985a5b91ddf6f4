/**
 * Text on its way to the screen: code points are written as UTF-8 (section 3 of RFC 3629), possibly
 * from UTF-16 (section 2.2 of RFC 2781), decoded again by the Linux keyboard and typed one by one as
 * Ctrl+Shift+U, hexadecimal digits and Enter.
 */
module UnicodeText {
  import opened Bytes

  /** A `char32_t`: the code points of the source are any 32-bit values. */
  type CodePoint = c: int | 0 <= c < 0x1_0000_0000

  // ----- UTF-8 -------------------------------------------------------------------------------

  /** `append_utf8`. In the last branch `0xF0 | x` cast to a byte keeps the low four bits of x. */
  function EncodeUtf8(c: CodePoint): (bytes: seq<Byte>)
    ensures 1 <= |bytes| <= 4
  {
    if c <= 0x7F then [c]
    else if c <= 0x7FF then [0xC0 + c / 64, 0x80 + c % 64]
    else if c <= 0xFFFF then [0xE0 + c / 4096, 0x80 + c / 64 % 64, 0x80 + c % 64]
    else [0xF0 + c / 262144 % 16, 0x80 + c / 4096 % 64, 0x80 + c / 64 % 64, 0x80 + c % 64]
  }

  function EncodeAll(text: seq<CodePoint>): seq<Byte> {
    if text == [] then [] else EncodeUtf8(text[0]) + EncodeAll(text[1..])
  }

  /** How many bytes a lead byte announces; 0 when it is none. */
  function LeadLength(b: Byte): (n: nat)
    ensures n <= 4
  {
    if b <= 0x7F then 1
    else if 0xC0 <= b <= 0xDF then 2
    else if 0xE0 <= b <= 0xEF then 3
    else if 0xF0 <= b <= 0xF7 then 4
    else 0
  }

  /** The bits of the code point a lead byte carries. */
  function LeadBits(b: Byte): nat {
    if b <= 0x7F then b
    else if b <= 0xDF then b % 32
    else if b <= 0xEF then b % 16
    else b % 8
  }

  predicate Continuation(b: Byte) {
    0x80 <= b <= 0xBF
  }

  predicate AllContinuation(bytes: seq<Byte>) {
    forall k :: 0 <= k < |bytes| ==> Continuation(bytes[k])
  }

  /** Continuation bytes shifted into the lead bits, six at a time. */
  function Extend(bits: nat, bytes: seq<Byte>): nat {
    if bytes == [] then bits else Extend(bits, bytes[..|bytes| - 1]) * 64 + bytes[|bytes| - 1] % 64
  }

  /** `decode_utf8`: bad lead or continuation bytes are skipped one at a time, a short tail is dropped. */
  function DecodeUtf8(bytes: seq<Byte>): seq<nat>
    decreases |bytes|
  {
    if bytes == [] then []
    else
      var n := LeadLength(bytes[0]);
      if n == 0 then DecodeUtf8(bytes[1..])
      else if n > |bytes| then []
      else if AllContinuation(bytes[1..n]) then [Extend(LeadBits(bytes[0]), bytes[1..n])] + DecodeUtf8(bytes[n..])
      else DecodeUtf8(bytes[1..])
  }

  const UTF8_LIMIT: int := 0x20_0000

  lemma ExtendUpToThree(bits: nat, bytes: seq<Byte>)
    requires |bytes| <= 3
    ensures |bytes| == 0 ==> Extend(bits, bytes) == bits
    ensures |bytes| == 1 ==> Extend(bits, bytes) == bits * 64 + bytes[0] % 64
    ensures |bytes| == 2 ==> Extend(bits, bytes) == (bits * 64 + bytes[0] % 64) * 64 + bytes[1] % 64
    ensures |bytes| == 3 ==>
              Extend(bits, bytes) == ((bits * 64 + bytes[0] % 64) * 64 + bytes[1] % 64) * 64 + bytes[2] % 64
  {
    if |bytes| >= 1 {
      assert bytes[..1][..0] == [];
    }
    if |bytes| >= 2 {
      assert bytes[..2][..1] == bytes[..1];
    }
    if |bytes| == 3 {
      assert bytes[..3] == bytes;
    } else if |bytes| == 2 {
      assert bytes[..2] == bytes;
    } else if |bytes| == 1 {
      assert bytes[..1] == bytes;
    }
  }

  /** Decoding undoes one encoded code point below the 21-bit limit, whatever follows. */
  lemma DecodeEncoded(c: CodePoint, rest: seq<Byte>)
    requires c < UTF8_LIMIT
    ensures DecodeUtf8(EncodeUtf8(c) + rest) == [c] + DecodeUtf8(rest)
  {
    EncodedIsWellFormed(c);
    hide EncodeUtf8, Extend, LeadLength, LeadBits, AllContinuation;
    var code := EncodeUtf8(c);
    var bytes := code + rest;
    assert bytes[0] == code[0];
    assert bytes[1..|code|] == code[1..] && bytes[|code|..] == rest;
  }

  /** Lead byte, continuation bytes and value of one encoded code point. */
  lemma EncodedIsWellFormed(c: CodePoint)
    requires c < UTF8_LIMIT
    ensures var code := EncodeUtf8(c);
            LeadLength(code[0]) == |code| && AllContinuation(code[1..]) && Extend(LeadBits(code[0]), code[1..]) == c
  {
    if c <= 0x7F {
      ExtendUpToThree(c, []);
      assert [c][1..] == [];
    } else if c <= 0x7FF {
      TwoBytes(c);
    } else if c <= 0xFFFF {
      ThreeBytes(c);
    } else {
      FourBytes(c);
      assert EncodeUtf8(c) == [0xF0 + c / 262144 % 16] + [0x80 + c / 4096 % 64, 0x80 + c / 64 % 64, 0x80 + c % 64];
    }
  }

  ghost predicate WellFormedFor(code: seq<Byte>, c: nat)
    requires code != []
  {
    LeadLength(code[0]) == |code| && AllContinuation(code[1..]) && Extend(LeadBits(code[0]), code[1..]) == c
  }

  lemma TwoBytes(c: nat)
    requires 0x7F < c <= 0x7FF
    ensures WellFormedFor([0xC0 + c / 64, 0x80 + c % 64], c)
  {
    var lead: Byte, tail: seq<Byte> := 0xC0 + c / 64, [0x80 + c % 64];
    assert [0xC0 + c / 64, 0x80 + c % 64][1..] == tail;
    assert LeadBits(lead) == c / 64;
    hide Extend, LeadBits;
    ExtendUpToThree(LeadBits(lead), tail);
  }

  lemma ThreeBytes(c: nat)
    requires 0x7FF < c <= 0xFFFF
    ensures WellFormedFor([0xE0 + c / 4096, 0x80 + c / 64 % 64, 0x80 + c % 64], c)
  {
    var lead: Byte, tail: seq<Byte> := 0xE0 + c / 4096, [0x80 + c / 64 % 64, 0x80 + c % 64];
    assert [0xE0 + c / 4096, 0x80 + c / 64 % 64, 0x80 + c % 64][1..] == tail;
    assert LeadBits(lead) == c / 4096;
    hide Extend, LeadBits;
    ExtendUpToThree(LeadBits(lead), tail);
    SixBits(c);
  }

  lemma FourBytes(c: nat)
    requires 0xFFFF < c < UTF8_LIMIT
    ensures WellFormedFor([0xF0 + c / 262144 % 16] + [0x80 + c / 4096 % 64, 0x80 + c / 64 % 64, 0x80 + c % 64], c)
  {
    var lead, x, y, z := c / 262144, c / 4096 % 64, c / 64 % 64, c % 64;
    FourLead(c);
    ThreeTail(lead, x, y, z);
    FourParts(c);
    hide Extend, LeadLength, LeadBits, AllContinuation;
    assert ([0xF0 + lead] + [0x80 + x, 0x80 + y, 0x80 + z])[1..] == [0x80 + x, 0x80 + y, 0x80 + z];
  }

  lemma FourLead(c: nat)
    requires 0xFFFF < c < UTF8_LIMIT
    ensures c / 262144 % 16 == c / 262144 < 8
    ensures LeadLength(0xF0 + c / 262144) == 4 && LeadBits(0xF0 + c / 262144) == c / 262144
  {
  }

  lemma FourParts(c: nat)
    ensures ((c / 262144 * 64 + c / 4096 % 64) * 64 + c / 64 % 64) * 64 + c % 64 == c
  {
    SixBits(c);
  }

  lemma ThreeTail(bits: nat, x: nat, y: nat, z: nat)
    requires x < 64 && y < 64 && z < 64
    ensures AllContinuation([0x80 + x, 0x80 + y, 0x80 + z])
    ensures Extend(bits, [0x80 + x, 0x80 + y, 0x80 + z]) == ((bits * 64 + x) * 64 + y) * 64 + z
  {
    ExtendUpToThree(bits, [0x80 + x, 0x80 + y, 0x80 + z]);
  }

  lemma SixBits(c: nat)
    ensures c / 64 * 64 + c % 64 == c
    ensures c / 4096 * 64 + c / 64 % 64 == c / 64
    ensures c / 262144 * 64 + c / 4096 % 64 == c / 4096
  {
    assert c / 64 / 64 == c / 4096 && c / 4096 / 64 == c / 262144;
  }

  /** No byte sequence at all decodes to a value of more than 21 bits. */
  lemma {:induction false} DecodedBelowLimit(bytes: seq<Byte>)
    ensures forall k :: 0 <= k < |DecodeUtf8(bytes)| ==> DecodeUtf8(bytes)[k] < UTF8_LIMIT
    decreases |bytes|
  {
    if bytes != [] {
      var n := LeadLength(bytes[0]);
      if 0 < n <= |bytes| && AllContinuation(bytes[1..n]) {
        DecodedBelowLimit(bytes[n..]);
        ExtendUpToThree(LeadBits(bytes[0]), bytes[1..n]);
      } else {
        DecodedBelowLimit(bytes[1..]);
      }
    }
  }

  lemma {:induction false} DecodeInvertsEncode(text: seq<CodePoint>)
    requires forall k :: 0 <= k < |text| ==> text[k] < UTF8_LIMIT
    ensures DecodeUtf8(EncodeAll(text)) == text
    decreases |text|
  {
    if text != [] {
      DecodeEncoded(text[0], EncodeAll(text[1..]));
      DecodeInvertsEncode(text[1..]);
    }
  }

  /** Text survives UTF-8 if and only if every code point fits in the 21 bits four bytes can carry. */
  lemma Utf8RoundTrip(text: seq<CodePoint>)
    ensures DecodeUtf8(EncodeAll(text)) == text <==> forall k :: 0 <= k < |text| ==> text[k] < UTF8_LIMIT
  {
    hide EncodeAll, DecodeUtf8;
    DecodedBelowLimit(EncodeAll(text));
    if forall k :: 0 <= k < |text| ==> text[k] < UTF8_LIMIT {
      DecodeInvertsEncode(text);
    }
  }

  /** The bits of a code point, laid out as the table of RFC 3629 has them, in the fewest bytes. */
  ghost predicate Utf8Layout(b: seq<int>, c: int) {
    && (c <= 0x7F ==> b == [c])
    && (0x80 <= c <= 0x7FF ==>
          |b| == 2 && 0 <= b[0] - 0xC0 < 32 && 0 <= b[1] - 0x80 < 64 && c == (b[0] - 0xC0) * 64 + (b[1] - 0x80))
    && (0x800 <= c <= 0xFFFF ==>
          && |b| == 3 && 0 <= b[0] - 0xE0 < 16 && 0 <= b[1] - 0x80 < 64 && 0 <= b[2] - 0x80 < 64
          && c == (b[0] - 0xE0) * 4096 + (b[1] - 0x80) * 64 + (b[2] - 0x80))
    && (0x10000 <= c ==>
          && |b| == 4 && 0 <= b[0] - 0xF0 < 16
          && 0 <= b[1] - 0x80 < 64 && 0 <= b[2] - 0x80 < 64 && 0 <= b[3] - 0x80 < 64
          && c % 0x40_0000 == (b[0] - 0xF0) * 262144 + (b[1] - 0x80) * 4096 + (b[2] - 0x80) * 64 + (b[3] - 0x80))
  }

  /** Beyond 21 bits the lead byte still takes one more, and what is above is lost. */
  lemma EncodedLayout(c: CodePoint)
    ensures Utf8Layout(EncodeUtf8(c), c)
  {
    SixBits(c);
    LowBits(c);
  }

  lemma LowBits(c: nat)
    ensures c % 0x40_0000 == c / 262144 % 16 * 262144 + c / 4096 % 64 * 4096 + c / 64 % 64 * 64 + c % 64
  {
    var low := c / 262144 % 16 * 262144 + c / 4096 % 64 * 4096 + c / 64 % 64 * 64 + c % 64;
    SixBits(c);
    assert c / 262144 / 16 * 0x40_0000 + low == c;
    LowPart(c, c / 262144 / 16, low);
  }

  lemma LowPart(c: nat, high: nat, low: nat)
    requires c == high * 0x40_0000 + low && low < 0x40_0000
    ensures c % 0x40_0000 == low
  {
  }

  /** The number of bytes a lead byte asks for. */
  function Announced(lead: Byte): int {
    if 0xC0 <= lead <= 0xDF then 2 else if 0xE0 <= lead <= 0xEF then 3 else if 0xF0 <= lead <= 0xF7 then 4 else 1
  }

  /**
   * One stray byte inside valid text costs nothing but itself: the decoder finds the next code point
   * again, whatever the byte announces, unless too few bytes are left for what it announces.
   */
  lemma Resynchronises(before: seq<CodePoint>, stray: Byte, after: seq<CodePoint>)
    requires stray >= 0x80 && forall k :: 0 <= k < |before| ==> before[k] < UTF8_LIMIT
    requires forall k :: 0 <= k < |after| ==> after[k] < UTF8_LIMIT
    ensures DecodeUtf8(EncodeAll(before) + ([stray] + EncodeAll(after)))
         == before + if |EncodeAll(after)| + 1 < Announced(stray) then [] else after
  {
    hide DecodeUtf8, EncodeAll;
    DecodesFirst(before, [stray] + EncodeAll(after));
    SkipsStray(stray, after);
  }

  lemma SkipsStray(stray: Byte, text: seq<CodePoint>)
    requires stray >= 0x80 && forall k :: 0 <= k < |text| ==> text[k] < UTF8_LIMIT
    ensures DecodeUtf8([stray] + EncodeAll(text)) == if |EncodeAll(text)| + 1 < Announced(stray) then [] else text
  {
    DecodeInvertsEncode(text);
    hide EncodeAll, Extend, LeadBits;
    var code := EncodeAll(text);
    var bytes := [stray] + code;
    FirstIsLead(text);
    assert bytes[1..] == code;
    DecodeNone();
    if 2 <= Announced(stray) <= |bytes| {
      assert bytes[1..Announced(stray)][0] == code[0];
    }
  }

  /** Encoded text never starts with a continuation byte. */
  lemma FirstIsLead(text: seq<CodePoint>)
    ensures EncodeAll(text) == [] <==> text == []
    ensures text != [] ==> !Continuation(EncodeAll(text)[0])
  {
  }

  /** Text before the stray byte is decoded first. */
  lemma {:induction false} DecodesFirst(text: seq<CodePoint>, rest: seq<Byte>)
    requires forall k :: 0 <= k < |text| ==> text[k] < UTF8_LIMIT
    ensures DecodeUtf8(EncodeAll(text) + rest) == text + DecodeUtf8(rest)
    decreases |text|
  {
    hide EncodeUtf8, DecodeUtf8;
    if text == [] {
      assert EncodeAll(text) + rest == rest;
    } else {
      DecodesFirst(text[1..], rest);
      DecodeEncoded(text[0], EncodeAll(text[1..]) + rest);
      assert EncodeAll(text) + rest == EncodeUtf8(text[0]) + (EncodeAll(text[1..]) + rest);
    }
  }

  // ----- UTF-16 ------------------------------------------------------------------------------

  type Unit = u: int | 0 <= u < 0x1_0000

  predicate IsHighSurrogate(c: int) {
    0xD800 <= c <= 0xDBFF
  }

  predicate IsLowSurrogate(c: int) {
    0xDC00 <= c <= 0xDFFF
  }

  predicate StartsWithPair(units: seq<int>) {
    |units| >= 2 && IsHighSurrogate(units[0]) && IsLowSurrogate(units[1])
  }

  function Combine(high: int, low: int): int {
    0x10000 + (high - 0xD800) * 1024 + (low - 0xDC00)
  }

  /** The code points `next_wide_codepoint` steps through; a lone surrogate stands for itself. */
  function WideCodePoints(units: seq<Unit>): (text: seq<CodePoint>)
    ensures |text| <= |units|
    decreases |units|
  {
    if units == [] then []
    else if StartsWithPair(units) then [Combine(units[0], units[1])] + WideCodePoints(units[2..])
    else [units[0]] + WideCodePoints(units[1..])
  }

  type UnicodeCodePoint = c: int | 0 <= c <= 0x10FFFF

  function EncodeUtf16(c: UnicodeCodePoint): (units: seq<Unit>)
    ensures 1 <= |units| <= 2
  {
    if c < 0x10000 then [c] else [0xD800 + (c - 0x10000) / 1024, 0xDC00 + (c - 0x10000) % 1024]
  }

  function EncodeAll16(text: seq<UnicodeCodePoint>): seq<Unit> {
    if text == [] then [] else EncodeUtf16(text[0]) + EncodeAll16(text[1..])
  }

  /** UTF-16 input reaches the decoder as the code points it spells. */
  lemma WideRoundTrip(units: seq<Unit>)
    ensures DecodeUtf8(EncodeAll(WideCodePoints(units))) == WideCodePoints(units)
  {
    WideBelowLimit(units);
    hide WideCodePoints;
    DecodeInvertsEncode(WideCodePoints(units));
  }

  lemma {:induction false} WideBelowLimit(units: seq<Unit>)
    ensures forall k :: 0 <= k < |WideCodePoints(units)| ==> WideCodePoints(units)[k] < UTF8_LIMIT
    decreases |units|
  {
    if units != [] {
      if StartsWithPair(units) {
        WideBelowLimit(units[2..]);
      } else {
        WideBelowLimit(units[1..]);
      }
    }
  }

  /** A high surrogate directly before a low one. */
  predicate HasSplitPair(text: seq<UnicodeCodePoint>) {
    exists k :: 0 <= k < |text| - 1 && IsHighSurrogate(text[k]) && IsLowSurrogate(text[k + 1])
  }

  lemma {:induction false} NeverLonger(text: seq<UnicodeCodePoint>)
    ensures |WideCodePoints(EncodeAll16(text))| <= |text|
    decreases |text|
  {
    if text != [] {
      var units := EncodeAll16(text);
      var rest := text[1..];
      NeverLonger(rest);
      if text[0] >= 0x10000 {
        assert units[2..] == EncodeAll16(rest);
      } else if StartsWithPair(units) {
        FirstUnit(rest);
        assert units[1..] == EncodeAll16(rest);
        assert units[2..] == EncodeAll16(rest[1..]);
        NeverLonger(rest[1..]);
      } else {
        assert units[1..] == EncodeAll16(rest);
      }
    }
  }

  /** Encoded text starts with a low surrogate only when its first code point is one. */
  lemma FirstUnit(text: seq<UnicodeCodePoint>)
    ensures text != [] <==> EncodeAll16(text) != []
    ensures text != [] ==> (IsLowSurrogate(EncodeAll16(text)[0]) <==> IsLowSurrogate(text[0]))
    ensures text != [] && IsLowSurrogate(text[0]) ==> EncodeAll16(text)[1..] == EncodeAll16(text[1..])
  {
    if text != [] && text[0] < 0x10000 {
      assert EncodeAll16(text) == [text[0]] + EncodeAll16(text[1..]);
    }
  }

  /** UTF-16 gives the text back if and only if no surrogate code points form a pair by accident. */
  lemma {:induction false} Utf16RoundTrip(text: seq<UnicodeCodePoint>)
    ensures WideCodePoints(EncodeAll16(text)) == text <==> !HasSplitPair(text)
    decreases |text|
  {
    if text != [] {
      var units := EncodeAll16(text);
      var rest := text[1..];
      FirstUnit(rest);
      Utf16RoundTrip(rest);
      SplitPairCases(text);
      if text[0] >= 0x10000 {
        assert units[2..] == EncodeAll16(rest);
        assert Combine(units[0], units[1]) == text[0];
        assert WideCodePoints(units) == [text[0]] + WideCodePoints(EncodeAll16(rest));
        assert WideCodePoints(units)[1..] == WideCodePoints(EncodeAll16(rest));
      } else if StartsWithPair(units) {
        assert units[1..] == EncodeAll16(rest);
        assert units[2..] == EncodeAll16(rest[1..]);
        NeverLonger(rest[1..]);
        assert |WideCodePoints(units)| < |text|;
      } else {
        assert units[1..] == EncodeAll16(rest);
        assert WideCodePoints(units) == [text[0]] + WideCodePoints(EncodeAll16(rest));
        assert WideCodePoints(units)[1..] == WideCodePoints(EncodeAll16(rest));
      }
    }
  }

  lemma SplitPairCases(text: seq<UnicodeCodePoint>)
    requires text != []
    ensures HasSplitPair(text) <==>
            HasSplitPair(text[1..]) || (|text| >= 2 && IsHighSurrogate(text[0]) && IsLowSurrogate(text[1]))
  {
    var rest := text[1..];
    if HasSplitPair(rest) {
      var k :| 0 <= k < |rest| - 1 && IsHighSurrogate(rest[k]) && IsLowSurrogate(rest[k + 1]);
      assert IsHighSurrogate(text[k + 1]) && IsLowSurrogate(text[k + 1 + 1]);
    }
    if HasSplitPair(text) {
      var k :| 0 <= k < |text| - 1 && IsHighSurrogate(text[k]) && IsLowSurrogate(text[k + 1]);
      if k > 0 {
        assert IsHighSurrogate(rest[k - 1]) && IsLowSurrogate(rest[k - 1 + 1]);
      }
    }
  }

  // ----- Typing ------------------------------------------------------------------------------

  const LEFT_CONTROL: int := 0xA2
  const LEFT_SHIFT: int := 0xA0
  const KEY_U: int := 0x55
  const KEY_RETURN: int := 0x0D

  datatype KeyEvent = KeyEvent(keyCode: int, pressed: bool)

  function HexDigit(d: int): (c: char)
    requires 0 <= d < 16
    ensures '0' <= c <= '9' || 'A' <= c <= 'F'
  {
    if d < 10 then '0' + d as char else 'A' + (d - 10) as char
  }

  /** `std::format("{:X}")`: no leading zeros, and "0" for zero. */
  function UppercaseHex(n: nat): (hex: string)
    ensures hex != []
    ensures forall k :: 0 <= k < |hex| ==> '0' <= hex[k] <= '9' || 'A' <= hex[k] <= 'F'
  {
    if n < 16 then [HexDigit(n)] else UppercaseHex(n / 16) + [HexDigit(n % 16)]
  }

  function HexDigitKeyCode(digit: char): int {
    if '0' <= digit <= '9' then 0x30 + (digit as int - '0' as int) else 0x41 + (digit as int - 'A' as int)
  }

  function Tap(keyCode: int): seq<KeyEvent> {
    [KeyEvent(keyCode, true), KeyEvent(keyCode, false)]
  }

  const UNICODE_PREFIX: seq<KeyEvent> :=
    [KeyEvent(LEFT_CONTROL, true), KeyEvent(LEFT_SHIFT, true), KeyEvent(KEY_U, true),
     KeyEvent(KEY_U, false), KeyEvent(LEFT_SHIFT, false), KeyEvent(LEFT_CONTROL, false)]

  function DigitEvents(hex: string): seq<KeyEvent> {
    if hex == [] then [] else DigitEvents(hex[..|hex| - 1]) + Tap(HexDigitKeyCode(hex[|hex| - 1]))
  }

  function TypeCodePoint(c: nat): seq<KeyEvent> {
    UNICODE_PREFIX + DigitEvents(UppercaseHex(c)) + Tap(KEY_RETURN)
  }

  function TypeAll(text: seq<nat>): seq<KeyEvent> {
    if text == [] then [] else TypeAll(text[..|text| - 1]) + TypeCodePoint(text[|text| - 1])
  }

  // ----- The receiving input method ----------------------------------------------------------

  /** Ctrl+Shift+U starts a number, hexadecimal digits extend it, Enter commits it. */
  datatype Recogniser = Recogniser(held: set<int>, composing: bool, value: nat, committed: seq<nat>)

  const WAITING: Recogniser := Recogniser({}, false, 0, [])

  function DigitValue(keyCode: int): (d: int)
    ensures -1 <= d < 16
  {
    if 0x30 <= keyCode <= 0x39 then keyCode - 0x30
    else if 0x41 <= keyCode <= 0x46 then keyCode - 0x41 + 10
    else -1
  }

  function Press(r: Recogniser, keyCode: int): Recogniser {
    var held := r.held + {keyCode};
    if !r.composing && keyCode == 0x55 && 0xA2 in r.held && 0xA0 in r.held then
      Recogniser(held, true, 0, r.committed)
    else if r.composing && r.held == {} && DigitValue(keyCode) >= 0 then
      r.(held := held, value := r.value * 16 + DigitValue(keyCode))
    else if r.composing && r.held == {} && keyCode == 0x0D then
      Recogniser(held, false, 0, r.committed + [r.value])
    else r.(held := held)
  }

  function Receive(r: Recogniser, e: KeyEvent): Recogniser {
    if e.pressed then Press(r, e.keyCode) else r.(held := r.held - {e.keyCode})
  }

  function ReceiveAll(r: Recogniser, events: seq<KeyEvent>): Recogniser {
    if events == [] then r else Receive(ReceiveAll(r, events[..|events| - 1]), events[|events| - 1])
  }

  lemma {:induction false} ReceiveConcat(r: Recogniser, a: seq<KeyEvent>, b: seq<KeyEvent>)
    ensures ReceiveAll(r, a + b) == ReceiveAll(ReceiveAll(r, a), b)
    decreases |b|
  {
    if b == [] {
      assert a + b == a;
    } else {
      assert (a + b)[..|a + b| - 1] == a + b[..|b| - 1];
      ReceiveConcat(r, a, b[..|b| - 1]);
    }
  }

  lemma ReceiveTwo(r: Recogniser, a: KeyEvent, b: KeyEvent)
    ensures ReceiveAll(r, [a, b]) == Receive(Receive(r, a), b)
  {
    assert [a, b][..1] == [a] && [a][..0] == [];
    assert ReceiveAll(r, [a]) == Receive(ReceiveAll(r, []), a);
    assert ReceiveAll(r, [a, b]) == Receive(ReceiveAll(r, [a]), b);
  }

  lemma TapReceived(r: Recogniser, keyCode: int)
    requires r.held == {}
    ensures ReceiveAll(r, Tap(keyCode)) == Press(r, keyCode).(held := {})
  {
    ReceiveTwo(r, KeyEvent(keyCode, true), KeyEvent(keyCode, false));
    assert Press(r, keyCode).held - {keyCode} == {};
  }

  lemma PrefixReceived(r: Recogniser)
    requires r.held == {} && !r.composing
    ensures ReceiveAll(r, UNICODE_PREFIX) == Recogniser({}, true, 0, r.committed)
  {
    var p := UNICODE_PREFIX;
    var down := [p[0], p[1]];
    var key := [p[2], p[3]];
    var up := [p[4], p[5]];
    assert p == down + (key + up);
    ReceiveConcat(r, down, key + up);
    var r2 := ReceiveAll(r, down);
    ReceiveConcat(r2, key, up);
    ReceiveTwo(r, p[0], p[1]);
    ReceiveTwo(r2, p[2], p[3]);
    ReceiveTwo(ReceiveAll(r2, key), p[4], p[5]);
    assert r2 == Recogniser({LEFT_CONTROL, LEFT_SHIFT}, false, r.value, r.committed);
    assert ReceiveAll(r2, key).held == {LEFT_CONTROL, LEFT_SHIFT};
  }

  /** The number the digits of `hex` spell after `start`. */
  function HexValue(start: nat, hex: string): nat {
    if hex == [] then start
    else
      var d := DigitValue(HexDigitKeyCode(hex[|hex| - 1]));
      HexValue(start, hex[..|hex| - 1]) * 16 + if d >= 0 then d else 0
  }

  lemma {:induction false} HexRoundTrip(n: nat)
    ensures HexValue(0, UppercaseHex(n)) == n
  {
    var hex := UppercaseHex(n);
    DigitRoundTrip(n % 16);
    if n < 16 {
      assert hex[..0] == [];
    } else {
      HexRoundTrip(n / 16);
      assert hex[..|hex| - 1] == UppercaseHex(n / 16);
    }
  }

  lemma DigitRoundTrip(d: int)
    requires 0 <= d < 16
    ensures DigitValue(HexDigitKeyCode(HexDigit(d))) == d
  {
  }

  lemma {:induction false} DigitsReceived(r: Recogniser, hex: string)
    requires r.held == {} && r.composing
    requires forall k :: 0 <= k < |hex| ==> '0' <= hex[k] <= '9' || 'A' <= hex[k] <= 'F'
    ensures ReceiveAll(r, DigitEvents(hex)) == r.(value := HexValue(r.value, hex))
    decreases |hex|
  {
    if hex != [] {
      var shorter, last := hex[..|hex| - 1], hex[|hex| - 1];
      DigitsReceived(r, shorter);
      ReceiveConcat(r, DigitEvents(shorter), Tap(HexDigitKeyCode(last)));
      hide ReceiveAll;
      TapReceived(ReceiveAll(r, DigitEvents(shorter)), HexDigitKeyCode(last));
    }
  }

  lemma CodePointReceived(r: Recogniser, c: nat)
    requires r.held == {} && !r.composing
    ensures ReceiveAll(r, TypeCodePoint(c)) == Recogniser({}, false, 0, r.committed + [c])
  {
    hide ReceiveAll, DigitEvents, UppercaseHex, HexValue;
    var hex := UppercaseHex(c);
    var prefix, digits, enter := UNICODE_PREFIX, DigitEvents(hex), Tap(KEY_RETURN);
    assert TypeCodePoint(c) == prefix + (digits + enter);
    var r1 := Recogniser({}, true, 0, r.committed);
    var r2 := Recogniser({}, true, c, r.committed);
    ReceiveConcat(r, prefix, digits + enter);
    PrefixReceived(r);
    ReceiveConcat(r1, digits, enter);
    DigitsReceived(r1, hex);
    HexRoundTrip(c);
    TapReceived(r2, KEY_RETURN);
  }

  lemma ReceiveNone(r: Recogniser)
    ensures ReceiveAll(r, []) == r
  {
  }

  /** Typing any text commits exactly its code points, with no key held and nothing pending after each. */
  lemma {:induction false} TypedTextIsCommitted(text: seq<nat>)
    ensures ReceiveAll(WAITING, TypeAll(text)) == Recogniser({}, false, 0, text)
    decreases |text|
  {
    hide TypeCodePoint, ReceiveAll;
    if text == [] {
      ReceiveNone(WAITING);
    } else {
      var shorter, last := text[..|text| - 1], text[|text| - 1];
      TypedTextIsCommitted(shorter);
      ReceiveConcat(WAITING, TypeAll(shorter), TypeCodePoint(last));
      CodePointReceived(ReceiveAll(WAITING, TypeAll(shorter)), last);
    }
  }

  /** The keys of one code point: the chord pressed and let go in this order, shortest digits, Enter. */
  lemma CodePointKeys(c: nat)
    ensures var events, hex := TypeCodePoint(c), UppercaseHex(c);
            && |events| == 6 + 2 * |hex| + 2
            && events[..6] == [KeyEvent(0xA2, true), KeyEvent(0xA0, true), KeyEvent(0x55, true),
                               KeyEvent(0x55, false), KeyEvent(0xA0, false), KeyEvent(0xA2, false)]
            && events[|events| - 2..] == [KeyEvent(0x0D, true), KeyEvent(0x0D, false)]
            && (hex[0] == '0' <==> c == 0)
  {
    hide UppercaseHex, DigitEvents;
    DigitCount(UppercaseHex(c));
    ShortestHex(c);
  }

  lemma {:induction false} DigitCount(hex: string)
    ensures |DigitEvents(hex)| == 2 * |hex|
    decreases |hex|
  {
    if hex != [] {
      DigitCount(hex[..|hex| - 1]);
    }
  }

  lemma {:induction false} ShortestHex(n: nat)
    ensures UppercaseHex(n)[0] == '0' <==> n == 0
    ensures n == 0 ==> UppercaseHex(n) == "0"
    decreases n
  {
    if n >= 16 {
      ShortestHex(n / 16);
      assert UppercaseHex(n)[0] == UppercaseHex(n / 16)[0];
    }
  }

  /** From code points through UTF-8 and the keyboard back to code points. */
  lemma TextReachesTheScreen(text: seq<CodePoint>)
    requires forall k :: 0 <= k < |text| ==> text[k] < UTF8_LIMIT
    ensures ReceiveAll(WAITING, TypeAll(DecodeUtf8(EncodeAll(text)))).committed == text
  {
    hide ReceiveAll, TypeAll, DecodeUtf8, EncodeAll;
    DecodeInvertsEncode(text);
    TypedTextIsCommitted(DecodeUtf8(EncodeAll(text)));
  }

  // ----- The loops ---------------------------------------------------------------------------

  /** What is appended is one to four bytes that decode to exactly this code point, if four can carry it. */
  method AppendUtf8(target: seq<Byte>, c: CodePoint) returns (result: seq<Byte>)
    ensures result == target + EncodeUtf8(c)
    ensures target <= result && 1 <= |result| - |target| <= 4
    ensures c < UTF8_LIMIT ==> DecodeUtf8(result[|target|..]) == [c]
  {
    DecodeOne(c);
    result := target;
    if c <= 0x7F {
      result := result + [c];
    } else if c <= 0x7FF {
      result := result + [0xC0 + c / 64];
      result := result + [0x80 + c % 64];
    } else if c <= 0xFFFF {
      result := result + [0xE0 + c / 4096];
      result := result + [0x80 + c / 64 % 64];
      result := result + [0x80 + c % 64];
    } else {
      result := result + [0xF0 + c / 262144 % 16];
      result := result + [0x80 + c / 4096 % 64];
      result := result + [0x80 + c / 64 % 64];
      result := result + [0x80 + c % 64];
    }
    assert result[|target|..] == EncodeUtf8(c);
  }

  lemma DecodeOne(c: CodePoint)
    ensures c < UTF8_LIMIT ==> DecodeUtf8(EncodeUtf8(c)) == [c]
  {
    hide EncodeUtf8;
    if c < UTF8_LIMIT {
      DecodeEncoded(c, []);
      assert EncodeUtf8(c) + [] == EncodeUtf8(c);
    }
  }

  method NextWideCodePoint(units: seq<Unit>, start: nat) returns (c: CodePoint, index: nat)
    requires start < |units|
    ensures start < index <= |units|
    ensures WideCodePoints(units[start..]) == [c] + WideCodePoints(units[index..])
  {
    c, index := units[start], start + 1;
    if IsHighSurrogate(c) && index < |units| {
      var low := units[index];
      if IsLowSurrogate(low) {
        assert units[start..][2..] == units[index + 1..];
        return Combine(c, low), index + 1;
      }
    }
    assert units[start..][1..] == units[index..];
  }

  lemma {:induction false} EncodeAllSnoc(text: seq<CodePoint>, c: CodePoint)
    ensures EncodeAll(text + [c]) == EncodeAll(text) + EncodeUtf8(c)
    decreases |text|
  {
    hide EncodeUtf8;
    if text == [] {
      assert [] + [c] == [c] && [c][1..] == [];
    } else {
      assert (text + [c])[1..] == text[1..] + [c];
      EncodeAllSnoc(text[1..], c);
    }
  }

  method ToUtf8(units: seq<Unit>) returns (result: seq<Byte>)
    ensures result == EncodeAll(WideCodePoints(units))
  {
    hide EncodeUtf8, EncodeAll, DecodeUtf8, WideCodePoints;
    result := [];
    ghost var done: seq<CodePoint> := [];
    var index := 0;
    assert EncodeAll([]) == [] by { EncodeAllNone(); }
    assert units[0..] == units;
    while index < |units|
      invariant 0 <= index <= |units|
      invariant result == EncodeAll(done)
      invariant WideCodePoints(units) == done + WideCodePoints(units[index..])
    {
      var c, next := NextWideCodePoint(units, index);
      EncodeAllSnoc(done, c);
      result := AppendUtf8(result, c);
      done := done + [c];
      index := next;
    }
    WideNone();
    assert units[index..] == [] && done + [] == done;
  }

  lemma WideNone()
    ensures WideCodePoints([]) == []
  {
  }

  lemma EncodeAllNone()
    ensures EncodeAll([]) == []
  {
  }

  /** The continuation bytes of a sequence announced at `i`. */
  method DecodeContinuation(text: seq<Byte>, i: nat, length: nat) returns (valid: bool, codePoint: nat)
    requires 1 <= length && i + length <= |text|
    ensures valid == AllContinuation(text[i + 1..i + length])
    ensures valid ==> codePoint == Extend(LeadBits(text[i]), text[i + 1..i + length])
  {
    hide LeadBits;
    valid, codePoint := true, LeadBits(text[i]);
    var offset := 1;
    while offset < length
      invariant 1 <= offset <= length
      invariant AllContinuation(text[i + 1..i + offset])
      invariant codePoint == Extend(LeadBits(text[i]), text[i + 1..i + offset])
    {
      var next := text[i + offset];
      if !Continuation(next) {
        assert text[i + 1..i + length][offset - 1] == next;
        return false, codePoint;
      }
      assert text[i + 1..i + offset + 1] == text[i + 1..i + offset] + [next];
      assert text[i + 1..i + offset + 1][..offset - 1] == text[i + 1..i + offset];
      codePoint := codePoint * 64 + next % 64;
      offset := offset + 1;
    }
  }

  /** What decoding makes of the rest of the text from `i` on. */
  lemma DecodeAt(text: seq<Byte>, i: nat)
    requires i < |text|
    ensures LeadLength(text[i]) == 0 ==> DecodeUtf8(text[i..]) == DecodeUtf8(text[i + 1..])
    ensures LeadLength(text[i]) > 0 && i + LeadLength(text[i]) > |text| ==> DecodeUtf8(text[i..]) == []
    ensures LeadLength(text[i]) > 0 && i + LeadLength(text[i]) <= |text| ==>
              DecodeUtf8(text[i..]) == DecodedFrom(text, i, LeadLength(text[i]))
  {
    hide Extend, LeadBits, LeadLength, AllContinuation;
    var rest := text[i..];
    var length := LeadLength(text[i]);
    assert rest[0] == text[i] && rest[1..] == text[i + 1..];
    if length > 0 && i + length <= |text| {
      assert rest[1..length] == text[i + 1..i + length] && rest[length..] == text[i + length..];
    }
  }

  function DecodedFrom(text: seq<Byte>, i: nat, length: nat): seq<nat>
    requires 0 < length && i + length <= |text|
  {
    if AllContinuation(text[i + 1..i + length])
    then [Extend(LeadBits(text[i]), text[i + 1..i + length])] + DecodeUtf8(text[i + length..])
    else DecodeUtf8(text[i + 1..])
  }

  method Decode(text: seq<Byte>) returns (codePoints: seq<nat>)
    ensures codePoints == DecodeUtf8(text)
  {
    hide Extend, LeadBits, LeadLength, AllContinuation, DecodeUtf8;
    codePoints := [];
    var i := 0;
    assert text[0..] == text;
    while i < |text|
      invariant 0 <= i <= |text|
      invariant codePoints + DecodeUtf8(text[i..]) == DecodeUtf8(text)
      decreases |text| - i
    {
      DecodeAt(text, i);
      var length := LeadLength(text[i]);
      if length == 0 {
        i := i + 1;
        continue;
      }
      if i + length > |text| {
        return;
      }
      var valid, codePoint := DecodeContinuation(text, i, length);
      if valid {
        codePoints := codePoints + [codePoint];
        i := i + length;
      } else {
        i := i + 1;
      }
    }
    assert text[i..] == [];
    DecodeNone();
  }

  lemma DecodeNone()
    ensures DecodeUtf8([]) == []
  {
  }

  /** `type_text_with_unicode_hex`: submission may fail at any key, and typing stops there. */
  method TypeText(text: seq<Byte>) returns (ok: bool, submitted: seq<KeyEvent>)
    ensures submitted <= TypeAll(DecodeUtf8(text))
    ensures ok ==> submitted == TypeAll(DecodeUtf8(text))
  {
    hide TypeCodePoint, DecodeUtf8, EncodeUtf8;
    var codePoints := Decode(text);
    submitted := [];
    var i := 0;
    assert codePoints[..0] == [];
    while i < |codePoints|
      invariant 0 <= i <= |codePoints|
      invariant submitted == TypeAll(codePoints[..i])
    {
      assert codePoints[..i + 1][..i] == codePoints[..i];
      TypeAllPrefix(codePoints, i + 1);
      var sent: seq<KeyEvent>;
      ok, sent := SubmitEvents(TypeCodePoint(codePoints[i]));
      submitted := submitted + sent;
      if !ok {
        return;
      }
      i := i + 1;
    }
    assert codePoints[..i] == codePoints;
    ok := true;
  }

  method SubmitEvents(events: seq<KeyEvent>) returns (ok: bool, sent: seq<KeyEvent>)
    ensures sent <= events
    ensures ok ==> sent == events
  {
    sent := [];
    var i := 0;
    while i < |events|
      invariant 0 <= i <= |events|
      invariant sent == events[..i]
    {
      ok := *;
      if !ok {
        return;
      }
      sent := sent + [events[i]];
      i := i + 1;
    }
    ok := true;
  }

  lemma {:induction false} TypeAllPrefix(text: seq<nat>, k: nat)
    requires k <= |text|
    ensures TypeAll(text[..k]) <= TypeAll(text)
    decreases |text| - k
  {
    if k < |text| {
      assert text[..k + 1][..k] == text[..k];
      TypeAllPrefix(text, k + 1);
    } else {
      assert text[..k] == text;
    }
  }
}
