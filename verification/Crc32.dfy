/**
 * CRC-32 as the three implementations compute it (the algorithm of section 8 of RFC 1952, one bit at a
 * time on a 32-bit register), and what it detects.
 */
module Crc32 {
  type Bytes = seq<bv8>

  const POLYNOMIAL: bv32 := 0xEDB88320
  const ONES: bv32 := 0xFFFF_FFFF

  // ----- Words -------------------------------------------------------------------------------

  function Xor(a: bv32, b: bv32): bv32 {
    a ^ b
  }

  function Half(v: bv32): bv32 {
    v >> 1
  }

  function Double(v: bv32): bv32 {
    v << 1
  }

  predicate Odd(v: bv32) {
    v & 1 == 1
  }

  function Wide(byte: bv8): bv32 {
    byte as bv32
  }

  lemma XorCommutes(a: bv32, b: bv32)
    ensures Xor(a, b) == Xor(b, a)
  {
  }

  lemma XorAssociates(a: bv32, b: bv32, c: bv32)
    ensures Xor(Xor(a, b), c) == Xor(a, Xor(b, c))
  {
  }

  lemma XorCancels(a: bv32, b: bv32)
    ensures Xor(Xor(a, b), b) == a
    ensures Xor(a, 0) == a
  {
  }

  lemma XorLaws(a: bv32, b: bv32, c: bv32)
    ensures Xor(a, b) == Xor(b, a)
    ensures Xor(Xor(a, b), c) == Xor(a, Xor(b, c))
    ensures Xor(Xor(a, b), b) == a
    ensures Xor(a, 0) == a
  {
    hide Xor;
    XorCommutes(a, b);
    XorAssociates(a, b, c);
    XorCancels(a, b);
  }

  lemma HalfXor(a: bv32, b: bv32)
    ensures Half(Xor(a, b)) == Xor(Half(a), Half(b))
  {
  }

  lemma OddXor(a: bv32, b: bv32)
    ensures Odd(Xor(a, b)) == (Odd(a) != Odd(b))
  {
    assert (a ^ b) & 1 == (a & 1) ^ (b & 1);
    assert a & 1 == 0 || a & 1 == 1;
    assert b & 1 == 0 || b & 1 == 1;
  }

  // ----- The register ------------------------------------------------------------------------

  /** One bit, branching on the low bit. */
  function Step(crc: bv32): bv32 {
    if Odd(crc) then Xor(Half(crc), POLYNOMIAL) else Half(crc)
  }

  /** One bit, masking the polynomial with the low bit spread over the register. */
  function MaskStep(crc: bv32): bv32 {
    var mask := (0 as bv32) - (crc & 1);
    (crc >> 1) ^ (POLYNOMIAL & mask)
  }

  function Steps8(crc: bv32): bv32 {
    Step(Step(Step(Step(Step(Step(Step(Step(crc))))))))
  }

  function ByteStep(crc: bv32, byte: bv8): bv32 {
    Steps8(Xor(crc, Wide(byte)))
  }

  function Register(crc: bv32, bytes: Bytes): bv32 {
    if bytes == [] then crc else ByteStep(Register(crc, bytes[..|bytes| - 1]), bytes[|bytes| - 1])
  }

  /** `crc32(buffer, seed)`: the seed is the CRC of whatever came before. */
  function Crc(bytes: Bytes, seed: bv32): bv32 {
    Xor(Register(Xor(seed, ONES), bytes), ONES)
  }

  // ----- The three routines ------------------------------------------------------------------

  lemma MaskAndBranchAgree(crc: bv32)
    ensures MaskStep(crc) == Step(crc)
  {
    assert crc & 1 == 0 || crc & 1 == 1;
    MaskOf(crc & 1);
  }

  lemma MaskOf(bit: bv32)
    ensures bit == 1 ==> POLYNOMIAL & ((0 as bv32) - bit) == POLYNOMIAL
    ensures bit == 0 ==> POLYNOMIAL & ((0 as bv32) - bit) == 0
  {
  }

  function StepN(crc: bv32, n: nat): bv32 {
    if n == 0 then crc else Step(StepN(crc, n - 1))
  }

  lemma {:induction false} StepsAdd(crc: bv32, m: nat, n: nat)
    ensures StepN(crc, m + n) == StepN(StepN(crc, m), n)
    decreases n
  {
    hide Step;
    if n > 0 {
      StepsAdd(crc, m, n - 1);
    }
  }

  lemma EightSteps(crc: bv32)
    ensures StepN(crc, 8) == Steps8(crc)
  {
    hide Step;
    StepsAdd(crc, 0, 1);
    StepsAdd(crc, 1, 1);
    StepsAdd(crc, 2, 1);
    StepsAdd(crc, 3, 1);
    StepsAdd(crc, 4, 1);
    StepsAdd(crc, 5, 1);
    StepsAdd(crc, 6, 1);
    StepsAdd(crc, 7, 1);
  }

  method AdvanceWithMask(start: bv32) returns (crc: bv32)
    ensures crc == Steps8(start)
  {
    hide Step, MaskStep, Steps8;
    crc := start;
    var bit := 0;
    while bit < 8
      invariant 0 <= bit <= 8
      invariant crc == StepN(start, bit)
    {
      MaskAndBranchAgree(crc);
      crc := MaskStep(crc);
      bit := bit + 1;
    }
    EightSteps(start);
  }

  method AdvanceWithBranch(start: bv32) returns (crc: bv32)
    ensures crc == Steps8(start)
  {
    hide Steps8, Xor, Half, Odd;
    crc := start;
    var bit := 0;
    while bit < 8
      invariant 0 <= bit <= 8
      invariant crc == StepN(start, bit)
    {
      crc := if Odd(crc) then Xor(Half(crc), POLYNOMIAL) else Half(crc);
      bit := bit + 1;
    }
    EightSteps(start);
  }

  /** The routine of the report codec and of the Linux backend. */
  method CrcWithMask(buffer: Bytes, seed: bv32) returns (crc: bv32)
    ensures crc == Crc(buffer, seed)
  {
    hide Xor, Steps8, Wide, Register;
    crc := Xor(seed, ONES);
    ghost var start := crc;
    RegisterNone(start);
    var i := 0;
    while i < |buffer|
      invariant 0 <= i <= |buffer|
      invariant crc == Register(start, buffer[..i])
    {
      RegisterSnoc(start, buffer[..i], buffer[i]);
      assert buffer[..i + 1] == buffer[..i] + [buffer[i]];
      crc := Xor(crc, Wide(buffer[i]));
      crc := AdvanceWithMask(crc);
      i := i + 1;
    }
    assert buffer[..i] == buffer;
    crc := Xor(crc, ONES);
  }

  /** The broker's routine: branch form, and the seed is a byte run through the register first. */
  method CrcWithSeedByte(bytes: Bytes, seed: bv8) returns (crc: bv32)
    ensures crc == Crc(bytes, Crc([seed], 0))
  {
    hide Xor, Steps8, Wide, Register;
    crc := Xor(ONES, Wide(seed));
    crc := AdvanceWithBranch(crc);
    ghost var start := crc;
    SeedRegister(seed);
    RegisterNone(start);
    var i := 0;
    while i < |bytes|
      invariant 0 <= i <= |bytes|
      invariant crc == Register(start, bytes[..i])
    {
      RegisterSnoc(start, bytes[..i], bytes[i]);
      assert bytes[..i + 1] == bytes[..i] + [bytes[i]];
      crc := Xor(crc, Wide(bytes[i]));
      crc := AdvanceWithBranch(crc);
      i := i + 1;
    }
    assert bytes[..i] == bytes;
    crc := Xor(crc, ONES);
  }

  lemma SeedRegister(seed: bv8)
    ensures Xor(Crc([seed], 0), ONES) == ByteStep(ONES, seed)
  {
    hide Steps8, Xor, Wide, ByteStep;
    assert [seed] == [] + [seed];
    RegisterSnoc(ONES, [], seed);
    RegisterNone(ONES);
    XorLaws(ONES, 0, 0);
    XorLaws(0, ONES, 0);
    XorLaws(ByteStep(ONES, seed), ONES, 0);
  }

  lemma RegisterNone(crc: bv32)
    ensures Register(crc, []) == crc
  {
  }

  // ----- Composition -------------------------------------------------------------------------

  lemma RegisterSnoc(crc: bv32, bytes: Bytes, byte: bv8)
    ensures Register(crc, bytes + [byte]) == ByteStep(Register(crc, bytes), byte)
  {
    assert (bytes + [byte])[..|bytes|] == bytes;
  }

  lemma {:induction false} RegisterConcat(crc: bv32, a: Bytes, b: Bytes)
    ensures Register(crc, a + b) == Register(Register(crc, a), b)
    decreases |b|
  {
    hide ByteStep;
    if b == [] {
      assert a + b == a;
    } else {
      var shorter := b[..|b| - 1];
      assert (a + b)[..|a + b| - 1] == a + shorter;
      RegisterConcat(crc, a, shorter);
    }
  }

  /** Seeding with the CRC of a prefix continues it, wherever the buffer is split. */
  lemma CrcComposes(a: Bytes, b: Bytes, seed: bv32)
    ensures Crc(a + b, seed) == Crc(b, Crc(a, seed))
  {
    hide Register, Xor;
    RegisterConcat(Xor(seed, ONES), a, b);
    XorLaws(Register(Xor(seed, ONES), a), ONES, 0);
  }

  // ----- Injectivity -------------------------------------------------------------------------

  /** The register step can be undone: the top bit tells which branch was taken. */
  lemma StepInjective(a: bv32, b: bv32)
    requires Step(a) == Step(b)
    ensures a == b
  {
  }

  lemma StepLinear(a: bv32, b: bv32)
    ensures Step(Xor(a, b)) == Xor(Step(a), Step(b))
  {
    hide Xor, Half, Odd;
    HalfXor(a, b);
    OddXor(a, b);
    var x, y, p := Half(a), Half(b), POLYNOMIAL;
    XorLaws(x, y, p);
    XorLaws(x, p, y);
    XorLaws(y, p, x);
    XorLaws(p, y, x);
    XorLaws(x, p, Xor(y, p));
    XorLaws(p, Xor(y, p), x);
  }

  lemma Steps8Injective(a: bv32, b: bv32)
    requires Steps8(a) == Steps8(b)
    ensures a == b
  {
    hide Step;
    var a2, b2 := Step(Step(a)), Step(Step(b));
    var a4, b4 := Step(Step(a2)), Step(Step(b2));
    var a6, b6 := Step(Step(a4)), Step(Step(b4));
    StepInjective(Step(a6), Step(b6));
    StepInjective(a6, b6);
    StepInjective(Step(a4), Step(b4));
    StepInjective(a4, b4);
    StepInjective(Step(a2), Step(b2));
    StepInjective(a2, b2);
    StepInjective(Step(a), Step(b));
    StepInjective(a, b);
  }

  lemma Steps8Linear(a: bv32, b: bv32)
    ensures Steps8(Xor(a, b)) == Xor(Steps8(a), Steps8(b))
  {
    hide Step, Xor;
    var a2, b2 := Step(Step(a)), Step(Step(b));
    var a4, b4 := Step(Step(a2)), Step(Step(b2));
    var a6, b6 := Step(Step(a4)), Step(Step(b4));
    StepLinear(a, b);
    StepLinear(Step(a), Step(b));
    StepLinear(a2, b2);
    StepLinear(Step(a2), Step(b2));
    StepLinear(a4, b4);
    StepLinear(Step(a4), Step(b4));
    StepLinear(a6, b6);
    StepLinear(Step(a6), Step(b6));
  }

  /** The value eight bits higher. */
  function Up(v: bv32): bv32 {
    Double(Double(Double(Double(Double(Double(Double(Double(v))))))))
  }

  predicate Bits24(v: bv32) {
    v <= 0x00FF_FFFF
  }

  lemma StepDouble(v: bv32)
    requires v <= 0x7FFF_FFFF
    ensures Step(Double(v)) == v
  {
  }

  lemma DoubleBounds(v: bv32)
    ensures v <= 0x00FF_FFFF ==> Double(v) <= 0x01FF_FFFF
    ensures v <= 0x01FF_FFFF ==> Double(v) <= 0x03FF_FFFF
    ensures v <= 0x03FF_FFFF ==> Double(v) <= 0x07FF_FFFF
    ensures v <= 0x07FF_FFFF ==> Double(v) <= 0x0FFF_FFFF
    ensures v <= 0x0FFF_FFFF ==> Double(v) <= 0x1FFF_FFFF
    ensures v <= 0x1FFF_FFFF ==> Double(v) <= 0x3FFF_FFFF
    ensures v <= 0x3FFF_FFFF ==> Double(v) <= 0x7FFF_FFFF
  {
  }

  /** A byte above the low byte is only shifted down: it meets the register one byte later. */
  lemma Steps8Up(v: bv32)
    requires Bits24(v)
    ensures Steps8(Up(v)) == v
  {
    hide Step, Double;
    var d1 := Double(v);
    var d2 := Double(d1);
    var d3 := Double(d2);
    var d4 := Double(d3);
    var d5 := Double(d4);
    var d6 := Double(d5);
    var d7 := Double(d6);
    DoubleBounds(v);
    DoubleBounds(d1);
    DoubleBounds(d2);
    DoubleBounds(d3);
    DoubleBounds(d4);
    DoubleBounds(d5);
    DoubleBounds(d6);
    DoubleBounds(d7);
    StepDouble(d7);
    StepDouble(d6);
    StepDouble(d5);
    StepDouble(d4);
    StepDouble(d3);
    StepDouble(d2);
    StepDouble(d1);
    StepDouble(v);
  }

  lemma WideUp(byte: bv8)
    ensures Bits24(Wide(byte)) && Bits24(Up(Wide(byte))) && Bits24(Up(Up(Wide(byte))))
  {
  }

  function Steps32(crc: bv32): bv32 {
    Steps8(Steps8(Steps8(Steps8(crc))))
  }

  /** Four bytes as the little-endian word they spell. */
  function Word(a: bv8, b: bv8, c: bv8, d: bv8): bv32 {
    Xor(Xor(Xor(Wide(a), Up(Wide(b))), Up(Up(Wide(c)))), Up(Up(Up(Wide(d)))))
  }

  /** Mixing a byte in after eight steps equals mixing it in one byte higher before them. */
  lemma MixLater(r: bv32, v: bv32)
    requires Bits24(v)
    ensures Xor(Steps8(r), v) == Steps8(Xor(r, Up(v)))
  {
    hide Steps8, Xor, Up, Bits24;
    Steps8Up(v);
    Steps8Linear(r, Up(v));
  }

  lemma WordStep(r: bv32, a: bv8, b: bv8, c: bv8, d: bv8)
    ensures Register(r, [a, b, c, d]) == Steps32(Xor(r, Word(a, b, c, d)))
  {
    hide Steps8, Xor, Up, Wide, Bits24, Register;
    var b0, c0, d0 := Wide(b), Wide(c), Wide(d);
    FourBytes(r, a, b, c, d);
    WideUp(b);
    WideUp(c);
    WideUp(d);
    var x := Xor(r, Wide(a));
    MixLater(x, b0);
    var y := Xor(x, Up(b0));
    MixLater(Steps8(y), c0);
    MixLater(y, Up(c0));
    var z := Xor(y, Up(Up(c0)));
    MixLater(Steps8(Steps8(z)), d0);
    MixLater(Steps8(z), Up(d0));
    MixLater(z, Up(Up(d0)));
    Regroup(r, Wide(a), Up(b0), Up(Up(c0)), Up(Up(Up(d0))));
  }

  lemma Regroup(r: bv32, a: bv32, b: bv32, c: bv32, d: bv32)
    ensures Xor(Xor(Xor(Xor(r, a), b), c), d) == Xor(r, Xor(Xor(Xor(a, b), c), d))
  {
  }

  lemma FourBytes(r: bv32, a: bv8, b: bv8, c: bv8, d: bv8)
    ensures Register(r, [a, b, c, d]) == ByteStep(ByteStep(ByteStep(ByteStep(r, a), b), c), d)
  {
    hide ByteStep, Register;
    assert [a, b, c, d] == [a, b, c] + [d] && [a, b, c] == [a, b] + [c] && [a, b] == [a] + [b] && [a] == [] + [a];
    RegisterSnoc(r, [a, b, c], d);
    RegisterSnoc(r, [a, b], c);
    RegisterSnoc(r, [a], b);
    RegisterSnoc(r, [], a);
    RegisterNone(r);
  }

  lemma XorInjective(r: bv32, a: bv32, b: bv32)
    requires Xor(r, a) == Xor(r, b) || Xor(a, r) == Xor(b, r)
    ensures a == b
  {
  }

  /** Byte `k` of a word, counted from the low end. */
  function Byte0(v: bv32): bv8 { (v & 0xFF) as bv8 }

  function Byte1(v: bv32): bv8 { ((v >> 8) & 0xFF) as bv8 }

  function Byte2(v: bv32): bv8 { ((v >> 16) & 0xFF) as bv8 }

  function Byte3(v: bv32): bv8 { ((v >> 24) & 0xFF) as bv8 }

  /** The four bytes of a word, low byte first. */
  lemma WordBytes(a: bv8, b: bv8, c: bv8, d: bv8)
    ensures Byte0(Word(a, b, c, d)) == a
    ensures Byte1(Word(a, b, c, d)) == b
    ensures Byte2(Word(a, b, c, d)) == c
    ensures Byte3(Word(a, b, c, d)) == d
  {
  }

  lemma BytesSpellWord(v: bv32)
    ensures Word(Byte0(v), Byte1(v), Byte2(v), Byte3(v)) == v
  {
  }

  lemma WordInjective(a: bv8, b: bv8, c: bv8, d: bv8, a': bv8, b': bv8, c': bv8, d': bv8)
    requires Word(a, b, c, d) == Word(a', b', c', d')
    ensures a == a' && b == b' && c == c' && d == d'
  {
    hide Word, Byte0, Byte1, Byte2, Byte3;
    WordBytes(a, b, c, d);
    WordBytes(a', b', c', d');
  }

  lemma Steps32Injective(a: bv32, b: bv32)
    requires Steps32(a) == Steps32(b)
    ensures a == b
  {
    hide Steps8;
    Steps8Injective(Steps8(Steps8(Steps8(a))), Steps8(Steps8(Steps8(b))));
    Steps8Injective(Steps8(Steps8(a)), Steps8(Steps8(b)));
    Steps8Injective(Steps8(a), Steps8(b));
    Steps8Injective(a, b);
  }

  /** From the same register, four bytes are determined by the register they leave. */
  lemma FourBytesDetected(r: bv32, a: Bytes, b: Bytes)
    requires |a| == 4 && |b| == 4 && Register(r, a) == Register(r, b)
    ensures a == b
  {
    hide Register, Steps32, Word, Xor;
    assert a == [a[0], a[1], a[2], a[3]] && b == [b[0], b[1], b[2], b[3]];
    WordStep(r, a[0], a[1], a[2], a[3]);
    WordStep(r, b[0], b[1], b[2], b[3]);
    var wa, wb := Word(a[0], a[1], a[2], a[3]), Word(b[0], b[1], b[2], b[3]);
    Steps32Injective(Xor(r, wa), Xor(r, wb));
    XorInjective(r, wa, wb);
    WordInjective(a[0], a[1], a[2], a[3], b[0], b[1], b[2], b[3]);
  }

  /** Different registers stay different over the same bytes. */
  lemma {:induction false} SuffixInjective(x: bv32, y: bv32, bytes: Bytes)
    requires Register(x, bytes) == Register(y, bytes)
    ensures x == y
    decreases |bytes|
  {
    hide Steps8, Xor, Wide;
    if bytes != [] {
      var shorter, last := bytes[..|bytes| - 1], bytes[|bytes| - 1];
      var rx, ry := Register(x, shorter), Register(y, shorter);
      Steps8Injective(Xor(rx, Wide(last)), Xor(ry, Wide(last)));
      XorInjective(Wide(last), rx, ry);
      SuffixInjective(x, y, shorter);
    }
  }

  /** At most four bytes, padded to four by the same zeros. */
  lemma ShortBurstDetected(r: bv32, a: Bytes, b: Bytes)
    requires |a| == |b| <= 4 && Register(r, a) == Register(r, b)
    ensures a == b
  {
    hide Register;
    var zeros := seq(4 - |a|, _ => 0 as bv8);
    RegisterConcat(r, a, zeros);
    RegisterConcat(r, b, zeros);
    FourBytesDetected(r, a + zeros, b + zeros);
    assert a == (a + zeros)[..|a|] && b == (b + zeros)[..|a|];
  }

  /** `a` and `b` agree outside a window of at most four bytes starting at `at`. */
  ghost predicate AgreeOutside(a: Bytes, b: Bytes, at: nat, width: nat) {
    && |a| == |b| && at + width <= |a| && width <= 4
    && a[..at] == b[..at] && a[at + width..] == b[at + width..]
  }

  /** Any change confined to four consecutive bytes changes the register, whatever surrounds it. */
  lemma BurstChangesRegister(r: bv32, a: Bytes, b: Bytes, at: nat, width: nat)
    requires AgreeOutside(a, b, at, width) && a != b
    ensures Register(r, a) != Register(r, b)
  {
    hide Register;
    var prefix, suffix := a[..at], a[at + width..];
    var wa, wb := a[at..at + width], b[at..at + width];
    assert a == prefix + wa + suffix && b == prefix + wb + suffix;
    RegisterConcat(r, prefix + wa, suffix);
    RegisterConcat(r, prefix + wb, suffix);
    RegisterConcat(r, prefix, wa);
    RegisterConcat(r, prefix, wb);
    if Register(r, a) == Register(r, b) {
      SuffixInjective(Register(r, prefix + wa), Register(r, prefix + wb), suffix);
      ShortBurstDetected(Register(r, prefix), wa, wb);
    }
  }

  lemma BurstChangesCrc(seed: bv32, a: Bytes, b: Bytes, at: nat, width: nat)
    requires AgreeOutside(a, b, at, width) && a != b
    ensures Crc(a, seed) != Crc(b, seed)
  {
    hide Register, Xor;
    var r := Xor(seed, ONES);
    BurstChangesRegister(r, a, b, at, width);
    if Crc(a, seed) == Crc(b, seed) {
      XorInjective(ONES, Register(r, a), Register(r, b));
    }
  }
}
