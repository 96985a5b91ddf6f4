/**
 * What the CRC is: a message read as a polynomial over two elements, bit by bit from each byte's lowest,
 * and the remainder of its division by the CRC-32 generator. Coefficients are listed highest first.
 */
module CrcPolynomial {
  import opened Crc32

  type Bits = seq<bool>

  /** The exponents of x^32+x^26+x^23+x^22+x^16+x^12+x^11+x^10+x^8+x^7+x^5+x^4+x^2+x+1. */
  predicate HasTerm(exponent: int) {
    || exponent == 32 || exponent == 26 || exponent == 23 || exponent == 22 || exponent == 16
    || exponent == 12 || exponent == 11 || exponent == 10 || exponent == 8 || exponent == 7
    || exponent == 5 || exponent == 4 || exponent == 2 || exponent == 1 || exponent == 0
  }

  function Generator(): (g: Bits)
    ensures |g| == 33
  {
    seq(33, j => HasTerm(32 - j))
  }

  /** The sum of a polynomial and one with the same leading exponent and perhaps fewer terms listed. */
  function Add(a: Bits, b: Bits): (sum: Bits)
    requires |b| <= |a|
    ensures |sum| == |a|
  {
    seq(|a|, j requires 0 <= j < |a| => if j < |b| then a[j] != b[j] else a[j])
  }

  /** Long division: cancel the leading term as long as the degree is not below the generator's. */
  function Remainder(dividend: Bits): (r: Bits)
    requires |dividend| >= 32
    ensures |r| == 32
    decreases |dividend|
  {
    if |dividend| == 32 then dividend
    else if dividend[0] then Remainder(Add(dividend, Generator())[1..])
    else Remainder(dividend[1..])
  }

  predicate Low(v: bv32) {
    v & 1 == 1
  }

  function Halved(v: bv32): bv32 {
    v >> 1
  }

  function WordBits(v: bv32, n: nat): (bits: Bits)
    ensures |bits| == n
  {
    if n == 0 then [] else [Low(v)] + WordBits(Halved(v), n - 1)
  }

  /** The eight bits of a byte, lowest first. */
  function ByteBits(b: bv8): (bits: Bits)
    ensures |bits| == 8
  {
    WordBits(b as bv32, 8)
  }

  function MessageBits(bytes: Bytes): Bits {
    if bytes == [] then [] else MessageBits(bytes[..|bytes| - 1]) + ByteBits(bytes[|bytes| - 1])
  }

  function Zeros(n: nat): (bits: Bits)
    ensures |bits| == n
  {
    seq(n, _ => false)
  }

  function Complement(bits: Bits): (c: Bits)
    ensures |c| == |bits|
  {
    seq(|bits|, j requires 0 <= j < |bits| => !bits[j])
  }

  /** The message times x^32, its first 32 coefficients changed by the complement of the seed. */
  function Dividend(bytes: Bytes, seed: bv32): (d: Bits)
    ensures |d| == |MessageBits(bytes)| + 32
  {
    Add(MessageBits(bytes) + Zeros(32), Complement(WordBits(seed, 32)))
  }

  // ----- Words and their coefficients ----------------------------------------------------------------

  lemma {:induction false} WordXor(a: bv32, b: bv32, n: nat)
    ensures WordBits(Xor(a, b), n) == Add(WordBits(a, n), WordBits(b, n))
    decreases n
  {
    hide Xor, Low, Halved;
    if n > 0 {
      LowXor(a, b);
      WordXor(Halved(a), Halved(b), n - 1);
      AddCons(Low(a), WordBits(Halved(a), n - 1), Low(b), WordBits(Halved(b), n - 1));
    }
  }

  lemma LowXor(a: bv32, b: bv32)
    ensures Low(Xor(a, b)) <==> Low(a) != Low(b)
    ensures Halved(Xor(a, b)) == Xor(Halved(a), Halved(b))
  {
    LowIsOdd(a);
    LowIsOdd(b);
    LowIsOdd(Xor(a, b));
    hide Low, Halved, Xor, Odd, Half;
    OddXor(a, b);
    HalfXor(a, b);
  }

  lemma LowIsOdd(v: bv32)
    ensures Low(v) == Odd(v) && Halved(v) == Half(v)
  {
  }

  lemma AddCons(x: bool, a: Bits, y: bool, b: Bits)
    requires |a| == |b|
    ensures Add([x] + a, [y] + b) == [x != y] + Add(a, b)
  {
  }

  function Shifted(v: bv32, n: nat): bv32 {
    if n == 0 then v else Shifted(Halved(v), n - 1)
  }

  lemma {:induction false} WordBitsSnoc(v: bv32, n: nat)
    ensures WordBits(v, n + 1) == WordBits(v, n) + [Low(Shifted(v, n))]
    decreases n
  {
    hide Low, Halved;
    if n == 0 {
      assert WordBits(Halved(v), 0) == [];
    } else {
      WordBitsSnoc(Halved(v), n - 1);
    }
  }

  function DownFour(v: bv32): bv32 {
    v >> 4
  }

  lemma ShiftedByFour(v: bv32, n: nat)
    ensures Shifted(v, n + 4) == Shifted(DownFour(v), n)
  {
    FourHalves(v);
    hide Halved, DownFour;
    var a := Halved(v);
    var b := Halved(a);
    var c := Halved(b);
    assert Shifted(v, n + 4) == Shifted(a, n + 3) == Shifted(b, n + 2) == Shifted(c, n + 1);
  }

  lemma FourHalves(v: bv32)
    ensures Halved(Halved(Halved(Halved(v)))) == DownFour(v)
  {
  }

  /** A word shifted out entirely. */
  lemma ShiftedOut(v: bv32)
    ensures Shifted(v, 32) == 0
  {
    hide Shifted, DownFour;
    var a := DownFour(DownFour(v));
    var b := DownFour(DownFour(a));
    var c := DownFour(DownFour(b));
    ShiftedByFour(v, 28);
    ShiftedByFour(DownFour(v), 24);
    ShiftedByFour(a, 20);
    ShiftedByFour(DownFour(a), 16);
    ShiftedByFour(b, 12);
    ShiftedByFour(DownFour(b), 8);
    ShiftedByFour(c, 4);
    ShiftedByFour(DownFour(c), 0);
    EightTimesFour(v);
    ShiftedNone(0);
  }

  lemma EightTimesFour(v: bv32)
    ensures DownFour(DownFour(DownFour(DownFour(DownFour(DownFour(DownFour(DownFour(v)))))))) == 0
  {
  }

  lemma ShiftedNone(v: bv32)
    ensures Shifted(v, 0) == v
  {
  }

  /** The highest bit of a halved word is clear. */
  lemma HalfBits(v: bv32)
    ensures WordBits(v, 32) == [Low(v)] + WordBits(Halved(v), 31)
    ensures WordBits(Halved(v), 32) == WordBits(Halved(v), 31) + [false]
  {
    WordBitsFirst(v, 32);
    NothingLow();
    hide WordBits, Low, Halved;
    WordBitsSnoc(Halved(v), 31);
    ShiftedOut(v);
    ShiftedFirst(v, 32);
  }

  lemma NothingLow()
    ensures !Low(0)
  {
  }

  lemma ShiftedFirst(v: bv32, n: nat)
    requires n > 0
    ensures Shifted(v, n) == Shifted(Halved(v), n - 1)
  {
  }

  lemma WordBitsFirst(v: bv32, n: nat)
    requires n > 0
    ensures WordBits(v, n) == [Low(v)] + WordBits(Halved(v), n - 1)
  {
  }

  // ----- Division, one register step at a time ---------------------------------------------------------

  /** What is left to divide when the register holds `r` and the bits `m` are still to come. */
  function Pending(r: bv32, m: Bits): (d: Bits)
    ensures |d| == |m| + 32
  {
    Add(m + Zeros(32), WordBits(r, 32))
  }

  lemma GeneratorBits()
    ensures Generator() == [true] + WordBits(0xEDB88320, 32)
  {
    GeneratorWord();
    hide WordBits;
    var g := Generator();
    assert g[0..9] == [true, false, false, false, false, false, true, false, false];
    assert g[9..17] == [true, true, false, false, false, false, false, true];
    assert g[17..25] == [false, false, false, true, true, true, false, true];
    assert g[25..33] == [true, false, true, true, false, true, true, true];
    assert g == g[0..9] + g[9..17] + g[17..25] + g[25..33];
  }

  /** The register's polynomial word is the generator without its leading term, lowest bit first. */
  lemma GeneratorWord()
    ensures WordBits(0xEDB88320, 32) ==
      [false, false, false, false, false, true, false, false] + [true, true, false, false, false, false, false, true]
      + [false, false, false, true, true, true, false, true] + [true, false, true, true, false, true, true, true]
  {
    hide WordBits;
    FourBits(0xEDB88320, 28);
    FourBits(0xEDB8832, 24);
    FourBits(0xEDB883, 20);
    FourBits(0xEDB88, 16);
    FourBits(0xEDB8, 12);
    FourBits(0xEDB, 8);
    FourBits(0xED, 4);
    FourBits(0xE, 0);
    NoBits(0);
  }

  lemma NoBits(v: bv32)
    ensures WordBits(v, 0) == []
  {
  }

  lemma FourBits(v: bv32, n: nat)
    ensures WordBits(v, n + 4) == [v & 1 != 0, v & 2 != 0, v & 4 != 0, v & 8 != 0] + WordBits(v >> 4, n)
  {
    FourLows(v);
    FourHalves(v);
    DownIsShift(v);
    hide Halved, DownFour, Low, WordBits;
    FourFirst(v, n);
  }

  lemma FourFirst(v: bv32, n: nat)
    ensures WordBits(v, n + 4) ==
      [Low(v), Low(Halved(v)), Low(Halved(Halved(v))), Low(Halved(Halved(Halved(v))))]
      + WordBits(Halved(Halved(Halved(Halved(v)))), n)
  {
    hide Halved, Low, WordBits;
    var a := Halved(v);
    var b := Halved(a);
    var c := Halved(b);
    WordBitsFirst(v, n + 4);
    WordBitsFirst(a, n + 3);
    WordBitsFirst(b, n + 2);
    WordBitsFirst(c, n + 1);
  }

  lemma DownIsShift(v: bv32)
    ensures DownFour(v) == v >> 4
  {
  }

  lemma FourLows(v: bv32)
    ensures Low(v) == (v & 1 != 0)
    ensures Low(Halved(v)) == (v & 2 != 0)
    ensures Low(Halved(Halved(v))) == (v & 4 != 0)
    ensures Low(Halved(Halved(Halved(v)))) == (v & 8 != 0)
  {
  }

  lemma PolynomialWord()
    ensures WordBits(POLYNOMIAL, 32) == Generator()[1..]
  {
    hide WordBits, Generator;
    GeneratorBits();
  }

  /** The register's first bit is the dividend's leading coefficient; what follows is the halved register's. */
  lemma PendingHalf(r: bv32, m: Bits)
    ensures Pending(r, [false] + m)[0] == Low(r)
    ensures Pending(r, [false] + m)[1..] == Pending(Halved(r), m)
  {
    hide WordBits, Low, Halved;
    HalfBits(r);
    var d, e := Pending(r, [false] + m), Pending(Halved(r), m);
    var bits := WordBits(Halved(r), 31);
    assert ([false] + m) + Zeros(32) == [false] + (m + Zeros(32));
    forall j | 0 <= j < |e|
      ensures d[1..][j] == e[j]
    {
      if j < 31 {
        assert WordBits(r, 32)[j + 1] == bits[j] == WordBits(Halved(r), 32)[j];
      }
    }
  }

  lemma AddTail(d: Bits, g: Bits)
    requires 0 < |g| <= |d|
    ensures Add(d, g)[1..] == Add(d[1..], g[1..])
  {
  }

  lemma AddTwice(d: Bits, a: Bits, b: Bits)
    requires |a| == |b| <= |d|
    ensures Add(Add(d, a), b) == Add(d, Add(a, b))
  {
  }

  /** One zero bit of the message is one register step. */
  lemma ZeroBitDivides(r: bv32, m: Bits)
    ensures Remainder(Pending(r, [false] + m)) == Remainder(Pending(Step(r), m))
  {
    hide WordBits, Low, Halved, Generator, Pending, Add;
    var d := Pending(r, [false] + m);
    PendingHalf(r, m);
    StepIs(r);
    if Low(r) {
      AddTail(d, Generator());
      PolynomialWord();
      PendingXor(Halved(r), POLYNOMIAL, m);
    }
  }

  lemma StepIs(r: bv32)
    ensures Step(r) == if Low(r) then Xor(Halved(r), POLYNOMIAL) else Halved(r)
  {
    LowIsOdd(r);
  }

  lemma PendingXor(a: bv32, b: bv32, m: Bits)
    ensures Pending(Xor(a, b), m) == Add(Pending(a, m), WordBits(b, 32))
  {
    hide WordBits, Add, Xor;
    WordXor(a, b, 32);
    AddTwice(m + Zeros(32), WordBits(a, 32), WordBits(b, 32));
  }

  lemma {:induction false} ZeroBitsDivide(r: bv32, n: nat, m: Bits)
    ensures Remainder(Pending(r, Zeros(n) + m)) == Remainder(Pending(StepN(r, n), m))
    decreases n
  {
    hide Step, Remainder, Pending;
    if n == 0 {
      assert Zeros(0) + m == m;
    } else {
      assert Zeros(n) + m == Zeros(n - 1) + ([false] + m);
      ZeroBitsDivide(r, n - 1, [false] + m);
      ZeroBitDivides(StepN(r, n - 1), m);
    }
  }

  // ----- A byte at a time ------------------------------------------------------------------------------

  lemma ByteIsWord(b: bv8)
    ensures WordBits(Wide(b), 32) == ByteBits(b) + Zeros(24)
  {
    var w := b as bv32;
    assert Wide(b) == w && w >> 4 >> 4 == 0;
    hide WordBits;
    FourBits(w, 28);
    FourBits(w >> 4, 24);
    FourBits(w, 4);
    FourBits(w >> 4, 0);
    NoMoreBits(24);
    NoBits(w >> 4 >> 4);
  }

  lemma {:induction false} NoMoreBits(n: nat)
    ensures WordBits(0, n) == Zeros(n)
    decreases n
  {
    if n > 0 {
      assert !Low(0) && Halved(0) == 0;
      NoMoreBits(n - 1);
    }
  }

  /** Mixing the byte into the register is adding its bits to the dividend. */
  lemma Absorbed(r: bv32, b: bv8, m: Bits)
    ensures Pending(r, ByteBits(b) + m) == Pending(Xor(r, Wide(b)), Zeros(8) + m)
  {
    hide WordBits, ByteBits, Xor, Wide;
    WordXor(r, Wide(b), 32);
    ByteIsWord(b);
    var d, e := Pending(r, ByteBits(b) + m), Pending(Xor(r, Wide(b)), Zeros(8) + m);
    forall j | 0 <= j < |d|
      ensures d[j] == e[j]
    {
      if j < 8 {
        assert (ByteBits(b) + m + Zeros(32))[j] == ByteBits(b)[j] == WordBits(Wide(b), 32)[j];
      } else if j < 32 {
        assert !WordBits(Wide(b), 32)[j];
        assert (ByteBits(b) + m + Zeros(32))[j] == (m + Zeros(32))[j - 8] == (Zeros(8) + m + Zeros(32))[j];
      } else {
        assert (ByteBits(b) + m + Zeros(32))[j] == (m + Zeros(32))[j - 8] == (Zeros(8) + m + Zeros(32))[j];
      }
    }
  }

  lemma ByteDivides(r: bv32, b: bv8, m: Bits)
    ensures Remainder(Pending(r, ByteBits(b) + m)) == Remainder(Pending(ByteStep(r, b), m))
  {
    hide Remainder, Pending, ByteBits, Steps8, Xor, Wide;
    Absorbed(r, b, m);
    ZeroBitsDivide(Xor(r, Wide(b)), 8, m);
    EightSteps(Xor(r, Wide(b)));
  }

  lemma {:induction false} MessageDivides(r: bv32, bytes: Bytes, m: Bits)
    ensures Remainder(Pending(r, MessageBits(bytes) + m)) == Remainder(Pending(Register(r, bytes), m))
    decreases |bytes|
  {
    hide Remainder, Pending, ByteBits, ByteStep;
    if bytes == [] {
      assert MessageBits(bytes) + m == m;
    } else {
      var before, b := bytes[..|bytes| - 1], bytes[|bytes| - 1];
      assert MessageBits(bytes) + m == MessageBits(before) + (ByteBits(b) + m);
      MessageDivides(r, before, ByteBits(b) + m);
      ByteDivides(Register(r, before), b, m);
    }
  }

  /** With nothing left to come the register is the remainder. */
  lemma RegisterIsRemainder(r: bv32)
    ensures Remainder(Pending(r, [])) == WordBits(r, 32)
  {
    hide WordBits;
    assert Pending(r, []) == WordBits(r, 32);
  }

  lemma ComplementIsXor(v: bv32)
    ensures WordBits(Xor(v, ONES), 32) == Complement(WordBits(v, 32))
  {
    hide WordBits, Xor;
    WordXor(v, ONES, 32);
    AllOnes();
  }

  lemma AllOnes()
    ensures WordBits(ONES, 32) == Complement(Zeros(32))
  {
    hide WordBits;
    FourBits(0xFFFF_FFFF, 28);
    FourBits(0xFFF_FFFF, 24);
    FourBits(0xFF_FFFF, 20);
    FourBits(0xF_FFFF, 16);
    FourBits(0xFFFF, 12);
    FourBits(0xFFF, 8);
    FourBits(0xFF, 4);
    FourBits(0xF, 0);
    NoBits(0);
  }

  /**
   * For every buffer and seed, the CRC is the complement of the remainder that the message, with its
   * first 32 coefficients changed by the complement of the seed, leaves when divided by the generator.
   */
  lemma CrcIsRemainder(bytes: Bytes, seed: bv32)
    ensures WordBits(Crc(bytes, seed), 32) == Complement(Remainder(Dividend(bytes, seed)))
  {
    hide WordBits, Remainder, MessageBits, Register, Xor, Complement, Add;
    var start := Xor(seed, ONES);
    ComplementIsXor(seed);
    assert Dividend(bytes, seed) == Pending(start, MessageBits(bytes));
    assert MessageBits(bytes) + [] == MessageBits(bytes);
    MessageDivides(start, bytes, []);
    RegisterIsRemainder(Register(start, bytes));
    ComplementIsXor(Register(start, bytes));
  }

  /** Coefficients determine the word, so nothing else is that complement. */
  lemma WordBitsInjective(a: bv32, b: bv32)
    requires WordBits(a, 32) == WordBits(b, 32)
    ensures a == b
  {
    hide WordBits, Xor;
    WordXor(a, b, 32);
    assert Add(WordBits(a, 32), WordBits(b, 32)) == Zeros(32);
    NoBitsIsZero(Xor(a, b));
    XorIsZero(a, b);
  }

  lemma XorIsZero(a: bv32, b: bv32)
    requires Xor(a, b) == 0
    ensures a == b
  {
  }

  lemma NoBitsIsZero(v: bv32)
    requires WordBits(v, 32) == Zeros(32)
    ensures v == 0
  {
    hide WordBits;
    var a := v >> 4;
    var b := a >> 4;
    var c := b >> 4;
    var d := c >> 4;
    var e := d >> 4;
    var f := e >> 4;
    var g := f >> 4;
    FourBits(v, 28);
    FourBits(a, 24);
    FourBits(b, 20);
    FourBits(c, 16);
    FourBits(d, 12);
    FourBits(e, 8);
    FourBits(f, 4);
    FourBits(g, 0);
    FourZero(v, 28);
    FourZero(a, 24);
    FourZero(b, 20);
    FourZero(c, 16);
    FourZero(d, 12);
    FourZero(e, 8);
    FourZero(f, 4);
    FourZero(g, 0);
    NibblesZero(v);
  }

  predicate LowFourClear(v: bv32) {
    v & 15 == 0
  }

  lemma FourZero(v: bv32, n: nat)
    requires WordBits(v, n + 4) == Zeros(n + 4)
    ensures LowFourClear(v) && WordBits(v >> 4, n) == Zeros(n)
  {
    hide WordBits;
    FourBits(v, n);
    var z := Zeros(n + 4);
    assert z == [false, false, false, false] + Zeros(n);
    var front := [v & 1 != 0, v & 2 != 0, v & 4 != 0, v & 8 != 0];
    assert front == z[..4] && WordBits(v >> 4, n) == z[4..];
    assert !front[0] && !front[1] && !front[2] && !front[3];
  }

  lemma NibblesZero(v: bv32)
    requires LowFourClear(v) && LowFourClear(v >> 4) && LowFourClear(v >> 4 >> 4) && LowFourClear(v >> 4 >> 4 >> 4)
    requires LowFourClear(v >> 4 >> 4 >> 4 >> 4) && LowFourClear(v >> 4 >> 4 >> 4 >> 4 >> 4)
    requires LowFourClear(v >> 4 >> 4 >> 4 >> 4 >> 4 >> 4) && LowFourClear(v >> 4 >> 4 >> 4 >> 4 >> 4 >> 4 >> 4)
    ensures v == 0
  {
  }

  // ----- Two values everybody can compare ------------------------------------------------------------

  /** The check value of CRC-32: the nine digits from 1. */
  lemma CheckValue()
    ensures Crc([0x31, 0x32, 0x33, 0x34, 0x35, 0x36, 0x37, 0x38, 0x39], 0) == 0xCBF4_3926
  {
    var digits: Bytes := [0x31, 0x32, 0x33, 0x34, 0x35, 0x36, 0x37, 0x38, 0x39];
    CheckSteps();
    StartsFull();
    hide ByteStep, Xor;
    assert digits == [] + [0x31] + [0x32] + [0x33] + [0x34] + [0x35] + [0x36] + [0x37] + [0x38] + [0x39];
    hide Register;
    RegisterNone(ONES);
    RegisterSnoc(ONES, [], 0x31);
    RegisterSnoc(ONES, [] + [0x31], 0x32);
    RegisterSnoc(ONES, [] + [0x31] + [0x32], 0x33);
    RegisterSnoc(ONES, [] + [0x31] + [0x32] + [0x33], 0x34);
    RegisterSnoc(ONES, [] + [0x31] + [0x32] + [0x33] + [0x34], 0x35);
    RegisterSnoc(ONES, [] + [0x31] + [0x32] + [0x33] + [0x34] + [0x35], 0x36);
    RegisterSnoc(ONES, [] + [0x31] + [0x32] + [0x33] + [0x34] + [0x35] + [0x36], 0x37);
    RegisterSnoc(ONES, [] + [0x31] + [0x32] + [0x33] + [0x34] + [0x35] + [0x36] + [0x37], 0x38);
    RegisterSnoc(ONES, [] + [0x31] + [0x32] + [0x33] + [0x34] + [0x35] + [0x36] + [0x37] + [0x38], 0x39);
  }

  lemma StartsFull()
    ensures Xor(0, ONES) == ONES && Xor(0x340B_C6D9, ONES) == 0xCBF4_3926
  {
  }

  lemma CheckSteps()
    ensures ByteStep(0xFFFF_FFFF, 0x31) == 0x7C23_1048
    ensures ByteStep(0x7C23_1048, 0x32) == 0xB0AC_BB32
    ensures ByteStep(0xB0AC_BB32, 0x33) == 0x77B7_9C2D
    ensures ByteStep(0x77B7_9C2D, 0x34) == 0x641C_1F5C
    ensures ByteStep(0x641C_1F5C, 0x35) == 0x340A_C5E3
    ensures ByteStep(0x340A_C5E3, 0x36) == 0xF68D_2C9E
    ensures ByteStep(0xF68D_2C9E, 0x37) == 0xAFFC_9660
    ensures ByteStep(0xAFFC_9660, 0x38) == 0x651F_2550
    ensures ByteStep(0x651F_2550, 0x39) == 0x340B_C6D9
  {
  }

  /** The register after any message followed by its own CRC. */
  lemma FinalRegister()
    ensures Steps32(ONES) == 0xDEBB_20E3
  {
  }
}
