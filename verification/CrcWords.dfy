/** CRC-64 with the register as a 64-bit machine word, and the values the format fixes: the generator
  * is the Jones polynomial, the checksum of the nine digits is its published check value, and the
  * DUMP of one string is, byte for byte, what Redis writes.
  */
module CrcWords {
  import opened Bytes
  import opened Crc64

  // ---------------------------------------------------------------------------
  // Machine words
  // ---------------------------------------------------------------------------

  predicate Low(x: bv64) {
    x & 1 == 1
  }

  function Half(x: bv64): bv64 {
    x >> 1
  }

  function Both(x: bv64, y: bv64): bv64 {
    x ^ y
  }

  lemma HalfIsLess(x: bv64)
    ensures x != 0 ==> Half(x) < x
    ensures Half(0) == 0 && !Low(0)
  {
  }

  /** The number a machine word holds. */
  function Val(x: bv64): nat {
    HalfIsLess(x);
    if x == 0 then 0 else Unit(Low(x)) + 2 * Val(Half(x))
  }

  lemma ValStep(x: bv64)
    ensures Val(x) == Unit(Low(x)) + 2 * Val(Half(x))
  {
    if x == 0 {
      HalfIsLess(x);
    }
    hide Low, Half, Both;
  }

  lemma BothHalves(x: bv64, y: bv64)
    ensures Half(Both(x, y)) == Both(Half(x), Half(y))
    ensures Low(Both(x, y)) == (Low(x) != Low(y))
  {
    ShiftBoth(x, y);
    LowBoth(x, y);
  }

  lemma ShiftBoth(x: bv64, y: bv64)
    ensures (x ^ y) >> 1 == (x >> 1) ^ (y >> 1)
  {
  }

  lemma LowBoth(x: bv64, y: bv64)
    ensures ((x ^ y) & 1 == 1) == ((x & 1 == 1) != (y & 1 == 1))
  {
  }

  lemma XorPair(p: bool, q: bool, a: nat, b: nat)
    ensures Xor(Unit(p) + 2 * a, Unit(q) + 2 * b) == Unit(p != q) + 2 * Xor(a, b)
  {
    XorStep(Unit(p) + 2 * a, Unit(q) + 2 * b);
    UnitDouble(p, a);
    UnitDouble(q, b);
    hide Xor, Unit;
  }

  lemma XorWithZero(y: bv64)
    ensures Xor(Val(0), Val(y)) == Val(Both(0, y))
  {
    assert Both(0, y) == y;
    XorZero(Val(y));
  }

  lemma {:induction false} XorOfHalves(x: bv64, y: bv64)
    ensures Xor(Val(x), Val(y)) == Val(Both(x, y))
    decreases x, 1
  {
    hide *;
    if x == 0 {
      XorWithZero(y);
    } else {
      XorOfHalvesStep(x, y);
    }
  }

  lemma {:induction false} XorOfHalvesStep(x: bv64, y: bv64)
    requires x != 0
    ensures Xor(Val(x), Val(y)) == Val(Both(x, y))
    decreases x, 0
  {
    hide *;
    HalfIsLess(x);
    BothHalves(x, y);
    ValStep(x);
    ValStep(y);
    ValStep(Both(x, y));
    XorPair(Low(x), Low(y), Val(Half(x)), Val(Half(y)));
    XorOfHalves(Half(x), Half(y));
  }

  /** The machine's exclusive or is the one spelled out on binary notation. */
  lemma XorIsMachineXor(x: bv64, y: bv64)
    ensures Xor(Val(x), Val(y)) == Val(x ^ y)
  {
    XorOfHalves(x, y);
    hide Val, Xor;
  }

  function Step(g: bv64, c: bv64): bv64 {
    if Low(c) then Both(Half(c), g) else Half(c)
  }

  lemma StepIsBitStep(g: bv64, c: bv64)
    ensures BitStep(Val(g), Val(c)) == Val(Step(g, c))
  {
    ValStep(c);
    UnitDouble(Low(c), Val(Half(c)));
    XorIsMachineXor(Half(c), g);
    assert Both(Half(c), g) == Half(c) ^ g;
    hide Low, Half, Both, Val, Xor, Unit;
  }

  function Steps(g: bv64, c: bv64, n: nat): bv64
    decreases n
  {
    if n == 0 then c else Steps(g, Step(g, c), n - 1)
  }

  /** Shifting a machine word is the step of the shift register. */
  lemma {:induction false} StepsAreBitSteps(g: bv64, c: bv64, n: nat)
    ensures BitSteps(Val(g), Val(c), n) == Val(Steps(g, c, n))
    decreases n
  {
    if n > 0 {
      StepIsBitStep(g, c);
      hide Step, BitStep, Val;
      StepsAreBitSteps(g, Step(g, c), n - 1);
    }
  }

  // ---------------------------------------------------------------------------
  // Words written in hexadecimal
  // ---------------------------------------------------------------------------

  function Digit4(x: bv64): nat {
    Unit(x & 1 == 1) + 2 * Unit(x & 2 == 2) + 4 * Unit(x & 4 == 4) + 8 * Unit(x & 8 == 8)
  }

  function Hex(x: bv64, k: nat): nat
    decreases k
  {
    if k == 0 then 0 else Digit4(x) + 16 * Hex(x >> 4, k - 1)
  }

  predicate Fits(x: bv64, k: nat)
    decreases k
  {
    if k == 0 then x == 0 else Fits(x >> 4, k - 1)
  }

  lemma FourShifts(x: bv64)
    ensures Half(x) == x >> 1 && Half(x >> 1) == x >> 2 && Half(x >> 2) == x >> 3 && Half(x >> 3) == x >> 4
    ensures Low(x >> 1) == (x & 2 == 2) && Low(x >> 2) == (x & 4 == 4) && Low(x >> 3) == (x & 8 == 8)
  {
  }

  lemma HexStep(x: bv64)
    ensures Val(x) == Digit4(x) + 16 * Val(x >> 4)
  {
    ValStep(x);
    ValStep(x >> 1);
    ValStep(x >> 2);
    ValStep(x >> 3);
    FourShifts(x);
    hide Val, Unit;
  }

  lemma {:induction false} ValIsHex(x: bv64, k: nat)
    requires Fits(x, k)
    ensures Val(x) == Hex(x, k)
    decreases k
  {
    hide Digit4;
    if k > 0 {
      hide Val;
      HexStep(x);
      ValIsHex(x >> 4, k - 1);
    }
  }

  lemma GeneratorValue()
    ensures Val(0x95ac_9329_ac4b_c9b5) == 0x95ac_9329_ac4b_c9b5
  {
    hide Val;
    assert Fits(0x95, 2) && Hex(0x95, 2) == 0x95;
    assert Fits(0x95ac, 4) && Hex(0x95ac, 4) == 0x95ac;
    assert Fits(0x95_ac93, 6) && Hex(0x95_ac93, 6) == 0x95_ac93;
    assert Fits(0x95ac_9329, 8) && Hex(0x95ac_9329, 8) == 0x95ac_9329;
    assert Fits(0x95_ac93_29ac, 10) && Hex(0x95_ac93_29ac, 10) == 0x95_ac93_29ac;
    assert Fits(0x95ac_9329_ac4b, 12) && Hex(0x95ac_9329_ac4b, 12) == 0x95ac_9329_ac4b;
    assert Fits(0x95_ac93_29ac_4bc9, 14) && Hex(0x95_ac93_29ac_4bc9, 14) == 0x95_ac93_29ac_4bc9;
    ValIsHex(0x95ac_9329_ac4b_c9b5, 16);
  }

  lemma JonesValue()
    ensures Val(0xad93_d235_94c9_35a9) == 0xad93_d235_94c9_35a9
  {
    hide Val;
    assert Fits(0xad, 2) && Hex(0xad, 2) == 0xad;
    assert Fits(0xad93, 4) && Hex(0xad93, 4) == 0xad93;
    assert Fits(0xad_93d2, 6) && Hex(0xad_93d2, 6) == 0xad_93d2;
    assert Fits(0xad93_d235, 8) && Hex(0xad93_d235, 8) == 0xad93_d235;
    assert Fits(0xad_93d2_3594, 10) && Hex(0xad_93d2_3594, 10) == 0xad_93d2_3594;
    assert Fits(0xad93_d235_94c9, 12) && Hex(0xad93_d235_94c9, 12) == 0xad93_d235_94c9;
    assert Fits(0xad_93d2_3594_c935, 14) && Hex(0xad_93d2_3594_c935, 14) == 0xad_93d2_3594_c935;
    ValIsHex(0xad93_d235_94c9_35a9, 16);
  }

  // ---------------------------------------------------------------------------
  // The Jones polynomial
  // ---------------------------------------------------------------------------

  /** The coefficients of x^63 down to x^0, the leading x^64 left out. */
  const JONES: nat := 0xad93_d235_94c9_35a9

  /** The low k bits of n in reverse order, behind acc. */
  function Flip(n: nat, k: nat, acc: nat): nat
    decreases k
  {
    if k == 0 then acc else Flip(n / 2, k - 1, 2 * acc + n % 2)
  }

  lemma {:induction false} FlippedDigit(n: nat, k: nat, acc: nat, e: nat)
    ensures Digit(Flip(n, k, acc), e) == if e < k then Digit(n, k - 1 - e) else Digit(acc, e - k)
    decreases k
  {
    if k > 0 {
      FlippedDigit(n / 2, k - 1, 2 * acc + n % 2, e);
    }
  }

  function FlipWord(x: bv64, k: nat, acc: nat): nat
    decreases k
  {
    if k == 0 then acc else FlipWord(x >> 1, k - 1, 2 * acc + Unit(x & 1 == 1))
  }

  lemma {:induction false} FlipIsFlipWord(x: bv64, k: nat, acc: nat)
    ensures Flip(Val(x), k, acc) == FlipWord(x, k, acc)
    decreases k
  {
    if k > 0 {
      ValStep(x);
      UnitDouble(Low(x), Val(Half(x)));
      assert Half(x) == x >> 1 && Low(x) == (x & 1 == 1);
      hide Val, Half, Low;
      FlipIsFlipWord(x >> 1, k - 1, 2 * acc + Val(x) % 2);
    }
  }

  lemma FlipFour(x: bv64, k: nat, acc: nat)
    requires k >= 4
    ensures FlipWord(x, k, acc) ==
      FlipWord(x >> 4, k - 4, 16 * acc + 8 * Unit(x & 1 == 1) + 4 * Unit(x & 2 == 2) + 2 * Unit(x & 4 == 4) + Unit(x & 8 == 8))
  {
    hide Unit;
    assert (x >> 1) >> 1 == x >> 2 && (x >> 2) >> 1 == x >> 3 && (x >> 3) >> 1 == x >> 4;
    assert ((x >> 1) & 1 == 1) == (x & 2 == 2) && ((x >> 2) & 1 == 1) == (x & 4 == 4) && ((x >> 3) & 1 == 1) == (x & 8 == 8);
    var a1 := 2 * acc + Unit(x & 1 == 1);
    var a2 := 2 * a1 + Unit(x & 2 == 2);
    var a3 := 2 * a2 + Unit(x & 4 == 4);
    assert FlipWord(x, k, acc) == FlipWord(x >> 1, k - 1, a1);
    assert FlipWord(x >> 1, k - 1, a1) == FlipWord(x >> 2, k - 2, a2);
    assert FlipWord(x >> 2, k - 2, a2) == FlipWord(x >> 3, k - 3, a3);
  }

  lemma FlippedJones()
    ensures FlipWord(0xad93_d235_94c9_35a9, 64, 0) == POLY
  {
    FlipFour(0xad93_d235_94c9_35a9, 64, 0x0);
    FlipFour(0xad9_3d23_594c_935a, 60, 0x9);
    FlipFour(0xad_93d2_3594_c935, 56, 0x95);
    FlipFour(0xa_d93d_2359_4c93, 52, 0x95a);
    FlipFour(0xad93_d235_94c9, 48, 0x95ac);
    FlipFour(0xad9_3d23_594c, 44, 0x9_5ac9);
    FlipFour(0xad_93d2_3594, 40, 0x95_ac93);
    FlipFour(0xa_d93d_2359, 36, 0x95a_c932);
    FlipFour(0xad93_d235, 32, 0x95ac_9329);
    FlipFour(0xad9_3d23, 28, 0x9_5ac9_329a);
    FlipFour(0xad_93d2, 24, 0x95_ac93_29ac);
    FlipFour(0xa_d93d, 20, 0x95a_c932_9ac4);
    FlipFour(0xad93, 16, 0x95ac_9329_ac4b);
    FlipFour(0xad9, 12, 0x9_5ac9_329a_c4bc);
    FlipFour(0xad, 8, 0x95_ac93_29ac_4bc9);
    FlipFour(0xa, 4, 0x95a_c932_9ac4_bc9b);
    hide FlipWord;
  }

  /** The generator's bits reversed are the coefficients of the Jones polynomial: x^e is a term of the
    * generator exactly when bit e is set in them, or e is 64.
    */
  lemma PolyIsJones()
    ensures forall e: nat :: e in Generator(POLY) <==> e == 64 || (e < 64 && Digit(JONES, e))
  {
    hide Val, Flip, FlipWord, Digit, Generator;
    JonesValue();
    FlipIsFlipWord(0xad93_d235_94c9_35a9, 64, 0);
    FlippedJones();
    forall e: nat
      ensures e in Generator(POLY) <==> e == 64 || (e < 64 && Digit(JONES, e))
    {
      InGenerator(POLY, e);
      if e < 64 {
        FlippedDigit(JONES, 64, 0, 63 - e);
      }
    }
  }

  lemma InGenerator(g: nat, e: nat)
    ensures e in Generator(g) <==> e == 64 || (e < 64 && Digit(g, 63 - e))
  {
  }

  /** The checksum is the remainder of the message times x^64 by x^64 plus the Jones terms. */
  lemma ChecksumIsJonesRemainder(data: seq<byte>) returns (quotient: seq<nat>)
    ensures
      var jones := (set e: nat | e < 64 && Digit(0xad93_d235_94c9_35a9, e)) + {64};
      && Poly(Checksum(data)) == Add(TimesX(MessagePoly(PackBits(data)), 64), SumOfShifts(jones, quotient))
      && forall e :: e in Poly(Checksum(data)) ==> e < 64
  {
    quotient := Quotient(POLY, PackBits(data));
    CrcIsRemainder(POLY, data);
    GeneratorIsJones();
    MultipleIsSum(POLY, quotient);
    hide Crc, Poly, Digit, Multiple, Quotient, Add, TimesX, MessagePoly, Generator, SumOfShifts;
  }

  lemma GeneratorIsJones()
    ensures Generator(POLY) == (set e: nat | e < 64 && Digit(0xad93_d235_94c9_35a9, e)) + {64}
  {
    PolyIsJones();
    hide Digit, Generator;
  }

  /** Copies of a polynomial, each times a power of x, added up. */
  function SumOfShifts(p: set<nat>, exponents: seq<nat>): set<nat> {
    if exponents == [] then {} else Add(TimesX(p, exponents[0]), SumOfShifts(p, exponents[1..]))
  }

  lemma {:induction false} MultipleIsSum(g: nat, quotient: seq<nat>)
    ensures Multiple(g, quotient) == SumOfShifts(Generator(g), quotient)
  {
    if quotient != [] {
      MultipleIsSum(g, quotient[1..]);
    }
  }

  // ---------------------------------------------------------------------------
  // Check values
  // ---------------------------------------------------------------------------

  /** One message byte taken in by the machine word. */
  lemma Feed(c: bv64, b: byte, w: bv64, next: bv64)
    requires Fits(w, 2) && b == Hex(w, 2) && Steps(0x95ac_9329_ac4b_c9b5, c ^ w, 8) == next
    ensures ByteStep(POLY, Val(c), b) == Val(next)
  {
    hide Val, Steps, Hex, Fits, BitSteps, Xor;
    GeneratorValue();
    ValIsHex(w, 2);
    XorIsMachineXor(c, w);
    StepsAreBitSteps(0x95ac_9329_ac4b_c9b5, c ^ w, 8);
  }

  lemma EmptyRegister()
    ensures Val(0) == 0
  {
  }

  lemma CrcOfNothing()
    ensures forall c :: Crc(POLY, c, []) == c
  {
  }

  lemma CrcFirst(data: seq<byte>, i: nat, c: nat)
    requires i < |data|
    ensures Crc(POLY, c, data[i..]) == Crc(POLY, ByteStep(POLY, c, data[i]), data[i + 1..])
  {
    hide ByteStep;
    assert data[i..][1..] == data[i + 1..];
  }

  lemma Three(data: seq<byte>, i: nat, c: nat, c1: nat, c2: nat, c3: nat)
    requires i + 3 <= |data|
    requires ByteStep(POLY, c, data[i]) == c1 && ByteStep(POLY, c1, data[i + 1]) == c2 && ByteStep(POLY, c2, data[i + 2]) == c3
    ensures Crc(POLY, c, data[i..]) == Crc(POLY, c3, data[i + 3..])
  {
    hide ByteStep, Crc;
    CrcFirst(data, i, c);
    CrcFirst(data, i + 1, c1);
    CrcFirst(data, i + 2, c2);
  }

  lemma CheckValue()
    ensures Val(0xe9c6_d914_c4b8_d9ca) == 0xe9c6_d914_c4b8_d9ca
  {
    hide Val;
    assert Fits(0xe9, 2) && Hex(0xe9, 2) == 0xe9;
    assert Fits(0xe9c6, 4) && Hex(0xe9c6, 4) == 0xe9c6;
    assert Fits(0xe9_c6d9, 6) && Hex(0xe9_c6d9, 6) == 0xe9_c6d9;
    assert Fits(0xe9c6_d914, 8) && Hex(0xe9c6_d914, 8) == 0xe9c6_d914;
    assert Fits(0xe9_c6d9_14c4, 10) && Hex(0xe9_c6d9_14c4, 10) == 0xe9_c6d9_14c4;
    assert Fits(0xe9c6_d914_c4b8, 12) && Hex(0xe9c6_d914_c4b8, 12) == 0xe9c6_d914_c4b8;
    assert Fits(0xe9_c6d9_14c4_b8d9, 14) && Hex(0xe9_c6d9_14c4_b8d9, 14) == 0xe9_c6d9_14c4_b8d9;
    ValIsHex(0xe9c6_d914_c4b8_d9ca, 16);
  }

  lemma TrailerValue()
    ensures Val(0xbd49_585b_caf4_2362) == 0xbd49_585b_caf4_2362
  {
    hide Val;
    assert Fits(0xbd, 2) && Hex(0xbd, 2) == 0xbd;
    assert Fits(0xbd49, 4) && Hex(0xbd49, 4) == 0xbd49;
    assert Fits(0xbd_4958, 6) && Hex(0xbd_4958, 6) == 0xbd_4958;
    assert Fits(0xbd49_585b, 8) && Hex(0xbd49_585b, 8) == 0xbd49_585b;
    assert Fits(0xbd_4958_5bca, 10) && Hex(0xbd_4958_5bca, 10) == 0xbd_4958_5bca;
    assert Fits(0xbd49_585b_caf4, 12) && Hex(0xbd49_585b_caf4, 12) == 0xbd49_585b_caf4;
    assert Fits(0xbd_4958_5bca_f423, 14) && Hex(0xbd_4958_5bca_f423, 14) == 0xbd_4958_5bca_f423;
    ValIsHex(0xbd49_585b_caf4_2362, 16);
  }

  lemma Digits0To3()
    ensures ByteStep(POLY, Val(0x0), 49) == Val(0xfdc1_7184_a9f7_39fa)
    ensures ByteStep(POLY, Val(0xfdc1_7184_a9f7_39fa), 50) == Val(0xe103_6451_3a98_ed96)
    ensures ByteStep(POLY, Val(0xe103_6451_3a98_ed96), 51) == Val(0xd5bc_fb81_4479_b1ac)
  {
    hide Val, ByteStep;
    Feed(0x0, 49, 49, 0xfdc1_7184_a9f7_39fa);
    Feed(0xfdc1_7184_a9f7_39fa, 50, 50, 0xe103_6451_3a98_ed96);
    Feed(0xe103_6451_3a98_ed96, 51, 51, 0xd5bc_fb81_4479_b1ac);
  }

  lemma Digits3To6()
    ensures ByteStep(POLY, Val(0xd5bc_fb81_4479_b1ac), 52) == Val(0x4359_3c5d_cda5_21f0)
    ensures ByteStep(POLY, Val(0x4359_3c5d_cda5_21f0), 53) == Val(0xf075_8513_239c_7e0d)
    ensures ByteStep(POLY, Val(0xf075_8513_239c_7e0d), 54) == Val(0xa3a9_0925_b2ab_4903)
  {
    hide Val, ByteStep;
    Feed(0xd5bc_fb81_4479_b1ac, 52, 52, 0x4359_3c5d_cda5_21f0);
    Feed(0x4359_3c5d_cda5_21f0, 53, 53, 0xf075_8513_239c_7e0d);
    Feed(0xf075_8513_239c_7e0d, 54, 54, 0xa3a9_0925_b2ab_4903);
  }

  lemma Digits6To9()
    ensures ByteStep(POLY, Val(0xa3a9_0925_b2ab_4903), 55) == Val(0x4782_4d36_2431_ad45)
    ensures ByteStep(POLY, Val(0x4782_4d36_2431_ad45), 56) == Val(0x49ec_20b3_15e8_6dc2)
    ensures ByteStep(POLY, Val(0x49ec_20b3_15e8_6dc2), 57) == Val(0xe9c6_d914_c4b8_d9ca)
  {
    hide Val, ByteStep;
    Feed(0xa3a9_0925_b2ab_4903, 55, 55, 0x4782_4d36_2431_ad45);
    Feed(0x4782_4d36_2431_ad45, 56, 56, 0x49ec_20b3_15e8_6dc2);
    Feed(0x49ec_20b3_15e8_6dc2, 57, 57, 0xe9c6_d914_c4b8_d9ca);
  }

  lemma ChecksumOfText(data: seq<byte>)
    requires |data| == 9 && forall i {:trigger data[i]} :: 0 <= i < 9 ==> data[i] == 49 + i
    ensures Crc(POLY, 0, data) == 0xe9c6_d914_c4b8_d9ca
  {
    hide Val, ByteStep, Crc;
    EmptyRegister();
    assert data[0..] == data && data[9..] == [];
    CrcOfNothing();
    CheckValue();
    Digits0To3();
    Three(data, 0, Val(0x0), Val(0xfdc1_7184_a9f7_39fa), Val(0xe103_6451_3a98_ed96), Val(0xd5bc_fb81_4479_b1ac));
    Digits3To6();
    Three(data, 3, Val(0xd5bc_fb81_4479_b1ac), Val(0x4359_3c5d_cda5_21f0), Val(0xf075_8513_239c_7e0d), Val(0xa3a9_0925_b2ab_4903));
    Digits6To9();
    Three(data, 6, Val(0xa3a9_0925_b2ab_4903), Val(0x4782_4d36_2431_ad45), Val(0x49ec_20b3_15e8_6dc2), Val(0xe9c6_d914_c4b8_d9ca));
  }

  /** The checksum of the text "123456789". */
  lemma ChecksumOfDigits()
    ensures Checksum([49, 50, 51, 52, 53, 54, 55, 56, 57]) == 0xe9c6_d914_c4b8_d9ca
  {
    hide Crc;
    ChecksumOfText([49, 50, 51, 52, 53, 54, 55, 56, 57]);
  }

  lemma Hello0To3()
    ensures ByteStep(POLY, Val(0x0), 0) == Val(0x0)
    ensures ByteStep(POLY, Val(0x0), 11) == Val(0x2440_7dec_384a_65fe)
    ensures ByteStep(POLY, Val(0x2440_7dec_384a_65fe), 104) == Val(0xdd08_288c_30e7_482c)
  {
    hide Val, ByteStep;
    Feed(0x0, 0, 0, 0x0);
    Feed(0x0, 11, 11, 0x2440_7dec_384a_65fe);
    Feed(0x2440_7dec_384a_65fe, 104, 104, 0xdd08_288c_30e7_482c);
  }

  lemma Hello3To6()
    ensures ByteStep(POLY, Val(0xdd08_288c_30e7_482c), 101) == Val(0xe57_4ee9_ae7f_bd2b)
    ensures ByteStep(POLY, Val(0xe57_4ee9_ae7f_bd2b), 108) == Val(0x9024_f9d8_5bdf_7fd6)
    ensures ByteStep(POLY, Val(0x9024_f9d8_5bdf_7fd6), 108) == Val(0x4cbd_bbb8_e5ad_4ace)
  {
    hide Val, ByteStep;
    Feed(0xdd08_288c_30e7_482c, 101, 101, 0xe57_4ee9_ae7f_bd2b);
    Feed(0xe57_4ee9_ae7f_bd2b, 108, 108, 0x9024_f9d8_5bdf_7fd6);
    Feed(0x9024_f9d8_5bdf_7fd6, 108, 108, 0x4cbd_bbb8_e5ad_4ace);
  }

  lemma Hello6To9()
    ensures ByteStep(POLY, Val(0x4cbd_bbb8_e5ad_4ace), 111) == Val(0x1529_a02d_35e7_3284)
    ensures ByteStep(POLY, Val(0x1529_a02d_35e7_3284), 32) == Val(0xaf90_a18d_0843_470a)
    ensures ByteStep(POLY, Val(0xaf90_a18d_0843_470a), 119) == Val(0x4904_325f_aec4_1f28)
  {
    hide Val, ByteStep;
    Feed(0x4cbd_bbb8_e5ad_4ace, 111, 111, 0x1529_a02d_35e7_3284);
    Feed(0x1529_a02d_35e7_3284, 32, 32, 0xaf90_a18d_0843_470a);
    Feed(0xaf90_a18d_0843_470a, 119, 119, 0x4904_325f_aec4_1f28);
  }

  lemma Hello9To12()
    ensures ByteStep(POLY, Val(0x4904_325f_aec4_1f28), 111) == Val(0x9063_aaa4_eddf_c474)
    ensures ByteStep(POLY, Val(0x9063_aaa4_eddf_c474), 114) == Val(0x3518_6749_5cc7_7bb9)
    ensures ByteStep(POLY, Val(0x3518_6749_5cc7_7bb9), 108) == Val(0x8d0b_3b73_bfb3_73d6)
  {
    hide Val, ByteStep;
    Feed(0x4904_325f_aec4_1f28, 111, 111, 0x9063_aaa4_eddf_c474);
    Feed(0x9063_aaa4_eddf_c474, 114, 114, 0x3518_6749_5cc7_7bb9);
    Feed(0x3518_6749_5cc7_7bb9, 108, 108, 0x8d0b_3b73_bfb3_73d6);
  }

  lemma Hello12To15()
    ensures ByteStep(POLY, Val(0x8d0b_3b73_bfb3_73d6), 100) == Val(0xe788_78ce_265d_d8b7)
    ensures ByteStep(POLY, Val(0xe788_78ce_265d_d8b7), 11) == Val(0x7942_13da_0bfa_6c14)
    ensures ByteStep(POLY, Val(0x7942_13da_0bfa_6c14), 0) == Val(0xbd49_585b_caf4_2362)
  {
    hide Val, ByteStep;
    Feed(0x8d0b_3b73_bfb3_73d6, 100, 100, 0xe788_78ce_265d_d8b7);
    Feed(0xe788_78ce_265d_d8b7, 11, 11, 0x7942_13da_0bfa_6c14);
    Feed(0x7942_13da_0bfa_6c14, 0, 0, 0xbd49_585b_caf4_2362);
  }

  /** The body and version of the DUMP of the string "hello world", and their checksum. */
  const HELLO: seq<byte> := [0x0, 0xb, 0x68, 0x65, 0x6c, 0x6c, 0x6f, 0x20, 0x77, 0x6f, 0x72, 0x6c, 0x64, 0xb, 0x0]

  lemma ChecksumOfHello()
    ensures Checksum(HELLO) == 0xbd49_585b_caf4_2362
  {
    var data := HELLO;
    hide Val, ByteStep, Crc;
    EmptyRegister();
    assert data[0..] == data && data[15..] == [];
    CrcOfNothing();
    TrailerValue();
    Hello0To3();
    Three(data, 0, Val(0x0), Val(0x0), Val(0x2440_7dec_384a_65fe), Val(0xdd08_288c_30e7_482c));
    Hello3To6();
    Three(data, 3, Val(0xdd08_288c_30e7_482c), Val(0xe57_4ee9_ae7f_bd2b), Val(0x9024_f9d8_5bdf_7fd6), Val(0x4cbd_bbb8_e5ad_4ace));
    Hello6To9();
    Three(data, 6, Val(0x4cbd_bbb8_e5ad_4ace), Val(0x1529_a02d_35e7_3284), Val(0xaf90_a18d_0843_470a), Val(0x4904_325f_aec4_1f28));
    Hello9To12();
    Three(data, 9, Val(0x4904_325f_aec4_1f28), Val(0x9063_aaa4_eddf_c474), Val(0x3518_6749_5cc7_7bb9), Val(0x8d0b_3b73_bfb3_73d6));
    Hello12To15();
    Three(data, 12, Val(0x8d0b_3b73_bfb3_73d6), Val(0xe788_78ce_265d_d8b7), Val(0x7942_13da_0bfa_6c14), Val(0xbd49_585b_caf4_2362));
  }
}
