/** CRC-64 (Jones polynomial, reflected) as used by the DUMP trailer.
  *
  * A 64-bit register is the number it holds, and exclusive or is spelled out on binary
  * notation. Three views of the checksum are related here:
  *   - the table-driven byte loop (`Compute`, over the table built by `BuildTable`);
  *   - feeding the message one bit at a time into a shift register (`CrcOfBits`);
  *   - the remainder of dividing the message polynomial times x^64 by the generator, over
  *     polynomials with coefficients modulo 2 (`CrcIsRemainder`).
  * The last part shows that two messages which differ only inside a window of at most eight
  * bytes never share a checksum.
  */
module Crc64 {
  import opened Bytes

  const POLY: nat := 0x95ac_9329_ac4b_c9b5

  /** The checksum stored in a DUMP trailer. */
  function Checksum(data: seq<byte>): nat {
    Crc(POLY, 0, data)
  }

  // ---------------------------------------------------------------------------
  // Exclusive or
  // ---------------------------------------------------------------------------

  function Xor(a: nat, b: nat): nat
    decreases a
  {
    if a == 0 then b
    else if b == 0 then a
    else Unit(a % 2 != b % 2) + 2 * Xor(a / 2, b / 2)
  }

  lemma XorStep(a: nat, b: nat)
    ensures Xor(a, b) == Unit(a % 2 != b % 2) + 2 * Xor(a / 2, b / 2)
    ensures (Xor(a, b) % 2 != 0) == (a % 2 != b % 2)
    ensures Xor(a, b) / 2 == Xor(a / 2, b / 2)
  {
    XorUnfolds(a, b);
    hide Xor, Unit;
    UnitDouble(a % 2 != b % 2, Xor(a / 2, b / 2));
  }

  lemma XorZero(a: nat)
    ensures Xor(0, a) == a == Xor(a, 0)
  {
  }

  lemma XorUnfolds(a: nat, b: nat)
    ensures Xor(a, b) == Unit(a % 2 != b % 2) + 2 * Xor(a / 2, b / 2)
  {
    if a == 0 || b == 0 {
      XorZero(a);
      XorZero(b);
      XorZero(a / 2);
      XorZero(b / 2);
      Halves(a);
      Halves(b);
      hide Xor;
    }
  }

  lemma Halves(n: nat)
    ensures n == Unit(n % 2 == 1) + 2 * (n / 2)
  {
  }

  lemma UnitDouble(bit: bool, h: nat)
    ensures (Unit(bit) + 2 * h) / 2 == h && ((Unit(bit) + 2 * h) % 2 != 0) == bit
  {
  }

  lemma {:induction false} XorComm(a: nat, b: nat)
    ensures Xor(a, b) == Xor(b, a)
    decreases a
  {
    if a > 0 {
      XorComm(a / 2, b / 2);
    }
  }

  lemma {:induction false} XorAssoc(a: nat, b: nat, c: nat)
    ensures Xor(Xor(a, b), c) == Xor(a, Xor(b, c))
    decreases a
  {
    if a > 0 {
      hide Xor;
      XorStep(a, b);
      XorStep(b, c);
      XorStep(Xor(a, b), c);
      XorStep(a, Xor(b, c));
      XorAssoc(a / 2, b / 2, c / 2);
    }
  }

  lemma {:induction false} XorSelf(a: nat)
    ensures Xor(a, a) == 0
  {
    if a > 0 {
      XorSelf(a / 2);
    }
  }

  lemma XorCancel(a: nat, b: nat, c: nat)
    requires Xor(a, b) == Xor(a, c)
    ensures b == c
  {
  }

  /** (a xor b) xor (c xor d), regrouped. */
  lemma XorSwap(a: nat, b: nat, c: nat, d: nat)
    ensures Xor(Xor(a, b), Xor(c, d)) == Xor(Xor(a, c), Xor(b, d))
  {
    XorAssoc(a, b, Xor(c, d));
    XorAssoc(b, c, d);
    XorComm(b, c);
    XorAssoc(c, b, d);
    XorAssoc(a, c, Xor(b, d));
  }

  lemma {:induction false} XorBound(a: nat, b: nat, k: nat)
    requires a < Pow2(k) && b < Pow2(k)
    ensures Xor(a, b) < Pow2(k)
    decreases k
  {
    if k > 0 {
      XorStep(a, b);
      XorBound(a / 2, b / 2, k - 1);
    }
  }

  function Shifted(high: nat, k: nat): nat {
    if k == 0 then high else 2 * Shifted(high, k - 1)
  }

  lemma {:induction false} ShiftedIsProduct(high: nat, k: nat)
    ensures Shifted(high, k) == Pow2(k) * high
  {
    if k > 0 {
      ShiftedIsProduct(high, k - 1);
      assert Pow2(k) * high == 2 * (Pow2(k - 1) * high);
    }
  }

  lemma EvenHalf(low: nat, h: nat)
    ensures (2 * h) / 2 == h && (low % 2 != (2 * h) % 2) == (low % 2 == 1)
    ensures Unit(low % 2 == 1) + 2 * (low / 2 + h) == low + 2 * h
  {
    Halves(low);
  }

  lemma {:induction false} XorShifted(low: nat, high: nat, k: nat)
    requires low < Pow2(k)
    ensures Xor(low, Shifted(high, k)) == low + Shifted(high, k)
    decreases k
  {
    if k > 0 {
      var h := Shifted(high, k - 1);
      assert low / 2 < Pow2(k - 1);
      XorShifted(low / 2, high, k - 1);
      hide Pow2, Xor, Unit;
      XorStep(low, 2 * h);
      EvenHalf(low, h);
    } else {
      XorZero(high);
      hide Xor;
    }
  }

  /** Numbers with no common binary digits: exclusive or is addition. */
  lemma XorDisjoint(low: nat, high: nat, k: nat)
    requires low < Pow2(k)
    ensures Xor(low, Pow2(k) * high) == low + Pow2(k) * high
  {
    XorShifted(low, high, k);
    ShiftedIsProduct(high, k);
    hide Xor, Pow2, Shifted;
  }

  // ---------------------------------------------------------------------------
  // The shift register
  // ---------------------------------------------------------------------------

  // Everything below holds for any generator g; its x^64 term is implicit.

  function BitStep(g: nat, c: nat): nat {
    if c % 2 != 0 then Xor(c / 2, g) else c / 2
  }

  function BitSteps(g: nat, c: nat, n: nat): nat
    decreases n
  {
    if n == 0 then c else BitSteps(g, BitStep(g, c), n - 1)
  }

  /** One message byte: xor it into the low end of the register, then shift eight times. */
  function ByteStep(g: nat, c: nat, b: byte): nat {
    BitSteps(g, Xor(c, b), 8)
  }

  function Crc(g: nat, seed: nat, data: seq<byte>): nat
    decreases |data|
  {
    if data == [] then seed else Crc(g, ByteStep(g, seed, data[0]), data[1..])
  }

  lemma BitStepLinear(g: nat, a: nat, b: nat)
    ensures BitStep(g, Xor(a, b)) == Xor(BitStep(g, a), BitStep(g, b))
  {
    var p, q := a / 2, b / 2;
    XorStep(a, b);
    if a % 2 != 0 && b % 2 != 0 {
      XorSwap(p, g, q, g);
      XorSelf(g);
      XorComm(Xor(p, q), 0);
    } else if a % 2 != 0 {
      XorAssoc(p, g, q);
      XorComm(g, q);
      XorAssoc(p, q, g);
    } else if b % 2 != 0 {
      XorAssoc(p, q, g);
    }
  }

  lemma {:induction false} BitStepsLinear(g: nat, a: nat, b: nat, n: nat)
    ensures BitSteps(g, Xor(a, b), n) == Xor(BitSteps(g, a, n), BitSteps(g, b, n))
    decreases n
  {
    if n > 0 {
      BitStepLinear(g, a, b);
      BitStepsLinear(g, BitStep(g, a), BitStep(g, b), n - 1);
    }
  }

  /** While the low bits are clear no reduction happens: the register just shifts. */
  lemma {:induction false} BitStepsShifted(g: nat, high: nat, n: nat)
    ensures BitSteps(g, Shifted(high, n), n) == high
    decreases n
  {
    if n > 0 {
      var h := Shifted(high, n - 1);
      hide Xor;
      assert BitStep(g, 2 * h) == h;
      BitStepsShifted(g, high, n - 1);
    }
  }

  lemma BitStepsShift(g: nat, high: nat, n: nat)
    ensures BitSteps(g, Pow2(n) * high, n) == high
  {
    BitStepsShifted(g, high, n);
    ShiftedIsProduct(high, n);
    hide BitSteps, Pow2, Shifted;
  }

  lemma {:induction false} BitStepsLast(g: nat, c: nat, n: nat)
    ensures BitSteps(g, c, n + 1) == BitStep(g, BitSteps(g, c, n))
    decreases n
  {
    if n > 0 {
      BitStepsLast(g, BitStep(g, c), n - 1);
    }
  }

  lemma {:induction false} CrcAppend(g: nat, seed: nat, a: seq<byte>, b: seq<byte>)
    ensures Crc(g, seed, a + b) == Crc(g, Crc(g, seed, a), b)
    decreases |a|
  {
    if a == [] {
      assert a + b == b;
    } else {
      assert (a + b)[1..] == a[1..] + b;
      CrcAppend(g, ByteStep(g, seed, a[0]), a[1..], b);
    }
  }

  lemma {:induction false} BitStepsBound(g: nat, c: nat, n: nat)
    requires g < U64 && c < U64
    ensures BitSteps(g, c, n) < U64
    decreases n
  {
    if n > 0 {
      Pow2Of64();
      XorBound(c / 2, g, 64);
      BitStepsBound(g, BitStep(g, c), n - 1);
    }
  }

  lemma ByteStepBound(g: nat, c: nat, b: byte)
    requires g < U64 && c < U64
    ensures Xor(c, b) < U64
    ensures ByteStep(g, c, b) < U64
  {
    Pow2Of64();
    XorBound(c, b, 64);
    BitStepsBound(g, Xor(c, b), 8);
  }

  lemma {:induction false} CrcBound(g: nat, seed: nat, data: seq<byte>)
    requires g < U64 && seed < U64
    ensures Crc(g, seed, data) < U64
    decreases |data|
  {
    if data != [] {
      ByteStepBound(g, seed, data[0]);
      CrcBound(g, ByteStep(g, seed, data[0]), data[1..]);
    }
  }

  // ---------------------------------------------------------------------------
  // The table-driven loop
  // ---------------------------------------------------------------------------

  ghost predicate IsTable(g: nat, t: seq<nat>) {
    |t| == 256 && forall i :: 0 <= i < 256 ==> t[i] == BitSteps(g, i, 8)
  }

  method BuildTable(g: nat) returns (t: array<nat>)
    ensures fresh(t) && IsTable(g, t[..])
  {
    t := new nat[256](_ => 0);
    var i := 0;
    while i < 256
      invariant 0 <= i <= 256
      invariant forall j :: 0 <= j < i ==> t[j] == BitSteps(g, j, 8)
    {
      var c: nat := i;
      var k := 0;
      while k < 8
        invariant 0 <= k <= 8
        invariant c == BitSteps(g, i, k)
        invariant forall j :: 0 <= j < i ==> t[j] == BitSteps(g, j, 8)
      {
        BitStepsLast(g, i, k);
        c := if c % 2 != 0 then Xor(c / 2, g) else c / 2;
        k := k + 1;
      }
      t[i] := c;
      i := i + 1;
    }
  }

  /** Eight steps reduce the low byte and shift the rest down. */
  lemma EightSteps(g: nat, x: nat)
    ensures BitSteps(g, x, 8) == Xor(BitSteps(g, x % 256, 8), x / 256)
  {
    hide BitSteps, Xor;
    Pow2Of8();
    XorDisjoint(x % 256, x / 256, 8);
    BitStepsLinear(g, x % 256, 256 * (x / 256), 8);
    BitStepsShift(g, x / 256, 8);
  }

  /** The table entry for the low byte, xored with the rest of the register, is eight bit steps. */
  lemma TableStep(g: nat, c: nat, b: byte)
    ensures ByteStep(g, c, b) == Xor(BitSteps(g, Xor(c, b) % 256, 8), c / 256)
  {
    hide BitSteps, Xor;
    Pow2Of8();
    EightSteps(g, Xor(c, b));
    HighByteUntouched(c, b, 8);
  }

  lemma {:induction false} HighByteUntouched(c: nat, b: nat, k: nat)
    requires b < Pow2(k)
    ensures Xor(c, b) / Pow2(k) == c / Pow2(k)
    decreases k
  {
    if k > 0 {
      XorStep(c, b);
      HighByteUntouched(c / 2, b / 2, k - 1);
      HalfThenDivide(Xor(c, b), Pow2(k - 1));
      HalfThenDivide(c, Pow2(k - 1));
    }
  }

  lemma HalfThenDivide(n: nat, d: nat)
    requires d > 0
    ensures n / (2 * d) == n / 2 / d
  {
    var q, r := n / 2 / d, n / 2 % d;
    assert n == (2 * d) * q + (2 * r + n % 2) by {
      assert n / 2 == d * q + r;
    }
    QuotientUnique(n, 2 * d, q, 2 * r + n % 2);
  }

  lemma QuotientUnique(n: nat, d: nat, q: nat, r: nat)
    requires r < d && n == d * q + r
    ensures n / d == q
  {
    var p := n / d;
    MulMonotone(d, p + 1, q);
    MulMonotone(d, q + 1, p);
    assert d * p <= n < d * (p + 1);
  }

  lemma MulMonotone(d: nat, x: nat, y: nat)
    ensures x <= y ==> d * x <= d * y
  {
  }

  method Compute(g: nat, seed: nat, data: seq<byte>) returns (crc: nat)
    ensures crc == Crc(g, seed, data)
  {
    var t := BuildTable(g);
    ghost var table := t[..];
    crc := seed;
    var i := 0;
    while i < |data|
      invariant 0 <= i <= |data|
      invariant t[..] == table
      invariant Crc(g, crc, data[i..]) == Crc(g, seed, data)
    {
      var idx := Xor(crc, data[i]) % 256;
      TableStep(g, crc, data[i]);
      assert data[i..][1..] == data[i + 1..];
      assert t[idx] == table[idx] == BitSteps(g, idx, 8);
      crc := Xor(t[idx], crc / 256);
      i := i + 1;
    }
  }

  // ---------------------------------------------------------------------------
  // Bit at a time
  // ---------------------------------------------------------------------------

  /** The register after a message given as bits, first bit first. */
  function CrcOfBits(g: nat, seed: nat, bits: seq<bool>): nat
    decreases |bits|
  {
    if bits == [] then seed
    else
      var n := |bits| - 1;
      BitStep(g, Xor(CrcOfBits(g, seed, bits[..n]), Unit(bits[n])))
  }

  lemma {:induction false} CrcOfBitsAppend(g: nat, seed: nat, a: seq<bool>, b: seq<bool>)
    ensures CrcOfBits(g, seed, a + b) == CrcOfBits(g, CrcOfBits(g, seed, a), b)
    decreases |b|
  {
    if b == [] {
      assert a + b == a;
    } else {
      var n := |b| - 1;
      assert (a + b)[..|a + b| - 1] == a + b[..n];
      CrcOfBitsAppend(g, seed, a, b[..n]);
    }
  }

  lemma CrcOfBitsFirst(g: nat, c: nat, bits: seq<bool>)
    requires bits != []
    ensures CrcOfBits(g, c, bits) == CrcOfBits(g, BitStep(g, Xor(c, Unit(bits[0]))), bits[1..])
  {
    assert bits == [bits[0]] + bits[1..];
    CrcOfBitsAppend(g, c, [bits[0]], bits[1..]);
    assert [bits[0]][..0] == [];
  }

  lemma BitStepsFirst(g: nat, c: nat, n: nat)
    requires n > 0
    ensures BitSteps(g, c, n) == BitSteps(g, BitStep(g, c), n - 1)
  {
  }

  lemma GroupStep(g: nat, c: nat, bit: bool, rest: nat)
    ensures BitStep(g, Xor(c, Unit(bit) + 2 * rest)) == Xor(BitStep(g, Xor(c, Unit(bit))), rest)
  {
    hide Xor;
    assert Pow2(1) == 2;
    XorDisjoint(Unit(bit), rest, 1);
    XorAssoc(c, Unit(bit), 2 * rest);
    BitStepLinear(g, Xor(c, Unit(bit)), 2 * rest);
    assert BitStep(g, 2 * rest) == rest;
  }

  /** Xoring a whole group of bits in up front equals feeding them one by one. */
  lemma {:induction false} GroupFeed(g: nat, c: nat, bits: seq<bool>)
    ensures BitSteps(g, Xor(c, NatOf(bits)), |bits|) == CrcOfBits(g, c, bits)
    decreases |bits|
  {
    hide Xor, BitStep, Unit, Pow2;
    if bits == [] {
      XorZero(c);
    } else {
      assert NatOf(bits) == Unit(bits[0]) + 2 * NatOf(bits[1..]);
      hide CrcOfBits, BitSteps, NatOf;
      var next := BitStep(g, Xor(c, Unit(bits[0])));
      GroupStep(g, c, bits[0], NatOf(bits[1..]));
      BitStepsFirst(g, Xor(c, NatOf(bits)), |bits|);
      GroupFeed(g, next, bits[1..]);
      CrcOfBitsFirst(g, c, bits);
    }
  }

  lemma {:induction false} BytesAreBits(g: nat, seed: nat, data: seq<byte>)
    ensures Crc(g, seed, data) == CrcOfBits(g, seed, PackBits(data))
    decreases |data|
  {
    if data != [] {
      Pow2Of8();
      NatOfBitsOf(data[0], 8);
      GroupFeed(g, seed, BitsOf(data[0], 8));
      BytesAreBits(g, ByteStep(g, seed, data[0]), data[1..]);
      CrcOfBitsAppend(g, seed, BitsOf(data[0], 8), PackBits(data[1..]));
    }
  }

  // ---------------------------------------------------------------------------
  // Polynomial division
  // ---------------------------------------------------------------------------

  // Polynomials modulo 2 are their sets of exponents; addition is symmetric difference.

  function Add(p: set<nat>, q: set<nat>): set<nat> {
    (p - q) + (q - p)
  }

  function TimesX(p: set<nat>, k: nat): set<nat> {
    set e: nat | e in p :: e + k
  }

  predicate Digit(c: nat, i: nat)
    decreases i
  {
    if i == 0 then c % 2 != 0 else Digit(c / 2, i - 1)
  }

  predicate Coefficient(c: nat, e: nat) {
    e < 64 && Digit(c, 63 - e)
  }

  /** The register read as a polynomial of degree below 64; bit 63 is the constant term. */
  function Poly(c: nat): set<nat> {
    set e: nat | 0 <= e < 64 && Coefficient(c, e)
  }

  lemma PolyDegree(c: nat, e: nat)
    ensures e in Poly(c) ==> e < 64
  {
  }

  /** The generator: x^64 plus the terms held in g. */
  function Generator(g: nat): set<nat> {
    Poly(g) + {64}
  }

  /** A message as a polynomial; its last bit is the constant term. */
  function MessagePoly(bits: seq<bool>): set<nat> {
    if bits == [] then {}
    else
      var n := |bits| - 1;
      Add(TimesX(MessagePoly(bits[..n]), 1), Term(bits[n], 0))
  }

  function Term(present: bool, exponent: nat): set<nat> {
    if present then {exponent} else {}
  }

  /** Sum of shifted copies of the generator, one per exponent listed. */
  function Multiple(g: nat, quotient: seq<nat>): set<nat> {
    if quotient == [] then {}
    else Add(TimesX(Generator(g), quotient[0]), Multiple(g, quotient[1..]))
  }

  function Raise(quotient: seq<nat>): seq<nat> {
    if quotient == [] then [] else [quotient[0] + 1] + Raise(quotient[1..])
  }

  /** The quotient that the shift register computes on the way. */
  function Quotient(g: nat, bits: seq<bool>): seq<nat> {
    if bits == [] then []
    else
      var n := |bits| - 1;
      var raised := Raise(Quotient(g, bits[..n]));
      if Xor(CrcOfBits(g, 0, bits[..n]), Unit(bits[n])) % 2 != 0 then [0] + raised else raised
  }

  lemma InTimesX(p: set<nat>, k: nat, e: nat)
    ensures e in TimesX(p, k) <==> e >= k && e - k in p
  {
  }

  lemma TimesXAdd(p: set<nat>, q: set<nat>, k: nat)
    ensures TimesX(Add(p, q), k) == Add(TimesX(p, k), TimesX(q, k))
  {
  }

  lemma TimesXTwice(p: set<nat>, j: nat, k: nat)
    ensures TimesX(TimesX(p, j), k) == TimesX(p, j + k)
  {
    forall e: nat
      ensures e in TimesX(TimesX(p, j), k) <==> e in TimesX(p, j + k)
    {
      InTimesX(TimesX(p, j), k, e);
      InTimesX(p, j + k, e);
      if e >= k {
        InTimesX(p, j, e - k);
      }
    }
  }

  lemma {:induction false} MultipleRaise(g: nat, q: seq<nat>)
    ensures Multiple(g, Raise(q)) == TimesX(Multiple(g, q), 1)
  {
    if q != [] {
      MultipleRaise(g, q[1..]);
      assert Raise(q)[1..] == Raise(q[1..]);
      TimesXTwice(Generator(g), q[0], 1);
      TimesXAdd(TimesX(Generator(g), q[0]), Multiple(g, q[1..]), 1);
    }
  }

  lemma {:induction false} DigitOfXor(a: nat, b: nat, i: nat)
    ensures Digit(Xor(a, b), i) == (Digit(a, i) != Digit(b, i))
    decreases i
  {
    XorStep(a, b);
    if i > 0 {
      DigitOfXor(a / 2, b / 2, i - 1);
    }
  }

  lemma {:induction false} DigitBound(c: nat, i: nat)
    requires c < Pow2(i)
    ensures !Digit(c, i)
    decreases i
  {
    if i > 0 {
      DigitBound(c / 2, i - 1);
    }
  }

  lemma PolyXor(a: nat, b: nat)
    ensures Poly(Xor(a, b)) == Add(Poly(a), Poly(b))
  {
    forall e: nat | e < 64
      ensures e in Poly(Xor(a, b)) <==> e in Add(Poly(a), Poly(b))
    {
      DigitOfXor(a, b, 63 - e);
    }
  }

  lemma PolyHalf(c: nat)
    requires c < U64
    ensures TimesX(Poly(c), 1) == Add(Poly(c / 2), Term(c % 2 != 0, 64))
  {
    Pow2Of64();
    forall e: nat
      ensures e in TimesX(Poly(c), 1) <==> e in Add(Poly(c / 2), Term(c % 2 != 0, 64))
    {
      InTimesX(Poly(c), 1, e);
      if 1 <= e < 64 {
        assert Coefficient(c, e - 1) == Coefficient(c / 2, e);
      } else if e == 0 {
        DigitBound(c / 2, 63);
      }
    }
  }

  /** One bit step multiplies by x and, on overflow, subtracts the generator. */
  lemma BitStepPoly(g: nat, c: nat)
    requires c < U64
    ensures Poly(BitStep(g, c)) ==
            Add(TimesX(Poly(c), 1), if c % 2 != 0 then Generator(g) else {})
  {
    hide Poly, Xor;
    PolyHalf(c);
    PolyXor(c / 2, g);
    PolyDegree(c / 2, 64);
    PolyDegree(g, 64);
  }

  lemma PolyUnit(c: nat, bit: bool)
    ensures Poly(Xor(c, Unit(bit))) == Add(Poly(c), Term(bit, 63))
  {
  }

  lemma {:induction false} Pow2Monotone(j: nat, k: nat)
    requires j <= k
    ensures Pow2(j) <= Pow2(k)
    decreases k
  {
    if j < k {
      Pow2Monotone(j, k - 1);
    }
  }

  lemma TimesXTerm(present: bool, e: nat, k: nat)
    ensures TimesX(Term(present, e), k) == Term(present, e + k)
  {
  }

  /** Feeding one more bit turns the remainder r into x*r + bit*x^64, less the generator if that
    * reaches degree 64.
    */
  lemma RemainderStep(g: nat, c: nat, bit: bool)
    requires c < U64
    ensures
      var x := Xor(c, Unit(bit));
      Poly(BitStep(g, x)) ==
        Add(Add(TimesX(Poly(c), 1), Term(bit, 64)), if x % 2 != 0 then Generator(g) else {})
  {
    hide Poly, Xor, Add, TimesX, Term, BitStep;
    Pow2Of64();
    XorBound(c, Unit(bit), 64);
    PolyUnit(c, bit);
    BitStepPoly(g, Xor(c, Unit(bit)));
    TimesXAdd(Poly(c), Term(bit, 63), 1);
    TimesXTerm(bit, 63, 1);
  }

  lemma MultipleQuotient(g: nat, prev: seq<bool>, bit: bool)
    ensures
      var x := Xor(CrcOfBits(g, 0, prev), Unit(bit));
      Multiple(g, Quotient(g, prev + [bit])) ==
        Add(if x % 2 != 0 then Generator(g) else {}, TimesX(Multiple(g, Quotient(g, prev)), 1))
  {
    hide Xor, CrcOfBits;
    var q := Quotient(g, prev);
    MultipleRaise(g, q);
    assert (prev + [bit])[..|prev|] == prev;
    assert ([0] + Raise(q))[1..] == Raise(q);
    assert TimesX(Generator(g), 0) == Generator(g);
  }

  lemma MessagePolyStep(prev: seq<bool>, bit: bool)
    ensures TimesX(MessagePoly(prev + [bit]), 64) ==
            Add(TimesX(TimesX(MessagePoly(prev), 64), 1), Term(bit, 64))
  {
    assert (prev + [bit])[..|prev|] == prev;
    var p := MessagePoly(prev);
    TimesXAdd(TimesX(p, 1), Term(bit, 0), 64);
    TimesXTwice(p, 1, 64);
    TimesXTwice(p, 64, 1);
    TimesXTerm(bit, 0, 64);
  }

  lemma AddShuffle(a: set<nat>, b: set<nat>, m: set<nat>, g: set<nat>)
    ensures Add(Add(Add(a, b), m), g) == Add(Add(a, m), Add(g, b))
  {
  }

  lemma {:induction false} CrcOfBitsBound(g: nat, seed: nat, bits: seq<bool>)
    requires g < U64 && seed < U64
    ensures CrcOfBits(g, seed, bits) < U64
    decreases |bits|
  {
    if bits != [] {
      var n := |bits| - 1;
      Pow2Of64();
      CrcOfBitsBound(g, seed, bits[..n]);
      var x := Xor(CrcOfBits(g, seed, bits[..n]), Unit(bits[n]));
      XorBound(CrcOfBits(g, seed, bits[..n]), Unit(bits[n]), 64);
      XorBound(x / 2, g, 64);
    }
  }

  lemma {:induction false} Division(g: nat, bits: seq<bool>)
    requires g < U64
    ensures Poly(CrcOfBits(g, 0, bits)) ==
            Add(TimesX(MessagePoly(bits), 64), Multiple(g, Quotient(g, bits)))
    decreases |bits|, 1
  {
    if bits == [] {
      forall e: nat
        ensures e !in Poly(0)
      {
        if e < 64 {
          DigitBound(0, 63 - e);
        }
      }
    } else {
      assert bits == bits[..|bits| - 1] + [bits[|bits| - 1]];
      DivisionStep(g, bits[..|bits| - 1], bits[|bits| - 1]);
    }
  }

  lemma {:induction false} DivisionStep(g: nat, prev: seq<bool>, bit: bool)
    requires g < U64
    ensures Poly(CrcOfBits(g, 0, prev + [bit])) ==
            Add(TimesX(MessagePoly(prev + [bit]), 64), Multiple(g, Quotient(g, prev + [bit])))
    decreases |prev| + 1, 0
  {
    hide Poly, Xor, Add, TimesX, Term, BitStep, Multiple, Quotient, MessagePoly;
    Division(g, prev);
    CrcOfBitsBound(g, 0, prev);
    var c := CrcOfBits(g, 0, prev);
    assert (prev + [bit])[..|prev|] == prev;
    assert CrcOfBits(g, 0, prev + [bit]) == BitStep(g, Xor(c, Unit(bit)));
    RemainderStep(g, c, bit);
    MultipleQuotient(g, prev, bit);
    MessagePolyStep(prev, bit);
    var msg, mult := TimesX(MessagePoly(prev), 64), Multiple(g, Quotient(g, prev));
    TimesXAdd(msg, mult, 1);
    AddShuffle(TimesX(msg, 1), TimesX(mult, 1), Term(bit, 64),
               if Xor(c, Unit(bit)) % 2 != 0 then Generator(g) else {});
  }

  /** The checksum of a message is the remainder of (message times x^64) by the generator:
    * it has degree below 64 and differs from the dividend by a multiple of the generator.
    */
  lemma CrcIsRemainder(g: nat, data: seq<byte>)
    requires g < U64
    ensures
      var bits := PackBits(data);
      var remainder := Poly(Crc(g, 0, data));
      && (forall e :: e in remainder ==> e < 64)
      && remainder == Add(TimesX(MessagePoly(bits), 64), Multiple(g, Quotient(g, bits)))
  {
    BytesAreBits(g, 0, data);
    Division(g, PackBits(data));
  }

  // ---------------------------------------------------------------------------
  // Burst errors
  // ---------------------------------------------------------------------------

  /** The top digit of the generator is set, so the top bit of the result tells whether a
    * reduction happened and the step can be undone.
    */
  lemma BitStepInjective(g: nat, a: nat, b: nat)
    requires U64 / 2 <= g < U64 && a < U64 && b < U64
    requires BitStep(g, a) == BitStep(g, b)
    ensures a == b
  {
    Pow2Of64();
    TopDigit(a / 2, g, 63);
    TopDigit(b / 2, g, 63);
    XorComm(a / 2, g);
    XorComm(b / 2, g);
    if a % 2 != 0 && b % 2 != 0 {
      XorCancel(g, a / 2, b / 2);
    }
  }

  lemma {:induction false} TopDigit(low: nat, g: nat, k: nat)
    requires low < Pow2(k) <= g
    ensures Xor(low, g) >= Pow2(k)
    decreases k
  {
    XorStep(low, g);
    if k > 0 {
      TopDigit(low / 2, g / 2, k - 1);
    }
  }

  lemma {:induction false} BitStepsInjective(g: nat, a: nat, b: nat, n: nat)
    requires U64 / 2 <= g < U64 && a < U64 && b < U64
    requires BitSteps(g, a, n) == BitSteps(g, b, n)
    ensures a == b
    decreases n
  {
    if n > 0 {
      BitStepsBound(g, a, 1);
      BitStepsBound(g, b, 1);
      BitStepsInjective(g, BitStep(g, a), BitStep(g, b), n - 1);
      BitStepInjective(g, a, b);
    }
  }

  lemma {:induction false} CrcInjectiveInSeed(g: nat, a: nat, b: nat, data: seq<byte>)
    requires U64 / 2 <= g < U64 && a < U64 && b < U64
    requires Crc(g, a, data) == Crc(g, b, data)
    ensures a == b
    decreases |data|
  {
    if data != [] {
      ByteStepBound(g, a, data[0]);
      ByteStepBound(g, b, data[0]);
      CrcInjectiveInSeed(g, ByteStep(g, a, data[0]), ByteStep(g, b, data[0]), data[1..]);
      BitStepsInjective(g, Xor(a, data[0]), Xor(b, data[0]), 8);
      XorComm(a, data[0]);
      XorComm(b, data[0]);
      XorCancel(data[0], a, b);
    }
  }

  lemma CrcOfBitsInjective(g: nat, c: nat, a: seq<bool>, b: seq<bool>)
    requires U64 / 2 <= g < U64 && c < U64
    requires |a| == |b| <= 64
    requires CrcOfBits(g, c, a) == CrcOfBits(g, c, b)
    ensures a == b
  {
    hide CrcOfBits, Xor, BitSteps;
    Pow2Monotone(|a|, 64);
    Pow2Of64();
    GroupFeed(g, c, a);
    GroupFeed(g, c, b);
    XorBound(c, NatOf(a), 64);
    XorBound(c, NatOf(b), 64);
    BitStepsInjective(g, Xor(c, NatOf(a)), Xor(c, NatOf(b)), |a|);
    XorCancel(c, NatOf(a), NatOf(b));
    NatOfInjective(a, b);
  }

  /** Two messages of equal length that differ only inside one window of at most eight bytes
    * have different checksums, whatever surrounds the window.
    */
  lemma BurstDetected(g: nat, seed: nat, pre: seq<byte>, w: seq<byte>, w': seq<byte>, post: seq<byte>)
    requires U64 / 2 <= g < U64 && seed < U64
    requires |w| == |w'| <= 8
    requires w != w'
    ensures Crc(g, seed, pre + w + post) != Crc(g, seed, pre + w' + post)
  {
    hide Crc, CrcOfBits, PackBits;
    if Crc(g, seed, pre + w + post) == Crc(g, seed, pre + w' + post) {
      var c := Crc(g, seed, pre);
      CrcAppend(g, seed, pre + w, post);
      CrcAppend(g, seed, pre, w);
      CrcAppend(g, seed, pre + w', post);
      CrcAppend(g, seed, pre, w');
      CrcBound(g, seed, pre);
      CrcBound(g, c, w);
      CrcBound(g, c, w');
      CrcInjectiveInSeed(g, Crc(g, c, w), Crc(g, c, w'), post);
      BytesAreBits(g, c, w);
      BytesAreBits(g, c, w');
      CrcOfBitsInjective(g, c, PackBits(w), PackBits(w'));
      PackInjective(w, w');
    }
  }
}
