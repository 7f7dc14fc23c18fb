/** Bytes, binary notation and the result types shared by the model. */
module Bytes {

  type byte = x: int | 0 <= x < 256

  const U64: nat := 0x1_0000_0000_0000_0000

  datatype Option<+T> = None | Some(value: T)

  function Pow2(k: nat): (p: nat)
    ensures p > 0
  {
    if k == 0 then 1 else 2 * Pow2(k - 1)
  }

  lemma Pow2Of8()
    ensures Pow2(8) == 256
  {
  }

  lemma Pow2Of64()
    ensures Pow2(63) == 0x8000_0000_0000_0000
    ensures Pow2(64) == 0x1_0000_0000_0000_0000
  {
    Pow2Of8();
    assert Pow2(16) == 0x1_0000;
    assert Pow2(24) == 0x100_0000;
    assert Pow2(32) == 0x1_0000_0000;
    assert Pow2(40) == 0x100_0000_0000;
    assert Pow2(48) == 0x1_0000_0000_0000;
    assert Pow2(56) == 0x100_0000_0000_0000;
  }

  // ---------------------------------------------------------------------------
  // Binary notation, least significant bit first
  // ---------------------------------------------------------------------------

  function BitsOf(n: nat, width: nat): (bits: seq<bool>)
    ensures |bits| == width
  {
    if width == 0 then [] else [n % 2 == 1] + BitsOf(n / 2, width - 1)
  }

  function Unit(bit: bool): nat {
    if bit then 1 else 0
  }

  function NatOf(bits: seq<bool>): (n: nat)
    ensures n < Pow2(|bits|)
  {
    if bits == [] then 0 else Unit(bits[0]) + 2 * NatOf(bits[1..])
  }

  lemma {:induction false} NatOfBitsOf(n: nat, width: nat)
    requires n < Pow2(width)
    ensures NatOf(BitsOf(n, width)) == n
  {
    if width > 0 {
      NatOfBitsOf(n / 2, width - 1);
      assert BitsOf(n, width)[1..] == BitsOf(n / 2, width - 1);
    }
  }

  lemma {:induction false} NatOfInjective(a: seq<bool>, b: seq<bool>)
    requires |a| == |b| && NatOf(a) == NatOf(b)
    ensures a == b
  {
    if a != [] {
      NatOfInjective(a[1..], b[1..]);
      assert a == [a[0]] + a[1..] && b == [b[0]] + b[1..];
    }
  }

  // ---------------------------------------------------------------------------
  // Byte strings
  // ---------------------------------------------------------------------------

  /** The bits of a byte string, each byte least significant bit first. */
  function PackBits(data: seq<byte>): (bits: seq<bool>)
    ensures |bits| == 8 * |data|
  {
    if data == [] then [] else BitsOf(data[0], 8) + PackBits(data[1..])
  }

  lemma {:induction false} PackInjective(a: seq<byte>, b: seq<byte>)
    requires |a| == |b|
    requires PackBits(a) == PackBits(b)
    ensures a == b
  {
    if a != [] {
      assert BitsOf(a[0], 8) == PackBits(a)[..8] == PackBits(b)[..8] == BitsOf(b[0], 8);
      Pow2Of8();
      NatOfBitsOf(a[0], 8);
      NatOfBitsOf(b[0], 8);
      assert PackBits(a[1..]) == PackBits(a)[8..] == PackBits(b)[8..] == PackBits(b[1..]);
      PackInjective(a[1..], b[1..]);
    }
  }

  // ---------------------------------------------------------------------------
  // Fixed-width integers as bytes
  // ---------------------------------------------------------------------------

  function Pow256(k: nat): (p: nat)
    ensures p > 0
  {
    if k == 0 then 1 else 256 * Pow256(k - 1)
  }

  lemma Pow256Values()
    ensures Pow256(1) == 0x100 && Pow256(2) == 0x1_0000 && Pow256(3) == 0x100_0000
    ensures Pow256(4) == 0x1_0000_0000 && Pow256(8) == 0x1_0000_0000_0000_0000
  {
  }

  /** Little-endian, truncated to k bytes. */
  function LeBytes(n: nat, k: nat): (b: seq<byte>)
    ensures |b| == k
  {
    if k == 0 then [] else [n % 256] + LeBytes(n / 256, k - 1)
  }

  function FromLe(b: seq<byte>): (n: nat)
    ensures n < Pow256(|b|)
  {
    if b == [] then 0 else b[0] + 256 * FromLe(b[1..])
  }

  lemma {:induction false} LeRoundTrip(n: nat, k: nat)
    requires n < Pow256(k)
    ensures FromLe(LeBytes(n, k)) == n
  {
    if k > 0 {
      LeRoundTrip(n / 256, k - 1);
      assert LeBytes(n, k)[1..] == LeBytes(n / 256, k - 1);
    }
  }

  /** Big-endian, truncated to k bytes. */
  function BeBytes(n: nat, k: nat): (b: seq<byte>)
    ensures |b| == k
  {
    if k == 0 then [] else BeBytes(n / 256, k - 1) + [n % 256]
  }

  function FromBe(b: seq<byte>): nat {
    if b == [] then 0 else FromBe(b[..|b| - 1]) * 256 + b[|b| - 1]
  }

  lemma {:induction false} BeRoundTrip(n: nat, k: nat)
    requires n < Pow256(k)
    ensures FromBe(BeBytes(n, k)) == n
  {
    if k > 0 {
      BeRoundTrip(n / 256, k - 1);
      assert BeBytes(n, k)[..k - 1] == BeBytes(n / 256, k - 1);
    }
  }

  /** Two's complement in k bytes: the low k bytes of n, and the reverse reading. */
  function Wrap(n: int, k: nat): (u: nat)
    ensures u < Pow256(k)
  {
    n % Pow256(k)
  }

  function Unwrap(u: nat, k: nat): int {
    if 2 * u < Pow256(k) then u else u - Pow256(k)
  }

  predicate FitsSigned(n: int, k: nat) {
    0 - Pow256(k) <= 2 * n < Pow256(k)
  }

  lemma UnwrapWrap(n: int, k: nat)
    requires FitsSigned(n, k)
    ensures Unwrap(Wrap(n, k), k) == n
  {
    var p := Pow256(k);
    if n >= 0 {
      SmallModulus(n, p);
    } else {
      SmallModulus(n + p, p);
      assert (n + p) % p == n % p by { ModulusShift(n, p); }
    }
  }

  lemma SmallModulus(n: nat, p: nat)
    requires n < p
    ensures n % p == n
  {
  }

  lemma ModulusShift(n: int, p: nat)
    requires p > 0
    ensures (n + p) % p == n % p
  {
    var q, r := n / p, n % p;
    assert n + p == p * (q + 1) + r;
    EuclidUnique(n + p, p, q + 1, r);
  }

  lemma EuclidUnique(n: int, p: nat, q: int, r: nat)
    requires r < p && n == p * q + r
    ensures n % p == r
  {
    var q', r' := n / p, n % p;
    assert p * (q - q') == r' - r;
    ProductBelow(p, q - q');
  }

  lemma ProductBelow(p: int, d: int)
    requires p >= 0
    ensures d >= 1 ==> p * d >= p
    ensures d <= -1 ==> p * d <= -p
  {
  }
}
