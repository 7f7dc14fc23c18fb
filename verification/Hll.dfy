/** HyperLogLog: 16384 six-bit registers packed into 12288 bytes behind a 16-byte header.
  *
  * The hash is an arbitrary function from elements to a bucket and a rank, and the estimator an
  * arbitrary function of the registers.
  */
module Hll {
  import opened Values

  const REGISTERS: nat := 16384
  const BODY_BYTES: nat := 12288
  const HEADER_BYTES: nat := 16
  const DENSE_BYTES: nat := 12304

  /** The four magic bytes "HYLL". */
  const MAGIC: seq<bv8> := [0x48, 0x59, 0x4c, 0x4c]

  type Blob = seq<bv8>

  type Bucket = n: nat | n < 16384

  type Rank = v: bv8 | v <= 51

  type Hash = bytes -> (Bucket, Rank)

  // ---------------------------------------------------------------------------
  // Two bytes and a shift
  // ---------------------------------------------------------------------------

  predicate IsShift(s: nat) {
    s == 0 || s == 2 || s == 4 || s == 6
  }

  function ShiftRight(x: bv16, s: nat): bv16
    requires IsShift(s)
  {
    if s == 0 then x else if s == 2 then x >> 2 else if s == 4 then x >> 4 else x >> 6
  }

  function ShiftLeft(x: bv16, s: nat): bv16
    requires IsShift(s)
  {
    if s == 0 then x else if s == 2 then x << 2 else if s == 4 then x << 4 else x << 6
  }

  function Combined(lo: bv8, hi: bv8): bv16 {
    (lo as bv16) | ((hi as bv16) << 8)
  }

  /** The six bits that start at bit `s` of two bytes. */
  function Field(lo: bv8, hi: bv8, s: nat): bv8
    requires IsShift(s)
  {
    (ShiftRight(Combined(lo, hi), s) & 0x3f) as bv8
  }

  function PatchedPair(lo: bv8, hi: bv8, s: nat, v: bv8): bv16
    requires IsShift(s)
  {
    (Combined(lo, hi) & !ShiftLeft(0x3f, s)) | ShiftLeft((v & 0x3f) as bv16, s)
  }

  function PatchLo(lo: bv8, hi: bv8, s: nat, v: bv8): bv8
    requires IsShift(s)
  {
    (PatchedPair(lo, hi, s, v) & 0xff) as bv8
  }

  function PatchHi(lo: bv8, hi: bv8, s: nat, v: bv8): bv8
    requires IsShift(s)
  {
    ((PatchedPair(lo, hi, s, v) >> 8) & 0xff) as bv8
  }

  lemma PatchReadsBack(lo: bv8, hi: bv8, s: nat, v: bv8)
    requires IsShift(s) && v <= 63
    ensures Field(PatchLo(lo, hi, s, v), PatchHi(lo, hi, s, v), s) == v
  {
  }

  /** Fields at shifts 0 and 2 lie in their first byte. */
  lemma FieldInLow(lo: bv8, hi: bv8, hi': bv8, s: nat)
    requires s == 0 || s == 2
    ensures Field(lo, hi, s) == Field(lo, hi', s)
  {
  }

  /** Patching at shifts 0 and 2 leaves the second byte alone. */
  lemma PatchKeepsHigh(lo: bv8, hi: bv8, s: nat, v: bv8)
    requires s == 0 || s == 2
    ensures PatchHi(lo, hi, s, v) == hi
  {
  }

  /** Patching keeps the neighbours that share the first byte. */
  lemma PatchKeepsLowNeighbour(b: bv8, lo: bv8, hi: bv8, v: bv8)
    ensures Field(PatchLo(lo, hi, 6, v), 0, 0) == Field(lo, 0, 0)
    ensures Field(b, PatchLo(lo, hi, 4, v), 6) == Field(b, lo, 6)
    ensures Field(b, PatchLo(lo, hi, 2, v), 4) == Field(b, lo, 4)
  {
  }

  /** Patching keeps the neighbours that share the last byte. */
  lemma PatchKeepsHighNeighbour(b: bv8, lo: bv8, hi: bv8, v: bv8)
    ensures Field(PatchLo(lo, hi, 0, v), hi, 6) == Field(lo, hi, 6)
    ensures Field(PatchHi(lo, hi, 6, v), b, 4) == Field(hi, b, 4)
    ensures Field(PatchHi(lo, hi, 4, v), 0, 2) == Field(hi, 0, 2)
  {
  }

  // ---------------------------------------------------------------------------
  // Packed registers
  // ---------------------------------------------------------------------------

  function FirstByte(idx: nat): nat {
    idx * 6 / 8
  }

  function Shift(idx: nat): nat {
    idx * 6 % 8
  }

  /** Four registers occupy three bytes. */
  lemma Layout(q: nat, r: nat)
    requires r < 4
    ensures FirstByte(4 * q + r) == 3 * q + (if r <= 1 then 0 else r - 1)
    ensures Shift(4 * q + r) == (if r == 0 then 0 else 8 - 2 * r)
    ensures IsShift(Shift(4 * q + r))
  {
  }

  lemma ShiftIsShift(idx: nat)
    ensures IsShift(Shift(idx))
  {
  }

  function ByteAt(body: Blob, k: nat): bv8 {
    if k < |body| then body[k] else 0
  }

  function Read(body: Blob, idx: nat): bv8 {
    ShiftIsShift(idx);
    Field(ByteAt(body, FirstByte(idx)), ByteAt(body, FirstByte(idx) + 1), Shift(idx))
  }

  function Put(body: Blob, k: nat, b: bv8): Blob {
    if k < |body| then body[k := b] else body
  }

  function Write(body: Blob, idx: nat, v: bv8): Blob {
    ShiftIsShift(idx);
    var k, s := FirstByte(idx), Shift(idx);
    var lo, hi := ByteAt(body, k), ByteAt(body, k + 1);
    Put(Put(body, k, PatchLo(lo, hi, s, v)), k + 1, PatchHi(lo, hi, s, v))
  }

  /** A register as a function of the three bytes of its group. */
  function InGroup(b0: bv8, b1: bv8, b2: bv8, r: nat): bv8
    requires r < 4
  {
    if r == 0 then Field(b0, b1, 0) else if r == 1 then Field(b0, b1, 6)
    else if r == 2 then Field(b1, b2, 4) else Field(b2, 0, 2)
  }

  lemma ReadByGroup(body: Blob, q: nat, r: nat)
    requires |body| == BODY_BYTES && q < 4096 && r < 4
    ensures Read(body, 4 * q + r) == InGroup(body[3 * q], body[3 * q + 1], body[3 * q + 2], r)
  {
    Layout(q, r);
    FieldInLow(body[3 * q + 2], ByteAt(body, 3 * q + 3), 0, 2);
    hide Field, FirstByte, Shift;
  }

  /** Patching one register of a group changes that register and no other. */
  lemma PatchInGroup(b0: bv8, b1: bv8, b2: bv8, b3: bv8, r: nat, t: nat, v: bv8)
    requires r < 4 && t < 4 && v <= 63
    ensures
      var c0 := if r == 0 then PatchLo(b0, b1, 0, v) else if r == 1 then PatchLo(b0, b1, 6, v) else b0;
      var c1 := if r == 1 then PatchHi(b0, b1, 6, v) else if r == 2 then PatchLo(b1, b2, 4, v) else b1;
      var c2 := if r == 2 then PatchHi(b1, b2, 4, v) else if r == 3 then PatchLo(b2, b3, 2, v) else b2;
      InGroup(c0, c1, c2, t) == if t == r then v else InGroup(b0, b1, b2, t)
  {
    hide Field, PatchLo, PatchHi;
    if r == 0 {
      PatchReadsBack(b0, b1, 0, v);
      PatchKeepsHigh(b0, b1, 0, v);
      PatchKeepsHighNeighbour(b2, b0, b1, v);
    } else if r == 1 {
      PatchReadsBack(b0, b1, 6, v);
      PatchKeepsLowNeighbour(0, b0, b1, v);
      PatchKeepsHighNeighbour(b2, b0, b1, v);
      FieldInLow(PatchLo(b0, b1, 6, v), PatchHi(b0, b1, 6, v), 0, 0);
      FieldInLow(b0, b1, 0, 0);
    } else if r == 2 {
      PatchReadsBack(b1, b2, 4, v);
      PatchKeepsLowNeighbour(b0, b1, b2, v);
      PatchKeepsHighNeighbour(0, b1, b2, v);
      FieldInLow(b0, b1, PatchLo(b1, b2, 4, v), 0);
    } else {
      PatchReadsBack(b2, b3, 2, v);
      PatchKeepsLowNeighbour(b1, b2, b3, v);
      FieldInLow(PatchLo(b2, b3, 2, v), PatchHi(b2, b3, 2, v), 0, 2);
    }
  }

  /** The bytes a write leaves, by group. */
  lemma WriteBytes(body: Blob, q: nat, r: nat, v: bv8)
    requires |body| == BODY_BYTES && q < 4096 && r < 4
    ensures
      var body' := Write(body, 4 * q + r, v);
      var b0, b1, b2, b3 := body[3 * q], body[3 * q + 1], body[3 * q + 2], ByteAt(body, 3 * q + 3);
      && |body'| == |body|
      && body'[3 * q] == (if r == 0 then PatchLo(b0, b1, 0, v) else if r == 1 then PatchLo(b0, b1, 6, v) else b0)
      && body'[3 * q + 1] == (if r == 1 then PatchHi(b0, b1, 6, v) else if r == 2 then PatchLo(b1, b2, 4, v) else b1)
      && body'[3 * q + 2] == (if r == 2 then PatchHi(b1, b2, 4, v) else if r == 3 then PatchLo(b2, b3, 2, v) else b2)
      && (forall k :: 0 <= k < |body| && k / 3 != q ==> body'[k] == body[k])
  {
    Layout(q, r);
    PatchKeepsHigh(body[3 * q], body[3 * q + 1], 0, v);
    PatchKeepsHigh(body[3 * q + 2], ByteAt(body, 3 * q + 3), 2, v);
    hide PatchLo, PatchHi;
  }

  lemma SameGroup(body: Blob, q: nat, r: nat, v: bv8, t: nat)
    requires |body| == BODY_BYTES && q < 4096 && r < 4 && t < 4 && v <= 63
    ensures Read(Write(body, 4 * q + r, v), 4 * q + t) == if t == r then v else Read(body, 4 * q + t)
  {
    hide Write, Read, InGroup, PatchLo, PatchHi;
    WriteBytes(body, q, r, v);
    ReadByGroup(body, q, t);
    ReadByGroup(Write(body, 4 * q + r, v), q, t);
    PatchInGroup(body[3 * q], body[3 * q + 1], body[3 * q + 2], ByteAt(body, 3 * q + 3), r, t, v);
  }

  lemma OtherGroup(body: Blob, q: nat, r: nat, v: bv8, p: nat, t: nat)
    requires |body| == BODY_BYTES && q < 4096 && r < 4 && p < 4096 && t < 4 && p != q
    ensures Read(Write(body, 4 * q + r, v), 4 * p + t) == Read(body, 4 * p + t)
  {
    hide Write, Read, InGroup, PatchLo, PatchHi;
    WriteBytes(body, q, r, v);
    ReadByGroup(body, p, t);
    ReadByGroup(Write(body, 4 * q + r, v), p, t);
    assert (3 * p) / 3 == p && (3 * p + 1) / 3 == p && (3 * p + 2) / 3 == p;
  }

  /** Reading after writing: the register written has the new value, every other its old one,
    * although registers straddle bytes.
    */
  lemma ReadAfterWrite(body: Blob, idx: nat, v: bv8, other: nat)
    requires |body| == BODY_BYTES && idx < REGISTERS && other < REGISTERS && v <= 63
    ensures |Write(body, idx, v)| == BODY_BYTES
    ensures Read(Write(body, idx, v), other) == if other == idx then v else Read(body, other)
  {
    hide Read, InGroup, PatchLo, PatchHi;
    var q, r, p, t := idx / 4, idx % 4, other / 4, other % 4;
    assert idx == 4 * q + r && other == 4 * p + t;
    if p == q {
      SameGroup(body, q, r, v, t);
    } else {
      OtherGroup(body, q, r, v, p, t);
    }
  }

  lemma ReadIsSmall(body: Blob, idx: nat)
    ensures Read(body, idx) <= 63
  {
  }
}
