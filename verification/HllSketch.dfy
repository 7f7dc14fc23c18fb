/** What HyperLogLog commands compute, register by register: a sketch depends only on the set of
  * elements added, merging is the union of those sets, and counting several keys is counting their
  * merge.
  */
module HllSketch {
  import opened Bytes
  import opened Values
  import opened Hll

  // ---------------------------------------------------------------------------
  // Sketches of sets
  // ---------------------------------------------------------------------------

  type Registers = seq<bv8>

  function Larger(a: bv8, b: bv8): bv8 {
    if b > a then b else a
  }

  function Zeros(): (r: Registers)
    ensures |r| == REGISTERS && forall k :: 0 <= k < REGISTERS ==> r[k] == 0
  {
    seq(REGISTERS, _ => 0)
  }

  function Raise(r: Registers, bucket: nat, rank: bv8): Registers
    requires bucket < |r|
  {
    r[bucket := Larger(r[bucket], rank)]
  }

  function Join(r: Registers, q: Registers): (j: Registers)
    requires |r| == |q|
    ensures |j| == |r| && forall k :: 0 <= k < |r| ==> j[k] == Larger(r[k], q[k])
  {
    seq(|r|, k requires 0 <= k < |r| => Larger(r[k], q[k]))
  }

  function AddAll(r: Registers, hash: Hash, elements: seq<bytes>): (r': Registers)
    requires |r| == REGISTERS
    ensures |r'| == REGISTERS
  {
    if elements == [] then r
    else
      var e := elements[|elements| - 1];
      Raise(AddAll(r, hash, elements[..|elements| - 1]), hash(e).0, hash(e).1)
  }

  /** The largest rank of the elements that fall into a bucket, or zero. */
  ghost predicate IsPeak(v: bv8, hash: Hash, elements: set<bytes>, k: nat) {
    && (forall e :: e in elements && hash(e).0 == k ==> hash(e).1 <= v)
    && (v == 0 || exists e :: e in elements && hash(e).0 == k && hash(e).1 == v)
  }

  /** The registers of a set of elements, defined without reference to any order of adding. */
  ghost predicate IsSketch(r: Registers, hash: Hash, elements: set<bytes>) {
    |r| == REGISTERS && forall k :: 0 <= k < REGISTERS ==> IsPeak(r[k], hash, elements, k)
  }

  lemma SketchUnique(r: Registers, q: Registers, hash: Hash, elements: set<bytes>)
    requires IsSketch(r, hash, elements) && IsSketch(q, hash, elements)
    ensures r == q
  {
  }

  /** Merging the sketches of two sets gives the sketch of their union. */
  lemma JoinIsSketchOfUnion(r: Registers, q: Registers, hash: Hash, s: set<bytes>, t: set<bytes>)
    requires IsSketch(r, hash, s) && IsSketch(q, hash, t)
    ensures IsSketch(Join(r, q), hash, s + t)
  {
  }

  lemma RaiseIsSketch(r: Registers, hash: Hash, s: set<bytes>, e: bytes)
    requires IsSketch(r, hash, s)
    ensures IsSketch(Raise(r, hash(e).0, hash(e).1), hash, s + {e})
  {
    var r' := Raise(r, hash(e).0, hash(e).1);
    forall k | 0 <= k < REGISTERS
      ensures IsPeak(r'[k], hash, s + {e}, k)
    {
      PeakAfterAdding(r[k], hash, s, e, k);
    }
  }

  lemma PeakAfterAdding(v: bv8, hash: Hash, s: set<bytes>, e: bytes, k: nat)
    requires IsPeak(v, hash, s, k)
    ensures IsPeak(if hash(e).0 == k then Larger(v, hash(e).1) else v, hash, s + {e}, k)
  {
    var w := if hash(e).0 == k then Larger(v, hash(e).1) else v;
    if w != 0 {
      if w == v {
        var x :| x in s && hash(x).0 == k && hash(x).1 == v;
        assert x in s + {e};
      } else {
        assert e in s + {e};
      }
    }
  }

  function SetOf(elements: seq<bytes>): set<bytes> {
    set e | e in elements
  }

  /** Adding elements to a sketch of `s` sketches `s` plus those elements. */
  lemma {:induction false} AddAllIsSketch(r: Registers, hash: Hash, s: set<bytes>, elements: seq<bytes>)
    requires IsSketch(r, hash, s)
    ensures IsSketch(AddAll(r, hash, elements), hash, s + SetOf(elements))
  {
    if elements == [] {
      assert s + SetOf(elements) == s;
    } else {
      var front, e := elements[..|elements| - 1], elements[|elements| - 1];
      AddAllIsSketch(r, hash, s, front);
      RaiseIsSketch(AddAll(r, hash, front), hash, s + SetOf(front), e);
      assert elements == front + [e];
      assert s + SetOf(elements) == s + SetOf(front) + {e};
    }
  }

  lemma ZerosIsSketch(hash: Hash)
    ensures IsSketch(Zeros(), hash, {})
  {
  }

  /** Order and repetition of additions do not matter: only the set does, whatever was there before. */
  lemma AddingIsOrderIndependent(r: Registers, hash: Hash, es: seq<bytes>, fs: seq<bytes>)
    requires |r| == REGISTERS && SetOf(es) == SetOf(fs)
    ensures AddAll(r, hash, es) == AddAll(r, hash, fs)
  {
    ZerosIsSketch(hash);
    AddAllIsSketch(Zeros(), hash, {}, es);
    AddAllIsSketch(Zeros(), hash, {}, fs);
    SketchUnique(AddAll(Zeros(), hash, es), AddAll(Zeros(), hash, fs), hash, {} + SetOf(es));
    AddAllIsJoin(r, hash, es);
    AddAllIsJoin(r, hash, fs);
  }

  lemma {:induction false} AddAllIsJoin(r: Registers, hash: Hash, es: seq<bytes>)
    requires |r| == REGISTERS
    ensures AddAll(r, hash, es) == Join(r, AddAll(Zeros(), hash, es))
  {
    if es != [] {
      AddAllIsJoin(r, hash, es[..|es| - 1]);
    }
  }

  // ---------------------------------------------------------------------------
  // Blobs
  // ---------------------------------------------------------------------------

  predicate IsHll(data: Blob) {
    |data| == DENSE_BYTES && data[..4] == MAGIC && data[4] == 0
  }

  function RegistersOf(data: Blob): (r: Registers)
    requires |data| == DENSE_BYTES
    ensures |r| == REGISTERS
    ensures forall k :: 0 <= k < REGISTERS ==> r[k] == Read(data[HEADER_BYTES..], k)
  {
    seq(REGISTERS, k requires 0 <= k < REGISTERS => Read(data[HEADER_BYTES..], k))
  }

  function EmptyDense(): (data: Blob)
    ensures |data| == DENSE_BYTES
  {
    seq(DENSE_BYTES, k => if 0 <= k < 4 then MAGIC[k] else 0)
  }

  lemma EmptyDenseIsEmpty()
    ensures IsHll(EmptyDense()) && RegistersOf(EmptyDense()) == Zeros()
  {
  }

  lemma WriteSetsRegister(data: Blob, idx: nat, v: bv8, data': Blob)
    requires |data| == |data'| == DENSE_BYTES && idx < REGISTERS && v <= 63
    requires data'[HEADER_BYTES..] == Write(data[HEADER_BYTES..], idx, v)
    ensures RegistersOf(data') == RegistersOf(data)[idx := v]
  {
    forall k | 0 <= k < REGISTERS
      ensures RegistersOf(data')[k] == RegistersOf(data)[idx := v][k]
    {
      ReadAfterWrite(data[HEADER_BYTES..], idx, v, k);
    }
  }

  // ---------------------------------------------------------------------------
  // Changing a blob in place
  // ---------------------------------------------------------------------------

  /** The header after a change: the cached count is marked stale, the rest is as before. */
  ghost predicate HeaderAfter(before: Blob, after: Blob, changed: bool) {
    && |before| == |after| == DENSE_BYTES
    && after[..15] == before[..15]
    && after[15] == if changed then before[15] | 0x80 else before[15]
  }

  method WriteRegister(buf: array<bv8>, idx: nat, v: bv8)
    requires buf.Length == DENSE_BYTES && idx < REGISTERS && v <= 63
    modifies buf
    ensures buf[..HEADER_BYTES] == old(buf[..HEADER_BYTES])
    ensures RegistersOf(buf[..]) == RegistersOf(old(buf[..]))[idx := v]
  {
    hide RegistersOf, PatchLo, PatchHi, Read;
    ShiftIsShift(idx);
    ghost var before := buf[..];
    var k, s := FirstByte(idx), Shift(idx);
    assert k < BODY_BYTES;
    var lo := buf[HEADER_BYTES + k];
    var hi := if k + 1 < BODY_BYTES then buf[HEADER_BYTES + k + 1] else 0;
    buf[HEADER_BYTES + k] := PatchLo(lo, hi, s, v);
    if k + 1 < BODY_BYTES {
      buf[HEADER_BYTES + k + 1] := PatchHi(lo, hi, s, v);
    }
    assert buf[..][HEADER_BYTES..] == Write(before[HEADER_BYTES..], idx, v);
    WriteSetsRegister(before, idx, v, buf[..]);
  }

  /** The cached count's top bit; registers are elsewhere. */
  method InvalidateCache(buf: array<bv8>)
    requires buf.Length == DENSE_BYTES
    modifies buf
    ensures buf[..] == old(buf[..])[15 := old(buf[15]) | 0x80]
  {
    buf[15] := buf[15] | 0x80;
  }

  /** The state after a call that may change registers: still a sketch blob, with these registers. */
  ghost predicate Became(before: Blob, after: Blob, r: Registers) {
    && IsHll(before) && IsHll(after)
    && RegistersOf(after) == r
    && HeaderAfter(before, after, r != RegistersOf(before))
  }

  lemma BecameSame(data: Blob)
    requires IsHll(data)
    ensures Became(data, data, RegistersOf(data))
  {
  }

  lemma BecameChanged(before: Blob, middle: Blob, after: Blob, r: Registers)
    requires IsHll(before) && |middle| == |after| == DENSE_BYTES
    requires middle[..HEADER_BYTES] == before[..HEADER_BYTES] && RegistersOf(middle) == r != RegistersOf(before)
    requires after == middle[15 := middle[15] | 0x80]
    ensures Became(before, after, r)
  {
  }

  /** One element: its register is raised, and the reply says whether that changed anything. */
  method Add(buf: array<bv8>, element: bytes, hash: Hash) returns (changed: Option<bool>)
    modifies buf
    ensures changed.Some? <==> IsHll(old(buf[..]))
    ensures changed.None? ==> buf[..] == old(buf[..])
    ensures changed.Some? ==>
      var r := Raise(RegistersOf(old(buf[..])), hash(element).0, hash(element).1);
      Became(old(buf[..]), buf[..], r) && (changed.value <==> r != RegistersOf(old(buf[..])))
  {
    if !IsHll(buf[..]) {
      return None;
    }
    ghost var before := buf[..];
    var (bucket, rank) := hash(element);
    var current := Read(buf[HEADER_BYTES..], bucket);
    assert buf[..][HEADER_BYTES..] == buf[HEADER_BYTES..];
    assert RegistersOf(before)[bucket] == current;
    hide Read;
    if rank > current {
      WriteRegister(buf, bucket, rank);
      ghost var middle := buf[..];
      InvalidateCache(buf);
      assert RegistersOf(before)[bucket := rank][bucket] != RegistersOf(before)[bucket];
      assert middle[..HEADER_BYTES] == before[..HEADER_BYTES];
      BecameChanged(before, middle, buf[..], RegistersOf(before)[bucket := rank]);
      changed := Some(true);
    } else {
      BecameSame(before);
      assert RegistersOf(before)[bucket := current] == RegistersOf(before);
      changed := Some(false);
    }
  }

  /** Registers of which the first `n` have been joined with those of `q`. */
  ghost function JoinedTo(r: Registers, q: Registers, n: nat): Registers
    requires |r| == |q| == REGISTERS && n <= REGISTERS
  {
    Join(r, q)[..n] + r[n..]
  }

  lemma JoinStart(r: Registers, q: Registers)
    requires |r| == |q| == REGISTERS
    ensures JoinedTo(r, q, 0) == r && JoinedTo(r, q, REGISTERS) == Join(r, q)
  {
  }

  lemma JoinStep(r: Registers, q: Registers, n: nat)
    requires |r| == |q| == REGISTERS && n < REGISTERS
    ensures |JoinedTo(r, q, n)| == REGISTERS && JoinedTo(r, q, n)[n] == r[n]
    ensures JoinedTo(r, q, n + 1) == if q[n] > r[n] then JoinedTo(r, q, n)[n := q[n]] else JoinedTo(r, q, n)
  {
  }

  /** Merging one blob into another joins their registers. */
  method MergeInto(dest: array<bv8>, src: Blob) returns (ok: bool)
    modifies dest
    ensures ok <==> IsHll(old(dest[..])) && IsHll(src)
    ensures !ok ==> dest[..] == old(dest[..])
    ensures ok ==> Became(old(dest[..]), dest[..], Join(RegistersOf(old(dest[..])), RegistersOf(src)))
  {
    if !IsHll(dest[..]) || !IsHll(src) {
      return false;
    }
    ok := true;
    ghost var before := dest[..];
    ghost var r := Join(RegistersOf(before), RegistersOf(src));
    var changed := JoinRegisters(dest, src);
    hide RegistersOf, Join, IsHll, Became;
    if changed {
      ghost var middle := dest[..];
      InvalidateCache(dest);
      assert middle[..HEADER_BYTES] == before[..HEADER_BYTES];
      BecameChanged(before, middle, dest[..], r);
    } else {
      assert dest[..][..HEADER_BYTES] == before[..HEADER_BYTES];
      SameHeader(before, dest[..], r);
    }
  }

  /** The loop over all registers. */
  method JoinRegisters(dest: array<bv8>, src: Blob) returns (changed: bool)
    requires dest.Length == |src| == DENSE_BYTES
    modifies dest
    ensures dest[..HEADER_BYTES] == old(dest[..HEADER_BYTES])
    ensures RegistersOf(dest[..]) == Join(RegistersOf(old(dest[..])), RegistersOf(src))
    ensures changed <==> RegistersOf(dest[..]) != RegistersOf(old(dest[..]))
  {
    ghost var r, q := RegistersOf(dest[..]), RegistersOf(src);
    hide Read, RegistersOf, JoinedTo, Join;
    changed := false;
    JoinStart(r, q);
    for i := 0 to REGISTERS
      invariant dest[..HEADER_BYTES] == old(dest[..HEADER_BYTES])
      invariant RegistersOf(dest[..]) == JoinedTo(r, q, i)
      invariant changed <==> JoinedTo(r, q, i) != r
    {
      JoinStep(r, q, i);
      JoinChange(r, q, i);
      var raised := RaiseFrom(dest, src, i);
      changed := changed || raised;
    }
  }

  /** One register: raised if the source's is larger. */
  method RaiseFrom(dest: array<bv8>, src: Blob, i: nat) returns (raised: bool)
    requires dest.Length == |src| == DENSE_BYTES && i < REGISTERS
    modifies dest
    ensures dest[..HEADER_BYTES] == old(dest[..HEADER_BYTES])
    ensures raised <==> RegistersOf(src)[i] > RegistersOf(old(dest[..]))[i]
    ensures RegistersOf(dest[..]) ==
      if raised then RegistersOf(old(dest[..]))[i := RegistersOf(src)[i]] else RegistersOf(old(dest[..]))
  {
    assert dest[..][HEADER_BYTES..] == dest[HEADER_BYTES..];
    hide Read, RegistersOf;
    var s, d := Read(src[HEADER_BYTES..], i), Read(dest[HEADER_BYTES..], i);
    ReadIsSmall(src[HEADER_BYTES..], i);
    raised := s > d;
    if raised {
      WriteRegister(dest, i, s);
    }
  }

  lemma SameHeader(before: Blob, after: Blob, r: Registers)
    requires IsHll(before) && |after| == DENSE_BYTES && after[..HEADER_BYTES] == before[..HEADER_BYTES]
    requires RegistersOf(after) == RegistersOf(before) == r
    ensures Became(before, after, r)
  {
  }

  /** Once a register has been raised the registers stay different. */
  lemma JoinChange(r: Registers, q: Registers, n: nat)
    requires |r| == |q| == REGISTERS && n < REGISTERS
    ensures JoinedTo(r, q, n + 1) != r <==> JoinedTo(r, q, n) != r || q[n] > r[n]
  {
  }
}
