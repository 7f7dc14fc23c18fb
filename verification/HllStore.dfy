/** PFADD, PFCOUNT and PFMERGE over stored values.
  *
  * The keys of PFCOUNT and PFMERGE are loaded one after the other; `loads` lists what each load
  * returned, so that other clients may write in between.
  */
module HllStore {
  import opened Bytes
  import opened Values
  import opened Hll
  import opened HllSketch

  datatype Slot = Text(data: Blob) | OtherKind

  /** What a load returned for each key. */
  type Loads = seq<Option<Slot>>

  datatype Outcome<+T> = Ok(value: T) | Err(error: Error)

  /** The registers a key contributes: none if it is missing. */
  function Contribution(read: Option<Slot>): (r: Outcome<Registers>)
    ensures r.Ok? ==> |r.value| == REGISTERS
  {
    if read.None? then Ok(Zeros())
    else match read.value
      case Text(data) => if IsHll(data) then Ok(RegistersOf(data)) else Err(Parse)
      case OtherKind => Err(WrongType)
  }

  /** The register-wise maximum over keys, or the first key's error. */
  function UnionOf(loads: Loads): (r: Outcome<Registers>)
    ensures r.Ok? ==> |r.value| == REGISTERS
  {
    if loads == [] then Ok(Zeros())
    else match UnionOf(loads[..|loads| - 1])
      case Err(e) => Err(e)
      case Ok(r) =>
        match Contribution(loads[|loads| - 1])
        case Err(e) => Err(e)
        case Ok(q) => Ok(Join(r, q))
  }

  method NewBlob(data: Blob) returns (buf: array<bv8>)
    ensures fresh(buf) && buf[..] == data
  {
    buf := new bv8[|data|](i requires 0 <= i < |data| => data[i]);
  }

  lemma JoinZeros(r: Registers)
    requires |r| == REGISTERS
    ensures Join(Zeros(), r) == r && Join(r, Zeros()) == r
  {
  }

  /** The in-memory union that PFCOUNT and PFMERGE build. */
  method Union(loads: Loads) returns (merged: Outcome<Blob>)
    ensures
      match UnionOf(loads)
      case Err(e) => merged == Err(e)
      case Ok(r) => merged.Ok? && IsHll(merged.value) && RegistersOf(merged.value) == r
  {
    EmptyDenseIsEmpty();
    hide IsHll, RegistersOf, Join, Contribution;
    var buf := NewBlob(EmptyDense());
    for i := 0 to |loads|
      invariant fresh(buf)
      invariant UnionOf(loads[..i]).Ok?
      invariant IsHll(buf[..]) && buf.Length == DENSE_BYTES && RegistersOf(buf[..]) == UnionOf(loads[..i]).value
    {
      UnionStep(loads, i);
      ContributionOf(loads[i]);
      if loads[i].Some? {
        match loads[i].value {
          case Text(data) =>
            if !IsHll(data) {
              UnionFails(loads, i + 1);
              return Err(Parse);
            }
            ghost var before := buf[..];
            var ok := MergeInto(buf, data);
            BecameGives(before, buf[..], Join(RegistersOf(before), RegistersOf(data)));
          case OtherKind =>
            UnionFails(loads, i + 1);
            return Err(WrongType);
        }
      }
    }
    assert loads[..|loads|] == loads;
    merged := Ok(buf[..]);
  }

  lemma BecameGives(before: Blob, after: Blob, r: Registers)
    requires Became(before, after, r)
    ensures IsHll(after) && RegistersOf(after) == r
  {
  }

  lemma ContributionOf(read: Option<Slot>)
    ensures read.None? ==> Contribution(read) == Ok(Zeros())
    ensures read.Some? && read.value.OtherKind? ==> Contribution(read) == Err(WrongType)
    ensures read.Some? && read.value.Text? && !IsHll(read.value.data) ==> Contribution(read) == Err(Parse)
    ensures read.Some? && read.value.Text? && IsHll(read.value.data) ==>
      |read.value.data| == DENSE_BYTES && Contribution(read) == Ok(RegistersOf(read.value.data))
  {
  }

  lemma UnionStep(loads: Loads, i: nat)
    requires i < |loads| && UnionOf(loads[..i]).Ok?
    ensures
      var r, q := UnionOf(loads[..i]).value, Contribution(loads[i]);
      && UnionOf(loads[..i + 1]) == (if q.Err? then Err(q.error) else Ok(Join(r, q.value)))
      && Join(r, Zeros()) == r
  {
    assert loads[..i + 1][..i] == loads[..i];
    JoinZeros(UnionOf(loads[..i]).value);
  }

  /** The first error stands. */
  lemma {:induction false} UnionFails(loads: Loads, n: nat)
    requires n <= |loads| && UnionOf(loads[..n]).Err?
    ensures UnionOf(loads) == UnionOf(loads[..n])
    decreases |loads|
  {
    if n < |loads| {
      var front := loads[..|loads| - 1];
      assert front[..n] == loads[..n];
      UnionFails(front, n);
    } else {
      assert loads[..n] == loads;
    }
  }

  // ---------------------------------------------------------------------------
  // PFADD
  // ---------------------------------------------------------------------------

  /** PFADD raises the registers of all elements at once; it reports a change exactly when the key
    * is new or some register grew, and otherwise leaves the stored bytes as they were.
    */
  method PfAdd(stored: Option<Slot>, elements: seq<bytes>, hash: Hash) returns (after: Option<Slot>, reply: Outcome<bool>)
    ensures stored.Some? && stored.value.OtherKind? ==> reply == Err(WrongType) && after == stored
    ensures stored.Some? && stored.value.Text? && !IsHll(stored.value.data) ==> reply == Err(Parse) && after == stored
    ensures stored.None? || (stored.value.Text? && IsHll(stored.value.data)) ==>
      var before := if stored.Some? then RegistersOf(stored.value.data) else Zeros();
      var r := AddAll(before, hash, elements);
      && reply == Ok(stored.None? || r != before)
      && after.Some? && after.value.Text? && IsHll(after.value.data) && RegistersOf(after.value.data) == r
      && (reply == Ok(false) ==> after == stored)
  {
    EmptyDenseIsEmpty();
    var data := EmptyDense();
    if stored.Some? {
      match stored.value {
        case OtherKind => return stored, Err(WrongType);
        case Text(d) =>
          if !IsHll(d) {
            return stored, Err(Parse);
          }
          data := d;
      }
    }
    var buf := NewBlob(data);
    var changed := AddElements(buf, elements, hash);
    if stored.Some? && !changed {
      return stored, Ok(false);
    }
    after, reply := Some(Text(buf[..])), Ok(true);
  }

  method AddElements(buf: array<bv8>, elements: seq<bytes>, hash: Hash) returns (changed: bool)
    requires IsHll(buf[..])
    modifies buf
    ensures IsHll(buf[..]) && RegistersOf(buf[..]) == AddAll(RegistersOf(old(buf[..])), hash, elements)
    ensures changed <==> RegistersOf(buf[..]) != RegistersOf(old(buf[..]))
  {
    ghost var r := RegistersOf(buf[..]);
    changed := false;
    for i := 0 to |elements|
      invariant IsHll(buf[..]) && buf.Length == DENSE_BYTES && RegistersOf(buf[..]) == AddAll(r, hash, elements[..i])
      invariant changed <==> RegistersOf(buf[..]) != r
    {
      hide IsHll, RegistersOf, Raise;
      assert elements[..i + 1][..i] == elements[..i];
      ghost var before := buf[..];
      var grew := Add(buf, elements[i], hash);
      BecameGives(before, buf[..], Raise(RegistersOf(before), hash(elements[i]).0, hash(elements[i]).1));
      RaiseOnlyGrows(r, hash, elements, i);
      if grew == Some(true) {
        changed := true;
      }
    }
    assert elements[..|elements|] == elements;
  }

  ghost predicate Below(r: Registers, q: Registers) {
    |r| == |q| && forall k :: 0 <= k < |r| ==> r[k] <= q[k]
  }

  lemma {:induction false} AddAllGrows(r: Registers, hash: Hash, elements: seq<bytes>)
    requires |r| == REGISTERS
    ensures Below(r, AddAll(r, hash, elements))
  {
    if elements != [] {
      AddAllGrows(r, hash, elements[..|elements| - 1]);
    }
  }

  /** Registers that differ from the start never come back to it. */
  lemma RaiseOnlyGrows(r: Registers, hash: Hash, elements: seq<bytes>, i: nat)
    requires |r| == REGISTERS && i < |elements|
    ensures
      var m := AddAll(r, hash, elements[..i]);
      var m' := AddAll(r, hash, elements[..i + 1]);
      && m' == Raise(m, hash(elements[i]).0, hash(elements[i]).1)
      && (m' != r <==> m != r || m' != m)
  {
    assert elements[..i + 1][..i] == elements[..i];
    var m := AddAll(r, hash, elements[..i]);
    var m' := AddAll(r, hash, elements[..i + 1]);
    AddAllGrows(r, hash, elements[..i]);
    if m != r {
      var k :| 0 <= k < REGISTERS && m[k] != r[k];
      assert m'[k] != r[k];
    }
  }

  // ---------------------------------------------------------------------------
  // PFCOUNT and PFMERGE
  // ---------------------------------------------------------------------------

  type Estimator = Registers -> nat

  /** What PFCOUNT answers. */
  function CountOf(loads: Loads, estimate: Estimator): Outcome<nat> {
    if |loads| == 1 && loads[0].None? then Ok(0)
    else match UnionOf(loads)
      case Err(e) => Err(e)
      case Ok(r) => Ok(estimate(r))
  }

  method PfCount(loads: Loads, estimate: Estimator) returns (reply: Outcome<nat>)
    ensures reply == CountOf(loads, estimate)
  {
    if |loads| == 1 {
      SingleKey(loads[0]);
      if loads[0].None? {
        return Ok(0);
      }
      assert loads == [loads[0]];
      match loads[0].value {
        case OtherKind => return Err(WrongType);
        case Text(data) =>
          if !IsHll(data) {
            return Err(Parse);
          }
          return Ok(estimate(RegistersOf(data)));
      }
    }
    var merged := Union(loads);
    match merged {
      case Err(e) => reply := Err(e);
      case Ok(data) => reply := Ok(estimate(RegistersOf(data)));
    }
  }

  lemma SingleKey(read: Option<Slot>)
    ensures UnionOf([read]) == Contribution(read)
  {
    assert [read][..0] == [];
    if Contribution(read).Ok? {
      JoinZeros(Contribution(read).value);
    }
  }

  /** PFMERGE: load the sources one by one, then join their union into what the destination holds at
    * the moment its own update runs.
    */
  method PfMerge(loads: Loads, dest: Option<Slot>) returns (after: Option<Slot>, failure: Option<Error>)
    ensures Merges(loads, dest, after, failure)
  {
    var merged := Union(loads);
    if merged.Err? {
      return dest, Some(merged.error);
    }
    EmptyDenseIsEmpty();
    ContributionOf(dest);
    var data := EmptyDense();
    if dest.Some? {
      match dest.value {
        case OtherKind => return dest, Some(WrongType);
        case Text(d) =>
          if !IsHll(d) {
            return dest, Some(Parse);
          }
          data := d;
      }
    }
    var buf := NewBlob(data);
    var ok := MergeInto(buf, merged.value);
    BecameGives(data, buf[..], Join(RegistersOf(data), RegistersOf(merged.value)));
    after, failure := Some(Text(buf[..])), None;
  }

  /** PFMERGE's effect on its destination: all or nothing. */
  ghost predicate Merges(loads: Loads, dest: Option<Slot>, after: Option<Slot>, failure: Option<Error>) {
    var union, held := UnionOf(loads), Contribution(dest);
    if union.Err? then failure == Some(union.error) && after == dest
    else if held.Err? then failure == Some(held.error) && after == dest
    else failure == None && after.Some? && Contribution(after) == Ok(Join(held.value, union.value))
  }

  /** Counting several keys at once is counting the key that PFMERGE of the same loads creates. */
  lemma CountIsCountOfMerge(loads: Loads, after: Option<Slot>, failure: Option<Error>, estimate: Estimator)
    requires Merges(loads, None, after, failure)
    ensures |loads| != 1 || loads[0].Some? ==>
      match CountOf(loads, estimate)
      case Ok(n) => failure == None && CountOf([after], estimate) == Ok(n)
      case Err(e) => failure == Some(e) && after == None
    ensures |loads| == 1 && loads[0].None? ==>
      (CountOf(loads, estimate) == CountOf([after], estimate) <==> estimate(Zeros()) == 0)
  {
    SingleKey(after);
    if UnionOf(loads).Ok? {
      JoinZeros(UnionOf(loads).value);
    }
    if |loads| == 1 {
      SingleKey(loads[0]);
      assert loads == [loads[0]];
    }
    hide RegistersOf, Zeros, Join;
  }

  /** Merging keys that sketch sets sketches the union of the sets. */
  lemma {:induction false} UnionSketchesUnion(loads: Loads, hash: Hash, sets: seq<set<bytes>>)
    requires |sets| == |loads|
    requires forall i :: 0 <= i < |loads| ==>
      Contribution(loads[i]).Ok? && IsSketch(Contribution(loads[i]).value, hash, sets[i])
    ensures UnionOf(loads).Ok?
    ensures IsSketch(UnionOf(loads).value, hash, UnionSets(sets))
  {
    if loads == [] {
      ZerosIsSketch(hash);
    } else {
      var n := |loads| - 1;
      UnionSketchesUnion(loads[..n], hash, sets[..n]);
      JoinIsSketchOfUnion(UnionOf(loads[..n]).value, Contribution(loads[n]).value, hash,
                          UnionSets(sets[..n]), sets[n]);
    }
  }

  function UnionSets(sets: seq<set<bytes>>): set<bytes> {
    if sets == [] then {} else UnionSets(sets[..|sets| - 1]) + sets[|sets| - 1]
  }
}
