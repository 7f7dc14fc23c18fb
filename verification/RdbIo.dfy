/** The DUMP writers and RESTORE readers as they run: a buffer that grows and is patched in place,
  * and a reader whose position advances. Each is proved to compute the functions of Rdb.dfy.
  */
module RdbIo {
  import opened Bytes
  import opened Values
  import opened Decimal
  import opened Rdb
  import Crc64
  import Lzf
  import Listpack

  // ---------------------------------------------------------------------------
  // Writing
  // ---------------------------------------------------------------------------

  class Buffer {
    var content: bytes

    constructor ()
      ensures content == []
    {
      content := [];
    }

    method Put(data: bytes)
      modifies this
      ensures content == old(content) + data
    {
      content := content + data;
    }

    method WriteLength(n: nat)
      modifies this
      ensures content == old(content) + EncodeLength(n)
    {
      if n < 64 {
        Put([n]);
      } else if n < 16384 {
        Put([0x40 + n / 256]);
        Put([n % 256]);
      } else if n < 0x1_0000_0000 {
        Put([0x80]);
        Put(BeBytes(n, 4));
      } else {
        Put([0x81]);
        Put(BeBytes(n, 8));
      }
    }

    method WriteString(data: bytes)
      modifies this
      ensures content == old(content) + EncodeString(data)
    {
      hide EncodeLength, LeBytes, TryParseAsciiInt;
      var parsed := TryParseAsciiInt(data);
      if parsed.Some? {
        var n := parsed.value;
        if FitsSigned(n, 1) {
          Put([0xc0] + LeBytes(Wrap(n, 1), 1));
          return;
        }
        if FitsSigned(n, 2) {
          Put([0xc1] + LeBytes(Wrap(n, 2), 2));
          return;
        }
        if FitsSigned(n, 4) {
          Put([0xc2] + LeBytes(Wrap(n, 4), 4));
          return;
        }
      }
      WriteLength(|data|);
      Put(data);
    }

    /** Placeholder length, then the saturated element count. */
    method ListpackBegin(count: nat)
      requires content == []
      modifies this
      ensures content == [0, 0, 0, 0] + LeBytes(if count > 65535 then 65535 else count, 2)
    {
      Put([0, 0, 0, 0]);
      Put(LeBytes(if count > 65535 then 65535 else count, 2));
    }

    method ListpackAppend(data: bytes)
      modifies this
      ensures content == old(content) + Listpack.EncodeEntry(data)
    {
      hide Listpack.EncodeContent, Listpack.Backlen;
      var entry := Listpack.EncodeContent(data);
      Put(entry);
      Put(Listpack.Backlen(|entry|));
    }

    /** Terminate and patch the total length, truncated to 32 bits, into the first four bytes. */
    method ListpackFinish()
      requires |content| >= 4
      modifies this
      ensures content == LeBytes((|old(content)| + 1) % Listpack.U32, 4) + old(content)[4..] + [0xff]
    {
      Put([0xff]);
      var total := |content| % Listpack.U32;
      content := LeBytes(total, 4) + content[4..];
    }
  }

  lemma {:induction false} EntriesAppend(a: seq<bytes>, data: bytes)
    ensures Listpack.EncodeEntries(a + [data]) == Listpack.EncodeEntries(a) + Listpack.EncodeEntry(data)
  {
    if a == [] {
      assert [data][1..] == [];
      assert [] + [data] == [data];
    } else {
      assert (a + [data])[0] == a[0] && (a + [data])[1..] == a[1..] + [data];
      EntriesAppend(a[1..], data);
    }
  }

  /** Write all items into one listpack. */
  method PackItems(items: seq<bytes>) returns (blob: bytes)
    ensures blob == Listpack.Encode(items, |items|)
  {
    hide Listpack.EncodeEntry, Listpack.EncodeEntries, LeBytes;
    var lp := new Buffer();
    lp.ListpackBegin(|items|);
    ghost var header := lp.content;
    EmptyEntries();
    var i := 0;
    while i < |items|
      invariant 0 <= i <= |items|
      invariant lp.content == header + Listpack.EncodeEntries(items[..i])
    {
      EntriesAppend(items[..i], items[i]);
      assert items[..i] + [items[i]] == items[..i + 1];
      lp.ListpackAppend(items[i]);
      i := i + 1;
    }
    assert items[..i] == items;
    lp.ListpackFinish();
    blob := lp.content;
  }

  lemma EmptyEntries()
    ensures Listpack.EncodeEntries([]) == []
  {
  }

  /** The items of a collection, gathered by iterating its container in order. */
  method GatherItems(d: Doubles, v: Value) returns (items: seq<bytes>)
    ensures items == ItemsOf(d, v)
  {
    match v {
      case Hash(m) => items := GatherPairs(SortedNames(m.Keys), m);
      case List(list) => items := list;
      case Set(members) => items := SortedNames(members);
      case ZSet(m) => items := GatherPairs(SortedNames(m.Keys), ScoreTexts(d, m));
      case _ => items := [];
    }
  }

  lemma {:induction false} PairsAppend(a: seq<bytes>, name: bytes, m: map<bytes, bytes>)
    requires name in m && forall k :: k in a ==> k in m
    ensures FieldItems(a + [name], m) == FieldItems(a, m) + [name, m[name]]
  {
    if a == [] {
      assert [] + [name] == [name];
      assert [name][1..] == [];
    } else {
      assert (a + [name])[0] == a[0] && (a + [name])[1..] == a[1..] + [name];
      PairsAppend(a[1..], name, m);
    }
  }

  method GatherPairs(names: seq<bytes>, m: map<bytes, bytes>) returns (items: seq<bytes>)
    requires forall k :: k in names ==> k in m
    ensures items == FieldItems(names, m)
  {
    items := [];
    var i := 0;
    while i < |names|
      invariant 0 <= i <= |names|
      invariant items == FieldItems(names[..i], m)
    {
      PairsAppend(names[..i], names[i], m);
      assert names[..i] + [names[i]] == names[..i + 1];
      items := items + [names[i], m[names[i]]];
      i := i + 1;
    }
    assert names[..i] == names;
  }

  method WriteBlob(d: Doubles, v: Value, body: Buffer)
    modifies body
    ensures body.content == old(body.content) + EncodeString(Blob(d, v))
  {
    hide EncodeString, ItemsOf, Listpack.Encode;
    var items := GatherItems(d, v);
    var blob := PackItems(items);
    body.WriteString(blob);
  }

  method WriteBody(d: Doubles, v: Value, body: Buffer)
    requires !v.Stream? && body.content == []
    modifies body
    ensures body.content == DumpBody(d, v)
  {
    hide EncodeString, EncodeLength, Blob;
    body.Put([TypeTag(v)]);
    assert body.content == [TypeTag(v)];
    if v.String? {
      body.WriteString(v.data);
    } else {
      if v.List? {
        body.WriteLength(1);
        body.WriteLength(NODE_PACKED);
      }
      WriteBlob(d, v, body);
    }
  }

  method DumpValue(d: Doubles, v: Value) returns (payload: Option<bytes>)
    ensures payload == Dump(d, v)
  {
    if v.Stream? {
      return None;
    }
    hide DumpBody, LeBytes, Crc64.Crc;
    var body := new Buffer();
    WriteBody(d, v, body);
    body.Put(LeBytes(RDB_VERSION, 2));
    var crc := Crc64.Compute(Crc64.POLY, 0, body.content);
    body.Put(LeBytes(crc, 8));
    payload := Some(body.content);
  }

  // ---------------------------------------------------------------------------
  // Reading
  // ---------------------------------------------------------------------------

  /** A read agrees with the parsing function: same value, same remaining bytes. */
  ghost predicate Agrees<T>(parsed: Parsed<T>, result: Option<T>, rest: bytes) {
    match parsed
    case Malformed => result == None
    case Parsed(value, left) => result == Some(value) && rest == left
  }

  class Reader {
    const buf: bytes
    var pos: nat

    constructor (buf: bytes)
      ensures this.buf == buf && pos == 0
      ensures Valid() && Rest() == buf
    {
      this.buf := buf;
      pos := 0;
    }

    ghost predicate Valid()
      reads this
    {
      pos <= |buf|
    }

    ghost function Rest(): bytes
      reads this
      requires Valid()
    {
      buf[pos..]
    }

    method ReadU8() returns (b: Option<byte>)
      requires Valid()
      modifies this
      ensures Valid()
      ensures old(Rest()) == [] ==> b == None
      ensures old(Rest()) != [] ==> b == Some(old(Rest())[0]) && Rest() == old(Rest())[1..]
    {
      if pos >= |buf| {
        return None;
      }
      b := Some(buf[pos]);
      pos := pos + 1;
    }

    method ReadSlice(n: nat) returns (s: Option<bytes>)
      requires Valid()
      modifies this
      ensures Valid()
      ensures Agrees(Slice(old(Rest()), n), s, Rest())
    {
      if pos + n > |buf| {
        return None;
      }
      assert Rest()[..n] == buf[pos..pos + n] && Rest()[n..] == buf[pos + n..];
      s := Some(buf[pos..pos + n]);
      pos := pos + n;
    }

    method ReadLength() returns (n: Option<nat>)
      requires Valid()
      modifies this
      ensures Valid()
      ensures Agrees(DecodeLength(old(Rest())), n, Rest())
    {
      ghost var s := Rest();
      var first := ReadU8();
      if first.None? {
        return None;
      }
      var b: int := first.value;
      if b < 0x40 {
        return Some(b);
      } else if b < 0x80 {
        var second := ReadU8();
        if second.None? {
          return None;
        }
        return Some((b - 0x40) * 256 + second.value as int);
      } else if b == 0x80 || b == 0x81 {
        var k := if b == 0x80 then 4 else 8;
        var bs := ReadSlice(k);
        if bs.None? {
          return None;
        }
        assert s[1..k + 1] == bs.value && s[k + 1..] == Rest();
        return Some(FromBe(bs.value));
      }
      return None;
    }

    method ReadStrLen() returns (n: Option<StrLen>)
      requires Valid()
      modifies this
      ensures Valid()
      ensures Agrees(DecodeStrLen(old(Rest())), n, Rest())
    {
      ghost var s := Rest();
      if pos < |buf| && buf[pos] >= 0xc0 {
        var tag := ReadU8();
        var b := tag.value;
        if b == 0xc3 {
          return Some(Compressed);
        }
        if b > 0xc2 {
          return None;
        }
        var k := if b == 0xc0 then 1 else if b == 0xc1 then 2 else 4;
        var bs := ReadSlice(k);
        if bs.None? {
          return None;
        }
        assert s[1..k + 1] == bs.value && s[k + 1..] == Rest();
        return Some(IntStr(Unwrap(FromLe(bs.value), k)));
      }
      var len := ReadLength();
      return if len.Some? then Some(Normal(len.value)) else None;
    }

    method ReadString() returns (data: Option<bytes>)
      requires Valid()
      modifies this
      ensures Valid()
      ensures Agrees(DecodeString(old(Rest())), data, Rest())
    {
      hide DecodeStrLen, DecodeLength;
      var len := ReadStrLen();
      if len.None? {
        return None;
      }
      match len.value {
        case Normal(n) =>
          data := ReadSlice(n);
        case IntStr(i) =>
          data := Some(ToDec(i));
        case Compressed =>
          var compressedLen := ReadLength();
          if compressedLen.None? {
            return None;
          }
          var uncompressedLen := ReadLength();
          if uncompressedLen.None? {
            return None;
          }
          var compressed := ReadSlice(compressedLen.value);
          if compressed.None? {
            return None;
          }
          data := Lzf.Decompress(compressed.value, uncompressedLen.value);
      }
    }
  }

  method RestoreList(r: Reader) returns (list: Option<seq<bytes>>)
    requires r.Valid()
    modifies r
    ensures r.Valid()
    ensures
      match DecodeLength(old(r.Rest())) {
        case Malformed => list == None
        case Parsed(count, s) => list == DecodeNodes(count, s, [])
      }
  {
    hide DecodeLength, DecodeString, Listpack.Decode;
    var nodeCount := r.ReadLength();
    if nodeCount.None? {
      return None;
    }
    var items: seq<bytes> := [];
    ghost var start := r.Rest();
    var left := nodeCount.value;
    while left > 0
      invariant r.Valid()
      invariant DecodeNodes(left, r.Rest(), items) == DecodeNodes(nodeCount.value, start, [])
    {
      var container := r.ReadLength();
      if container.None? {
        return None;
      }
      if container.value != NODE_PACKED && container.value != NODE_PLAIN {
        return None;
      }
      var data := r.ReadString();
      if data.None? {
        return None;
      }
      if container.value == NODE_PACKED {
        var more, cuts := Listpack.DecodeLoop(data.value);
        if more.None? {
          return None;
        }
        items := items + more.value;
      } else {
        items := items + [data.value];
      }
      left := left - 1;
    }
    return Some(items);
  }

  method CollectFields(items: seq<bytes>) returns (m: Option<map<bytes, bytes>>)
    ensures m == BuildFields(items, map[])
  {
    var acc: map<bytes, bytes> := map[];
    var i := 0;
    assert items[0..] == items;
    while i < |items|
      invariant 0 <= i <= |items|
      invariant BuildFields(items[i..], acc) == BuildFields(items, map[])
    {
      if |items| - i == 1 || !IsUtf8(items[i]) {
        return None;
      }
      assert items[i..][2..] == items[i + 2..];
      acc := acc[items[i] := items[i + 1]];
      i := i + 2;
    }
    return Some(acc);
  }

  method CollectScores(d: Doubles, items: seq<bytes>) returns (m: Option<map<bytes, Score>>)
    ensures m == BuildScores(d, items, map[])
  {
    var acc: map<bytes, Score> := map[];
    var i := 0;
    assert items[0..] == items;
    while i < |items|
      invariant 0 <= i <= |items|
      invariant BuildScores(d, items[i..], acc) == BuildScores(d, items, map[])
    {
      if |items| - i == 1 || !IsUtf8(items[i]) {
        return None;
      }
      var score := ParseScore(d, items[i + 1]);
      if score.None? {
        return None;
      }
      assert items[i..][2..] == items[i + 2..];
      acc := acc[items[i] := score.value];
      i := i + 2;
    }
    return Some(acc);
  }

  method CollectMembers(items: seq<bytes>) returns (members: Option<set<bytes>>)
    ensures members == BuildSet(items, {})
  {
    var acc: set<bytes> := {};
    var i := 0;
    assert items[0..] == items;
    while i < |items|
      invariant 0 <= i <= |items|
      invariant BuildSet(items[i..], acc) == BuildSet(items, {})
    {
      if !IsUtf8(items[i]) {
        return None;
      }
      assert items[i..][1..] == items[i + 1..];
      acc := acc + {items[i]};
      i := i + 1;
    }
    return Some(acc);
  }

  method RestoreCollection(d: Doubles, tag: byte, r: Reader) returns (value: Restored)
    requires r.Valid()
    requires tag == TYPE_HASH_LISTPACK || tag == TYPE_SET_LISTPACK || tag == TYPE_ZSET_LISTPACK
    modifies r
    ensures r.Valid()
    ensures
      match DecodeItems(old(r.Rest())) {
        case None => value == BadPayload
        case Some(items) => value == BuildCollection(d, tag, items)
      }
  {
    hide DecodeString, Listpack.Decode, BuildFields, BuildSet, BuildScores;
    var blob := r.ReadString();
    if blob.None? {
      return BadPayload;
    }
    var items, cuts := Listpack.DecodeLoop(blob.value);
    if items.None? {
      return BadPayload;
    }
    if tag == TYPE_HASH_LISTPACK {
      var m := CollectFields(items.value);
      return if m.Some? then Restored.Restored(Hash(m.value)) else BadPayload;
    } else if tag == TYPE_SET_LISTPACK {
      var members := CollectMembers(items.value);
      return if members.Some? then Restored.Restored(Set(members.value)) else BadPayload;
    } else {
      var m := CollectScores(d, items.value);
      return if m.Some? then Restored.Restored(ZSet(m.value)) else BadPayload;
    }
  }

  method RestoreMembers(r: Reader) returns (members: Option<set<bytes>>)
    requires r.Valid()
    modifies r
    ensures r.Valid()
    ensures
      match DecodeLength(old(r.Rest())) {
        case Malformed => members == None
        case Parsed(count, s) => members == DecodeMembers(count, s, {})
      }
  {
    hide DecodeLength, DecodeString, IsUtf8;
    var count := r.ReadLength();
    if count.None? {
      return None;
    }
    var acc: set<bytes> := {};
    ghost var start := r.Rest();
    var left := count.value;
    while left > 0
      invariant r.Valid()
      invariant DecodeMembers(left, r.Rest(), acc) == DecodeMembers(count.value, start, {})
    {
      var member := r.ReadString();
      if member.None? {
        return None;
      }
      if !IsUtf8(member.value) {
        return None;
      }
      acc := acc + {member.value};
      left := left - 1;
    }
    return Some(acc);
  }

  method RestoreScores(d: Doubles, r: Reader) returns (m: Option<map<bytes, Score>>)
    requires r.Valid()
    modifies r
    ensures r.Valid()
    ensures
      match DecodeLength(old(r.Rest())) {
        case Malformed => m == None
        case Parsed(count, s) => m == DecodeScores(d, count, s, map[])
      }
  {
    hide DecodeLength, DecodeString, IsUtf8;
    var count := r.ReadLength();
    if count.None? {
      return None;
    }
    var acc: map<bytes, Score> := map[];
    ghost var start := r.Rest();
    var left := count.value;
    while left > 0
      invariant r.Valid()
      invariant DecodeScores(d, left, r.Rest(), acc) == DecodeScores(d, count.value, start, map[])
    {
      var member := r.ReadString();
      if member.None? {
        return None;
      }
      if !IsUtf8(member.value) {
        return None;
      }
      var bits := r.ReadSlice(8);
      if bits.None? {
        return None;
      }
      var score := d.fromBits(bits.value);
      if score.None? {
        return None;
      }
      acc := acc[member.value := score.value];
      left := left - 1;
    }
    return Some(acc);
  }

  method CollectIntset(blob: bytes) returns (members: Option<set<bytes>>)
    ensures members == DecodeIntset(blob)
  {
    hide FromLe, ToDec, Unwrap;
    if |blob| < 8 {
      return None;
    }
    var k, count := FromLe(blob[..4]), FromLe(blob[4..8]);
    if !IsIntWidth(k) || |blob| != 8 + count * k {
      return None;
    }
    var acc: set<bytes> := {};
    var data := blob[8..];
    var i := 0;
    assert data[0..] == data;
    while i < count
      invariant 0 <= i <= count
      invariant i * k <= |data| && |data| - i * k == (count - i) * k
      invariant acc + PackedInts(data[i * k..], k) == PackedInts(data, k)
    {
      NextInt(data, i, count, k);
      acc := acc + {ToDec(Unwrap(FromLe(data[i * k..(i + 1) * k]), k))};
      i := i + 1;
    }
    assert |data[i * k..]| == 0;
    members := Some(acc);
  }

  /** One more element of an intset. */
  lemma NextInt(data: bytes, i: nat, count: nat, k: nat)
    requires 0 < k && i < count && |data| == count * k
    ensures i * k <= (i + 1) * k <= |data|
    ensures |data| - (i + 1) * k == (count - (i + 1)) * k
    ensures PackedInts(data[i * k..], k)
         == {ToDec(Unwrap(FromLe(data[i * k..(i + 1) * k]), k))} + PackedInts(data[(i + 1) * k..], k)
  {
    Offsets(i, count, k);
    FirstInt(data, i * k, (i + 1) * k, k);
    hide ToDec, Unwrap, FromLe, PackedInts;
  }

  lemma Offsets(i: nat, count: nat, k: nat)
    requires i < count
    ensures (i + 1) * k == i * k + k && count * k == (i + 1) * k + (count - (i + 1)) * k
    ensures (count - (i + 1)) * k >= 0
  {
    Distribute(i, 1, k);
    Distribute(i + 1, count - (i + 1), k);
  }

  lemma Distribute(a: nat, b: nat, k: nat)
    ensures (a + b) * k == a * k + b * k && b * k >= 0
  {
  }

  lemma FirstInt(data: bytes, from: nat, to: nat, k: nat)
    requires 0 < k && to == from + k <= |data|
    ensures PackedInts(data[from..], k) == {ToDec(Unwrap(FromLe(data[from..to]), k))} + PackedInts(data[to..], k)
  {
    hide ToDec, Unwrap, FromLe;
    assert data[from..][..k] == data[from..to] && data[from..][k..] == data[to..];
  }

  method RestoreForeign(d: Doubles, tag: byte, r: Reader) returns (value: Restored)
    requires r.Valid() && (tag == TYPE_SET || tag == TYPE_ZSET_2 || tag == TYPE_SET_INTSET)
    modifies r
    ensures r.Valid()
    ensures value == DecodeForeign(d, tag, old(r.Rest()))
  {
    hide DecodeString, DecodeLength, DecodeMembers, DecodeScores, DecodeIntset;
    if tag == TYPE_SET {
      var members := RestoreMembers(r);
      return if members.Some? then Restored.Restored(Set(members.value)) else BadPayload;
    } else if tag == TYPE_ZSET_2 {
      var m := RestoreScores(d, r);
      return if m.Some? then Restored.Restored(ZSet(m.value)) else BadPayload;
    } else {
      var blob := r.ReadString();
      if blob.None? {
        return BadPayload;
      }
      var members := CollectIntset(blob.value);
      return if members.Some? then Restored.Restored(Set(members.value)) else BadPayload;
    }
  }

  method RestoreValue(d: Doubles, payload: bytes) returns (value: Restored)
    ensures value == Restore(d, payload)
  {
    hide DecodeString, DecodeLength, DecodeItems, DecodeNodes, BuildCollection, DecodeForeign, FromLe;
    if |payload| < 10 {
      return BadPayload;
    }
    var split := |payload| - 10;
    var body := payload[..split];
    if FromLe(payload[split..split + 2]) > RDB_MAX_ACCEPT_VERSION {
      return BadPayload;
    }
    var wantCrc := Crc64.Compute(Crc64.POLY, 0, payload[..split + 2]);
    if FromLe(payload[split + 2..]) != wantCrc {
      return BadPayload;
    }
    var r := new Reader(body);
    var tag := r.ReadU8();
    if tag.None? {
      return BadPayload;
    }
    if tag.value == TYPE_STRING {
      var data := r.ReadString();
      return if data.Some? then Restored.Restored(String(data.value)) else BadPayload;
    } else if tag.value == TYPE_LIST_QUICKLIST_2 {
      var items := RestoreList(r);
      return if items.Some? then Restored.Restored(List(items.value)) else BadPayload;
    } else if tag.value == TYPE_HASH_LISTPACK || tag.value == TYPE_SET_LISTPACK || tag.value == TYPE_ZSET_LISTPACK {
      value := RestoreCollection(d, tag.value, r);
    } else if tag.value == TYPE_SET || tag.value == TYPE_ZSET_2 || tag.value == TYPE_SET_INTSET {
      value := RestoreForeign(d, tag.value, r);
    } else {
      return if tag.value == TYPE_STREAM_LISTPACKS_3 then NotSupported else BadPayload;
    }
  }
}
