/** DUMP and RESTORE payloads as functions on byte strings, and the laws between them.
  *
  * `Dump` and `Restore` are the specification of the writers and readers in RdbIo.dfy. The main
  * results: restoring a dump gives the value back exactly when its listpack fits in 32 bits
  * (`RestoreAfterDump`), and a restorable payload damaged inside eight consecutive bytes of body or
  * version is refused (`DamageIsRejected`).
  */
module Rdb {
  import opened Bytes
  import opened Values
  import opened Decimal
  import opened Ordered
  import Crc64
  import Lzf
  import Listpack

  const RDB_VERSION: nat := 11
  const RDB_MAX_ACCEPT_VERSION: nat := 12

  const TYPE_STRING: byte := 0
  const TYPE_SET: byte := 2
  const TYPE_ZSET_2: byte := 5
  const TYPE_SET_INTSET: byte := 11
  const TYPE_HASH_LISTPACK: byte := 16
  const TYPE_ZSET_LISTPACK: byte := 17
  const TYPE_LIST_QUICKLIST_2: byte := 18
  const TYPE_SET_LISTPACK: byte := 20
  const TYPE_STREAM_LISTPACKS_3: byte := 21

  const NODE_PLAIN: nat := 1
  const NODE_PACKED: nat := 2

  /** The result of reading from the front of a byte string: the value and what is left. */
  datatype Parsed<+T> = Parsed(value: T, rest: bytes) | Malformed

  // ---------------------------------------------------------------------------
  // Lengths
  // ---------------------------------------------------------------------------

  function EncodeLength(n: nat): bytes {
    if n < 64 then [n]
    else if n < 16384 then [0x40 + n / 256, n % 256]
    else if n < 0x1_0000_0000 then [0x80] + BeBytes(n, 4)
    else [0x81] + BeBytes(n, 8)
  }

  function BeAt(s: bytes, k: nat): Parsed<nat> {
    if |s| < k + 1 then Malformed else Parsed(FromBe(s[1..k + 1]), s[k + 1..])
  }

  function DecodeLength(s: bytes): (r: Parsed<nat>)
    ensures r.Parsed? ==> |r.rest| < |s|
  {
    if s == [] then Malformed
    else
      var b: int := s[0];
      if b < 0x40 then Parsed(b, s[1..])
      else if b < 0x80 then
        if |s| < 2 then Malformed else Parsed((b - 0x40) * 256 + s[1] as int, s[2..])
      else if b == 0x80 then BeAt(s, 4)
      else if b == 0x81 then BeAt(s, 8)
      else Malformed
  }

  lemma BeAtOfBytes(tag: byte, n: nat, k: nat, rest: bytes)
    requires n < Pow256(k)
    ensures BeAt([tag] + BeBytes(n, k) + rest, k) == Parsed(n, rest)
  {
  }

  lemma LengthReadsBack(n: nat, rest: bytes)
    requires n < U64
    ensures DecodeLength(EncodeLength(n) + rest) == Parsed(n, rest)
  {
    hide BeAt, BeBytes;
    Pow256Values();
    var s := EncodeLength(n) + rest;
    if n < 64 {
      assert s[1..] == rest;
    } else if n < 16384 {
      assert s[2..] == rest;
    } else if n < 0x1_0000_0000 {
      BeAtOfBytes(0x80, n, 4, rest);
    } else {
      BeAtOfBytes(0x81, n, 8, rest);
    }
  }

  // ---------------------------------------------------------------------------
  // Strings
  // ---------------------------------------------------------------------------

  datatype StrLen = Normal(n: nat) | IntStr(i: int) | Compressed

  function SignedLeAt(s: bytes, k: nat): Parsed<StrLen> {
    if |s| < k + 1 then Malformed else Parsed(IntStr(Unwrap(FromLe(s[1..k + 1]), k)), s[k + 1..])
  }

  function DecodeStrLen(s: bytes): (r: Parsed<StrLen>)
    ensures r.Parsed? ==> |r.rest| < |s|
  {
    if s == [] then Malformed
    else if s[0] == 0xc0 then SignedLeAt(s, 1)
    else if s[0] == 0xc1 then SignedLeAt(s, 2)
    else if s[0] == 0xc2 then SignedLeAt(s, 4)
    else if s[0] == 0xc3 then Parsed(Compressed, s[1..])
    else
      match DecodeLength(s)
      case Malformed => Malformed
      case Parsed(n, rest) => Parsed(Normal(n), rest)
  }

  /** Strings that read as 32-bit integers are stored as one, two or four bytes. */
  function EncodeString(data: bytes): bytes {
    match TryParseAsciiInt(data)
    case Some(n) =>
      if FitsSigned(n, 1) then [0xc0] + LeBytes(Wrap(n, 1), 1)
      else if FitsSigned(n, 2) then [0xc1] + LeBytes(Wrap(n, 2), 2)
      else if FitsSigned(n, 4) then [0xc2] + LeBytes(Wrap(n, 4), 4)
      else EncodeLength(|data|) + data
    case None => EncodeLength(|data|) + data
  }

  function Slice(s: bytes, n: nat): Parsed<bytes> {
    if n > |s| then Malformed else Parsed(s[..n], s[n..])
  }

  function Inflate(input: bytes, uncompressedLen: nat): Option<bytes> {
    match Lzf.DecodeFrom(input, [])
    case Some(out) => if |out| == uncompressedLen then Some(out) else None
    case None => None
  }

  function DecodeCompressed(s: bytes): Parsed<bytes> {
    match DecodeLength(s)
    case Malformed => Malformed
    case Parsed(compressedLen, s1) =>
      match DecodeLength(s1)
      case Malformed => Malformed
      case Parsed(uncompressedLen, s2) =>
        match Slice(s2, compressedLen)
        case Malformed => Malformed
        case Parsed(input, rest) =>
          match Inflate(input, uncompressedLen)
          case None => Malformed
          case Some(out) => Parsed(out, rest)
  }

  function DecodeString(s: bytes): (r: Parsed<bytes>)
    ensures r.Parsed? ==> |r.rest| < |s|
  {
    match DecodeStrLen(s)
    case Malformed => Malformed
    case Parsed(Normal(n), rest) => Slice(rest, n)
    case Parsed(IntStr(i), rest) => Parsed(ToDec(i), rest)
    case Parsed(Compressed, rest) => DecodeCompressed(rest)
  }

  lemma SignedReadsBack(tag: byte, n: int, k: nat, rest: bytes)
    requires FitsSigned(n, k)
    ensures SignedLeAt([tag] + LeBytes(Wrap(n, k), k) + rest, k) == Parsed(IntStr(n), rest)
  {
    var s := [tag] + LeBytes(Wrap(n, k), k) + rest;
    assert s[1..k + 1] == LeBytes(Wrap(n, k), k);
    assert s[k + 1..] == rest;
    LeRoundTrip(Wrap(n, k), k);
    UnwrapWrap(n, k);
  }

  lemma PlainReadsBack(data: bytes, rest: bytes)
    requires |data| < U64
    ensures DecodeString(EncodeLength(|data|) + data + rest) == Parsed(data, rest)
  {
    hide EncodeLength, DecodeLength;
    LengthReadsBack(|data|, data + rest);
    LengthTag(|data|);
    assert EncodeLength(|data|) + data + rest == EncodeLength(|data|) + (data + rest);
    assert (data + rest)[..|data|] == data && (data + rest)[|data|..] == rest;
  }

  lemma LengthTag(n: nat)
    ensures EncodeLength(n) != [] && EncodeLength(n)[0] < 0xc0
  {
  }

  lemma StringReadsBack(data: bytes, rest: bytes)
    requires |data| < U64
    ensures DecodeString(EncodeString(data) + rest) == Parsed(data, rest)
  {
    hide EncodeLength, DecodeLength, SignedLeAt, LeBytes, ToDec;
    match TryParseAsciiInt(data) {
      case Some(n) =>
        TryParseExact(data, n);
        if FitsSigned(n, 1) {
          SignedReadsBack(0xc0, n, 1, rest);
        } else if FitsSigned(n, 2) {
          SignedReadsBack(0xc1, n, 2, rest);
        } else if FitsSigned(n, 4) {
          SignedReadsBack(0xc2, n, 4, rest);
        } else {
          PlainReadsBack(data, rest);
        }
      case None => PlainReadsBack(data, rest);
    }
  }

  // ---------------------------------------------------------------------------
  // UTF-8 and scores
  // ---------------------------------------------------------------------------

  predicate Continuation(s: bytes, i: nat, low: nat, high: nat) {
    i < |s| && low <= s[i] <= high
  }

  /** Size of the well-formed UTF-8 character at the front, or 0 (RFC 3629, section 4). */
  function CharSize(s: bytes): (n: nat)
    ensures n <= |s|
  {
    if s == [] then 0
    else
      var b := s[0];
      var tail := (i: nat) => Continuation(s, i, 0x80, 0xbf);
      if b < 0x80 then 1
      else if 0xc2 <= b <= 0xdf then if tail(1) then 2 else 0
      else if 0xe0 <= b <= 0xef then
        var low := if b == 0xe0 then 0xa0 else 0x80;
        var high := if b == 0xed then 0x9f else 0xbf;
        if Continuation(s, 1, low, high) && tail(2) then 3 else 0
      else if 0xf0 <= b <= 0xf4 then
        var low := if b == 0xf0 then 0x90 else 0x80;
        var high := if b == 0xf4 then 0x8f else 0xbf;
        if Continuation(s, 1, low, high) && tail(2) && tail(3) then 4 else 0
      else 0
  }

  predicate IsUtf8(s: bytes)
    decreases |s|
  {
    s == [] || (CharSize(s) > 0 && IsUtf8(s[CharSize(s)..]))
  }

  const INF: bytes := [105, 110, 102]

  const NAN: bytes := [110, 97, 110]

  /** Double-precision numbers as the platform handles them: which reals are doubles, their shortest
    * decimal text, the reading of decimal text, and the eight-byte binary form.
    */
  datatype Doubles = Doubles(
    isDouble: real -> bool,
    show: real -> bytes,
    read: bytes -> Option<Score>,
    fromBits: bytes -> Option<Score>)

  const EXACT: int := 0x20_0000_0000_0000

  predicate IsSpecial(text: bytes) {
    text == INF || text == [PLUS] + INF || text == [MINUS] + INF || text == NAN
  }

  /** What the platform promises of text: a double reads back from the text it shows, and the integers
    * below 2^53 in magnitude are doubles that read from their decimal text.
    */
  ghost predicate Lawful(d: Doubles) {
    && (forall x :: d.isDouble(x) ==> !IsSpecial(d.show(x)) && d.read(d.show(x)) == Some(Finite(x)))
    && (forall n :: -EXACT < n < EXACT ==> d.read(ToDec(n)) == Some(Finite(n as real)))
  }

  predicate ValidScore(d: Doubles, s: Score) {
    s.Finite? ==> d.isDouble(s.x)
  }

  /** Whole numbers that a double holds exactly print as integers. */
  predicate PrintsAsInteger(x: real) {
    x == x.Floor as real && -EXACT < x.Floor < EXACT
  }

  function FormatScore(d: Doubles, s: Score): bytes {
    match s
    case Finite(x) => if PrintsAsInteger(x) then ToDec(x.Floor) else d.show(x)
    case PlusInf => INF
    case MinusInf => [MINUS] + INF
  }

  function ParseScore(d: Doubles, text: bytes): Option<Score> {
    if text == INF || text == [PLUS] + INF then Some(PlusInf)
    else if text == [MINUS] + INF then Some(MinusInf)
    else if text == NAN then None
    else d.read(text)
  }

  lemma DecimalIsPlain(n: int)
    ensures !IsSpecial(ToDec(n))
  {
    var text := ToDec(n);
    var plus, minus := [PLUS] + INF, [MINUS] + INF;
    assert plus[0] == PLUS && minus[1] == 105 && INF[0] == 105 && NAN[0] == 110;
    if n < 0 {
      assert text[0] == MINUS && IsDigit(text[1]);
    } else {
      assert IsDigit(text[0]);
    }
  }

  lemma ScoreReadsBack(d: Doubles, s: Score)
    requires Lawful(d) && ValidScore(d, s)
    ensures ParseScore(d, FormatScore(d, s)) == Some(s)
  {
    var plus, minus := [PLUS] + INF, [MINUS] + INF;
    assert plus[0] == PLUS && minus[0] == MINUS && INF[0] == 105;
    match s {
      case Finite(x) =>
        if PrintsAsInteger(x) {
          DecimalIsPlain(x.Floor);
        }
      case PlusInf =>
      case MinusInf => assert minus != INF && minus != plus;
    }
  }

  // ---------------------------------------------------------------------------
  // Values as listpack items
  // ---------------------------------------------------------------------------

  predicate ValidValue(d: Doubles, v: Value) {
    match v
    case Hash(m) => forall k :: k in m ==> IsUtf8(k)
    case Set(members) => forall k :: k in members ==> IsUtf8(k)
    case ZSet(m) => forall k :: k in m ==> IsUtf8(k) && ValidScore(d, m[k])
    case _ => true
  }

  function SortedNames(s: set<bytes>): (names: seq<bytes>)
    ensures forall k :: k in names <==> k in s
    ensures |names| == |s|
    ensures forall i, j :: 0 <= i < j < |names| ==> names[i] != names[j]
  {
    LexIsStrictTotal();
    Sorted(s, LexLess)
  }

  function FieldItems(names: seq<bytes>, m: map<bytes, bytes>): seq<bytes>
    requires forall k :: k in names ==> k in m
  {
    if names == [] then [] else [names[0], m[names[0]]] + FieldItems(names[1..], m)
  }

  function ScoreTexts(d: Doubles, m: map<bytes, Score>): map<bytes, bytes> {
    map k | k in m :: FormatScore(d, m[k])
  }

  /** The items of a collection, in the order the sorted containers iterate. */
  function ItemsOf(d: Doubles, v: Value): seq<bytes> {
    match v
    case Hash(m) => FieldItems(SortedNames(m.Keys), m)
    case List(items) => items
    case Set(members) => SortedNames(members)
    case ZSet(m) => FieldItems(SortedNames(m.Keys), ScoreTexts(d, m))
    case _ => []
  }

  function TypeTag(v: Value): byte {
    match v
    case String(_) => TYPE_STRING
    case Hash(_) => TYPE_HASH_LISTPACK
    case List(_) => TYPE_LIST_QUICKLIST_2
    case Set(_) => TYPE_SET_LISTPACK
    case ZSet(_) => TYPE_ZSET_LISTPACK
    case Stream(_) => TYPE_STREAM_LISTPACKS_3
  }

  function Blob(d: Doubles, v: Value): bytes {
    Listpack.Encode(ItemsOf(d, v), |ItemsOf(d, v)|)
  }

  function DumpBody(d: Doubles, v: Value): bytes {
    match v
    case String(data) => [TYPE_STRING] + EncodeString(data)
    case List(_) => [TYPE_LIST_QUICKLIST_2] + EncodeLength(1) + EncodeLength(NODE_PACKED) + EncodeString(Blob(d, v))
    case _ => [TypeTag(v)] + EncodeString(Blob(d, v))
  }

  function Seal(body: bytes): bytes {
    var hashed := body + LeBytes(RDB_VERSION, 2);
    hashed + LeBytes(Crc64.Checksum(hashed), 8)
  }

  /** DUMP of a stream is an error. */
  function Dump(d: Doubles, v: Value): Option<bytes> {
    if v.Stream? then None else Some(Seal(DumpBody(d, v)))
  }

  // ---------------------------------------------------------------------------
  // Restoring
  // ---------------------------------------------------------------------------

  datatype Restored = Restored(value: Value) | BadPayload | NotSupported

  function BuildFields(items: seq<bytes>, acc: map<bytes, bytes>): Option<map<bytes, bytes>> {
    if items == [] then Some(acc)
    else if |items| == 1 || !IsUtf8(items[0]) then None
    else BuildFields(items[2..], acc[items[0] := items[1]])
  }

  function BuildScores(d: Doubles, items: seq<bytes>, acc: map<bytes, Score>): Option<map<bytes, Score>> {
    if items == [] then Some(acc)
    else if |items| == 1 || !IsUtf8(items[0]) then None
    else
      match ParseScore(d, items[1])
      case None => None
      case Some(score) => BuildScores(d, items[2..], acc[items[0] := score])
  }

  function BuildSet(items: seq<bytes>, acc: set<bytes>): Option<set<bytes>> {
    if items == [] then Some(acc)
    else if !IsUtf8(items[0]) then None
    else BuildSet(items[1..], acc + {items[0]})
  }

  /** Quicklist nodes: packed listpacks, or single elements too large for one. */
  function DecodeNodes(count: nat, s: bytes, acc: seq<bytes>): Option<seq<bytes>>
    decreases count
  {
    if count == 0 then Some(acc)
    else
      match DecodeLength(s)
      case Malformed => None
      case Parsed(container, s1) =>
        if container != NODE_PACKED && container != NODE_PLAIN then None
        else
          match DecodeString(s1)
          case Malformed => None
          case Parsed(data, s2) =>
            if container == NODE_PLAIN then DecodeNodes(count - 1, s2, acc + [data])
            else
              match Listpack.Decode(data)
              case None => None
              case Some(items) => DecodeNodes(count - 1, s2, acc + items)
  }

  function DecodeItems(s: bytes): Option<seq<bytes>> {
    match DecodeString(s)
    case Malformed => None
    case Parsed(blob, _) => Listpack.Decode(blob)
  }

  /** The classic set form: one string per member. */
  function DecodeMembers(count: nat, s: bytes, acc: set<bytes>): Option<set<bytes>>
    decreases count
  {
    if count == 0 then Some(acc)
    else
      match DecodeString(s)
      case Malformed => None
      case Parsed(member, s1) => if IsUtf8(member) then DecodeMembers(count - 1, s1, acc + {member}) else None
  }

  /** The sorted-set form with binary scores. */
  function DecodeScores(d: Doubles, count: nat, s: bytes, acc: map<bytes, Score>): Option<map<bytes, Score>>
    decreases count
  {
    if count == 0 then Some(acc)
    else
      match DecodeString(s)
      case Malformed => None
      case Parsed(member, s1) =>
        if !IsUtf8(member) || |s1| < 8 then None
        else
          match d.fromBits(s1[..8])
          case None => None
          case Some(score) => DecodeScores(d, count - 1, s1[8..], acc[member := score])
  }

  /** The decimal texts of packed signed integers of k bytes each. */
  function PackedInts(data: bytes, k: nat): set<bytes>
    requires k > 0
    decreases |data|
  {
    if |data| < k then {} else {ToDec(Unwrap(FromLe(data[..k]), k))} + PackedInts(data[k..], k)
  }

  predicate IsIntWidth(k: nat) {
    k == 2 || k == 4 || k == 8
  }

  /** Intsets: element width, count, and the packed integers. */
  function DecodeIntset(blob: bytes): Option<set<bytes>> {
    if |blob| < 8 then None
    else
      var k, count := FromLe(blob[..4]), FromLe(blob[4..8]);
      if !IsIntWidth(k) || |blob| != 8 + count * k then None else Some(PackedInts(blob[8..], k))
  }

  /** The types that DUMP does not write but RESTORE reads. */
  function DecodeForeign(d: Doubles, tag: byte, s: bytes): Restored
    requires tag == TYPE_SET || tag == TYPE_ZSET_2 || tag == TYPE_SET_INTSET
  {
    if tag == TYPE_SET_INTSET then
      match DecodeString(s)
      case Malformed => BadPayload
      case Parsed(blob, _) =>
        match DecodeIntset(blob)
        case None => BadPayload
        case Some(members) => Restored(Set(members))
    else
      match DecodeLength(s)
      case Malformed => BadPayload
      case Parsed(count, s1) =>
        if tag == TYPE_SET then
          match DecodeMembers(count, s1, {})
          case None => BadPayload
          case Some(members) => Restored(Set(members))
        else
          match DecodeScores(d, count, s1, map[])
          case None => BadPayload
          case Some(m) => Restored(ZSet(m))
  }

  function DecodeBody(d: Doubles, body: bytes): Restored {
    if body == [] then BadPayload
    else
      var tag, s := body[0], body[1..];
      if tag == TYPE_STRING then
        match DecodeString(s)
        case Malformed => BadPayload
        case Parsed(data, _) => Restored(String(data))
      else if tag == TYPE_LIST_QUICKLIST_2 then
        match DecodeLength(s)
        case Malformed => BadPayload
        case Parsed(count, s1) =>
          match DecodeNodes(count, s1, [])
          case None => BadPayload
          case Some(items) => Restored(List(items))
      else if tag == TYPE_HASH_LISTPACK || tag == TYPE_SET_LISTPACK || tag == TYPE_ZSET_LISTPACK then
        match DecodeItems(s)
        case None => BadPayload
        case Some(items) => BuildCollection(d, tag, items)
      else if tag == TYPE_SET || tag == TYPE_ZSET_2 || tag == TYPE_SET_INTSET then DecodeForeign(d, tag, s)
      else if tag == TYPE_STREAM_LISTPACKS_3 then NotSupported
      else BadPayload
  }

  function BuildCollection(d: Doubles, tag: byte, items: seq<bytes>): Restored {
    if tag == TYPE_HASH_LISTPACK then
      match BuildFields(items, map[])
      case None => BadPayload
      case Some(m) => Restored(Hash(m))
    else if tag == TYPE_SET_LISTPACK then
      match BuildSet(items, {})
      case None => BadPayload
      case Some(members) => Restored(Set(members))
    else
      match BuildScores(d, items, map[])
      case None => BadPayload
      case Some(m) => Restored(ZSet(m))
  }

  predicate TrailerOk(payload: bytes) {
    |payload| >= 10 &&
    var split := |payload| - 10;
    && FromLe(payload[split..split + 2]) <= RDB_MAX_ACCEPT_VERSION
    && FromLe(payload[split + 2..]) == Crc64.Checksum(payload[..split + 2])
  }

  function Restore(d: Doubles, payload: bytes): Restored {
    if TrailerOk(payload) then DecodeBody(d, payload[..|payload| - 10]) else BadPayload
  }

  // ---------------------------------------------------------------------------
  // Restore undoes Dump
  // ---------------------------------------------------------------------------

  function Pick<V>(names: seq<bytes>, m: map<bytes, V>): map<bytes, V> {
    map k | k in names && k in m :: m[k]
  }

  lemma PickAll<V>(names: seq<bytes>, m: map<bytes, V>)
    requires forall k :: k in names <==> k in m
    ensures map[] + Pick(names, m) == m
  {
  }

  lemma {:induction false} FieldsRebuilt(names: seq<bytes>, m: map<bytes, bytes>, acc: map<bytes, bytes>)
    requires forall k :: k in names ==> k in m && IsUtf8(k)
    ensures BuildFields(FieldItems(names, m), acc) == Some(acc + Pick(names, m))
    decreases |names|
  {
    if names == [] {
      assert acc + Pick(names, m) == acc;
    } else {
      var items := FieldItems(names, m);
      assert items[0] == names[0] && items[1] == m[names[0]] && items[2..] == FieldItems(names[1..], m);
      hide FieldItems, IsUtf8, Pick;
      FieldsRebuilt(names[1..], m, acc[names[0] := m[names[0]]]);
      PickFirst(names, m, acc);
    }
  }

  lemma {:induction false} ScoresRebuilt(d: Doubles, names: seq<bytes>, m: map<bytes, Score>, acc: map<bytes, Score>)
    requires Lawful(d) && forall k :: k in names ==> k in m && IsUtf8(k) && ValidScore(d, m[k])
    ensures BuildScores(d, FieldItems(names, ScoreTexts(d, m)), acc) == Some(acc + Pick(names, m))
    decreases |names|
  {
    if names == [] {
      assert acc + Pick(names, m) == acc;
    } else {
      var score := m[names[0]];
      var items := FieldItems(names, ScoreTexts(d, m));
      assert items[0] == names[0] && items[1] == FormatScore(d, score);
      assert items[2..] == FieldItems(names[1..], ScoreTexts(d, m));
      ScoreReadsBack(d, score);
      hide FormatScore, ParseScore, ValidScore, IsUtf8, ScoreTexts, FieldItems, Pick, Lawful;
      ScoresRebuilt(d, names[1..], m, acc[names[0] := score]);
      PickFirst(names, m, acc);
    }
  }

  lemma PickFirst<V>(names: seq<bytes>, m: map<bytes, V>, acc: map<bytes, V>)
    requires names != [] && names[0] in m
    ensures acc[names[0] := m[names[0]]] + Pick(names[1..], m) == acc + Pick(names, m)
  {
  }

  lemma {:induction false} SetRebuilt(names: seq<bytes>, acc: set<bytes>)
    requires forall k :: k in names ==> IsUtf8(k)
    ensures BuildSet(names, acc) == Some(acc + set k | k in names)
    decreases |names|
  {
    if names == [] {
      assert acc + (set k | k in names) == acc;
    } else {
      SetRebuilt(names[1..], acc + {names[0]});
      assert acc + {names[0]} + (set k | k in names[1..]) == acc + set k | k in names;
    }
  }

  lemma HashRebuilt(d: Doubles, m: map<bytes, bytes>)
    requires ValidValue(d, Hash(m))
    ensures BuildCollection(d, TYPE_HASH_LISTPACK, ItemsOf(d, Hash(m))) == Restored(Hash(m))
  {
    hide BuildFields, IsUtf8, Pick, SortedNames, FieldItems;
    var names := SortedNames(m.Keys);
    FieldsRebuilt(names, m, map[]);
    PickAll(names, m);
  }

  lemma MembersRebuilt(d: Doubles, members: set<bytes>)
    requires ValidValue(d, Set(members))
    ensures BuildCollection(d, TYPE_SET_LISTPACK, ItemsOf(d, Set(members))) == Restored(Set(members))
  {
    hide BuildSet, IsUtf8, SortedNames, BuildScores, BuildFields;
    var names := SortedNames(members);
    assert forall k :: k in names <==> k in members;
    assert forall k :: k in names ==> IsUtf8(k);
    SetRebuilt(names, {});
    assert {} + (set k | k in names) == members;
  }

  lemma ZSetRebuilt(d: Doubles, m: map<bytes, Score>)
    requires Lawful(d) && ValidValue(d, ZSet(m))
    ensures BuildCollection(d, TYPE_ZSET_LISTPACK, ItemsOf(d, ZSet(m))) == Restored(ZSet(m))
  {
    hide BuildScores, IsUtf8, ScoreTexts, ValidScore, Pick, SortedNames, FieldItems;
    var names := SortedNames(m.Keys);
    ScoresRebuilt(d, names, m, map[]);
    PickAll(names, m);
  }

  lemma CollectionRebuilt(d: Doubles, v: Value)
    requires Lawful(d) && ValidValue(d, v) && (v.Hash? || v.Set? || v.ZSet?)
    ensures BuildCollection(d, TypeTag(v), ItemsOf(d, v)) == Restored(v)
  {
    hide BuildCollection, ItemsOf, ValidValue;
    match v {
      case Hash(m) => HashRebuilt(d, m);
      case Set(members) => MembersRebuilt(d, members);
      case ZSet(m) => ZSetRebuilt(d, m);
    }
  }

  lemma SealedTrailer(body: bytes)
    ensures
      var payload := Seal(body);
      && |payload| == |body| + 10
      && payload[..|payload| - 10] == body
      && TrailerOk(payload)
  {
    hide LeBytes, FromLe;
    Pow256Values();
    var hashed := body + LeBytes(RDB_VERSION, 2);
    var payload := Seal(body);
    Crc64.CrcBound(Crc64.POLY, 0, hashed);
    LeRoundTrip(RDB_VERSION, 2);
    LeRoundTrip(Crc64.Checksum(hashed), 8);
    assert payload[..|body|] == body;
    assert payload[..|body| + 2] == hashed;
    assert payload[|body|..|body| + 2] == LeBytes(RDB_VERSION, 2);
    assert payload[|body| + 2..] == LeBytes(Crc64.Checksum(hashed), 8);
  }

  /** What a listpack-based body decodes to, whatever the size of its listpack. */
  lemma BlobReadsBack(d: Doubles, v: Value)
    requires |Blob(d, v)| < U64
    ensures DecodeString(EncodeString(Blob(d, v))) == Parsed(Blob(d, v), [])
  {
    hide DecodeString, EncodeString, Blob;
    StringReadsBack(Blob(d, v), []);
    assert EncodeString(Blob(d, v)) + [] == EncodeString(Blob(d, v));
  }

  lemma ListBody(d: Doubles, items: seq<bytes>)
    requires |Blob(d, List(items))| < U64
    ensures DecodeBody(d, DumpBody(d, List(items))) ==
            match Listpack.Decode(Blob(d, List(items))) {
              case None => BadPayload
              case Some(found) => Restored(List(found))
            }
  {
    hide DecodeLength, EncodeLength, DecodeString, EncodeString, Blob, DecodeNodes, DecodeItems, DecodeForeign, BuildCollection;
    var blob := Blob(d, List(items));
    var s1 := EncodeLength(NODE_PACKED) + EncodeString(blob);
    BlobReadsBack(d, List(items));
    LengthReadsBack(1, s1);
    OneNode(blob);
    assert DumpBody(d, List(items))[0] == TYPE_LIST_QUICKLIST_2;
    assert DumpBody(d, List(items))[1..] == EncodeLength(1) + s1;
    hide DumpBody;
  }

  /** A single packed node holds the items of its listpack. */
  lemma OneNode(blob: bytes)
    requires DecodeString(EncodeString(blob)) == Parsed(blob, [])
    ensures DecodeNodes(1, EncodeLength(NODE_PACKED) + EncodeString(blob), []) == Listpack.Decode(blob)
  {
    hide DecodeLength, EncodeLength, DecodeString, EncodeString;
    LengthReadsBack(NODE_PACKED, EncodeString(blob));
    if Listpack.Decode(blob).Some? {
      assert [] + Listpack.Decode(blob).value == Listpack.Decode(blob).value;
    }
  }

  lemma CollectionBody(d: Doubles, v: Value)
    requires v.Hash? || v.Set? || v.ZSet?
    requires |Blob(d, v)| < U64
    ensures DecodeBody(d, DumpBody(d, v)) ==
            match Listpack.Decode(Blob(d, v)) {
              case None => BadPayload
              case Some(items) => BuildCollection(d, TypeTag(v), items)
            }
  {
    hide DecodeString, EncodeString, Blob, BuildCollection, DecodeNodes;
    BlobReadsBack(d, v);
    assert DumpBody(d, v)[1..] == EncodeString(Blob(d, v));
  }

  lemma BodyReadsBack(d: Doubles, v: Value)
    requires Lawful(d) && !v.Stream? && ValidValue(d, v)
    requires if v.String? then |v.data| < U64 else |Blob(d, v)| < U64
    ensures v.String? || |Blob(d, v)| < Listpack.U32 ==> DecodeBody(d, DumpBody(d, v)) == Restored(v)
    ensures !v.String? && |Blob(d, v)| >= Listpack.U32 ==> DecodeBody(d, DumpBody(d, v)) == BadPayload
  {
    hide DecodeBody, DumpBody, ItemsOf, BuildCollection;
    if v.String? {
      StringBody(d, v.data);
    } else {
      Listpack.RoundTrip(ItemsOf(d, v), |ItemsOf(d, v)|);
      if v.List? {
        ListBody(d, v.items);
        ListItems(d, v.items);
      } else {
        CollectionBody(d, v);
        CollectionRebuilt(d, v);
      }
    }
  }

  lemma ListItems(d: Doubles, items: seq<bytes>)
    ensures ItemsOf(d, List(items)) == items
  {
  }

  lemma StringBody(d: Doubles, data: bytes)
    requires |data| < U64
    ensures DecodeBody(d, DumpBody(d, String(data))) == Restored(String(data))
  {
    hide DecodeString, EncodeString;
    StringReadsBack(data, []);
    assert EncodeString(data) + [] == EncodeString(data);
    assert DumpBody(d, String(data))[1..] == EncodeString(data);
  }

  /** RESTORE undoes DUMP for a string always, and for a collection exactly when its listpack is
    * shorter than 2^32 bytes; a longer one comes back as a bad payload.
    */
  lemma RestoreAfterDump(d: Doubles, v: Value)
    requires Lawful(d) && !v.Stream? && ValidValue(d, v)
    requires if v.String? then |v.data| < U64 else |Blob(d, v)| < U64
    ensures Restore(d, Dump(d, v).value) == Restored(v) <==> v.String? || |Blob(d, v)| < Listpack.U32
    ensures Restore(d, Dump(d, v).value) == Restored(v) || Restore(d, Dump(d, v).value) == BadPayload
  {
    hide DecodeBody, DumpBody, TrailerOk, Seal, Blob;
    SealedTrailer(DumpBody(d, v));
    BodyReadsBack(d, v);
  }

  /** A payload whose trailer checks out stops doing so when up to eight consecutive bytes of its
    * body or version change.
    */
  lemma DamageIsRejected(d: Doubles, payload: bytes, damaged: bytes, at: nat, n: nat)
    requires TrailerOk(payload)
    requires |damaged| == |payload| && n <= 8 && at + n <= |payload| - 8
    requires damaged != payload
    requires damaged[..at] == payload[..at] && damaged[at + n..] == payload[at + n..]
    ensures Restore(d, damaged) == BadPayload
  {
    hide DecodeBody, FromLe;
    var end := |payload| - 8;
    var pre, w, w', post := payload[..at], payload[at..at + n], damaged[at..at + n], payload[at + n..end];
    assert payload == pre + w + payload[at + n..];
    assert damaged == pre + w' + payload[at + n..];
    assert payload[..end] == pre + w + post;
    assert damaged[at + n..end] == damaged[at + n..][..end - at - n];
    assert damaged[..end] == pre + w' + post;
    assert damaged[end..] == damaged[at + n..][end - at - n..] == payload[end..];
    Crc64.BurstDetected(Crc64.POLY, 0, pre, w, w', post);
  }

  // ---------------------------------------------------------------------------
  // Forms written by other servers
  // ---------------------------------------------------------------------------

  function PackInts(ns: seq<int>, k: nat): bytes {
    if ns == [] then [] else LeBytes(Wrap(ns[0], k), k) + PackInts(ns[1..], k)
  }

  function TextsOf(ns: seq<int>): set<bytes> {
    if ns == [] then {} else {ToDec(ns[0])} + TextsOf(ns[1..])
  }

  lemma {:induction false} PackedIntsReadBack(ns: seq<int>, k: nat)
    requires k > 0 && forall i :: 0 <= i < |ns| ==> FitsSigned(ns[i], k)
    ensures |PackInts(ns, k)| == |ns| * k
    ensures PackedInts(PackInts(ns, k), k) == TextsOf(ns)
  {
    if ns != [] {
      var first, rest := LeBytes(Wrap(ns[0], k), k), PackInts(ns[1..], k);
      PackedIntsReadBack(ns[1..], k);
      assert |ns| * k == (|ns| - 1) * k + k;
      hide LeBytes, FromLe, Wrap, Unwrap, ToDec;
      LeRoundTrip(Wrap(ns[0], k), k);
      UnwrapWrap(ns[0], k);
      assert (first + rest)[..k] == first && (first + rest)[k..] == rest;
    }
  }

  /** An intset of signed 2-, 4- or 8-byte integers is read as the set of their decimal texts. */
  lemma IntsetReadsBack(ns: seq<int>, k: nat)
    requires IsIntWidth(k) && |ns| < 0x1_0000_0000
    requires forall i :: 0 <= i < |ns| ==> FitsSigned(ns[i], k)
    ensures DecodeIntset(LeBytes(k, 4) + LeBytes(|ns|, 4) + PackInts(ns, k)) == Some(TextsOf(ns))
  {
    var blob := LeBytes(k, 4) + LeBytes(|ns|, 4) + PackInts(ns, k);
    PackedIntsReadBack(ns, k);
    Pow256Values();
    hide LeBytes, FromLe, PackedInts, PackInts, TextsOf, FitsSigned;
    LeRoundTrip(k, 4);
    LeRoundTrip(|ns|, 4);
    assert blob[..4] == LeBytes(k, 4) && blob[4..8] == LeBytes(|ns|, 4) && blob[8..] == PackInts(ns, k);
  }

  function EncodeMembers(names: seq<bytes>): bytes {
    if names == [] then [] else EncodeString(names[0]) + EncodeMembers(names[1..])
  }

  lemma {:induction false} MembersReadBack(names: seq<bytes>, acc: set<bytes>)
    requires forall i :: 0 <= i < |names| ==> IsUtf8(names[i]) && |names[i]| < U64
    ensures DecodeMembers(|names|, EncodeMembers(names), acc) == Some(acc + set m | m in names)
    decreases |names|
  {
    hide DecodeString, EncodeString, IsUtf8;
    if names == [] {
      assert acc + (set m | m in names) == acc;
    } else {
      StringReadsBack(names[0], EncodeMembers(names[1..]));
      MembersReadBack(names[1..], acc + {names[0]});
      assert acc + {names[0]} + (set m | m in names[1..]) == acc + set m | m in names;
    }
  }

  /** A set in the classic form, a length and one string per member, is restored as that set. */
  lemma ClassicSetReadsBack(d: Doubles, names: seq<bytes>)
    requires |names| < U64 && forall i :: 0 <= i < |names| ==> IsUtf8(names[i]) && |names[i]| < U64
    ensures DecodeBody(d, [TYPE_SET] + (EncodeLength(|names|) + EncodeMembers(names))) == Restored(Set(set m | m in names))
  {
    ClassicSetBody(d, names);
    TaggedBody(d, TYPE_SET, EncodeLength(|names|) + EncodeMembers(names));
    hide DecodeForeign, DecodeBody, EncodeLength, EncodeMembers, IsUtf8;
  }

  lemma TaggedBody(d: Doubles, tag: byte, s: bytes)
    requires tag == TYPE_SET || tag == TYPE_ZSET_2 || tag == TYPE_SET_INTSET
    ensures DecodeBody(d, [tag] + s) == DecodeForeign(d, tag, s)
  {
    hide DecodeForeign, DecodeLength, DecodeString, BuildCollection, DecodeNodes, DecodeItems;
    assert ([tag] + s)[1..] == s;
  }

  lemma ClassicSetBody(d: Doubles, names: seq<bytes>)
    requires |names| < U64 && forall i :: 0 <= i < |names| ==> IsUtf8(names[i]) && |names[i]| < U64
    ensures DecodeForeign(d, TYPE_SET, EncodeLength(|names|) + EncodeMembers(names)) == Restored(Set(set m | m in names))
  {
    hide DecodeLength, EncodeLength, DecodeMembers, EncodeMembers, IsUtf8, DecodeString;
    LengthReadsBack(|names|, EncodeMembers(names));
    MembersReadBack(names, {});
    assert {} + (set m | m in names) == set m | m in names;
  }
}
