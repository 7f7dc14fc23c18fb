/** The formats as bytes. The laws elsewhere relate writers to readers, so they would survive a change
  * made to both alike; here each layout is stated by itself, byte by byte, as the formats fix it.
  */
module Wire {
  import opened Bytes
  import opened Values
  import opened Decimal
  import opened Ordered
  import Crc64
  import CrcWords
  import Lzf
  import Listpack
  import Rdb
  import Resp
  import Hll
  import HllSketch
  import Dynamo

  // ---------------------------------------------------------------------------
  // Byte order
  // ---------------------------------------------------------------------------

  /** The number that bytes denote with the least significant one first. */
  function Little(b: seq<byte>): nat {
    if b == [] then 0 else b[0] as int + 0x100 * Little(b[1..])
  }

  /** The same, with the most significant one first. */
  function Big(b: seq<byte>): nat {
    Little(Reversed(b))
  }

  lemma {:induction false} LittleOfLe(n: nat, k: nat)
    requires n < Pow256(k)
    ensures Little(LeBytes(n, k)) == n
  {
    if k > 0 {
      LittleOfLe(n / 256, k - 1);
      assert LeBytes(n, k)[1..] == LeBytes(n / 256, k - 1);
    }
  }

  lemma {:induction false} ReversedBe(n: nat, k: nat)
    ensures Reversed(BeBytes(n, k)) == LeBytes(n, k)
  {
    if k > 0 {
      ReversedBe(n / 256, k - 1);
      assert Reversed(BeBytes(n, k)) == [n % 256] + Reversed(BeBytes(n / 256, k - 1));
    }
  }

  lemma BigOfBe(n: nat, k: nat)
    requires n < Pow256(k)
    ensures Big(BeBytes(n, k)) == n
  {
    ReversedBe(n, k);
    LittleOfLe(n, k);
  }

  /** Two's complement in k bytes. */
  lemma LittleOfWrap(n: int, k: nat)
    requires FitsSigned(n, k)
    ensures Little(LeBytes(Wrap(n, k), k)) == if n < 0 then n + Pow256(k) else n
  {
    LittleOfLe(Wrap(n, k), k);
    UnwrapWrap(n, k);
    hide Little, LeBytes;
  }

  // ---------------------------------------------------------------------------
  // RDB lengths and strings
  // ---------------------------------------------------------------------------

  /** A length is one byte below 64, two bytes tagged 01 below 2^14, and else 0x80 with four bytes or
    * 0x81 with eight, the most significant byte first.
    */
  lemma RdbLengthBytes(n: nat)
    requires n < U64
    ensures
      var b := Rdb.EncodeLength(n);
      && (n < 0x40 ==> b == [n])
      && (0x40 <= n < 0x4000 ==> |b| == 2 && 0x40 <= b[0] < 0x80 && Big(b) == 0x4000 + n)
      && (0x4000 <= n < 0x1_0000_0000 ==> |b| == 5 && b[0] == 0x80 && Big(b[1..]) == n)
      && (0x1_0000_0000 <= n ==> |b| == 9 && b[0] == 0x81 && Big(b[1..]) == n)
  {
    Pow256Values();
    var b := Rdb.EncodeLength(n);
    if n < 0x40 {
    } else if n < 0x4000 {
      TwoBytes(b);
    } else if n < 0x1_0000_0000 {
      assert b[1..] == BeBytes(n, 4);
      BigOfBe(n, 4);
    } else {
      assert b[1..] == BeBytes(n, 8);
      BigOfBe(n, 8);
    }
  }

  lemma TwoBytes(b: seq<byte>)
    requires |b| == 2
    ensures Little(b) == b[0] as int + 0x100 * b[1] as int && Big(b) == 0x100 * b[0] as int + b[1] as int
  {
    LittlePair(b[0], b[1]);
    LittlePair(b[1], b[0]);
    hide Little;
    assert b == [b[0], b[1]] && Reversed(b) == [b[1], b[0]];
  }

  lemma LittlePair(x: byte, y: byte)
    ensures Little([x, y]) == x as int + 0x100 * y as int
  {
    var last: seq<byte>, pair: seq<byte> := [y], [x, y];
    assert last[1..] == [] && pair[1..] == last;
    assert Little(last) == y as int;
  }

  /** The decimal text of an integer of at most 32 bits is stored as that integer: 0xc0 and one byte,
    * 0xc1 and two, or 0xc2 and four, the smallest that fits, in two's complement, the least
    * significant byte first.
    */
  lemma RdbIntegerBytes(n: int)
    requires -0x8000_0000 <= n < 0x8000_0000
    ensures
      var b := Rdb.EncodeString(ToDec(n));
      if -0x80 <= n < 0x80 then b == [0xc0, if n < 0 then n + 0x100 else n]
      else if -0x8000 <= n < 0x8000 then |b| == 3 && b[0] == 0xc1 && Little(b[1..]) == if n < 0 then n + 0x1_0000 else n
      else |b| == 5 && b[0] == 0xc2 && Little(b[1..]) == if n < 0 then n + 0x1_0000_0000 else n
  {
    Pow256Values();
    TryParseExact(ToDec(n), n);
    var k := if -0x80 <= n < 0x80 then 1 else if -0x8000 <= n < 0x8000 then 2 else 4;
    LittleOfWrap(n, k);
    hide ToDec, Rdb.EncodeLength, TryParseAsciiInt;
    var b := Rdb.EncodeString(ToDec(n));
    assert b[1..] == LeBytes(Wrap(n, k), k);
    if k == 1 {
      assert b[1..][1..] == [];
    }
  }

  /** Any other text is stored as it is, behind its length. */
  lemma RdbTextBytes(data: bytes)
    requires forall n: int :: -0x8000_0000 <= n < 0x8000_0000 ==> data != ToDec(n)
    ensures Rdb.EncodeString(data) == Rdb.EncodeLength(|data|) + data
  {
    Pow256Values();
    hide ToDec, Rdb.EncodeLength;
    match TryParseAsciiInt(data) {
      case Some(n) => TryParseExact(data, n);
      case None =>
    }
  }

  // ---------------------------------------------------------------------------
  // Listpacks
  // ---------------------------------------------------------------------------

  /** Integers in listpacks: seven bits as they are, thirteen behind 110, and 16, 24, 32 or 64 behind
    * 0xf1 to 0xf4, the smallest that fits, in two's complement.
    */
  lemma ListpackIntegerBytes(n: int)
    requires IsI64(n)
    ensures
      var b := Listpack.EncodeContent(ToDec(n));
      if 0 <= n < 0x80 then b == [n]
      else if -0x1000 <= n < 0x1000 then |b| == 2 && 0xc0 <= b[0] < 0xe0 && Big(b) == 0xc000 + if n < 0 then n + 0x2000 else n
      else if -0x8000 <= n < 0x8000 then |b| == 3 && b[0] == 0xf1 && Little(b[1..]) == if n < 0 then n + 0x1_0000 else n
      else if -0x80_0000 <= n < 0x80_0000 then |b| == 4 && b[0] == 0xf2 && Little(b[1..]) == if n < 0 then n + 0x100_0000 else n
      else if -0x8000_0000 <= n < 0x8000_0000 then |b| == 5 && b[0] == 0xf3 && Little(b[1..]) == if n < 0 then n + 0x1_0000_0000 else n
      else |b| == 9 && b[0] == 0xf4 && Little(b[1..]) == if n < 0 then n + U64 else n
  {
    Pow256Values();
    TryParseExact(ToDec(n), n);
    hide ToDec, TryParseAsciiInt, Little;
    var b := Listpack.EncodeContent(ToDec(n));
    if -0x1000 <= n < 0x1000 {
      if !(0 <= n < 0x80) {
        ThirteenBits(n);
        TwoBytes(b);
      }
    } else {
      var k := if -0x8000 <= n < 0x8000 then 2 else if -0x80_0000 <= n < 0x80_0000 then 3
               else if -0x8000_0000 <= n < 0x8000_0000 then 4 else 8;
      LittleOfWrap(n, k);
      assert b[1..] == LeBytes(Wrap(n, k), k);
    }
  }

  lemma ThirteenBits(n: int)
    requires -0x1000 <= n < 0x1000
    ensures 0x100 * (n % 8192 / 256) + n % 256 == if n < 0 then n + 0x2000 else n
    ensures 0 <= n % 8192 / 256 < 32
  {
    Listpack.ThirteenBits(n);
  }

  /** Other text in listpacks: up to 63 bytes behind 10, up to 4095 behind 1110, and else behind 0xf0
    * with a 32-bit length.
    */
  lemma ListpackTextBytes(data: bytes)
    requires forall n: int :: IsI64(n) ==> data != ToDec(n)
    ensures
      var b, len := Listpack.EncodeContent(data), |data|;
      if len < 0x40 then b == [0x80 + len] + data
      else if len < 0x1000 then |b| == len + 2 && 0xe0 <= b[0] < 0xf0 && Big(b[..2]) == 0xe000 + len && b[2..] == data
      else |b| == len + 5 && b[0] == 0xf0 && Big(b[1..5]) == len % 0x1_0000_0000 && b[5..] == data
  {
    Pow256Values();
    hide ToDec;
    assert TryParseAsciiInt(data).None? by {
      if TryParseAsciiInt(data).Some? {
        TryParseExact(data, TryParseAsciiInt(data).value);
      }
    }
    hide TryParseAsciiInt;
    var b, len := Listpack.EncodeContent(data), |data|;
    if 0x40 <= len < 0x1000 {
      TwoBytes(b[..2]);
    } else if len >= 0x1000 {
      BigOfBe(len % 0x1_0000_0000, 4);
      assert b[1..5] == BeBytes(len % 0x1_0000_0000, 4);
    }
  }

  /** A back length is written in groups of seven bits, the highest first, every byte but the first
    * marked by its top bit.
    */
  function Septets(b: seq<byte>): nat {
    if b == [] then 0 else 128 * Septets(b[..|b| - 1]) + b[|b| - 1] as int % 128
  }

  lemma {:induction false} GroupsAreSeptets(len: nat, k: nat)
    requires k > 0 && len < Listpack.Pow128(k)
    ensures
      var b := Listpack.Groups(len, k);
      |b| == k && Septets(b) == len && b[0] < 0x80 && forall i :: 0 < i < k ==> b[i] >= 0x80
    decreases k
  {
    var b := Listpack.Groups(len, k);
    if k > 1 {
      GroupsAreSeptets(len / 128, k - 1);
      assert b[..k - 1] == Listpack.Groups(len / 128, k - 1);
    } else {
      assert b[..0] == [] && Listpack.Pow128(1) == 128;
    }
  }

  lemma BackLengthBytes(len: nat)
    requires len < 0x8_0000_0000
    ensures
      var b := Listpack.Backlen(len);
      && |b| == (if len <= 127 then 1 else if len < 16383 then 2 else if len < 2097151 then 3 else if len < 268435455 then 4 else 5)
      && Septets(b) == len && b[0] < 0x80 && forall i :: 0 < i < |b| ==> b[i] >= 0x80
  {
    Listpack.BacklenIsGroups(len);
    assert Listpack.Pow128(2) == 0x4000 && Listpack.Pow128(3) == 0x20_0000 && Listpack.Pow128(4) == 0x1000_0000 && Listpack.Pow128(5) == 0x8_0000_0000;
    GroupsAreSeptets(len, Listpack.BacklenBytes(len));
  }

  /** Contents, each with its back length. */
  function Entries(items: seq<bytes>): seq<byte> {
    if items == [] then []
    else Listpack.EncodeContent(items[0]) + Listpack.Backlen(|Listpack.EncodeContent(items[0])|) + Entries(items[1..])
  }

  lemma {:induction false} EntriesAreEncoded(items: seq<bytes>)
    ensures Entries(items) == Listpack.EncodeEntries(items)
  {
    hide Listpack.EncodeContent, Listpack.Backlen;
    if items != [] {
      EntriesAreEncoded(items[1..]);
    }
  }

  /** A listpack: its size in four bytes and its element count in two, the least significant first and
    * the count held at 65535, then the entries, then 0xff.
    */
  lemma ListpackBytes(items: seq<bytes>, count: nat)
    ensures
      var b, n := Listpack.Encode(items, count), |Listpack.Encode(items, count)|;
      && n >= 7 && Little(b[..4]) == n % 0x1_0000_0000
      && Little(b[4..6]) == (if count > 0xffff then 0xffff else count)
      && b[6..n - 1] == Entries(items) && b[n - 1] == 0xff
  {
    Pow256Values();
    EntriesAreEncoded(items);
    hide Listpack.EncodeEntries, Entries, Little, LeBytes;
    var b, n := Listpack.Encode(items, count), |Listpack.Encode(items, count)|;
    var c := if count > 0xffff then 0xffff else count;
    LittleOfLe(n % 0x1_0000_0000, 4);
    LittleOfLe(c, 2);
    assert b[..4] == LeBytes(n % 0x1_0000_0000, 4) && b[4..6] == LeBytes(c, 2);
  }

  // ---------------------------------------------------------------------------
  // Compressed strings
  // ---------------------------------------------------------------------------

  /** A literal run is its length less one, below 32, and the bytes. A back reference has its length
    * less two in the top three bits and the high bits of its offset below them; seven there means
    * nine more than the next byte says. The low byte of the offset comes last.
    */
  lemma TokenBytes(t: Lzf.Token)
    requires Lzf.ValidToken(t)
    ensures
      var b := Lzf.EncodeToken(t);
      match t
      case Literal(data) => |b| == |data| + 1 && b[0] < 0x20 && b[0] as int + 1 == |data| && b[1..] == data
      case BackRef(offset, length) =>
        && b[0] >= 0x20 && |b| == (if length < 9 then 2 else 3)
        && (length < 9 ==> b[0] as int / 32 + 2 == length < 9)
        && (length >= 9 ==> b[0] as int / 32 == 7 && b[1] as int + 9 == length)
        && 256 * (b[0] as int % 32) + b[|b| - 1] as int == offset
  {
  }

  /** One byte, and three more copies of it, from four bytes. */
  lemma RunOfOneByte(x: byte)
    ensures Lzf.DecodeFrom([0x00, x, 0x20, 0x00], []) == Some([x, x, x, x])
  {
    var literal, copy := Lzf.Literal([x]), Lzf.BackRef(0, 3);
    var input: seq<byte>, rest: seq<byte>, r: seq<byte> := [0x00, x, 0x20, 0x00], [0x20, 0x00], [x, x, x, x];
    assert input == Lzf.EncodeToken(literal) + rest && rest == Lzf.EncodeToken(copy) + [];
    Lzf.FrontOfEncoding(literal, rest);
    Lzf.FrontOfEncoding(copy, []);
    Lzf.ExtendUnique([x], 0, 3, r);
    hide Lzf.Front, Lzf.Extend, Lzf.EncodeToken;
    assert input[2..] == rest && rest[2..] == [] && [] + [x] == [x];
    assert Lzf.DecodeFrom(rest, [x]) == Some(r);
  }

  // ---------------------------------------------------------------------------
  // Payloads
  // ---------------------------------------------------------------------------

  /** The type byte: 0 for strings, 18 for lists, 20 for sets, 17 for sorted sets and 16 for hashes. */
  lemma BodyTags(d: Rdb.Doubles, v: Value)
    requires !v.Stream?
    ensures
      var body := Rdb.DumpBody(d, v);
      body != [] && body[0] == match v
                               case String(_) => 0
                               case List(_) => 18
                               case Set(_) => 20
                               case ZSet(_) => 17
                               case _ => 16
  {
    hide Rdb.EncodeString, Rdb.Blob;
  }

  /** RESTORE reads those types and also the classic sets, binary sorted sets and intsets, 2, 5 and 11;
    * streams, 21, are not supported and every other type is a bad payload.
    */
  lemma ReadableTags(d: Rdb.Doubles, tag: byte, s: bytes)
    ensures
      var r := Rdb.DecodeBody(d, [tag] + s);
      && (r.Restored? ==>
            && (r.value.String? <==> tag == 0) && (r.value.List? <==> tag == 18)
            && (r.value.Set? <==> tag == 20 || tag == 2 || tag == 11)
            && (r.value.ZSet? <==> tag == 17 || tag == 5) && (r.value.Hash? <==> tag == 16))
      && (r.NotSupported? <==> tag == 21)
      && (tag !in {0, 2, 5, 11, 16, 17, 18, 20, 21} ==> r.BadPayload?)
  {
    hide Rdb.DecodeString, Rdb.DecodeLength, Rdb.DecodeNodes, Rdb.DecodeItems, Rdb.BuildFields, Rdb.BuildScores,
      Rdb.BuildSet, Rdb.DecodeMembers, Rdb.DecodeScores, Rdb.DecodeIntset;
  }

  /** Behind the body come the version, 11, in two bytes and the checksum of all that in eight. */
  lemma TrailerBytes(d: Rdb.Doubles, v: Value)
    requires !v.Stream?
    ensures
      var p := Rdb.Dump(d, v).value;
      var n := |p| - 10;
      && n >= 0 && p[..n] == Rdb.DumpBody(d, v) && p[n..n + 2] == [11, 0]
      && Little(p[n + 2..]) == Crc64.Checksum(p[..n + 2])
  {
    var body := Rdb.DumpBody(d, v);
    hide Rdb.DumpBody, Crc64.Checksum, Little;
    assert LeBytes(11, 2) == [11, 0];
    var hashed := body + [11, 0];
    ChecksumBound(hashed);
    Pow256Values();
    LittleOfLe(Crc64.Checksum(hashed), 8);
    hide LeBytes;
    var p := Rdb.Dump(d, v).value;
    assert p == hashed + LeBytes(Crc64.Checksum(hashed), 8);
    assert p[..|body| + 2] == hashed;
  }

  lemma ChecksumBound(data: bytes)
    ensures Crc64.Checksum(data) < U64
  {
    Crc64.CrcBound(Crc64.POLY, 0, data);
  }

  /** A payload is looked into exactly when its version is at most 12 and its checksum is right. */
  lemma TrailerIsChecked(d: Rdb.Doubles, p: bytes)
    ensures
      var n := |p| - 10;
      Rdb.Restore(d, p) ==
      if n >= 0 && Little(p[n..n + 2]) <= 12 && Little(p[n + 2..]) == Crc64.Checksum(p[..n + 2])
      then Rdb.DecodeBody(d, p[..n]) else Rdb.BadPayload
  {
    hide Rdb.DecodeBody, Crc64.Checksum;
    if |p| >= 10 {
      var n := |p| - 10;
      LittleIsFromLe(p[n..n + 2]);
      LittleIsFromLe(p[n + 2..]);
      hide Little, FromLe;
    }
  }

  lemma {:induction false} LittleIsFromLe(b: seq<byte>)
    ensures Little(b) == FromLe(b)
  {
    if b != [] {
      LittleIsFromLe(b[1..]);
    }
  }

  // ---------------------------------------------------------------------------
  // Payloads that Redis writes
  // ---------------------------------------------------------------------------

  /** Text that starts with neither a digit nor a minus sign is no decimal. */
  lemma NotDecimal(data: bytes)
    requires data == [] || !(IsDigit(data[0]) || data[0] == MINUS)
    ensures forall n: int :: data != ToDec(n)
  {
  }

  lemma HelloBody(d: Rdb.Doubles, text: bytes)
    requires |text| == 11 && text[0] == 0x68
    ensures Rdb.DumpBody(d, String(text)) == [0x00, 0x0b] + text
  {
    NotDecimal(text);
    hide ToDec, TryParseAsciiInt, Rdb.Blob;
    RdbTextBytes(text);
  }

  lemma HelloSeal(body: bytes)
    requires body + [0x0b, 0x00] == CrcWords.HELLO
    ensures Rdb.Seal(body) == CrcWords.HELLO + [0x62, 0x23, 0xf4, 0xca, 0x5b, 0x58, 0x49, 0xbd]
  {
    CrcWords.ChecksumOfHello();
    HelloTrailer();
    hide Crc64.Checksum, CrcWords.HELLO;
    assert LeBytes(Rdb.RDB_VERSION, 2) == [0x0b, 0x00];
    hide LeBytes;
  }

  lemma HelloTrailer()
    ensures LeBytes(0xbd49_585b_caf4_2362, 8) == [0x62, 0x23, 0xf4, 0xca, 0x5b, 0x58, 0x49, 0xbd]
  {
    LeStep(0xbd, 0);
    LeStep(0xbd49, 1);
    LeStep(0xbd49_58, 2);
    LeStep(0xbd49_585b, 3);
    LeStep(0xbd49_585b_ca, 4);
    LeStep(0xbd49_585b_caf4, 5);
    LeStep(0xbd49_585b_caf4_23, 6);
    LeStep(0xbd49_585b_caf4_2362, 7);
    hide LeBytes;
  }

  lemma LeStep(n: nat, k: nat)
    ensures LeBytes(n, k + 1) == [n % 256] + LeBytes(n / 256, k) && LeBytes(n, 0) == []
  {
  }

  lemma Appended(trailer: bytes)
    requires trailer == [0x62, 0x23, 0xf4, 0xca, 0x5b, 0x58, 0x49, 0xbd]
    ensures CrcWords.HELLO + trailer ==
            [0x00, 0x0b, 0x68, 0x65, 0x6c, 0x6c, 0x6f, 0x20, 0x77, 0x6f, 0x72, 0x6c, 0x64,
             0x0b, 0x00, 0x62, 0x23, 0xf4, 0xca, 0x5b, 0x58, 0x49, 0xbd]
  {
  }

  /** DUMP of the string "hello world". */
  lemma DumpOfHello(d: Rdb.Doubles)
    ensures Rdb.Dump(d, String([0x68, 0x65, 0x6c, 0x6c, 0x6f, 0x20, 0x77, 0x6f, 0x72, 0x6c, 0x64])) ==
            Some([0x00, 0x0b, 0x68, 0x65, 0x6c, 0x6c, 0x6f, 0x20, 0x77, 0x6f, 0x72, 0x6c, 0x64,
                  0x0b, 0x00, 0x62, 0x23, 0xf4, 0xca, 0x5b, 0x58, 0x49, 0xbd])
  {
    hide Rdb.DumpBody, Rdb.Seal, Crc64.Checksum, LeBytes;
    var text: bytes := [0x68, 0x65, 0x6c, 0x6c, 0x6f, 0x20, 0x77, 0x6f, 0x72, 0x6c, 0x64];
    HelloBody(d, text);
    assert [0x00, 0x0b] + text + [0x0b, 0x00] == CrcWords.HELLO;
    HelloSeal([0x00, 0x0b] + text);
    assert Rdb.Dump(d, String(text)) == Some(CrcWords.HELLO + [0x62, 0x23, 0xf4, 0xca, 0x5b, 0x58, 0x49, 0xbd]);
    Appended([0x62, 0x23, 0xf4, 0xca, 0x5b, 0x58, 0x49, 0xbd]);
  }

  /** RESTORE of that payload. */
  lemma RestoreOfHello(d: Rdb.Doubles)
    requires Rdb.Lawful(d)
    ensures Rdb.Restore(d, [0x00, 0x0b, 0x68, 0x65, 0x6c, 0x6c, 0x6f, 0x20, 0x77, 0x6f, 0x72, 0x6c, 0x64,
                            0x0b, 0x00, 0x62, 0x23, 0xf4, 0xca, 0x5b, 0x58, 0x49, 0xbd]) ==
            Rdb.Restored(String([0x68, 0x65, 0x6c, 0x6c, 0x6f, 0x20, 0x77, 0x6f, 0x72, 0x6c, 0x64]))
  {
    hide Rdb.Restore, Rdb.Dump, Rdb.Lawful, Rdb.Blob;
    DumpOfHello(d);
    Rdb.RestoreAfterDump(d, String([0x68, 0x65, 0x6c, 0x6c, 0x6f, 0x20, 0x77, 0x6f, 0x72, 0x6c, 0x64]));
  }

  /** One text of at most 63 bytes in a listpack. */
  lemma TextEntry(data: bytes, more: seq<bytes>)
    requires data != [] && |data| < 64 && !IsDigit(data[0]) && data[0] != MINUS
    ensures Entries([data] + more) == [0x80 + |data|] + data + [|data| + 1] + Entries(more)
  {
    NotDecimal(data);
    ListpackTextBytes(data);
    assert ([data] + more)[1..] == more;
    hide Listpack.EncodeContent;
  }

  /** A small listpack, and how it is stored. */
  lemma SmallBlob(items: seq<bytes>, count: nat, entries: bytes)
    requires Entries(items) == entries && |entries| < 38 && count < 0x100
    ensures
      var blob := Listpack.Encode(items, count);
      && blob == [|entries| + 7, 0, 0, 0, count, 0] + entries + [0xff]
      && Rdb.EncodeString(blob) == [|entries| + 7] + blob
  {
    EntriesAreEncoded(items);
    hide Entries, Listpack.EncodeEntries, ToDec, TryParseAsciiInt;
    LeSmall(|entries| + 7);
    LeSmall(count);
    var blob := Listpack.Encode(items, count);
    assert blob == [|entries| + 7, 0, 0, 0, count, 0] + entries + [0xff];
    NotDecimal(blob);
    RdbTextBytes(blob);
  }

  lemma LeSmall(n: nat)
    requires n < 0x100
    ensures LeBytes(n, 2) == [n, 0] && LeBytes(n, 4) == [n, 0, 0, 0]
  {
    hide LeBytes;
    LeStep(0, 0);
    LeStep(0, 1);
    assert LeBytes(0, 1) == [0] && LeBytes(0, 2) == [0, 0];
    LeStep(0, 2);
    LeStep(n, 1);
    LeStep(n, 3);
  }

  /** The body of the DUMP of the list "a", "bb", "ccc". */
  lemma DumpOfList(d: Rdb.Doubles)
    ensures
      var entries: bytes := [0x81, 0x61, 0x02, 0x82, 0x62, 0x62, 0x03, 0x83, 0x63, 0x63, 0x63, 0x04];
      Rdb.DumpBody(d, List([[0x61], [0x62, 0x62], [0x63, 0x63, 0x63]])) ==
      [0x12, 0x01, 0x02, 0x13] + ([0x13, 0, 0, 0, 0x03, 0] + entries + [0xff])
  {
    hide Entries, Listpack.Encode, Rdb.EncodeString, ToDec, TryParseAsciiInt;
    var items: seq<bytes> := [[0x61], [0x62, 0x62], [0x63, 0x63, 0x63]];
    ListEntries(items);
    var entries: bytes := [0x81, 0x61, 0x02, 0x82, 0x62, 0x62, 0x03, 0x83, 0x63, 0x63, 0x63, 0x04];
    SmallBlob(items, 3, entries);
    ListBody(d, items, 19);
  }

  lemma ListBody(d: Rdb.Doubles, items: seq<bytes>, n: byte)
    requires Rdb.EncodeString(Listpack.Encode(items, |items|)) == [n] + Listpack.Encode(items, |items|)
    ensures Rdb.DumpBody(d, List(items)) == [0x12, 0x01, 0x02, n] + Listpack.Encode(items, |items|)
  {
    hide Listpack.Encode, Rdb.EncodeString;
  }

  lemma ListEntries(items: seq<bytes>)
    requires items == [[0x61], [0x62, 0x62], [0x63, 0x63, 0x63]]
    ensures Entries(items) == [0x81, 0x61, 0x02, 0x82, 0x62, 0x62, 0x03, 0x83, 0x63, 0x63, 0x63, 0x04]
  {
    hide Entries;
    var bb: bytes, ccc: bytes := [0x62, 0x62], [0x63, 0x63, 0x63];
    TextEntry([0x61], [bb, ccc]);
    TextEntry(bb, [ccc]);
    TextEntry(ccc, []);
    NoEntries();
    assert items == [[0x61]] + [bb, ccc] && [bb, ccc] == [bb] + [ccc] && [ccc] == [ccc] + [];
  }

  lemma NoEntries()
    ensures Entries([]) == []
  {
  }

  /** The body of the DUMP of the hash with "1" under "a" and "hello" under "b". */
  lemma DumpOfHash(d: Rdb.Doubles)
    ensures
      var entries: bytes := [0x81, 0x61, 0x02, 0x01, 0x01, 0x81, 0x62, 0x02, 0x85, 0x68, 0x65, 0x6c, 0x6c, 0x6f, 0x06];
      Rdb.DumpBody(d, Hash(map[[0x61] := [0x31], [0x62] := [0x68, 0x65, 0x6c, 0x6c, 0x6f]])) ==
      [0x10, 0x16] + ([0x16, 0, 0, 0, 0x04, 0] + entries + [0xff])
  {
    hide Entries, Listpack.Encode, Rdb.EncodeString, ToDec, TryParseAsciiInt, Rdb.ItemsOf;
    var m: map<bytes, bytes> := map[[0x61] := [0x31], [0x62] := [0x68, 0x65, 0x6c, 0x6c, 0x6f]];
    var items: seq<bytes> := [[0x61], [0x31], [0x62], [0x68, 0x65, 0x6c, 0x6c, 0x6f]];
    HashItems(d, m);
    HashEntries(items);
    var entries: bytes := [0x81, 0x61, 0x02, 0x01, 0x01, 0x81, 0x62, 0x02, 0x85, 0x68, 0x65, 0x6c, 0x6c, 0x6f, 0x06];
    SmallBlob(items, 4, entries);
    assert Rdb.Blob(d, Hash(m)) == Listpack.Encode(items, 4);
  }

  lemma HashEntries(items: seq<bytes>)
    requires items == [[0x61], [0x31], [0x62], [0x68, 0x65, 0x6c, 0x6c, 0x6f]]
    ensures Entries(items) == [0x81, 0x61, 0x02, 0x01, 0x01, 0x81, 0x62, 0x02, 0x85, 0x68, 0x65, 0x6c, 0x6c, 0x6f, 0x06]
  {
    hide Entries;
    var one: bytes, b: bytes, hello: bytes := [0x31], [0x62], [0x68, 0x65, 0x6c, 0x6c, 0x6f];
    TextEntry([0x61], [one, b, hello]);
    OneEntry([b, hello]);
    TextEntry(b, [hello]);
    TextEntry(hello, []);
    NoEntries();
    assert items == [[0x61]] + [one, b, hello] && [one, b, hello] == [one] + [b, hello];
    assert [b, hello] == [b] + [hello] && [hello] == [hello] + [];
  }

  /** The text "1" in a listpack. */
  lemma OneEntry(more: seq<bytes>)
    ensures Entries([[0x31]] + more) == [0x01, 0x01] + Entries(more)
  {
    OneIsOne();
    hide Listpack.EncodeContent, ToDec, Little, Big;
    ListpackIntegerBytes(1);
    assert ([[0x31]] + more)[1..] == more;
  }

  lemma OneIsOne()
    ensures ToDec(1) == [0x31]
  {
  }

  lemma HashItems(d: Rdb.Doubles, m: map<bytes, bytes>)
    requires m == map[[0x61] := [0x31], [0x62] := [0x68, 0x65, 0x6c, 0x6c, 0x6f]]
    ensures Rdb.ItemsOf(d, Hash(m)) == [[0x61], [0x31], [0x62], [0x68, 0x65, 0x6c, 0x6c, 0x6f]]
  {
    var names: seq<bytes> := [[0x61], [0x62]];
    NamesInOrder(names, m);
    hide Rdb.SortedNames, LexLess;
    assert names[1..] == [[0x62]] && names[1..][1..] == [];
    FieldsFirst(names, m);
    FieldsFirst(names[1..], m);
    assert Rdb.FieldItems([], m) == [];
    hide Rdb.FieldItems;
  }

  lemma FieldsFirst(names: seq<bytes>, m: map<bytes, bytes>)
    requires names != [] && forall k :: k in names ==> k in m
    ensures Rdb.FieldItems(names, m) == [names[0], m[names[0]]] + Rdb.FieldItems(names[1..], m)
  {
  }

  lemma NamesInOrder(names: seq<bytes>, m: map<bytes, bytes>)
    requires names == [[0x61], [0x62]] && m.Keys == {names[0], names[1]}
    ensures Rdb.SortedNames(m.Keys) == names
  {
    LexIsStrictTotal();
    assert LexLess(names[0], names[1]);
    hide LexLess;
    SortedUnique(names, m.Keys, LexLess);
  }

  /** RESTORE of the DUMP of the set of "alpha", "beta" and "42", in the order Redis keeps it. */
  lemma RestoreOfSet(d: Rdb.Doubles)
    ensures
      var entries: bytes := [0x85, 0x61, 0x6c, 0x70, 0x68, 0x61, 0x06, 0x84, 0x62, 0x65, 0x74, 0x61, 0x05, 0x2a, 0x01];
      Rdb.DecodeBody(d, [0x14, 0x16] + ([0x16, 0, 0, 0, 0x03, 0] + entries + [0xff])) ==
      Rdb.Restored(Set({[0x61, 0x6c, 0x70, 0x68, 0x61], [0x62, 0x65, 0x74, 0x61], [0x34, 0x32]}))
  {
    hide Entries, Listpack.Encode, Listpack.Decode, ToDec, TryParseAsciiInt, Rdb.DecodeBody, Rdb.BuildSet, Rdb.EncodeString;
    var alpha: bytes, beta: bytes, answer: bytes := [0x61, 0x6c, 0x70, 0x68, 0x61], [0x62, 0x65, 0x74, 0x61], [0x34, 0x32];
    var items := [alpha, beta, answer];
    SetEntries(items);
    var entries: bytes := [0x85, 0x61, 0x6c, 0x70, 0x68, 0x61, 0x06, 0x84, 0x62, 0x65, 0x74, 0x61, 0x05, 0x2a, 0x01];
    SmallBlob(items, 3, entries);
    SetBody(d, items, Listpack.Encode(items, 3), 22);
    AsciiThree(items);
    AsciiSet(items, {});
    ThreeMembers(alpha, beta, answer);
    TagAndLength(Listpack.Encode(items, 3));
    hide *;
  }

  lemma ThreeMembers(a: bytes, b: bytes, c: bytes)
    ensures {} + (set x | x in [a, b, c]) == {a, b, c}
  {
  }

  lemma TagAndLength(blob: bytes)
    ensures [0x14] + ([0x16] + blob) == [0x14, 0x16] + blob
  {
  }

  lemma AsciiThree(items: seq<bytes>)
    requires items == [[0x61, 0x6c, 0x70, 0x68, 0x61], [0x62, 0x65, 0x74, 0x61], [0x34, 0x32]]
    ensures forall i :: 0 <= i < |items| ==> forall j :: 0 <= j < |items[i]| ==> items[i][j] < 0x80
  {
  }

  lemma SetEntries(items: seq<bytes>)
    requires items == [[0x61, 0x6c, 0x70, 0x68, 0x61], [0x62, 0x65, 0x74, 0x61], [0x34, 0x32]]
    ensures Entries(items) == [0x85, 0x61, 0x6c, 0x70, 0x68, 0x61, 0x06, 0x84, 0x62, 0x65, 0x74, 0x61, 0x05, 0x2a, 0x01]
  {
    hide Entries;
    var alpha: bytes, beta: bytes, answer: bytes := [0x61, 0x6c, 0x70, 0x68, 0x61], [0x62, 0x65, 0x74, 0x61], [0x34, 0x32];
    TextEntry(alpha, [beta, answer]);
    TextEntry(beta, [answer]);
    AnswerEntry(answer);
    assert items == [alpha] + [beta, answer] && [beta, answer] == [beta] + [answer];
  }

  lemma AnswerEntry(answer: bytes)
    requires answer == [0x34, 0x32]
    ensures Entries([answer]) == [0x2a, 0x01]
  {
    TwoDigits();
    hide Listpack.EncodeContent, ToDec, Little, Big;
    ListpackIntegerBytes(42);
    NoEntries();
  }

  lemma TwoDigits()
    ensures ToDec(42) == [0x34, 0x32]
  {
    assert Digits(4) == [52];
  }

  lemma SetBody(d: Rdb.Doubles, items: seq<bytes>, blob: bytes, n: byte)
    requires Listpack.Encode(items, |items|) == blob && |blob| == n as int < 0x40
    ensures Rdb.DecodeBody(d, [0x14] + ([n] + blob)) ==
      match Rdb.BuildSet(items, {}) case None => Rdb.BadPayload case Some(members) => Rdb.Restored(Set(members))
  {
    StoredBlob(items, blob, n);
    SetTag(d, [n] + blob);
    hide Rdb.DecodeItems, Rdb.BuildSet, Rdb.DecodeBody, Listpack.Encode;
  }

  lemma SetTag(d: Rdb.Doubles, s: bytes)
    ensures Rdb.DecodeBody(d, [0x14] + s) ==
      match Rdb.DecodeItems(s)
      case None => Rdb.BadPayload
      case Some(items) =>
        match Rdb.BuildSet(items, {})
        case None => Rdb.BadPayload
        case Some(members) => Rdb.Restored(Set(members))
  {
    hide Rdb.DecodeString, Rdb.DecodeLength, Rdb.DecodeNodes, Rdb.DecodeItems, Rdb.BuildFields, Rdb.BuildScores,
      Rdb.BuildSet, Rdb.DecodeMembers, Rdb.DecodeScores, Rdb.DecodeIntset;
    assert ([0x14] + s)[1..] == s;
  }

  lemma StoredBlob(items: seq<bytes>, blob: bytes, n: byte)
    requires Listpack.Encode(items, |items|) == blob && |blob| == n as int < 0x40
    ensures Rdb.DecodeItems([n] + blob) == Some(items)
  {
    Listpack.RoundTrip(items, |items|);
    ShortText(blob, n);
    hide Listpack.Encode, Listpack.Decode, Rdb.DecodeString;
  }

  lemma ShortText(text: bytes, n: byte)
    requires |text| == n as int < 0x40
    ensures Rdb.DecodeString([n] + text) == Rdb.Parsed(text, [])
  {
    assert Rdb.EncodeLength(n) == [n];
    assert [n] + text + [] == [n] + text;
    hide Rdb.EncodeLength, Rdb.DecodeString;
    Rdb.PlainReadsBack(text, []);
  }

  lemma {:induction false} AsciiIsUtf8(s: bytes)
    requires forall j :: 0 <= j < |s| ==> s[j] < 0x80
    ensures Rdb.IsUtf8(s)
  {
    if s != [] {
      AsciiIsUtf8(s[1..]);
    }
  }

  lemma {:induction false} AsciiSet(items: seq<bytes>, acc: set<bytes>)
    requires forall i :: 0 <= i < |items| ==> forall j :: 0 <= j < |items[i]| ==> items[i][j] < 0x80
    ensures Rdb.BuildSet(items, acc) == Some(acc + set x | x in items)
    decreases |items|
  {
    hide Rdb.IsUtf8;
    if items != [] {
      AsciiIsUtf8(items[0]);
      AsciiSet(items[1..], acc + {items[0]});
      assert items == [items[0]] + items[1..];
      assert acc + {items[0]} + (set x | x in items[1..]) == acc + set x | x in items;
    } else {
      assert acc + (set x | x in items) == acc;
    }
  }

  // ---------------------------------------------------------------------------
  // UTF-8 and scores
  // ---------------------------------------------------------------------------

  /** Unicode scalar values: code points other than surrogates. */
  predicate IsScalar(c: nat) {
    c < 0xd800 || 0xe000 <= c < 0x11_0000
  }

  /** The shortest UTF-8 form of a scalar value (RFC 3629, section 3). */
  function Utf8(c: nat): bytes
    requires IsScalar(c)
  {
    if c < 0x80 then [c]
    else if c < 0x800 then [0xc0 + c / 0x40, 0x80 + c % 0x40]
    else if c < 0x1_0000 then [0xe0 + c / 0x1000, 0x80 + c / 0x40 % 0x40, 0x80 + c % 0x40]
    else [0xf0 + c / 0x4_0000, 0x80 + c / 0x1000 % 0x40, 0x80 + c / 0x40 % 0x40, 0x80 + c % 0x40]
  }

  /** A scalar value in front is recognised. */
  lemma ScalarIsChar(c: nat, rest: bytes)
    requires IsScalar(c)
    ensures Rdb.CharSize(Utf8(c) + rest) == |Utf8(c)|
  {
    Utf8Bytes(c);
    hide IsScalar, Utf8;
    var s := Utf8(c) + rest;
    assert s[0] == Utf8(c)[0];
  }

  /** The ranges in which the bytes lie. */
  lemma Utf8Bytes(c: nat)
    requires IsScalar(c)
    ensures
      var b := Utf8(c);
      && (|b| == 1 || |b| == 2 || |b| == 3 || |b| == 4)
      && (forall i :: 1 <= i < |b| ==> 0x80 <= b[i] <= 0xbf)
      && (|b| == 1 ==> b[0] < 0x80)
      && (|b| == 2 ==> 0xc2 <= b[0] <= 0xdf)
      && (|b| == 3 ==> 0xe0 <= b[0] <= 0xef && (b[0] == 0xe0 ==> b[1] >= 0xa0) && (b[0] == 0xed ==> b[1] <= 0x9f))
      && (|b| == 4 ==> 0xf0 <= b[0] <= 0xf4 && (b[0] == 0xf0 ==> b[1] >= 0x90) && (b[0] == 0xf4 ==> b[1] <= 0x8f))
  {
  }

  /** Digits to the base 64. */
  lemma Digit64(a: nat, x: nat)
    requires x < 0x40
    ensures (a * 0x40 + x) / 0x40 == a && (a * 0x40 + x) % 0x40 == x
  {
  }

  lemma Digits64(a: nat, x: nat, y: nat, z: nat)
    requires x < 0x40 && y < 0x40 && z < 0x40
    ensures
      var c := a * 0x40 + x;
      c / 0x40 == a && c % 0x40 == x
    ensures
      var c := (a * 0x40 + x) * 0x40 + y;
      c / 0x1000 == a && c / 0x40 % 0x40 == x && c % 0x40 == y
    ensures
      var c := ((a * 0x40 + x) * 0x40 + y) * 0x40 + z;
      c / 0x4_0000 == a && c / 0x1000 % 0x40 == x && c / 0x40 % 0x40 == y && c % 0x40 == z
  {
    Digit64(a, x);
    Digit64(a * 0x40 + x, y);
    Digit64((a * 0x40 + x) * 0x40 + y, z);
    var c, c' := (a * 0x40 + x) * 0x40 + y, ((a * 0x40 + x) * 0x40 + y) * 0x40 + z;
    assert c / 0x1000 == c / 0x40 / 0x40;
    assert c' / 0x1000 == c' / 0x40 / 0x40 && c' / 0x4_0000 == c' / 0x40 / 0x40 / 0x40;
  }

  lemma TwoByteChar(b0: byte, b1: byte)
    requires 0xc2 <= b0 <= 0xdf && 0x80 <= b1 <= 0xbf
    ensures
      var c := (b0 as int - 0xc0) * 0x40 + (b1 as int - 0x80);
      IsScalar(c) && Utf8(c) == [b0, b1]
  {
    Digits64(b0 as int - 0xc0, b1 as int - 0x80, 0, 0);
  }

  lemma ThreeByteChar(b0: byte, b1: byte, b2: byte)
    requires 0xe0 <= b0 <= 0xef && 0x80 <= b1 <= 0xbf && 0x80 <= b2 <= 0xbf
    requires (b0 == 0xe0 ==> b1 >= 0xa0) && (b0 == 0xed ==> b1 <= 0x9f)
    ensures
      var c := ((b0 as int - 0xe0) * 0x40 + (b1 as int - 0x80)) * 0x40 + (b2 as int - 0x80);
      IsScalar(c) && Utf8(c) == [b0, b1, b2]
  {
    Digits64(b0 as int - 0xe0, b1 as int - 0x80, b2 as int - 0x80, 0);
  }

  lemma FourByteChar(b0: byte, b1: byte, b2: byte, b3: byte)
    requires 0xf0 <= b0 <= 0xf4 && 0x80 <= b1 <= 0xbf && 0x80 <= b2 <= 0xbf && 0x80 <= b3 <= 0xbf
    requires (b0 == 0xf0 ==> b1 >= 0x90) && (b0 == 0xf4 ==> b1 <= 0x8f)
    ensures
      var c := (((b0 as int - 0xf0) * 0x40 + (b1 as int - 0x80)) * 0x40 + (b2 as int - 0x80)) * 0x40 + (b3 as int - 0x80);
      IsScalar(c) && Utf8(c) == [b0, b1, b2, b3]
  {
    Digits64(b0 as int - 0xf0, b1 as int - 0x80, b2 as int - 0x80, b3 as int - 0x80);
  }

  /** Nothing else is: overlong forms, surrogates, numbers past U+10FFFF and stray bytes have no size. */
  lemma CharIsScalar(s: bytes) returns (c: nat)
    requires Rdb.CharSize(s) > 0
    ensures IsScalar(c) && Utf8(c) == s[..Rdb.CharSize(s)]
  {
    var n := Rdb.CharSize(s);
    hide Utf8, IsScalar;
    if n == 1 {
      c := s[0];
      OneByteChar(s[0]);
      assert s[..1] == [s[0]];
    } else if n == 2 {
      TwoByteChar(s[0], s[1]);
      c := (s[0] as int - 0xc0) * 0x40 + (s[1] as int - 0x80);
      assert s[..2] == [s[0], s[1]];
    } else if n == 3 {
      ThreeByteChar(s[0], s[1], s[2]);
      c := ((s[0] as int - 0xe0) * 0x40 + (s[1] as int - 0x80)) * 0x40 + (s[2] as int - 0x80);
      assert s[..3] == [s[0], s[1], s[2]];
    } else {
      FourByteChar(s[0], s[1], s[2], s[3]);
      c := (((s[0] as int - 0xf0) * 0x40 + (s[1] as int - 0x80)) * 0x40 + (s[2] as int - 0x80)) * 0x40 + (s[3] as int - 0x80);
      assert s[..4] == [s[0], s[1], s[2], s[3]];
    }
  }

  lemma OneByteChar(b: byte)
    requires b < 0x80
    ensures IsScalar(b) && Utf8(b) == [b]
  {
  }

  /** Scores print as "inf" and "-inf", whole numbers below 2^53 as decimals, and all others as the
    * platform shows them.
    */
  lemma ScoreText(d: Rdb.Doubles, n: int, x: real)
    ensures Rdb.FormatScore(d, PlusInf) == [105, 110, 102] && Rdb.FormatScore(d, MinusInf) == [45, 105, 110, 102]
    ensures Rdb.FormatScore(d, Finite(n as real)) ==
            if -0x20_0000_0000_0000 < n < 0x20_0000_0000_0000 then ToDec(n) else d.show(n as real)
    ensures x != x.Floor as real ==> Rdb.FormatScore(d, Finite(x)) == d.show(x)
  {
  }

  // ---------------------------------------------------------------------------
  // RESP
  // ---------------------------------------------------------------------------

  /** Replies on the wire: a type byte, a line, and for bulk strings and arrays what they hold. */
  lemma RespBytes(text: bytes, n: int, items: seq<Resp.Reply>)
    ensures Resp.Encode(Resp.Simple(text)) == [43] + text + [13, 10]
    ensures Resp.Encode(Resp.Failure(text)) == [45] + text + [13, 10]
    ensures Resp.Encode(Resp.Integer(n)) == [58] + ToDec(n) + [13, 10]
    ensures Resp.Encode(Resp.Bulk(text)) == [36] + ToDec(|text|) + [13, 10] + text + [13, 10]
    ensures Resp.Encode(Resp.NullBulk) == [36, 45, 49, 13, 10]
    ensures Resp.Encode(Resp.NullArray) == [42, 45, 49, 13, 10]
    ensures Resp.Encode(Resp.Array(items)) == [42] + ToDec(|items|) + [13, 10] + Resp.Concat(Resp.Encodings(items))
  {
    MinusOne();
    hide ToDec;
    Resp.EncodeAllIsConcat(items);
  }

  lemma MinusOne()
    ensures ToDec(-1) == [45, 49]
  {
  }

  // ---------------------------------------------------------------------------
  // HyperLogLog
  // ---------------------------------------------------------------------------

  /** Whether bit i of a byte is set, the lowest being bit 0. */
  predicate Bit(b: bv8, i: nat)
    requires i < 8
  {
    if i == 0 then b & 1 == 1 else if i == 1 then b & 2 == 2 else if i == 2 then b & 4 == 4 else if i == 3 then b & 8 == 8
    else if i == 4 then b & 16 == 16 else if i == 5 then b & 32 == 32 else if i == 6 then b & 64 == 64 else b & 128 == 128
  }

  /** Register k takes the six bits from bit 6k on, counted through the bytes from the lowest bit of
    * each: its bit j is bit 6k + j.
    */
  lemma RegisterBits(body: Hll.Blob, k: nat, j: nat)
    requires |body| == 12288 && k < 16384 && j < 6
    ensures Hll.Read(body, k) <= 63
    ensures Bit(Hll.Read(body, k), j) <==> Bit(body[(6 * k + j) / 8], (6 * k + j) % 8)
  {
    Hll.ReadIsSmall(body, k);
    BitPlace(k, j);
    Hll.ShiftIsShift(k);
    FieldBits(Hll.ByteAt(body, Hll.FirstByte(k)), Hll.ByteAt(body, Hll.FirstByte(k) + 1), Hll.Shift(k), j);
    hide Hll.Field, Bit;
  }

  lemma BitPlace(k: nat, j: nat)
    requires k < 16384 && j < 6
    ensures
      var s := Hll.Shift(k) + j;
      && (6 * k + j) / 8 == Hll.FirstByte(k) + (if s < 8 then 0 else 1) < 12288
      && (6 * k + j) % 8 == if s < 8 then s else s - 8
  {
  }

  lemma FieldBits(lo: bv8, hi: bv8, s: nat, j: nat)
    requires Hll.IsShift(s) && j < 6
    ensures Bit(Hll.Field(lo, hi, s), j) <==> if s + j < 8 then Bit(lo, s + j) else Bit(hi, s + j - 8)
  {
    FieldBits0(lo, hi);
    FieldBits2(lo, hi);
    FieldBits4(lo, hi);
    FieldBits6(lo, hi);
    hide Bit, Hll.Field;
  }

  lemma FieldBits0(lo: bv8, hi: bv8)
    ensures Bit(Hll.Field(lo, hi, 0), 0) <==> Bit(lo, 0)
    ensures Bit(Hll.Field(lo, hi, 0), 1) <==> Bit(lo, 1)
    ensures Bit(Hll.Field(lo, hi, 0), 2) <==> Bit(lo, 2)
    ensures Bit(Hll.Field(lo, hi, 0), 3) <==> Bit(lo, 3)
    ensures Bit(Hll.Field(lo, hi, 0), 4) <==> Bit(lo, 4)
    ensures Bit(Hll.Field(lo, hi, 0), 5) <==> Bit(lo, 5)
  {
  }

  lemma FieldBits2(lo: bv8, hi: bv8)
    ensures Bit(Hll.Field(lo, hi, 2), 0) <==> Bit(lo, 2)
    ensures Bit(Hll.Field(lo, hi, 2), 1) <==> Bit(lo, 3)
    ensures Bit(Hll.Field(lo, hi, 2), 2) <==> Bit(lo, 4)
    ensures Bit(Hll.Field(lo, hi, 2), 3) <==> Bit(lo, 5)
    ensures Bit(Hll.Field(lo, hi, 2), 4) <==> Bit(lo, 6)
    ensures Bit(Hll.Field(lo, hi, 2), 5) <==> Bit(lo, 7)
  {
  }

  lemma FieldBits4(lo: bv8, hi: bv8)
    ensures Bit(Hll.Field(lo, hi, 4), 0) <==> Bit(lo, 4)
    ensures Bit(Hll.Field(lo, hi, 4), 1) <==> Bit(lo, 5)
    ensures Bit(Hll.Field(lo, hi, 4), 2) <==> Bit(lo, 6)
    ensures Bit(Hll.Field(lo, hi, 4), 3) <==> Bit(lo, 7)
    ensures Bit(Hll.Field(lo, hi, 4), 4) <==> Bit(hi, 0)
    ensures Bit(Hll.Field(lo, hi, 4), 5) <==> Bit(hi, 1)
  {
  }

  lemma FieldBits6(lo: bv8, hi: bv8)
    ensures Bit(Hll.Field(lo, hi, 6), 0) <==> Bit(lo, 6)
    ensures Bit(Hll.Field(lo, hi, 6), 1) <==> Bit(lo, 7)
    ensures Bit(Hll.Field(lo, hi, 6), 2) <==> Bit(hi, 0)
    ensures Bit(Hll.Field(lo, hi, 6), 3) <==> Bit(hi, 1)
    ensures Bit(Hll.Field(lo, hi, 6), 4) <==> Bit(hi, 2)
    ensures Bit(Hll.Field(lo, hi, 6), 5) <==> Bit(hi, 3)
  {
  }

  /** The header of an empty sketch: "HYLL", the dense encoding and a cached count of zero. */
  lemma HeaderBytes()
    ensures HllSketch.EmptyDense()[..16] == [0x48, 0x59, 0x4c, 0x4c, 0, 0, 0, 0, 0, 0, 0, 0, 0, 0, 0, 0]
    ensures |HllSketch.EmptyDense()| == 16 + 12288
  {
  }

  /** What is taken for a sketch: the right size, the magic and the dense encoding. */
  lemma SketchHeader(data: Hll.Blob)
    ensures HllSketch.IsHll(data) <==> |data| == 12304 && data[..5] == [0x48, 0x59, 0x4c, 0x4c, 0]
  {
    if |data| == 12304 {
      assert data[..5] == data[..4] + [data[4]];
      assert Hll.MAGIC + [0] == [0x48, 0x59, 0x4c, 0x4c, 0];
      if data[..5] == [0x48, 0x59, 0x4c, 0x4c, 0] {
        assert data[..4] == data[..5][..4];
      }
    }
  }

  // ---------------------------------------------------------------------------
  // Version tokens
  // ---------------------------------------------------------------------------

  /** A token names the kind, then the version behind a colon. */
  lemma TokenText(version: string)
    ensures Dynamo.EncodeToken(KString, version) == "string:" + version
    ensures Dynamo.EncodeToken(KHash, version) == "hash:" + version
    ensures Dynamo.EncodeToken(KList, version) == "list:" + version
    ensures Dynamo.EncodeToken(KSet, version) == "set:" + version
    ensures Dynamo.EncodeToken(KZSet, version) == "zset:" + version
    ensures Dynamo.EncodeToken(KStream, version) == "stream:" + version
  {
  }
}
