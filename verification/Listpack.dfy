/** Listpacks: the packed entry sequences inside DUMP payloads.
  *
  * An entry is its content (nine encodings: seven for integers' text, counting the tiny one, and
  * three for other strings) followed by the content's length written for backward traversal.
  */
module Listpack {
  import opened Bytes
  import opened Decimal

  const U32: nat := 0x1_0000_0000

  // ---------------------------------------------------------------------------
  // Back lengths
  // ---------------------------------------------------------------------------

  function BacklenBytes(len: nat): nat {
    if len <= 127 then 1
    else if len < 16_383 then 2
    else if len < 2_097_151 then 3
    else if len < 268_435_455 then 4
    else 5
  }

  function Backlen(len: nat): (b: seq<byte>)
    ensures |b| == BacklenBytes(len)
  {
    if len <= 127 then [len]
    else if len < 16_383 then [len / 0x80, len % 128 + 128]
    else if len < 2_097_151 then [len / 0x4000, len / 0x80 % 128 + 128, len % 128 + 128]
    else if len < 268_435_455 then
      [len / 0x20_0000, len / 0x4000 % 128 + 128, len / 0x80 % 128 + 128, len % 128 + 128]
    else
      [len / 0x1000_0000 % 256, len / 0x20_0000 % 128 + 128, len / 0x4000 % 128 + 128,
       len / 0x80 % 128 + 128, len % 128 + 128]
  }

  /** Backward reading: seven bits per byte from the end, until a byte below 128. */
  function ReadBackwards(b: seq<byte>): nat {
    if b == [] then 0
    else
      var last: int := b[|b| - 1];
      if last < 128 then last else last - 128 + 128 * ReadBackwards(b[..|b| - 1])
  }

  /** The same bytes, one seven-bit group at a time. */
  function Groups(len: nat, k: nat): seq<byte>
    requires k > 0
  {
    if k == 1 then [len % 128] else Groups(len / 128, k - 1) + [len % 128 + 128]
  }

  function Pow128(k: nat): nat {
    if k == 0 then 1 else 128 * Pow128(k - 1)
  }

  lemma {:induction false} GroupsReadBack(pre: seq<byte>, len: nat, k: nat)
    requires k > 0 && len < Pow128(k)
    ensures ReadBackwards(pre + Groups(len, k)) == len
    decreases k
  {
    var last: byte := if k == 1 then len % 128 else len % 128 + 128;
    var front := if k == 1 then pre else pre + Groups(len / 128, k - 1);
    assert pre + Groups(len, k) == front + [last];
    assert (front + [last])[..|front|] == front;
    if k > 1 {
      GroupsReadBack(pre, len / 128, k - 1);
    } else {
      assert Pow128(1) == 128;
    }
  }

  lemma BacklenIsGroups(len: nat)
    requires len < 0x8_0000_0000
    ensures Backlen(len) == Groups(len, BacklenBytes(len))
  {
    hide Groups;
    GroupsUnfold(len);
    Quotients(len);
  }

  lemma Quotients(len: nat)
    ensures len / 128 / 128 == len / 0x4000
    ensures len / 128 / 128 / 128 == len / 0x20_0000
    ensures len / 128 / 128 / 128 / 128 == len / 0x1000_0000
  {
  }

  /** The first five group counts, spelled out. */
  lemma GroupsUnfold(len: nat)
    ensures Groups(len, 1) == [len % 128]
    ensures Groups(len, 2) == [len / 128 % 128] + [len % 128 + 128]
    ensures Groups(len, 3) == [len / 128 / 128 % 128] + [len / 128 % 128 + 128] + [len % 128 + 128]
    ensures Groups(len, 4) ==
      [len / 128 / 128 / 128 % 128] + [len / 128 / 128 % 128 + 128] + [len / 128 % 128 + 128] + [len % 128 + 128]
    ensures Groups(len, 5) ==
      [len / 128 / 128 / 128 / 128 % 128] + [len / 128 / 128 / 128 % 128 + 128] + [len / 128 / 128 % 128 + 128]
      + [len / 128 % 128 + 128] + [len % 128 + 128]
  {
    var a := len / 128;
    var b := a / 128;
    var c := b / 128;
    assert Groups(c, 1) == [c % 128] && Groups(c, 2) == [c / 128 % 128] + [c % 128 + 128];
    assert Groups(b, 3) == Groups(c, 2) + [b % 128 + 128] && Groups(b, 2) == Groups(c, 1) + [b % 128 + 128];
    assert Groups(b, 1) == [b % 128];
    assert Groups(a, 4) == Groups(b, 3) + [a % 128 + 128] && Groups(a, 3) == Groups(b, 2) + [a % 128 + 128];
    assert Groups(a, 2) == Groups(b, 1) + [a % 128 + 128] && Groups(a, 1) == [a % 128];
  }

  /** What was written in front of a back length does not disturb reading it from the end. */
  lemma BacklenReadsBack(pre: seq<byte>, len: nat)
    requires len < 0x8_0000_0000
    ensures ReadBackwards(pre + Backlen(len)) == len
  {
    BacklenIsGroups(len);
    assert Pow128(2) == 0x4000 && Pow128(3) == 0x20_0000 && Pow128(4) == 0x1000_0000 && Pow128(5) == 0x8_0000_0000;
    GroupsReadBack(pre, len, BacklenBytes(len));
  }

  // ---------------------------------------------------------------------------
  // Entry contents
  // ---------------------------------------------------------------------------

  function EncodeInt(n: int): seq<byte> {
    if 0 <= n <= 127 then [n]
    else if -4096 <= n <= 4095 then [0xc0 + n % 8192 / 256, n % 256]
    else if FitsSigned(n, 2) then [0xf1] + LeBytes(Wrap(n, 2), 2)
    else if FitsSigned(n, 3) then [0xf2] + LeBytes(Wrap(n, 3), 3)
    else if FitsSigned(n, 4) then [0xf3] + LeBytes(Wrap(n, 4), 4)
    else [0xf4] + LeBytes(Wrap(n, 8), 8)
  }

  function EncodeText(data: seq<byte>): seq<byte> {
    var len := |data|;
    if len <= 63 then [0x80 + len] + data
    else if len < 4096 then [0xe0 + len / 256, len % 256] + data
    else [0xf0] + BeBytes(len % U32, 4) + data
  }

  function EncodeContent(data: seq<byte>): seq<byte> {
    match TryParseAsciiInt(data)
    case Some(n) => EncodeInt(n)
    case None => EncodeText(data)
  }

  function EncodeEntry(data: seq<byte>): seq<byte> {
    EncodeContent(data) + Backlen(|EncodeContent(data)|)
  }

  /** The content at the front of a buffer, as text, and its size without the back length. */
  function ReadContent(buf: seq<byte>): (r: Option<(seq<byte>, nat)>)
    ensures r.Some? ==> 0 < r.value.1 <= |buf|
  {
    if buf == [] then None
    else
      var b0: int := buf[0];
      if b0 < 0x80 then Some((ToDec(b0), 1))
      else if b0 < 0xc0 then TextAt(buf, 1, b0 - 0x80)
      else if b0 < 0xe0 then
        if |buf| < 2 then None
        else
          var raw := (b0 - 0xc0) * 256 + buf[1] as int;
          Some((ToDec(if raw >= 0x1000 then raw - 8192 else raw), 2))
      else if b0 == 0xf1 then IntAt(buf, 2)
      else if b0 == 0xf2 then IntAt(buf, 3)
      else if b0 == 0xf3 then IntAt(buf, 4)
      else if b0 == 0xf4 then IntAt(buf, 8)
      else if b0 == 0xf0 then
        if |buf| < 5 then None else TextAt(buf, 5, FromBe(buf[1..5]))
      else if b0 < 0xf0 then
        if |buf| < 2 then None else TextAt(buf, 2, (b0 - 0xe0) * 256 + buf[1] as int)
      else None
  }

  function TextAt(buf: seq<byte>, at: nat, len: nat): Option<(seq<byte>, nat)> {
    if at + len > |buf| then None else Some((buf[at..at + len], at + len))
  }

  function IntAt(buf: seq<byte>, k: nat): Option<(seq<byte>, nat)> {
    if |buf| < k + 1 then None else Some((ToDec(Unwrap(FromLe(buf[1..k + 1]), k)), k + 1))
  }

  /** The entry at the front of a buffer and its size including the back length. */
  function ReadEntry(buf: seq<byte>): (r: Option<(seq<byte>, nat)>)
    ensures r.Some? ==> 2 <= r.value.1 <= |buf|
  {
    match ReadContent(buf)
    case None => None
    case Some((text, size)) =>
      var total := size + BacklenBytes(size);
      if total > |buf| then None else Some((text, total))
  }

  lemma IntAtOfWrap(tag: byte, n: int, k: nat, rest: seq<byte>)
    requires FitsSigned(n, k)
    ensures IntAt([tag] + LeBytes(Wrap(n, k), k) + rest, k) == Some((ToDec(n), k + 1))
  {
    var buf := [tag] + LeBytes(Wrap(n, k), k) + rest;
    assert buf[1..k + 1] == LeBytes(Wrap(n, k), k);
    LeRoundTrip(Wrap(n, k), k);
    UnwrapWrap(n, k);
  }

  lemma IntReadsBack(n: int, rest: seq<byte>)
    requires IsI64(n)
    ensures ReadContent(EncodeInt(n) + rest) == Some((ToDec(n), |EncodeInt(n)|))
  {
    hide ToDec, IntAt, LeBytes, FitsSigned;
    if 0 <= n <= 127 {
      assert (EncodeInt(n) + rest)[0] == n;
    } else if -4096 <= n <= 4095 {
      ShortIntReadsBack(n, rest);
    } else if FitsSigned(n, 2) {
      IntAtOfWrap(0xf1, n, 2, rest);
    } else if FitsSigned(n, 3) {
      IntAtOfWrap(0xf2, n, 3, rest);
    } else if FitsSigned(n, 4) {
      IntAtOfWrap(0xf3, n, 4, rest);
    } else {
      assert FitsSigned(n, 8) by { I64Fits(n); }
      IntAtOfWrap(0xf4, n, 8, rest);
    }
  }

  lemma I64Fits(n: int)
    requires IsI64(n)
    ensures FitsSigned(n, 8)
  {
    Pow256Values();
  }

  /** The 13-bit form. */
  lemma ShortIntReadsBack(n: int, rest: seq<byte>)
    requires -4096 <= n <= 4095
    ensures
      var buf := [0xc0 + n % 8192 / 256, n % 256] + rest;
      ReadContent(buf) == Some((ToDec(n), 2))
  {
    var high, low := n % 8192 / 256, n % 256;
    ThirteenBits(n);
    hide ToDec, IntAt;
    ShortContent(high, low, rest);
  }

  lemma ThirteenBits(n: int)
    requires -4096 <= n <= 4095
    ensures 0 <= n % 8192 / 256 < 32 && 0 <= n % 256 < 256
    ensures n % 8192 / 256 * 256 + n % 256 == if n < 0 then n + 8192 else n
  {
    var raw := n % 8192;
    assert raw == if n < 0 then n + 8192 else n;
    assert raw % 256 == n % 256;
  }

  lemma ShortContent(high: nat, low: nat, rest: seq<byte>)
    requires high < 32 && low < 256
    ensures
      var raw := high * 256 + low;
      ReadContent([0xc0 + high, low] + rest) == Some((ToDec(if raw >= 0x1000 then raw - 8192 else raw), 2))
  {
    var buf := [0xc0 + high, low] + rest;
    assert buf[0] == 0xc0 + high && buf[1] == low;
    hide ToDec, IntAt;
  }

  lemma TextReadsBack(data: seq<byte>, rest: seq<byte>)
    requires |data| < U32
    ensures ReadContent(EncodeText(data) + rest) == Some((data, |EncodeText(data)|))
  {
    var buf, len := EncodeText(data) + rest, |data|;
    if len <= 63 {
      assert buf[1..1 + len] == data;
    } else if len < 4096 {
      assert buf[2..2 + len] == data;
    } else {
      Pow256Values();
      BeRoundTrip(len, 4);
      assert buf[1..5] == BeBytes(len, 4);
      assert buf[5..5 + len] == data;
    }
  }

  lemma ContentReadsBack(data: seq<byte>, rest: seq<byte>)
    requires |data| < U32
    ensures ReadContent(EncodeContent(data) + rest) == Some((data, |EncodeContent(data)|))
  {
    match TryParseAsciiInt(data) {
      case Some(n) =>
        TryParseExact(data, n);
        IntReadsBack(n, rest);
      case None => TextReadsBack(data, rest);
    }
  }

  /** Every entry written reads back, whatever follows it. */
  lemma EntryReadsBack(data: seq<byte>, rest: seq<byte>)
    requires |data| < U32
    ensures ReadEntry(EncodeEntry(data) + rest) == Some((data, |EncodeEntry(data)|))
  {
    hide EncodeContent, ReadContent;
    var content := EncodeContent(data);
    ContentReadsBack(data, Backlen(|content|) + rest);
    assert content + (Backlen(|content|) + rest) == EncodeEntry(data) + rest;
  }

  lemma ContentSize(data: seq<byte>)
    ensures |EncodeContent(data)| <= |data| + 9
  {
  }

  /** From the end of any entry the back length leads to its start. */
  lemma EntryTraversesBackwards(pre: seq<byte>, data: seq<byte>)
    requires |data| < U32
    ensures
      var len := ReadBackwards(pre + EncodeEntry(data));
      len == |EncodeContent(data)| && len + BacklenBytes(len) == |EncodeEntry(data)|
  {
    hide EncodeContent;
    ContentSize(data);
    BacklenReadsBack(pre + EncodeContent(data), |EncodeContent(data)|);
    assert pre + EncodeContent(data) + Backlen(|EncodeContent(data)|) == pre + EncodeEntry(data);
  }

  // ---------------------------------------------------------------------------
  // Whole listpacks
  // ---------------------------------------------------------------------------

  function EncodeEntries(items: seq<seq<byte>>): seq<byte> {
    if items == [] then [] else EncodeEntry(items[0]) + EncodeEntries(items[1..])
  }

  function TotalSize(items: seq<seq<byte>>): nat {
    6 + |EncodeEntries(items)| + 1
  }

  /** Total length (truncated to 32 bits), element count (saturating at 65535), entries, 0xff. */
  function Encode(items: seq<seq<byte>>, count: nat): (buf: seq<byte>)
    ensures |buf| == TotalSize(items)
  {
    LeBytes(TotalSize(items) % U32, 4) + LeBytes(if count > 65535 then 65535 else count, 2)
    + EncodeEntries(items) + [0xff]
  }

  function DecodeEntries(buf: seq<byte>): Option<seq<seq<byte>>>
    decreases |buf|
  {
    if buf == [] then Some([])
    else
      match ReadEntry(buf)
      case None => None
      case Some((text, size)) =>
        match DecodeEntries(buf[size..])
        case None => None
        case Some(more) => Some([text] + more)
  }

  predicate HeaderOk(buf: seq<byte>) {
    |buf| >= 7 && FromLe(buf[..4]) == |buf| && buf[|buf| - 1] == 0xff
  }

  function Decode(buf: seq<byte>): Option<seq<seq<byte>>> {
    if HeaderOk(buf) then DecodeEntries(buf[6..|buf| - 1]) else None
  }

  lemma {:induction false} EntriesReadBack(items: seq<seq<byte>>)
    requires forall i :: 0 <= i < |items| ==> |items[i]| < U32
    ensures DecodeEntries(EncodeEntries(items)) == Some(items)
  {
    if items != [] {
      hide EncodeEntry, ReadEntry;
      assert EncodeEntries(items) == EncodeEntry(items[0]) + EncodeEntries(items[1..]);
      var rest := EncodeEntries(items[1..]);
      EntryReadsBack(items[0], rest);
      EntryNotEmpty(items[0]);
      assert (EncodeEntry(items[0]) + rest)[|EncodeEntry(items[0])|..] == rest;
      EntriesReadBack(items[1..]);
      assert items == [items[0]] + items[1..];
    }
  }

  lemma EntryNotEmpty(data: seq<byte>)
    ensures |EncodeEntry(data)| >= 2
  {
  }

  lemma {:induction false} ItemsBelowTotal(items: seq<seq<byte>>, i: nat)
    requires i < |items|
    ensures |EncodeEntry(items[i])| <= |EncodeEntries(items)|
  {
    assert EncodeEntries(items) == EncodeEntry(items[0]) + EncodeEntries(items[1..]);
    hide EncodeEntry;
    if i > 0 {
      ItemsBelowTotal(items[1..], i - 1);
    }
  }

  lemma TextInsideEntry(data: seq<byte>)
    ensures |data| > 20 ==> |data| < |EncodeEntry(data)|
  {
  }

  /** A listpack decodes to what was encoded exactly when its length fits in 32 bits; a longer one
    * is rejected because its length field was truncated.
    */
  lemma RoundTrip(items: seq<seq<byte>>, count: nat)
    ensures TotalSize(items) < U32 ==> Decode(Encode(items, count)) == Some(items)
    ensures TotalSize(items) >= U32 ==> Decode(Encode(items, count)) == None
  {
    hide EncodeEntries, DecodeEntries, LeBytes, FromLe, EncodeEntry;
    var buf := Encode(items, count);
    Pow256Values();
    LeRoundTrip(TotalSize(items) % U32, 4);
    assert buf[..4] == LeBytes(TotalSize(items) % U32, 4);
    if TotalSize(items) < U32 {
      assert buf[6..|buf| - 1] == EncodeEntries(items);
      forall i | 0 <= i < |items|
        ensures |items[i]| < U32
      {
        ItemsBelowTotal(items, i);
        TextInsideEntry(items[i]);
      }
      EntriesReadBack(items);
    }
  }

  // ---------------------------------------------------------------------------
  // Decoding arbitrary bytes
  // ---------------------------------------------------------------------------

  /** One entry of the region ending at `end`: it starts at `from` and stops at `to`. */
  predicate Piece(buf: seq<byte>, end: nat, from: nat, to: nat, text: seq<byte>) {
    from < to <= end <= |buf| && ReadEntry(buf[from..end]) == Some((text, to - from))
  }

  /** Consecutive entries cover the buffer from `from` to `to`. */
  ghost predicate Tiles(buf: seq<byte>, end: nat, from: nat, to: nat, cuts: seq<nat>, items: seq<seq<byte>>) {
    && |cuts| == |items| + 1 && cuts[0] == from && cuts[|items|] == to
    && forall i :: 0 <= i < |items| ==> Piece(buf, end, cuts[i], cuts[i + 1], items[i])
  }

  function Prepend(items: seq<seq<byte>>, more: Option<seq<seq<byte>>>): Option<seq<seq<byte>>> {
    match more
    case None => None
    case Some(m) => Some(items + m)
  }

  lemma DecodeUnfold(buf: seq<byte>, p: nat, end: nat, out: seq<seq<byte>>)
    requires p < end <= |buf|
    ensures ReadEntry(buf[p..end]).None? ==> Prepend(out, DecodeEntries(buf[p..end])) == None
    ensures ReadEntry(buf[p..end]).Some? ==>
              var (text, size) := ReadEntry(buf[p..end]).value;
              Prepend(out, DecodeEntries(buf[p..end])) == Prepend(out + [text], DecodeEntries(buf[p + size..end]))
  {
    if ReadEntry(buf[p..end]).Some? {
      var (text, size) := ReadEntry(buf[p..end]).value;
      assert buf[p..end][size..] == buf[p + size..end];
      if DecodeEntries(buf[p + size..end]).Some? {
        var more := DecodeEntries(buf[p + size..end]).value;
        assert out + ([text] + more) == out + [text] + more;
      }
    }
  }

  lemma TilesStart(buf: seq<byte>, end: nat)
    ensures Tiles(buf, end, 6, 6, [6], [])
  {
  }

  lemma TilesSnoc(buf: seq<byte>, end: nat, from: nat, mid: nat, to: nat, cuts: seq<nat>, items: seq<seq<byte>>, text: seq<byte>)
    requires Tiles(buf, end, from, mid, cuts, items) && Piece(buf, end, mid, to, text)
    ensures Tiles(buf, end, from, to, cuts + [to], items + [text])
  {
  }

  /** The decoder's loop: it terminates on every input and never reads outside it, and an accepted
    * listpack is covered by its entries from the header exactly up to the terminator.
    */
  method DecodeLoop(buf: seq<byte>) returns (result: Option<seq<seq<byte>>>, cuts: seq<nat>)
    ensures result == Decode(buf)
    ensures result.Some? ==> HeaderOk(buf) && Tiles(buf, |buf| - 1, 6, |buf| - 1, cuts, result.value)
  {
    hide ReadEntry, FromLe, DecodeEntries, Prepend, Tiles;
    cuts := [6];
    if |buf| < 7 {
      return None, cuts;
    }
    if FromLe(buf[..4]) != |buf| {
      return None, cuts;
    }
    var p := 6;
    var end := |buf| - 1;
    if buf[end] != 0xff {
      return None, cuts;
    }
    var out: seq<seq<byte>> := [];
    TilesStart(buf, end);
    PrependNothing(DecodeEntries(buf[6..end]));
    while p < end
      invariant 6 <= p <= end
      invariant Prepend(out, DecodeEntries(buf[p..end])) == DecodeEntries(buf[6..end])
      invariant Tiles(buf, end, 6, p, cuts, out)
    {
      DecodeUnfold(buf, p, end, out);
      EntryFits(buf[p..end]);
      var entry := ReadEntry(buf[p..end]);
      if entry.None? {
        return None, cuts;
      }
      TilesSnoc(buf, end, 6, p, p + entry.value.1, cuts, out, entry.value.0);
      out := out + [entry.value.0];
      p := p + entry.value.1;
      cuts := cuts + [p];
    }
    EmptyDecodes(buf[end..end], out);
    return Some(out), cuts;
  }

  lemma EntryFits(buf: seq<byte>)
    ensures ReadEntry(buf).Some? ==> 2 <= ReadEntry(buf).value.1 <= |buf|
  {
  }

  lemma EmptyDecodes(buf: seq<byte>, out: seq<seq<byte>>)
    requires buf == []
    ensures Prepend(out, DecodeEntries(buf)) == Some(out)
  {
    assert out + [] == out;
  }

  lemma PrependNothing(more: Option<seq<seq<byte>>>)
    ensures Prepend([], more) == more
  {
    assert more.Some? ==> [] + more.value == more.value;
  }
}
