/** The Python client's RESP2 splitter: cutting a byte stream into its top-level frames. */
module Resp {
  import opened Bytes
  import opened Values
  import opened Decimal

  const CR: byte := 13
  const LF: byte := 10
  const UNDERSCORE: byte := 95
  const COLON: byte := 58
  const DOLLAR: byte := 36
  const STAR: byte := 42

  const CRLF: bytes := [CR, LF]

  // ---------------------------------------------------------------------------
  // Python's int() on bytes
  // ---------------------------------------------------------------------------

  predicate IsSpace(b: byte) {
    b == 32 || 9 <= b <= 13
  }

  function StripLeft(text: bytes): bytes {
    if text != [] && IsSpace(text[0]) then StripLeft(text[1..]) else text
  }

  function StripRight(text: bytes): bytes {
    if text != [] && IsSpace(text[|text| - 1]) then StripRight(text[..|text| - 1]) else text
  }

  /** Digits, with single underscores allowed between them. */
  function Grouped(text: bytes): Option<nat> {
    if text == [] || !IsDigit(text[|text| - 1]) then None
    else
      var front, digit := text[..|text| - 1], text[|text| - 1] - 48;
      if front == [] then Some(digit)
      else
        match Grouped(if front[|front| - 1] == UNDERSCORE then front[..|front| - 1] else front)
        case None => None
        case Some(n) => Some(n * 10 + digit)
  }

  function ParseInt(text: bytes): Option<int> {
    var t := StripRight(StripLeft(text));
    if t != [] && (t[0] == MINUS || t[0] == PLUS) then
      match Grouped(t[1..])
      case None => None
      case Some(n) => Some(if t[0] == MINUS then 0 - n else n)
    else
      match Grouped(t)
      case None => None
      case Some(n) => Some(n)
  }

  lemma {:induction false} GroupedDigits(n: nat)
    ensures Grouped(Digits(n)) == Some(n)
  {
    var text := Digits(n);
    if n < 10 {
      assert text[..0] == [];
    } else {
      var front := Digits(n / 10);
      GroupedDigits(n / 10);
      assert text[..|text| - 1] == front;
      assert IsDigit(front[|front| - 1]);
    }
  }

  lemma ParseIntToDec(n: int)
    ensures ParseInt(ToDec(n)) == Some(n)
    ensures forall i :: 0 <= i < |ToDec(n)| ==> ToDec(n)[i] != CR
  {
    var text := ToDec(n);
    var digits := Digits(if n < 0 then 0 - n else n);
    assert text[|text| - 1] == digits[|digits| - 1];
    assert IsDigit(digits[0]) && IsDigit(digits[|digits| - 1]);
    assert StripLeft(text) == text && StripRight(text) == text;
    GroupedDigits(if n < 0 then 0 - n else n);
    assert n < 0 ==> text[1..] == digits;
    forall i | 0 <= i < |text|
      ensures text[i] != CR
    {
      assert n < 0 && i > 0 ==> text[i] == digits[i - 1];
    }
  }

  // ---------------------------------------------------------------------------
  // Scanning one frame
  // ---------------------------------------------------------------------------

  predicate LineEndAt(buf: bytes, i: nat) {
    i + 2 <= |buf| && buf[i] == CR && buf[i + 1] == LF
  }

  /** The first line end at or after `at`. */
  function FindCrlf(buf: bytes, at: nat): (c: Option<nat>)
    ensures c.Some? ==> at <= c.value && LineEndAt(buf, c.value)
    ensures c.Some? ==> forall i :: at <= i < c.value ==> !LineEndAt(buf, i)
    decreases |buf| - at
  {
    if at + 1 >= |buf| then None
    else if LineEndAt(buf, at) then Some(at)
    else FindCrlf(buf, at + 1)
  }

  /** A frame's end, no complete frame here, or a length that is not a number. */
  datatype Scan = Complete(end: nat) | Incomplete | BadNumber

  predicate IsLine(prefix: byte) {
    prefix == PLUS || prefix == MINUS || prefix == COLON
  }

  function Frame(buf: bytes, start: nat): (s: Scan)
    ensures s.Complete? ==> start < s.end <= |buf|
    decreases |buf| - start, 1, 0
  {
    if start >= |buf| || !(IsLine(buf[start]) || buf[start] == DOLLAR || buf[start] == STAR) then Incomplete
    else
      match FindCrlf(buf, start)
      case None => Incomplete
      case Some(c) =>
        if IsLine(buf[start]) then Complete(c + 2)
        else
          match ParseInt(buf[start + 1..c])
          case None => BadNumber
          case Some(n) =>
            if n < 0 then Complete(c + 2)
            else if buf[start] == DOLLAR then (if c + 2 + n + 2 > |buf| then Incomplete else Complete(c + 2 + n + 2))
            else Items(buf, c + 2, n)
  }

  /** `n` frames in a row. */
  function Items(buf: bytes, at: nat, n: nat): (s: Scan)
    requires at <= |buf|
    ensures s.Complete? ==> at <= s.end <= |buf|
    decreases |buf| - at, 2, n
  {
    if n == 0 then Complete(at)
    else
      match Frame(buf, at)
      case Complete(end) => Items(buf, end, n - 1)
      case s => s
  }

  /** What `_frame_len` returns: the number of bytes, zero if there is no complete frame, or nothing
    * if Python's `int` raises.
    */
  function LengthOf(s: Scan, start: nat): Option<nat>
    requires s.Complete? ==> start <= s.end
  {
    match s
    case Complete(end) => Some(end - start)
    case Incomplete => Some(0)
    case BadNumber => None
  }

  method FrameLen(buf: bytes, start: nat) returns (len: Option<nat>)
    ensures len == LengthOf(Frame(buf, start), start)
    decreases |buf| - start, 1, 0
  {
    hide FindCrlf, ParseInt, Items;
    if start >= |buf| {
      return Some(0);
    }
    var prefix := buf[start];
    if !IsLine(prefix) && prefix != DOLLAR && prefix != STAR {
      return Some(0);
    }
    var crlf := FindCrlf(buf, start);
    if crlf.None? {
      return Some(0);
    }
    var c := crlf.value;
    if IsLine(prefix) {
      return Some(c + 2 - start);
    }
    var parsed := ParseInt(buf[start + 1..c]);
    if parsed.None? {
      return None;
    }
    var n := parsed.value;
    var pos := c + 2 - start;
    if n < 0 {
      return Some(pos);
    }
    if prefix == DOLLAR {
      var end := c + 2 + n + 2;
      return Some(if end > |buf| then 0 else end - start);
    }
    len := ItemsLen(buf, start, pos, n);
  }

  /** The loop over an array's elements. */
  method ItemsLen(buf: bytes, start: nat, pos0: nat, n: nat) returns (len: Option<nat>)
    requires 0 < pos0 && start + pos0 <= |buf|
    ensures len == LengthOf(Items(buf, start + pos0, n), start)
    decreases |buf| - start - pos0, 2, n
  {
    hide Frame, Items;
    var pos := pos0;
    for k := 0 to n
      invariant pos0 <= pos && start + pos <= |buf|
      invariant Items(buf, start + pos0, n) == Items(buf, start + pos, n - k)
    {
      var item := FrameLen(buf, start + pos);
      ItemsStep(buf, start + pos, n - k);
      if item.None? || item.value == 0 {
        return item;
      }
      pos := pos + item.value;
    }
    ItemsEnd(buf, start + pos);
    len := Some(pos);
  }

  lemma ItemsEnd(buf: bytes, at: nat)
    requires at <= |buf|
    ensures Items(buf, at, 0) == Complete(at)
  {
  }

  lemma ItemsStep(buf: bytes, at: nat, n: nat)
    requires at <= |buf| && n > 0
    ensures Items(buf, at, n) ==
      if Frame(buf, at).Complete? then Items(buf, Frame(buf, at).end, n - 1) else Frame(buf, at)
  {
  }

  // ---------------------------------------------------------------------------
  // Splitting
  // ---------------------------------------------------------------------------

  datatype SplitResult = Frames(frames: seq<bytes>) | NotAligned(at: nat) | NotANumber

  function Prepend(frame: bytes, rest: SplitResult): SplitResult {
    if rest.Frames? then Frames([frame] + rest.frames) else rest
  }

  function SplitFrom(buf: bytes, pos: nat): SplitResult
    decreases |buf| - pos
  {
    if pos >= |buf| then Frames([])
    else
      match Frame(buf, pos)
      case Complete(end) => Prepend(buf[pos..end], SplitFrom(buf, end))
      case Incomplete => NotAligned(pos)
      case BadNumber => NotANumber
  }

  function Append(frames: seq<bytes>, rest: SplitResult): SplitResult {
    if rest.Frames? then Frames(frames + rest.frames) else rest
  }

  method Split(buf: bytes) returns (r: SplitResult)
    ensures r == SplitFrom(buf, 0)
  {
    hide Frame, SplitFrom;
    var frames: seq<bytes> := [];
    var pos := 0;
    assert SplitFrom(buf, 0) == Append([], SplitFrom(buf, 0)) by { AppendNothing(SplitFrom(buf, 0)); }
    while pos < |buf|
      invariant pos <= |buf|
      invariant SplitFrom(buf, 0) == Append(frames, SplitFrom(buf, pos))
      decreases |buf| - pos
    {
      var consumed := FrameLen(buf, pos);
      SplitStops(buf, pos);
      if consumed.None? {
        return NotANumber;
      }
      if consumed.value == 0 {
        return NotAligned(pos);
      }
      AppendStep(frames, buf, pos);
      frames := frames + [buf[pos..pos + consumed.value]];
      pos := pos + consumed.value;
    }
    SplitEnds(buf, pos);
    r := Frames(frames);
  }

  lemma AppendNothing(r: SplitResult)
    ensures Append([], r) == r
  {
  }

  lemma SplitEnds(buf: bytes, pos: nat)
    requires pos >= |buf|
    ensures SplitFrom(buf, pos) == Frames([])
  {
  }

  lemma AppendStep(frames: seq<bytes>, buf: bytes, pos: nat)
    requires pos < |buf| && Frame(buf, pos).Complete?
    ensures
      var end := Frame(buf, pos).end;
      Append(frames, SplitFrom(buf, pos)) == Append(frames + [buf[pos..end]], SplitFrom(buf, end))
  {
  }

  lemma SplitStops(buf: bytes, pos: nat)
    requires pos < |buf|
    ensures Frame(buf, pos).Incomplete? ==> SplitFrom(buf, pos) == NotAligned(pos)
    ensures Frame(buf, pos).BadNumber? ==> SplitFrom(buf, pos) == NotANumber
  {
  }

  // ---------------------------------------------------------------------------
  // Scanning looks only at the frame
  // ---------------------------------------------------------------------------

  /** The same bytes at another place. */
  ghost predicate SameBytes(buf: bytes, start: nat, end: nat, other: bytes, at: nat) {
    start <= end <= |buf| && at + (end - start) <= |other| && other[at..at + (end - start)] == buf[start..end]
  }

  lemma SameByte(buf: bytes, start: nat, end: nat, other: bytes, at: nat, i: nat)
    requires SameBytes(buf, start, end, other, at) && i < end - start
    ensures other[at + i] == buf[start + i]
  {
  }

  lemma SameShorter(buf: bytes, start: nat, end: nat, other: bytes, at: nat, from: nat, to: nat)
    requires SameBytes(buf, start, end, other, at) && start <= from <= to <= end
    ensures SameBytes(buf, from, to, other, at + (from - start))
    ensures other[at + (from - start)..at + (to - start)] == buf[from..to]
  {
    var i, j := from - start, to - start;
    var a, b := other[at + i..at + j], buf[from..to];
    forall k | 0 <= k < |a|
      ensures a[k] == b[k]
    {
      SameByte(buf, start, end, other, at, i + k);
    }
  }

  lemma {:induction false} FindLocal(buf: bytes, start: nat, c: nat, other: bytes, at: nat)
    requires FindCrlf(buf, start) == Some(c) && SameBytes(buf, start, c + 2, other, at)
    ensures FindCrlf(other, at) == Some(at + (c - start))
    decreases c - start
  {
    SameByte(buf, start, c + 2, other, at, 0);
    SameByte(buf, start, c + 2, other, at, 1);
    if start < c {
      SameShorter(buf, start, c + 2, other, at, start + 1, c + 2);
      FindLocal(buf, start + 1, c, other, at + 1);
    }
  }

  /** A frame that is not a plain line, once its first line and its number are known. */
  function AfterNumber(buf: bytes, start: nat, c: nat, n: int): Scan
    requires start < |buf| && c + 2 <= |buf|
  {
    if n < 0 then Complete(c + 2)
    else if buf[start] == DOLLAR then (if c + 2 + n + 2 > |buf| then Incomplete else Complete(c + 2 + n + 2))
    else Items(buf, c + 2, n)
  }

  lemma FrameIsSized(buf: bytes, start: nat, c: nat)
    requires start < |buf| && (buf[start] == DOLLAR || buf[start] == STAR) && FindCrlf(buf, start) == Some(c)
    ensures start < c
    ensures Frame(buf, start) ==
      var n := ParseInt(buf[start + 1..c]);
      if n.None? then BadNumber else AfterNumber(buf, start, c, n.value)
  {
  }

  lemma FrameIsLine(buf: bytes, start: nat, c: nat)
    requires start < |buf| && IsLine(buf[start]) && FindCrlf(buf, start) == Some(c)
    ensures Frame(buf, start) == Complete(c + 2)
  {
  }

  /** A frame's first line is found again at the other place. */
  lemma HeaderLocal(buf: bytes, start: nat, end: nat, other: bytes, at: nat)
    requires Frame(buf, start) == Complete(end) && SameBytes(buf, start, end, other, at)
    ensures
      var c := FindCrlf(buf, start);
      && c.Some? && start < c.value && c.value + 2 <= end
      && start < |buf| && at < |other| && other[at] == buf[start]
      && (IsLine(buf[start]) || buf[start] == DOLLAR || buf[start] == STAR)
      && FindCrlf(other, at) == Some(at + (c.value - start))
      && other[at + 1..at + (c.value - start)] == buf[start + 1..c.value]
      && at + (end - start) <= |other|
      && SameBytes(buf, c.value + 2, end, other, at + (c.value - start) + 2)
  {
    LineInside(buf, start);
    Fits(buf, start, end, other, at);
    var c := FindCrlf(buf, start).value;
    hide Frame, SameBytes, FindCrlf;
    SameByte(buf, start, end, other, at, 0);
    SameShorter(buf, start, end, other, at, start, c + 2);
    FindLocal(buf, start, c, other, at);
    SameShorter(buf, start, end, other, at, start + 1, c);
    SameShorter(buf, start, end, other, at, c + 2, end);
  }

  /** A complete frame is recognised wherever its bytes stand, whatever follows. */
  lemma {:induction false} FrameLocal(buf: bytes, start: nat, end: nat, other: bytes, at: nat)
    requires Frame(buf, start) == Complete(end) && SameBytes(buf, start, end, other, at)
    ensures Frame(other, at) == Complete(at + (end - start))
    decreases |buf| - start, 1, 0
  {
    hide Frame, SameBytes, FindCrlf, ParseInt, Items;
    HeaderLocal(buf, start, end, other, at);
    var c := FindCrlf(buf, start).value;
    var c' := at + (c - start);
    if IsLine(buf[start]) {
      FrameIsLine(buf, start, c);
      FrameIsLine(other, at, c');
    } else {
      FrameIsSized(buf, start, c);
      FrameIsSized(other, at, c');
      var n := ParseInt(buf[start + 1..c]).value;
      if n >= 0 && buf[start] == STAR {
        ItemsLocal(buf, c + 2, n, end, other, c' + 2);
      }
    }
  }

  lemma Fits(buf: bytes, start: nat, end: nat, other: bytes, at: nat)
    ensures SameBytes(buf, start, end, other, at) ==> start <= end && at + (end - start) <= |other|
  {
  }

  lemma LineInside(buf: bytes, start: nat)
    requires Frame(buf, start).Complete?
    ensures start < |buf| && (IsLine(buf[start]) || buf[start] == DOLLAR || buf[start] == STAR)
    ensures FindCrlf(buf, start).Some? && FindCrlf(buf, start).value + 2 <= Frame(buf, start).end
    ensures start < FindCrlf(buf, start).value
  {
  }

  lemma {:induction false} ItemsLocal(buf: bytes, start: nat, n: nat, end: nat, other: bytes, at: nat)
    requires start <= |buf| && Items(buf, start, n) == Complete(end) && SameBytes(buf, start, end, other, at)
    ensures Items(other, at, n) == Complete(at + (end - start))
    decreases |buf| - start, 2, n
  {
    hide Frame, SameBytes, Items;
    Fits(buf, start, end, other, at);
    if n == 0 {
      ItemsEnd(buf, start);
      ItemsEnd(other, at);
    } else {
      ItemsStep(buf, start, n);
      var first := Frame(buf, start).end;
      SameShorter(buf, start, end, other, at, start, first);
      FrameLocal(buf, start, first, other, at);
      SameShorter(buf, start, end, other, at, first, end);
      ItemsLocal(buf, first, n - 1, end, other, at + (first - start));
      ItemsStep(other, at, n);
    }
  }

  // ---------------------------------------------------------------------------
  // Splitting and joining
  // ---------------------------------------------------------------------------

  function Concat(frames: seq<bytes>): bytes {
    if frames == [] then [] else frames[0] + Concat(frames[1..])
  }

  /** A byte string that is exactly one frame. */
  predicate IsFrame(f: bytes) {
    Frame(f, 0) == Complete(|f|)
  }

  lemma OneFrame(f: bytes)
    ensures IsFrame(f) <==> Frame(f, 0) == Complete(|f|)
  {
  }

  lemma SplitStep(buf: bytes, pos: nat)
    requires pos <= |buf| && SplitFrom(buf, pos).Frames?
    ensures pos == |buf| ==> SplitFrom(buf, pos).frames == []
    ensures pos < |buf| ==>
      && Frame(buf, pos).Complete?
      && SplitFrom(buf, Frame(buf, pos).end).Frames?
      && SplitFrom(buf, pos).frames == [buf[pos..Frame(buf, pos).end]] + SplitFrom(buf, Frame(buf, pos).end).frames
  {
  }

  lemma {:induction false} FramesConcatenate(buf: bytes, pos: nat)
    requires pos <= |buf| && SplitFrom(buf, pos).Frames?
    ensures
      var frames := SplitFrom(buf, pos).frames;
      Concat(frames) == buf[pos..] && forall i :: 0 <= i < |frames| ==> IsFrame(frames[i])
    decreases |buf| - pos
  {
    hide Frame, IsFrame, SplitFrom;
    SplitStep(buf, pos);
    if pos < |buf| {
      var end := Frame(buf, pos).end;
      var f := buf[pos..end];
      FramesConcatenate(buf, end);
      CutFrame(buf, pos, end);
      var frames, rest := SplitFrom(buf, pos).frames, SplitFrom(buf, end).frames;
      assert frames == [f] + rest && frames[0] == f && frames[1..] == rest;
      assert buf[pos..] == f + buf[end..];
      assert forall i :: 0 < i < |frames| ==> frames[i] == rest[i - 1];
    }
  }

  lemma CutFrame(buf: bytes, pos: nat, end: nat)
    requires Frame(buf, pos) == Complete(end)
    ensures IsFrame(buf[pos..end])
  {
    hide Frame;
    FrameLocal(buf, pos, end, buf[pos..end], 0);
  }

  lemma {:induction false} JoinedFramesSplit(buf: bytes, pos: nat, frames: seq<bytes>)
    requires pos <= |buf| && buf[pos..] == Concat(frames)
    requires forall i :: 0 <= i < |frames| ==> IsFrame(frames[i])
    ensures SplitFrom(buf, pos) == Frames(frames)
    decreases |frames|
  {
    hide Frame, IsFrame, SplitFrom, SameBytes;
    if frames == [] {
      assert |buf[pos..]| == 0;
      SplitEnds(buf, pos);
    } else {
      var f, rest := frames[0], frames[1..];
      assert IsFrame(f) && buf[pos..] == f + Concat(rest);
      hide Concat;
      OneFrame(f);
      FrameAt(buf, pos, f, Concat(rest));
      FrameLocal(f, 0, |f|, buf, pos);
      JoinedFramesSplit(buf, pos + |f|, rest);
      SplitUnfolds(buf, pos);
      assert buf[pos..pos + |f|] == buf[pos..][..|f|] == f;
      assert [f] + rest == frames;
    }
  }

  lemma SplitUnfolds(buf: bytes, pos: nat)
    requires pos < |buf| && Frame(buf, pos).Complete?
    ensures SplitFrom(buf, pos) == Prepend(buf[pos..Frame(buf, pos).end], SplitFrom(buf, Frame(buf, pos).end))
  {
    hide Frame;
  }

  /** A split succeeds with given frames exactly when they are single frames that concatenate to the
    * input; so there is at most one way to cut a stream.
    */
  lemma SplitIsTheDecomposition(buf: bytes, frames: seq<bytes>)
    ensures SplitFrom(buf, 0) == Frames(frames)
       <==> Concat(frames) == buf && forall i :: 0 <= i < |frames| ==> IsFrame(frames[i])
  {
    assert buf[0..] == buf;
    if SplitFrom(buf, 0) == Frames(frames) {
      FramesConcatenate(buf, 0);
    }
    if Concat(frames) == buf && forall i :: 0 <= i < |frames| ==> IsFrame(frames[i]) {
      JoinedFramesSplit(buf, 0, frames);
    }
  }

  // ---------------------------------------------------------------------------
  // Encodings
  // ---------------------------------------------------------------------------

  datatype Reply =
    | Simple(text: bytes)
    | Failure(text: bytes)
    | Integer(n: int)
    | Bulk(data: bytes)
    | NullBulk
    | NullArray
    | Array(items: seq<Reply>)

  function Line(prefix: byte, text: bytes): bytes {
    [prefix] + text + CRLF
  }

  function Encode(v: Reply): bytes {
    match v
    case Simple(text) => Line(PLUS, text)
    case Failure(text) => Line(MINUS, text)
    case Integer(n) => Line(COLON, ToDec(n))
    case Bulk(data) => Line(DOLLAR, ToDec(|data|)) + data + CRLF
    case NullBulk => Line(DOLLAR, ToDec(-1))
    case NullArray => Line(STAR, ToDec(-1))
    case Array(items) => Line(STAR, ToDec(|items|)) + EncodeAll(items)
  }

  function EncodeAll(items: seq<Reply>): bytes {
    if items == [] then [] else Encode(items[0]) + EncodeAll(items[1..])
  }

  /** No line end inside the text. */
  predicate NoLineEnd(text: bytes) {
    forall i :: 0 <= i < |text| ==> !LineEndAt(text, i)
  }

  /** Simple strings and errors are single lines, at every depth. */
  predicate SingleLined(v: Reply) {
    match v
    case Simple(text) => NoLineEnd(text)
    case Failure(text) => NoLineEnd(text)
    case Array(items) => forall i :: 0 <= i < |items| ==> SingleLined(items[i])
    case _ => true
  }

  lemma {:induction false} FirstCrlf(buf: bytes, at: nat, c: nat)
    requires at <= c && LineEndAt(buf, c)
    requires forall i :: at <= i < c ==> !LineEndAt(buf, i)
    ensures FindCrlf(buf, at) == Some(c)
    decreases c - at
  {
    if at < c {
      FirstCrlf(buf, at + 1, c);
    }
  }

  /** The first line end of a line is its own exactly when its text holds none. */
  lemma LineEnds(prefix: byte, text: bytes, rest: bytes)
    requires prefix != CR
    ensures FindCrlf(Line(prefix, text) + rest, 0) == Some(1 + |text|) <==> NoLineEnd(text)
  {
    var buf := Line(prefix, text) + rest;
    var c := 1 + |text|;
    assert buf[0] == prefix && LineEndAt(buf, c);
    assert forall i :: 0 <= i < |text| ==> buf[i + 1] == text[i];
    if NoLineEnd(text) {
      forall i | 0 <= i < c
        ensures !LineEndAt(buf, i)
      {
        assert i > 0 ==> !LineEndAt(text, i - 1) && buf[i] == text[i - 1];
      }
      FirstCrlf(buf, 0, c);
    } else {
      var i :| 0 <= i < |text| && LineEndAt(text, i);
      assert LineEndAt(buf, i + 1);
    }
  }

  /** A simple string or error is one frame exactly when it is a single line. */
  lemma LineIsFrame(prefix: byte, text: bytes)
    requires IsLine(prefix)
    ensures IsFrame(Line(prefix, text)) <==> NoLineEnd(text)
  {
    var buf := Line(prefix, text);
    assert buf + [] == buf;
    LineEnds(prefix, text, []);
    hide NoLineEnd;
    assert buf[0] == prefix;
  }

  lemma NumberLine(prefix: byte, n: int, rest: bytes)
    requires prefix == DOLLAR || prefix == STAR
    ensures
      var buf := Line(prefix, ToDec(n)) + rest;
      Frame(buf, 0) == AfterNumber(buf, 0, 1 + |ToDec(n)|, n)
  {
    hide ToDec, ParseInt, FindCrlf, Frame, Items, NoLineEnd;
    var text := ToDec(n);
    var buf := Line(prefix, text) + rest;
    ParseIntToDec(n);
    assert NoLineEnd(text) by { NoReturnNoLineEnd(text); }
    LineEnds(prefix, text, rest);
    assert buf[0] == prefix && buf[1..1 + |text|] == text;
    hide Line;
    FrameIsSized(buf, 0, 1 + |text|);
  }

  lemma NoReturnNoLineEnd(text: bytes)
    requires forall i :: 0 <= i < |text| ==> text[i] != CR
    ensures NoLineEnd(text)
  {
  }

  /** Frames in a row are that many items. */
  lemma {:induction false} ItemsOfFrames(buf: bytes, at: nat, frames: seq<bytes>)
    requires at <= |buf| && buf[at..] == Concat(frames)
    requires forall i :: 0 <= i < |frames| ==> IsFrame(frames[i])
    ensures Items(buf, at, |frames|) == Complete(|buf|)
    decreases |frames|
  {
    hide Frame, IsFrame, Items, SameBytes;
    if frames == [] {
      assert |buf[at..]| == 0;
      ItemsEnd(buf, at);
    } else {
      var f, rest := frames[0], frames[1..];
      assert buf[at..] == f + Concat(rest);
      hide Concat;
      assert IsFrame(f);
      FrameAt(buf, at, f, Concat(rest));
      OneFrame(f);
      ItemsStep(buf, at, |frames|);
      FrameLocal(f, 0, |f|, buf, at);
      ItemsOfFrames(buf, at + |f|, rest);
    }
  }

  lemma FrameAt(buf: bytes, at: nat, f: bytes, rest: bytes)
    requires at <= |buf| && buf[at..] == f + rest
    ensures SameBytes(f, 0, |f|, buf, at) && at + |f| <= |buf| && buf[at + |f|..] == rest
  {
  }

  lemma BulkIsFrame(data: bytes)
    ensures IsFrame(Encode(Bulk(data)))
  {
    NumberLine(DOLLAR, |data|, data + CRLF);
    hide Frame, ToDec;
    var line := Line(DOLLAR, ToDec(|data|));
    assert line + (data + CRLF) == line + data + CRLF;
    assert line[0] == DOLLAR;
  }

  lemma NullsAreFrames()
    ensures IsFrame(Encode(NullBulk)) && IsFrame(Encode(NullArray))
  {
  }

  lemma ArrayIsFrame(items: seq<Reply>)
    requires forall i :: 0 <= i < |items| ==> IsFrame(Encode(items[i]))
    ensures IsFrame(Encode(Array(items)))
  {
    var line, rest := Line(STAR, ToDec(|items|)), EncodeAll(items);
    NumberLine(STAR, |items|, rest);
    hide Frame, ToDec, Items;
    assert (line + rest)[|line|..] == rest;
    assert line[0] == STAR;
    EncodeAllIsConcat(items);
    ItemsOfFrames(line + rest, |line|, Encodings(items));
  }

  /** Every value whose simple strings are single lines encodes to exactly one frame, however deeply
    * arrays and nulls are nested.
    */
  lemma {:induction false} EncodeIsFrame(v: Reply)
    requires SingleLined(v)
    ensures IsFrame(Encode(v))
    decreases v
  {
    match v {
      case Simple(text) => LineIsFrame(PLUS, text);
      case Failure(text) => LineIsFrame(MINUS, text);
      case Integer(n) =>
        ParseIntToDec(n);
        LineIsFrame(COLON, ToDec(n));
      case Bulk(data) => BulkIsFrame(data);
      case NullBulk => NullsAreFrames();
      case NullArray => NullsAreFrames();
      case Array(items) =>
        forall i | 0 <= i < |items|
          ensures IsFrame(Encode(items[i]))
        {
          EncodeIsFrame(items[i]);
        }
        ArrayIsFrame(items);
    }
  }

  function Encodings(values: seq<Reply>): (es: seq<bytes>)
    ensures |es| == |values| && forall i :: 0 <= i < |es| ==> es[i] == Encode(values[i])
  {
    seq(|values|, i requires 0 <= i < |values| => Encode(values[i]))
  }

  lemma {:induction false} EncodeAllIsConcat(values: seq<Reply>)
    ensures EncodeAll(values) == Concat(Encodings(values))
    decreases |values|
  {
    if values != [] {
      EncodeAllIsConcat(values[1..]);
      assert Encodings(values)[1..] == Encodings(values[1..]);
    }
  }

  /** Splitting a stream of encoded values returns exactly their encodings, in order. */
  lemma SplitOfEncodings(values: seq<Reply>)
    requires forall i :: 0 <= i < |values| ==> SingleLined(values[i])
    ensures SplitFrom(EncodeAll(values), 0) == Frames(Encodings(values))
  {
    EncodeAllIsConcat(values);
    forall i | 0 <= i < |values|
      ensures IsFrame(Encodings(values)[i])
    {
      EncodeIsFrame(values[i]);
    }
    SplitIsTheDecomposition(EncodeAll(values), Encodings(values));
  }

  // ---------------------------------------------------------------------------
  // Unfinished frames
  // ---------------------------------------------------------------------------

  lemma SamePrefix(p: bytes, f: bytes, start: nat, end: nat)
    requires p <= f && start <= end <= |p|
    ensures SameBytes(p, start, end, f, start)
  {
  }

  lemma NumberedLine(p: bytes, start: nat)
    requires Frame(p, start).BadNumber?
    ensures start < |p| && (p[start] == DOLLAR || p[start] == STAR)
    ensures FindCrlf(p, start).Some?
  {
  }

  /** A length that is no number stays so when more bytes arrive. */
  lemma {:induction false} BadNumberStays(p: bytes, f: bytes, start: nat)
    requires p <= f && Frame(p, start).BadNumber?
    ensures Frame(f, start).BadNumber?
    decreases |p| - start, 1, 0
  {
    NumberedLine(p, start);
    hide Frame, SameBytes, FindCrlf, ParseInt, Items;
    var c := FindCrlf(p, start).value;
    SamePrefix(p, f, start, c + 2);
    FindLocal(p, start, c, f, start);
    FrameIsSized(p, start, c);
    FrameIsSized(f, start, c);
    assert p[start + 1..c] == f[start + 1..c];
    var n := ParseInt(p[start + 1..c]);
    if n.Some? && n.value >= 0 && p[start] == STAR {
      BadItemStays(p, f, c + 2, n.value);
    }
  }

  lemma {:induction false} BadItemStays(p: bytes, f: bytes, at: nat, n: nat)
    requires p <= f && at <= |p| && Items(p, at, n).BadNumber?
    ensures Items(f, at, n).BadNumber?
    decreases |p| - at, 2, n
  {
    hide Frame, SameBytes, Items;
    if n == 0 {
      ItemsEnd(p, at);
    } else {
      ItemsStep(p, at, n);
      ItemsStep(f, at, n);
      if Frame(p, at).Complete? {
        var end := Frame(p, at).end;
        SamePrefix(p, f, at, end);
        FrameLocal(p, at, end, f, at);
        BadItemStays(p, f, end, n - 1);
      } else {
        BadNumberStays(p, f, at);
      }
    }
  }

  /** Until the last byte of a frame has arrived there is no complete frame and no error either. */
  lemma UnfinishedFrame(f: bytes, k: nat)
    requires IsFrame(f) && k < |f|
    ensures Frame(f[..k], 0) == Incomplete
  {
    var p := f[..k];
    assert p <= f;
    hide Frame, SameBytes;
    OneFrame(f);
    match Frame(p, 0) {
      case Complete(end) =>
        SamePrefix(p, f, 0, end);
        FrameLocal(p, 0, end, f, 0);
      case BadNumber => BadNumberStays(p, f, 0);
      case Incomplete =>
    }
  }

  /** Nothing starts with another byte than the five prefixes; it reads as unfinished for ever. */
  lemma OtherPrefix(buf: bytes, start: nat)
    requires start < |buf| && buf[start] !in {36, 42, 43, 45, 58}
    ensures Frame(buf, start) == Incomplete
  {
  }

  /** Every negative length is a frame without content. */
  lemma NegativeLength(prefix: byte, n: int)
    requires (prefix == DOLLAR || prefix == STAR) && n < 0
    ensures IsFrame(Line(prefix, ToDec(n)))
  {
    var line := Line(prefix, ToDec(n));
    NumberLine(prefix, n, []);
    hide ToDec, Frame;
    assert line + [] == line;
  }

  /** Python's `int` allows surrounding space, a sign and single underscores between digits. */
  lemma PythonInts()
    ensures ParseInt([32, 49, 95, 48, 10]) == Some(10)
    ensures ParseInt([43, 53]) == Some(5) && ParseInt([45, 53]) == Some(-5)
    ensures ParseInt([49, 95, 95, 48]) == None && ParseInt([95, 49]) == None && ParseInt([49, 95]) == None
  {
  }

  /** Without digits right behind the sign there is no integer. */
  lemma NoInts()
    ensures ParseInt([]) == None && ParseInt([45]) == None && ParseInt([45, 32, 53]) == None
  {
  }

  lemma {:induction false} StripLeftBefore(text: bytes, w: byte)
    requires IsSpace(w)
    ensures StripLeft(text + [w]) == if StripLeft(text) == [] then [] else StripLeft(text) + [w]
    decreases |text|
  {
    var whole := text + [w];
    if text == [] {
      assert whole[1..] == [];
    } else if IsSpace(text[0]) {
      assert whole[1..] == text[1..] + [w];
      StripLeftBefore(text[1..], w);
    }
  }

  /** The six ASCII white-space characters may stand around a length, and nothing else may stand in front
    * of its digits but a sign.
    */
  lemma SpaceAroundInts(text: bytes, b: byte)
    ensures b in {9, 10, 11, 12, 13, 32} ==> ParseInt([b] + text) == ParseInt(text) == ParseInt(text + [b])
    ensures b !in {9, 10, 11, 12, 13, 32, 43, 45} && !(48 <= b <= 57) ==> ParseInt([b, 53]) == None
  {
    if b in {9, 10, 11, 12, 13, 32} {
      assert ([b] + text)[1..] == text;
      StripLeftBefore(text, b);
      var t := StripLeft(text);
      assert (t + [b])[..|t|] == t;
      hide Grouped;
    } else if b !in {43, 45} && !(48 <= b <= 57) {
      StrayByte(b);
    }
  }

  lemma StrayByte(b: byte)
    requires !IsSpace(b) && !IsDigit(b) && b != MINUS && b != PLUS
    ensures ParseInt([b, 53]) == None
  {
    var one: bytes, pair: bytes := [b], [b, 53];
    assert pair[..1] == one && one[..0] == [];
    assert Grouped(one) == None && Grouped([]) == None;
    assert Grouped(pair) == None;
    assert StripLeft(pair) == pair && StripRight(pair) == pair;
  }
}
