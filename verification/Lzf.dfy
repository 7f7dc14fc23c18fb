/** The LZF decoder used for compressed RDB strings.
  *
  * The bitstream is a sequence of tokens: literal runs and back references. `Decompress` is the
  * decoder's loop; it is proved to accept exactly the encodings of token lists and to produce
  * their expansion (`DecodesExactly`).
  */
module Lzf {
  import opened Bytes

  datatype Token = Literal(data: seq<byte>) | BackRef(offset: nat, length: nat)

  /** What the format can express: 1 to 32 literals, or 3 to 264 bytes from up to 8192 back. */
  predicate ValidToken(t: Token) {
    match t
    case Literal(data) => 1 <= |data| <= 32
    case BackRef(offset, length) => offset < 8192 && 3 <= length <= 264
  }

  function EncodeToken(t: Token): seq<byte>
    requires ValidToken(t)
  {
    match t
    case Literal(data) => [|data| - 1] + data
    case BackRef(offset, length) =>
      if length < 9 then [(length - 2) * 32 + offset / 256, offset % 256]
      else [7 * 32 + offset / 256, length - 9, offset % 256]
  }

  /** Append n bytes, each equal to the byte offset + 1 places before it. */
  function Extend(out: seq<byte>, offset: nat, n: nat): (r: seq<byte>)
    requires offset < |out|
    ensures |r| == |out| + n && r[..|out|] == out
    ensures forall k :: |out| <= k < |r| ==> r[k] == r[k - offset - 1]
    decreases n
  {
    if n == 0 then out
    else
      var next := out + [out[|out| - offset - 1]];
      var r := Extend(next, offset, n - 1);
      assert r[..|next|][..|out|] == out;
      assert r[|out|] == r[..|next|][|out|];
      r
  }

  /** Those equations determine the copied bytes. */
  lemma {:induction false} ExtendUnique(out: seq<byte>, offset: nat, n: nat, r: seq<byte>)
    requires offset < |out| && |r| == |out| + n && r[..|out|] == out
    requires forall k :: |out| <= k < |r| ==> r[k] == r[k - offset - 1]
    ensures r == Extend(out, offset, n)
    decreases n
  {
    if n > 0 {
      var next := out + [out[|out| - offset - 1]];
      assert r[|out|] == r[|out| - offset - 1] == r[..|out|][|out| - offset - 1];
      assert r[..|next|] == r[..|out|] + [r[|out|]];
      ExtendUnique(next, offset, n - 1, r);
    } else {
      assert r[..|out|] == r;
    }
  }

  function ExpandToken(out: seq<byte>, t: Token): Option<seq<byte>> {
    match t
    case Literal(data) => Some(out + data)
    case BackRef(offset, length) => if offset < |out| then Some(Extend(out, offset, length)) else None
  }

  function Expand(out: seq<byte>, tokens: seq<Token>): Option<seq<byte>>
    decreases |tokens|
  {
    if tokens == [] then Some(out)
    else
      match ExpandToken(out, tokens[0])
      case Some(next) => Expand(next, tokens[1..])
      case None => None
  }

  predicate ValidTokens(tokens: seq<Token>) {
    forall i :: 0 <= i < |tokens| ==> ValidToken(tokens[i])
  }

  function EncodeTokens(tokens: seq<Token>): seq<byte>
    requires ValidTokens(tokens)
  {
    if tokens == [] then [] else EncodeToken(tokens[0]) + EncodeTokens(tokens[1..])
  }

  // ---------------------------------------------------------------------------
  // The decoder's view of one token
  // ---------------------------------------------------------------------------

  /** The token at the front of the input and its size, if the input holds it completely. */
  function Front(input: seq<byte>): (r: Option<(Token, nat)>)
    ensures r.Some? ==>
      0 < r.value.1 <= |input| && ValidToken(r.value.0) && EncodeToken(r.value.0) == input[..r.value.1]
  {
    if input == [] then None
    else
      var ctrl: int := input[0];
      if ctrl < 32 then
        if ctrl + 2 > |input| then None
        else
          assert input[..ctrl + 2] == [input[0]] + input[1..ctrl + 2];
          Some((Literal(input[1..ctrl + 2]), ctrl + 2))
      else if ctrl / 32 == 7 then
        if |input| < 3 then None
        else
          var more: int, low: int := input[1], input[2];
          assert input[..3] == [input[0], input[1], input[2]];
          Some((BackRef(ctrl % 32 * 256 + low, 9 + more), 3))
      else if |input| < 2 then None
      else
        var low: int := input[1];
        assert input[..2] == [input[0], input[1]];
        Some((BackRef(ctrl % 32 * 256 + low, ctrl / 32 + 2), 2))
  }

  lemma FrontOfEncoding(t: Token, rest: seq<byte>)
    requires ValidToken(t)
    ensures Front(EncodeToken(t) + rest) == Some((t, |EncodeToken(t)|))
  {
  }

  /** Decoding continues from `out`: the specification of the loop. */
  function DecodeFrom(input: seq<byte>, out: seq<byte>): Option<seq<byte>>
    decreases |input|
  {
    if input == [] then Some(out)
    else
      match Front(input)
      case None => None
      case Some((t, size)) =>
        match ExpandToken(out, t)
        case None => None
        case Some(next) => DecodeFrom(input[size..], next)
  }

  lemma FrontAt(input: seq<byte>, p: nat)
    requires p < |input|
    ensures
      var ctrl: int := input[p];
      Front(input[p..]) ==
        if ctrl < 32 then
          if p + ctrl + 2 > |input| then None else Some((Literal(input[p + 1..p + ctrl + 2]), ctrl + 2))
        else if ctrl / 32 == 7 then
          if p + 3 > |input| then None
          else Some((BackRef(ctrl % 32 * 256 + input[p + 2] as int, 9 + input[p + 1] as int), 3))
        else
          if p + 2 > |input| then None
          else Some((BackRef(ctrl % 32 * 256 + input[p + 1] as int, ctrl / 32 + 2), 2))
  {
    var s := input[p..];
    assert s[0] == input[p];
    assert |s| > 1 ==> s[1] == input[p + 1];
    assert |s| > 2 ==> s[2] == input[p + 2];
    assert forall n :: 1 <= n <= |s| ==> s[1..n] == input[p + 1..p + n];
  }

  function Continue(front: Option<(Token, nat)>, input: seq<byte>, p: nat, out: seq<byte>): Option<seq<byte>> {
    if front.None? then None
    else
      var next := ExpandToken(out, front.value.0);
      var q := p + front.value.1;
      if next.None? || q > |input| then None else DecodeFrom(input[q..], next.value)
  }

  lemma DecodeStep(input: seq<byte>, p: nat, out: seq<byte>)
    requires p < |input|
    ensures DecodeFrom(input[p..], out) == Continue(Front(input[p..]), input, p, out)
  {
  }

  /** The run may overlap the current tail, so bytes are copied one at a time. */
  method CopyRun(tail: seq<byte>, refOff: nat, runLen: nat) returns (out: seq<byte>)
    requires refOff < |tail|
    ensures out == Extend(tail, refOff, runLen)
  {
    out := tail;
    var start := |out| - refOff - 1;
    for i := 0 to runLen
      invariant |out| == |tail| + i
      invariant Extend(out, refOff, runLen - i) == Extend(tail, refOff, runLen)
    {
      out := out + [out[start + i]];
    }
  }

  method Grow(out: seq<byte>, token: Token) returns (grown: Option<seq<byte>>)
    ensures grown == ExpandToken(out, token)
  {
    match token {
      case Literal(data) =>
        grown := Some(out + data);
      case BackRef(refOff, runLen) =>
        if |out| < refOff + 1 {
          return None;
        }
        var copied := CopyRun(out, refOff, runLen);
        grown := Some(copied);
    }
  }

  /** Read one control byte and its operands, advancing p past them. */
  method ReadToken(input: seq<byte>, start: nat) returns (token: Option<Token>, p: nat)
    requires start < |input|
    ensures token.None? ==> Front(input[start..]) == None
    ensures token.Some? ==> p > start && Front(input[start..]) == Some((token.value, p - start))
  {
    FrontAt(input, start);
    hide Front;
    p := start;
    var ctrl: int := input[p];
    p := p + 1;
    if ctrl < 32 {
      var n := ctrl + 1;
      if p + n > |input| {
        return None, p;
      }
      return Some(Literal(input[p..p + n])), p + n;
    }
    var runLen := ctrl / 32;
    if runLen == 7 {
      if p >= |input| {
        return None, p;
      }
      runLen := runLen + input[p] as int;
      p := p + 1;
    }
    runLen := runLen + 2;
    if p >= |input| {
      return None, p;
    }
    return Some(BackRef(ctrl % 32 * 256 + input[p] as int, runLen)), p + 1;
  }

  method Decompress(input: seq<byte>, uncompressedLen: nat) returns (result: Option<seq<byte>>)
    ensures result ==
            match DecodeFrom(input, []) {
              case Some(out) => if |out| == uncompressedLen then Some(out) else None
              case None => None
            }
  {
    hide Front, DecodeFrom, ExpandToken;
    var out: seq<byte> := [];
    var p := 0;
    assert input[0..] == input;
    while p < |input|
      invariant 0 <= p <= |input|
      invariant DecodeFrom(input[p..], out) == DecodeFrom(input, [])
    {
      DecodeStep(input, p, out);
      FrontFits(input[p..]);
      var token, next := ReadToken(input, p);
      if token.None? {
        return None;
      }
      var grown := Grow(out, token.value);
      if grown.None? {
        return None;
      }
      out := grown.value;
      p := next;
    }
    assert input[p..] == [];
    DecodeEnds(out);
    if |out| != uncompressedLen {
      return None;
    }
    return Some(out);
  }

  lemma DecodeEnds(out: seq<byte>)
    ensures DecodeFrom([], out) == Some(out)
  {
  }

  lemma FrontFits(input: seq<byte>)
    ensures Front(input).Some? ==> 0 < Front(input).value.1 <= |input|
  {
  }

  lemma {:induction false} EncodingDecodes(tokens: seq<Token>, out: seq<byte>)
    requires ValidTokens(tokens)
    ensures DecodeFrom(EncodeTokens(tokens), out) == Expand(out, tokens)
    decreases |tokens|
  {
    if tokens != [] {
      var rest := EncodeTokens(tokens[1..]);
      FrontOfEncoding(tokens[0], rest);
      assert EncodeTokens(tokens)[|EncodeToken(tokens[0])|..] == rest;
      match ExpandToken(out, tokens[0]) {
        case Some(next) => EncodingDecodes(tokens[1..], next);
        case None =>
      }
    }
  }

  /** The tokens of an input the decoder accepts. */
  function Tokens(input: seq<byte>): (ts: seq<Token>)
    ensures ValidTokens(ts)
    decreases |input|
  {
    match Front(input)
    case None => []
    case Some((t, size)) => [t] + Tokens(input[size..])
  }

  lemma {:induction false} AcceptedIsEncoding(input: seq<byte>, out: seq<byte>)
    requires DecodeFrom(input, out).Some?
    ensures EncodeTokens(Tokens(input)) == input
    decreases |input|
  {
    if input != [] {
      var (t, size) := Front(input).value;
      AcceptedIsEncoding(input[size..], ExpandToken(out, t).value);
      assert Tokens(input)[1..] == Tokens(input[size..]);
      assert input == input[..size] + input[size..];
    }
  }

  /** The decoder accepts exactly the encodings of valid token lists whose references stay inside
    * the output, and returns their expansion.
    */
  lemma DecodesExactly(input: seq<byte>, out: seq<byte>)
    ensures DecodeFrom(input, []) == Some(out) <==>
            exists tokens :: ValidTokens(tokens) && EncodeTokens(tokens) == input && Expand([], tokens) == Some(out)
  {
    if DecodeFrom(input, []) == Some(out) {
      AcceptedIsEncoding(input, []);
      EncodingDecodes(Tokens(input), []);
    }
    forall tokens | ValidTokens(tokens) && EncodeTokens(tokens) == input && Expand([], tokens) == Some(out)
      ensures DecodeFrom(input, []) == Some(out)
    {
      EncodingDecodes(tokens, []);
    }
  }
}
