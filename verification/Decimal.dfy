/** Decimal text of 64-bit signed integers: Rust's `to_string` and `parse::<i64>`. */
module Decimal {
  import opened Bytes

  const I64_MIN: int := -0x8000_0000_0000_0000
  const I64_MAX: int := 0x7fff_ffff_ffff_ffff

  predicate IsI64(n: int) {
    I64_MIN <= n <= I64_MAX
  }

  const MINUS: byte := 45
  const PLUS: byte := 43

  function Digits(n: nat): (text: seq<byte>)
    ensures text != []
    ensures forall i :: 0 <= i < |text| ==> IsDigit(text[i])
  {
    if n < 10 then [48 + n] else Digits(n / 10) + [48 + n % 10]
  }

  function ToDec(n: int): seq<byte> {
    if n < 0 then [MINUS] + Digits(-n) else Digits(n)
  }

  predicate IsDigit(b: byte) {
    48 <= b <= 57
  }

  /** The value of a run of digits, or nothing if a character is not a digit. */
  function DigitsValue(text: seq<byte>): Option<nat> {
    if text == [] then Some(0)
    else
      var last := text[|text| - 1];
      match DigitsValue(text[..|text| - 1])
      case Some(v) => if IsDigit(last) then Some(v * 10 + (last - 48)) else None
      case None => None
  }

  function ParseI64(text: seq<byte>): Option<int> {
    var signed := text != [] && (text[0] == MINUS || text[0] == PLUS);
    var digits := if signed then text[1..] else text;
    if digits == [] then None
    else
      match DigitsValue(digits)
      case None => None
      case Some(v) =>
        var n: int := if signed && text[0] == MINUS then 0 - v else v;
        if IsI64(n) then Some(n) else None
  }

  lemma {:induction false} DigitsValueOfDigits(n: nat)
    ensures DigitsValue(Digits(n)) == Some(n)
  {
    if n < 10 {
      assert Digits(n)[..0] == [];
    } else {
      DigitsValueOfDigits(n / 10);
      assert Digits(n)[..|Digits(n)| - 1] == Digits(n / 10);
    }
  }

  lemma ParseToDec(n: int)
    requires IsI64(n)
    ensures ParseI64(ToDec(n)) == Some(n)
  {
    if n < 0 {
      DigitsValueOfDigits(-n);
      assert ToDec(n)[1..] == Digits(-n);
    } else {
      DigitsValueOfDigits(n);
    }
  }

  function Pow10(k: nat): (p: nat)
    ensures p > 0
  {
    if k == 0 then 1 else 10 * Pow10(k - 1)
  }

  predicate AllDigits(text: seq<byte>) {
    forall i :: 0 <= i < |text| ==> 48 <= text[i] <= 57
  }

  /** Each digit times the power of ten of its place. */
  function PlaceValue(text: seq<byte>): int {
    if text == [] then 0 else (text[0] as int - 48) * Pow10(|text| - 1) + PlaceValue(text[1..])
  }

  lemma {:induction false} PlaceValueLast(text: seq<byte>, digit: byte)
    ensures PlaceValue(text + [digit]) == 10 * PlaceValue(text) + (digit as int - 48)
    decreases |text|
  {
    var whole := text + [digit];
    if text == [] {
      assert whole[1..] == [] && Pow10(0) == 1;
    } else {
      PlaceValueLast(text[1..], digit);
      assert whole[0] == text[0] && whole[1..] == text[1..] + [digit];
      assert Pow10(|text|) == 10 * Pow10(|text| - 1);
      TenTimes(text[0] as int - 48, Pow10(|text| - 1));
      hide Pow10;
    }
  }

  lemma TenTimes(d: int, p: int)
    ensures d * (10 * p) == 10 * (d * p)
  {
  }

  lemma {:induction false} DigitsValueIsPlaceValue(text: seq<byte>)
    ensures DigitsValue(text) == if AllDigits(text) then Some(PlaceValue(text)) else None
  {
    if text != [] {
      var front, last := text[..|text| - 1], text[|text| - 1];
      DigitsValueIsPlaceValue(front);
      PlaceValueLast(front, last);
      assert text == front + [last];
    }
  }

  /** Text reads as an integer exactly when it is digits, at least one and perhaps behind a sign, whose
    * value fits 64 bits.
    */
  lemma ParseReads(text: seq<byte>)
    ensures
      var signed := text != [] && (text[0] == 43 || text[0] == 45);
      var digits := if signed then text[1..] else text;
      var n := if signed && text[0] == 45 then -PlaceValue(digits) else PlaceValue(digits);
      ParseI64(text) ==
      if digits != [] && AllDigits(digits) && -0x8000_0000_0000_0000 <= n < 0x8000_0000_0000_0000 then Some(n) else None
  {
    DigitsValueIsPlaceValue(text);
    if text != [] {
      DigitsValueIsPlaceValue(text[1..]);
    }
    hide DigitsValue, PlaceValue, AllDigits;
  }

  /** The i-th digit from the right counts the powers of ten. */
  lemma {:induction false} DigitAt(n: nat, i: nat)
    requires i < |Digits(n)|
    ensures Digits(n)[|Digits(n)| - 1 - i] as int == 48 + n / Pow10(i) % 10
    decreases i
  {
    if i == 0 {
      assert Pow10(0) == 1;
    } else {
      DigitAt(n / 10, i - 1);
      TenThenDivide(n, Pow10(i - 1));
      assert Pow10(i) == 10 * Pow10(i - 1);
      hide Pow10;
    }
  }

  /** There are no more digits than needed: no leading zero. */
  lemma {:induction false} DigitCount(n: nat)
    ensures n < Pow10(|Digits(n)|) && (n > 0 ==> n >= Pow10(|Digits(n)| - 1)) && (n == 0 ==> |Digits(n)| == 1)
  {
    if n >= 10 {
      DigitCount(n / 10);
    } else {
      assert Pow10(1) == 10;
    }
  }

  /** Decimal text: a minus sign if negative, then digits by place value, without leading zeros. */
  lemma DecimalText(n: int)
    ensures
      var text, m := ToDec(n), if n < 0 then -n else n;
      var digits := if n < 0 then text[1..] else text;
      && (n < 0 <==> text[0] == 45) && digits != []
      && (forall i :: 0 <= i < |digits| ==> digits[|digits| - 1 - i] as int == 48 + m / Pow10(i) % 10)
      && m < Pow10(|digits|) && (if m == 0 then |digits| == 1 else m >= Pow10(|digits| - 1))
  {
    var m := if n < 0 then -n else n;
    DigitCount(m);
    forall i | 0 <= i < |Digits(m)|
      ensures Digits(m)[|Digits(m)| - 1 - i] as int == 48 + m / Pow10(i) % 10
    {
      DigitAt(m, i);
    }
    hide Digits, Pow10;
    assert n < 0 ==> ToDec(n)[1..] == Digits(m);
  }

  lemma TenThenDivide(n: nat, d: nat)
    requires d > 0
    ensures n / (10 * d) == n / 10 / d
  {
    var q, r := n / 10 / d, n / 10 % d;
    assert n == (10 * d) * q + (10 * r + n % 10) by {
      assert n / 10 == d * q + r;
    }
    QuotientIs(n, 10 * d, q, 10 * r + n % 10);
  }

  lemma QuotientIs(n: nat, d: nat, q: nat, r: nat)
    requires r < d && n == d * q + r
    ensures n / d == q
  {
    var p := n / d;
    MulMonotone(d, p + 1, q);
    MulMonotone(d, q + 1, p);
    assert d * p <= n < d * (p + 1);
  }

  lemma MulMonotone(d: nat, x: nat, y: nat)
    ensures x <= y ==> d * x <= d * y
  {
  }

  lemma {:induction false} DigitsLength(n: nat, k: nat)
    requires k > 0 && n < Pow10(k)
    ensures |Digits(n)| <= k
    decreases k
  {
    if n >= 10 {
      DigitsLength(n / 10, k - 1);
    }
  }

  lemma ToDecLength(n: int)
    requires IsI64(n)
    ensures 0 < |ToDec(n)| <= 20
  {
    assert Pow10(10) == 10_000_000_000;
    assert Pow10(19) == 10_000_000_000_000_000_000;
    DigitsLength(if n < 0 then -n else n, 19);
  }

  /** The integer whose decimal text is exactly `data`, if there is one. */
  function TryParseAsciiInt(data: seq<byte>): Option<int> {
    if data == [] || |data| > 20 then None
    else
      match ParseI64(data)
      case None => None
      case Some(n) => if ToDec(n) == data then Some(n) else None
  }

  lemma TryParseExact(data: seq<byte>, n: int)
    ensures TryParseAsciiInt(data) == Some(n) <==> IsI64(n) && data == ToDec(n)
  {
    if IsI64(n) && data == ToDec(n) {
      ParseToDec(n);
      ToDecLength(n);
    }
  }
}
