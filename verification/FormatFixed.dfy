/**
 Printing a signed fixed-point number in decimal: at least `minDig` digits, a point
 before the last `dot` of them. The reference definition is a decimal parser.
 */
module FixedPoint {
  import opened EmberTypes

  type Int32 = v: int | -0x8000_0000 <= v <= 0x7FFF_FFFF

  type Digit = d: int | 0 <= d <= 9

  /** The size of the scratch buffer for digits. */
  const SCRATCH_SIZE := 20

  function DigitChar(d: Digit): char {
    ('0' as int + d) as char
  }

  // ----- what is printed

  /** The digits of `v`, least significant first, padded with zeroes to `minDig` of them. */
  function Digits(v: nat, minDig: nat): seq<Digit>
    decreases minDig, v
  {
    if minDig == 0 && v == 0 then []
    else [v % 10] + Digits(v / 10, if minDig == 0 then 0 else minDig - 1)
  }

  /** The first `n` digits, most significant first, with a point after the one at `dot`. */
  function Print(digits: seq<Digit>, n: nat, dot: Byte): string
    requires n <= |digits|
  {
    if n == 0 then ""
    else [DigitChar(digits[n - 1])] + (if n - 1 == dot then "." else "") + Print(digits, n - 1, dot)
  }

  function Sign(value: Int32, showPlus: bool): string {
    if value < 0 then "-" else if showPlus then "+" else ""
  }

  function Magnitude(value: Int32): nat {
    if value < 0 then -(value as int) else value
  }

  function Format(value: Int32, minDig: Byte, dot: Byte, showPlus: bool): string {
    var digits := Digits(Magnitude(value), minDig);
    Sign(value, showPlus) + Print(digits, |digits|, dot)
  }

  // ----- reading it back

  /** A decimal numeral: its digits as an integer, how many there are, and how many follow a point. */
  datatype Numeral = Numeral(mantissa: int, digits: nat, fraction: Option<nat>)

  predicate IsDigit(c: char) {
    '0' <= c <= '9'
  }

  function ReadDigits(s: string, mantissa: nat, digits: nat, fraction: Option<nat>): Option<Numeral>
    decreases |s|
  {
    if s == "" then Some(Numeral(mantissa, digits, fraction))
    else if s[0] == '.' && fraction.None? then ReadDigits(s[1..], mantissa, digits, Some(0))
    else if IsDigit(s[0]) then
      ReadDigits(s[1..], mantissa * 10 + (s[0] as int - '0' as int), digits + 1,
                 if fraction.Some? then Some(fraction.value + 1) else None)
    else None
  }

  function Parse(s: string): Option<Numeral> {
    if s != "" && s[0] == '-' then
      var n := ReadDigits(s[1..], 0, 0, None);
      if n.Some? then Some(n.value.(mantissa := -n.value.mantissa)) else None
    else if s != "" && s[0] == '+' then ReadDigits(s[1..], 0, 0, None)
    else ReadDigits(s, 0, 0, None)
  }

  // ----- round trip

  /** The number of decimal digits of `v`; none for 0. */
  function DigitCount(v: nat): nat {
    if v == 0 then 0 else 1 + DigitCount(v / 10)
  }

  function Max(a: nat, b: nat): nat {
    if a < b then b else a
  }

  lemma {:induction false} DigitsLength(v: nat, minDig: nat)
    ensures |Digits(v, minDig)| == Max(minDig, DigitCount(v))
    decreases minDig, v
  {
    if minDig > 0 || v > 0 {
      DigitsLength(v / 10, if minDig == 0 then 0 else minDig - 1);
    }
  }

  /** The first `n` digits appended to a mantissa, most significant first. */
  function Appended(digits: seq<Digit>, n: nat, mantissa: nat): nat
    requires n <= |digits|
  {
    if n == 0 then mantissa else Appended(digits, n - 1, mantissa * 10 + digits[n - 1])
  }

  lemma {:induction false} AppendedLast(d: Digit, rest: seq<Digit>, n: nat, mantissa: nat)
    requires n <= |rest|
    ensures Appended([d] + rest, n + 1, mantissa) == Appended(rest, n, mantissa) * 10 + d
  {
    if n > 0 {
      AppendedLast(d, rest, n - 1, mantissa * 10 + rest[n - 1]);
    }
  }

  lemma {:induction false} DigitsValue(v: nat, minDig: nat)
    ensures Appended(Digits(v, minDig), |Digits(v, minDig)|, 0) == v
    decreases minDig, v
  {
    if minDig > 0 || v > 0 {
      var rest := Digits(v / 10, if minDig == 0 then 0 else minDig - 1);
      DigitsValue(v / 10, if minDig == 0 then 0 else minDig - 1);
      AppendedLast(v % 10, rest, |rest|, 0);
    }
  }

  /** What the fraction is after `n` more digits were read. */
  function FractionAfter(n: nat, dot: Byte, fraction: Option<nat>): Option<nat> {
    if fraction.Some? then Some(fraction.value + n) else if dot < n then Some(dot) else None
  }

  lemma ReadDigit(d: Digit, rest: string, mantissa: nat, count: nat, fraction: Option<nat>)
    ensures ReadDigits([DigitChar(d)] + rest, mantissa, count, fraction)
            == ReadDigits(rest, mantissa * 10 + d, count + 1,
                          if fraction.Some? then Some(fraction.value + 1) else None)
  {
    assert ([DigitChar(d)] + rest)[1..] == rest;
  }

  lemma ReadPoint(rest: string, mantissa: nat, count: nat)
    ensures ReadDigits("." + rest, mantissa, count, None) == ReadDigits(rest, mantissa, count, Some(0))
  {
    assert ("." + rest)[1..] == rest;
  }

  lemma {:induction false} ReadPrint(
    digits: seq<Digit>, n: nat, dot: Byte, mantissa: nat, count: nat, fraction: Option<nat>)
    requires n <= |digits| && (fraction.Some? ==> n <= dot)
    ensures ReadDigits(Print(digits, n, dot), mantissa, count, fraction)
            == Some(Numeral(Appended(digits, n, mantissa), count + n, FractionAfter(n, dot, fraction)))
  {
    if n > 0 {
      var d, rest := digits[n - 1], Print(digits, n - 1, dot);
      if n - 1 == dot {
        assert Print(digits, n, dot) == [DigitChar(d)] + ("." + rest);
        ReadDigit(d, "." + rest, mantissa, count, fraction);
        ReadPoint(rest, mantissa * 10 + d, count + 1);
        ReadPrint(digits, n - 1, dot, mantissa * 10 + d, count + 1, Some(0));
      } else {
        assert Print(digits, n, dot) == [DigitChar(d)] + rest;
        ReadDigit(d, rest, mantissa, count, fraction);
        ReadPrint(digits, n - 1, dot, mantissa * 10 + d, count + 1,
                  if fraction.Some? then Some(fraction.value + 1) else None);
      }
    }
  }

  /** A printed number starts with a digit, if it has any. */
  lemma PrintStartsWithDigit(digits: seq<Digit>, n: nat, dot: Byte)
    requires n <= |digits|
    ensures Print(digits, n, dot) != "" ==> IsDigit(Print(digits, n, dot)[0])
  {
  }

  /**
   Round trip: for every 32-bit value, reading the printed text back gives the value, in exactly
   max(minDig, digits of the value) digits, `dot` of them after the point; if there are no more
   digits than that, no point is printed at all.
   */
  lemma FormatRoundTrip(value: Int32, minDig: Byte, dot: Byte, showPlus: bool)
    ensures var n := Max(minDig, DigitCount(Magnitude(value)));
            Parse(Format(value, minDig, dot, showPlus))
            == Some(Numeral(value, n, if dot < n then Some(dot) else None))
  {
    var digits := Digits(Magnitude(value), minDig);
    var sign, text := Sign(value, showPlus), Print(digits, |digits|, dot);
    DigitsLength(Magnitude(value), minDig);
    DigitsValue(Magnitude(value), minDig);
    ReadPrint(digits, |digits|, dot, 0, 0, None);
    PrintStartsWithDigit(digits, |digits|, dot);
    assert sign == "" ==> sign + text == text;
    assert sign != "" ==> (sign + text)[1..] == text;
  }

  /** The print loop writes digits and at most one point, which comes after the digit at `dot`. */
  lemma {:induction false} PrintIsUnsigned(digits: seq<Digit>, n: nat, dot: Byte)
    requires n <= |digits|
    ensures forall c :: c in Print(digits, n, dot) ==> IsDigit(c) || c == '.'
    ensures |Print(digits, n, dot)| == n + (if dot < n then 1 else 0)
  {
    if n > 0 {
      PrintIsUnsigned(digits, n - 1, dot);
    }
  }

  /**
   The sign: a minus in front exactly of negative values, a plus exactly of the others if it was
   asked for, no sign anywhere else; and the length of the text.
   */
  lemma FormatSign(value: Int32, minDig: Byte, dot: Byte, showPlus: bool)
    ensures var text, n := Format(value, minDig, dot, showPlus),
                           Max(minDig, DigitCount(if value < 0 then -(value as int) else value));
            && |text| == (if value < 0 || showPlus then 1 else 0) + n + (if dot < n then 1 else 0)
            && (text != "" ==>
                  && (text[0] == '-' <==> value < 0)
                  && (text[0] == '+' <==> value >= 0 && showPlus)
                  && (IsDigit(text[0]) <==> value >= 0 && !showPlus))
            && (forall i :: 0 < i < |text| ==> IsDigit(text[i]) || text[i] == '.')
  {
    var digits := Digits(Magnitude(value), minDig);
    DigitsLength(Magnitude(value), minDig);
    PrintIsUnsigned(digits, |digits|, dot);
    PrintStartsWithDigit(digits, |digits|, dot);
    var sign, text := Sign(value, showPlus), Print(digits, |digits|, dot);
    forall i | |sign| <= i < |sign + text| ensures (sign + text)[i] in text {
      assert (sign + text)[i] == text[i - |sign|];
    }
  }

  /** Different values, or points in different places, never print alike. */
  lemma FormatIsInjective(
    v: Int32, w: Int32, minDig: Byte, minDig': Byte, dot: Byte, dot': Byte, plus: bool, plus': bool)
    requires Format(v, minDig, dot, plus) == Format(w, minDig', dot', plus')
    ensures v == w
    ensures dot < minDig && dot' < minDig' ==> dot == dot'
  {
    FormatRoundTrip(v, minDig, dot, plus);
    FormatRoundTrip(w, minDig', dot', plus');
  }

  // ----- the scratch buffer

  function Pow10(k: nat): nat {
    if k == 0 then 1 else 10 * Pow10(k - 1)
  }

  lemma {:induction false} DigitCountBound(v: nat, k: nat)
    requires v < Pow10(k)
    ensures DigitCount(v) <= k
    decreases k
  {
    if v > 0 {
      DigitCountBound(v / 10, k - 1);
    }
  }

  /** A 32-bit value has at most 10 digits, so the scratch buffer is overrun exactly if minDig exceeds it. */
  lemma DigitsFitIff(value: Int32, minDig: Byte)
    ensures |Digits(Magnitude(value), minDig)| <= SCRATCH_SIZE <==> minDig <= SCRATCH_SIZE
  {
    assert Pow10(5) == 100000;
    assert Pow10(10) == 10000000000;
    DigitCountBound(Magnitude(value), 10);
    DigitsLength(Magnitude(value), minDig);
  }

  // ----- the program

  /** Fills the scratch buffer; the result is the number of digits. */
  method FillScratch(numBuff: array<Digit>, value: Int32, minDig: Byte) returns (i: nat)
    requires numBuff.Length == SCRATCH_SIZE && minDig <= SCRATCH_SIZE
    modifies numBuff
    ensures i <= numBuff.Length && numBuff[..i] == Digits(Magnitude(value), minDig)
  {
    ghost var digits := Digits(Magnitude(value), minDig);
    DigitsFitIff(value, minDig);
    var calcValue := Magnitude(value);
    i := 0;
    while i < minDig || calcValue != 0
      invariant i <= |digits| && numBuff[..i] == digits[..i]
      invariant digits[i..] == Digits(calcValue, if i < minDig then minDig - i else 0)
      decreases |digits| - i
    {
      assert digits[i] == digits[i..][0] && digits[i..][1..] == digits[i + 1..];
      numBuff[i] := calcValue % 10;
      calcValue := calcValue / 10;
      i := i + 1;
    }
    assert digits[..i] == digits;
  }

  /** Writes one digit, and the point if it belongs after it. */
  method PutDigit(charBuffer: array<char>, at: nat, d: Digit, point: bool) returns (next: nat)
    requires at + (if point then 2 else 1) <= charBuffer.Length
    modifies charBuffer
    ensures next == at + if point then 2 else 1
    ensures charBuffer[..next] == old(charBuffer[..at]) + [DigitChar(d)] + (if point then "." else "")
    ensures charBuffer[next..] == old(charBuffer[next..])
  {
    charBuffer[at] := DigitChar(d);
    next := at + 1;
    if point {
      charBuffer[next] := '.';
      next := next + 1;
    }
  }

  /** Prints the first `n` digits of the scratch buffer from `start` on. */
  method PrintDigits(charBuffer: array<char>, start: nat, numBuff: array<Digit>, n: nat, dot: Byte) returns (next: nat)
    requires n <= numBuff.Length
    requires start + |Print(numBuff[..], n, dot)| <= charBuffer.Length
    modifies charBuffer
    ensures next == start + |Print(numBuff[..], n, dot)|
    ensures charBuffer[..next] == old(charBuffer[..start]) + Print(numBuff[..], n, dot)
    ensures charBuffer[next..] == old(charBuffer[..])[next..]
  {
    ghost var digits, end := numBuff[..], start + |Print(numBuff[..], n, dot)|;
    ghost var text := charBuffer[..start] + Print(digits, n, dot);
    next := start;
    var i: nat := n;
    while i > 0
      invariant i <= n && next + |Print(digits, i, dot)| == end
      invariant charBuffer[..next] + Print(digits, i, dot) == text
      invariant charBuffer[end..] == old(charBuffer[..])[end..]
    {
      i := i - 1;
      ghost var tail := charBuffer[end..];
      next := PutDigit(charBuffer, next, numBuff[i], i == dot);
      assert charBuffer[end..] == charBuffer[next..][end - next..] == tail;
    }
  }

  lemma PrintFrame(digits: seq<Digit>, more: seq<Digit>, n: nat, dot: Byte)
    requires n <= |digits| && n <= |more| && digits[..n] == more[..n]
    ensures Print(digits, n, dot) == Print(more, n, dot)
  {
    if n > 0 {
      assert digits[n - 1] == digits[..n][n - 1] == more[n - 1];
      assert digits[..n - 1] == digits[..n][..n - 1] == more[..n - 1];
      PrintFrame(digits, more, n - 1, dot);
    }
  }

  /** Prints into a buffer with room for the text and its terminating zero; returns the text's length. */
  method FormatFixed(charBuffer: array<char>, value: Int32, minDig: Byte, dot: Byte, showPlus: bool)
    returns (length: nat)
    requires minDig <= SCRATCH_SIZE
    requires |Format(value, minDig, dot, showPlus)| < charBuffer.Length
    modifies charBuffer
    ensures length < charBuffer.Length && charBuffer[..length] == Format(value, minDig, dot, showPlus)
    ensures charBuffer[length] == 0 as char
    ensures charBuffer[length + 1..] == old(charBuffer[..])[length + 1..]
  {
    var numBuff := new Digit[SCRATCH_SIZE];
    var n := FillScratch(numBuff, value, minDig);
    PrintFrame(numBuff[..], Digits(Magnitude(value), minDig), n, dot);
    length := 0;
    if value < 0 {
      charBuffer[length] := '-';
      length := length + 1;
    } else if showPlus {
      charBuffer[length] := '+';
      length := length + 1;
    }
    assert charBuffer[..length] == Sign(value, showPlus);
    length := PrintDigits(charBuffer, length, numBuff, n, dot);
    assert charBuffer[length + 1..] == charBuffer[length..][1..];
    ghost var printed := charBuffer[..length];
    charBuffer[length] := 0 as char;
    assert charBuffer[..length] == printed;
  }
}
