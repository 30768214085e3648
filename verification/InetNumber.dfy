/**
  Numbers in the notation of C, as inet_aton reads them: at a position of a C string whose characters
  are bytes, into a 32-bit word.
*/
module InetNumber {

  import opened ByteOps
  import opened InetAddr

  // ----- or of 32-bit words

  function OrBits(a: nat, b: nat): nat {
    if a == 0 then b else if b == 0 then a
    else (if a % 2 == 1 || b % 2 == 1 then 1 else 0) + 2 * OrBits(a / 2, b / 2)
  }

  lemma {:induction false} OrBounded(a: nat, b: nat, n: nat)
    requires a < Pow2(n) && b < Pow2(n)
    ensures OrBits(a, b) < Pow2(n)
  {
    if n > 0 { OrBounded(a / 2, b / 2, n - 1); }
  }

  lemma OrHalves(a: nat, b: nat)
    ensures OrBits(a, b) % 2 == (if a % 2 == 1 || b % 2 == 1 then 1 else 0)
    ensures OrBits(a, b) / 2 == OrBits(a / 2, b / 2)
  {
  }

  /** Each bit of the disjunction is 1 exactly if one of the bits is. */
  lemma {:induction false} OrByBit(a: nat, b: nat, k: nat)
    ensures Bit(OrBits(a, b), k) == if Bit(a, k) == 1 || Bit(b, k) == 1 then 1 else 0
    decreases k
  {
    OrHalves(a, b);
    if k == 0 {
      BitNext(a, 0);
      BitNext(b, 0);
      BitNext(OrBits(a, b), 0);
    } else {
      BitNext(a, k - 1);
      BitNext(b, k - 1);
      BitNext(OrBits(a, b), k - 1);
      OrByBit(a / 2, b / 2, k - 1);
    }
  }

  lemma Pow2Of32()
    ensures Pow2(16) == 0x1_0000 && Pow2(24) == 0x100_0000 && Pow2(32) == 0x1_0000_0000
  {
    Pow2Of8();
    Pow2Sum(8, 8);
    Pow2Sum(16, 8);
    Pow2Sum(16, 16);
  }

  lemma {:induction false} Pow2Sum(a: nat, b: nat)
    ensures Pow2(a + b) == Pow2(a) * Pow2(b)
  {
    if a > 0 { Pow2Sum(a - 1, b); }
  }

  function Or(a: Word32, b: Word32): Word32 {
    Pow2Of32();
    OrBounded(a, b, 32);
    OrBits(a, b)
  }

  function Doubled(v: nat, n: nat): nat {
    if n == 0 then v else 2 * Doubled(v, n - 1)
  }

  lemma {:induction false} DoubledIs(v: nat, n: nat)
    ensures Doubled(v, n) == v * Pow2(n)
  {
    if n > 0 { DoubledIs(v, n - 1); }
  }

  lemma {:induction false} OrDoubled(low: nat, high: nat, n: nat)
    requires low < Pow2(n)
    ensures OrBits(low, Doubled(high, n)) == low + Doubled(high, n) == OrBits(Doubled(high, n), low)
  {
    if n > 0 { OrDoubled(low / 2, high, n - 1); }
  }

  /** Words without a common bit: the low one ends where the high one begins. */
  lemma OrAdds(low: nat, high: nat, n: nat)
    requires low < Pow2(n)
    ensures OrBits(low, high * Pow2(n)) == low + high * Pow2(n) == OrBits(high * Pow2(n), low)
  {
    OrDoubled(low, high, n);
    DoubledIs(high, n);
  }

  // ----- characters

  predicate IsDecimal(c: char) {
    '0' <= c <= '9'
  }

  predicate IsLower(c: char) {
    'a' <= c <= 'z'
  }

  /** isxdigit */
  predicate IsHex(c: char) {
    IsDecimal(c) || 'a' <= c <= 'f' || 'A' <= c <= 'F'
  }

  predicate IsPrint(c: char) {
    0x20 as char <= c <= 0x7f as char
  }

  predicate IsSpace(c: char) {
    c == ' ' || c == 0x0c as char || c == '\n' || c == '\r' || c == '\t' || c == 0x0b as char
  }

  /** The characters that a number in this base may hold; base 8 is not checked for 8 and 9. */
  predicate IsDigit(c: char, base: nat) {
    IsDecimal(c) || (base == 16 && IsHex(c))
  }

  function DigitValue(c: char): (d: nat)
    requires IsHex(c)
    ensures d < 16 && (IsDecimal(c) ==> d < 10)
  {
    if IsDecimal(c) then c as nat - '0' as nat
    else c as nat + 10 - (if IsLower(c) then 'a' as nat else 'A' as nat)
  }

  // ----- numbers as texts

  /** The character at a position, a NUL at the end of the text. */
  function At(text: string, k: nat): char {
    if k < |text| then text[k] else '\0'
  }

  function Base(n: string): nat {
    if At(n, 0) != '0' then 10
    else if At(n, 1) == 'x' || At(n, 1) == 'X' then 16
    else 8
  }

  /** 0x, 0, or nothing. */
  function PrefixLength(n: string): (k: nat)
    ensures k <= |n|
  {
    if Base(n) == 16 then 2 else if Base(n) == 8 then 1 else 0
  }

  predicate AllDigits(s: string, from: nat, to: nat, base: nat) {
    to <= |s| && forall k :: from <= k < to ==> IsDigit(s[k], base)
  }

  /** A number times its base, which is 8, 10 or 16. */
  function Times(v: nat, base: nat): nat {
    if base == 8 then v * 8 else if base == 16 then v * 16 else v * 10
  }

  /** The number that a row of digits denotes, without any bound. */
  function Value(s: string, from: nat, to: nat, base: nat): nat
    requires from <= to && AllDigits(s, from, to, base)
  {
    if from == to then 0 else Times(Value(s, from, to - 1, base), base) + DigitValue(s[to - 1])
  }

  /** A C number: a decimal digit, then after the prefix only digits of the base, of which 0 and 0x
      need none. */
  predicate IsNumeral(n: string) {
    IsDecimal(At(n, 0)) && AllDigits(n, PrefixLength(n), |n|, Base(n))
  }

  /** Its value in a 32-bit word. */
  function NumeralValue(n: string): Word32
    requires IsNumeral(n)
  {
    Wrap(Value(n, PrefixLength(n), |n|, Base(n)))
  }

  // ----- 32-bit arithmetic

  /** Arithmetic in 32 bits. */
  function Wrap(v: nat): Word32 {
    if v < 0x1_0000_0000 then v else Wrap(v - 0x1_0000_0000)
  }

  lemma {:induction false} WrapIsModulo(v: nat)
    ensures Wrap(v) == v % 0x1_0000_0000
  {
    if v >= 0x1_0000_0000 {
      WrapIsModulo(v - 0x1_0000_0000);
      AddMultiple(v - 0x1_0000_0000, 1);
    }
  }

  lemma ModTimes(v: nat, factor: nat, d: nat)
    ensures (v % 0x1_0000_0000 * factor + d) % 0x1_0000_0000 == (v * factor + d) % 0x1_0000_0000
  {
    var q := v / 0x1_0000_0000;
    assert v == q * 0x1_0000_0000 + v % 0x1_0000_0000;
    assert v * factor + d == q * factor * 0x1_0000_0000 + (v % 0x1_0000_0000 * factor + d);
    AddMultiple(v % 0x1_0000_0000 * factor + d, q * factor);
  }

  /** Dropping the high bits early or late makes no difference. */
  lemma ModStep(v: nat, base: nat, d: nat)
    ensures Wrap(Times(Wrap(v), base) + d) == Wrap(Times(v, base) + d)
  {
    WrapIsModulo(v);
    WrapIsModulo(Times(v, base) + d);
    WrapIsModulo(Times(Wrap(v), base) + d);
    ModTimes(v, if base == 8 then 8 else if base == 16 then 16 else 10, d);
  }

  lemma AddMultiple(x: nat, k: nat)
    ensures (k * 0x1_0000_0000 + x) % 0x1_0000_0000 == x % 0x1_0000_0000
  {
  }

  lemma ShiftedNibble(val: Word32, d: nat)
    requires d < 16
    ensures (val * 16 + d) % 0x1_0000_0000 == val % 0x1000_0000 * 16 + d
  {
    var q, top := val % 0x1000_0000, val / 0x1000_0000;
    assert val * 16 + d == top * 0x1_0000_0000 + (q * 16 + d);
    AddMultiple(q * 16 + d, top);
  }

  lemma OrNibble(q: nat, d: nat)
    requires d < 16
    ensures OrBits(q * 16, d) == q * 16 + d
  {
    assert Pow2(4) == 16;
    OrAdds(d, q, 4);
  }

  /** (val << 4) | d */
  lemma ShiftOr(val: Word32, d: nat)
    requires d < 16
    ensures Or(Wrap(val * 16), d) == Wrap(val * 16 + d)
  {
    WrapIsModulo(val * 16);
    WrapIsModulo(val * 16 + d);
    ShiftedNibble(val, 0);
    ShiftedNibble(val, d);
    OrNibble(val % 0x1000_0000, d);
  }

  // ----- numbers at a position

  /** Where a row of digits ends. */
  function DigitsEnd(text: string, at: nat, base: nat): (end: nat)
    requires at <= |text|
    ensures at <= end <= |text|
    decreases |text| - at
  {
    if at == |text| || !IsDigit(text[at], base) then at else DigitsEnd(text, at + 1, base)
  }

  /** Reading on from a value, digit by digit. */
  function DigitsValue(text: string, at: nat, base: nat, val: Word32): Word32
    requires at <= |text|
    decreases |text| - at
  {
    if at == |text| || !IsDigit(text[at], base) then val
    else DigitsValue(text, at + 1, base, Wrap(Times(val, base) + DigitValue(text[at])))
  }

  function BaseAt(text: string, at: nat): nat {
    if At(text, at) != '0' then 10
    else if At(text, at + 1) == 'x' || At(text, at + 1) == 'X' then 16
    else 8
  }

  /** Behind the prefix. */
  function DigitsStart(text: string, at: nat): (start: nat)
    requires at <= |text|
    ensures at <= start <= |text|
  {
    if BaseAt(text, at) == 16 then at + 2 else if BaseAt(text, at) == 8 then at + 1 else at
  }

  function NumberEnd(text: string, at: nat): (end: nat)
    requires at <= |text|
    ensures at <= end <= |text|
  {
    DigitsEnd(text, DigitsStart(text, at), BaseAt(text, at))
  }

  function NumberValue(text: string, at: nat): Word32
    requires at <= |text|
  {
    DigitsValue(text, DigitsStart(text, at), BaseAt(text, at), 0)
  }

  // ----- the C loop

  /** One more digit. */
  method NextDigit(val: Word32, base: nat, c: char) returns (next: Word32)
    requires IsDigit(c, base) && (base == 8 || base == 10 || base == 16)
    ensures next == Wrap(Times(val, base) + DigitValue(c))
  {
    if IsDecimal(c) {
      next := Wrap(Times(val, base) + (c as nat - '0' as nat));
    } else {
      ShiftOr(val, DigitValue(c));
      next := Or(Wrap(val * 16), c as nat + 10 - (if IsLower(c) then 'a' as nat else 'A' as nat));
    }
  }

  /** The digits of a number; the NUL at the end of the text stops it. */
  method ReadDigits(text: string, start: nat, base: nat) returns (val: Word32, cp: nat)
    requires start < |text| && text[|text| - 1] == '\0' && (base == 8 || base == 10 || base == 16)
    ensures cp == DigitsEnd(text, start, base) < |text| && val == DigitsValue(text, start, base, 0)
  {
    val, cp := 0, start;
    while IsDigit(text[cp], base)
      invariant start <= cp < |text| && DigitsEnd(text, cp, base) == DigitsEnd(text, start, base)
      invariant DigitsValue(text, cp, base, val) == DigitsValue(text, start, base, 0)
      decreases |text| - cp
    {
      val := NextDigit(val, base, text[cp]);
      cp := cp + 1;
    }
  }

  /** A number with its prefix. */
  method ReadNumber(text: string, at: nat) returns (val: Word32, cp: nat)
    requires at < |text| && text[|text| - 1] == '\0' && IsDecimal(text[at])
    ensures at < cp == NumberEnd(text, at) < |text| && val == NumberValue(text, at)
  {
    var base, start: nat := 10, at;
    if text[at] == '0' {
      start := at + 1;
      if text[start] == 'x' || text[start] == 'X' {
        base := 16;
        start := start + 1;
      } else {
        base := 8;
      }
    }
    assert BaseAt(text, at) == base && DigitsStart(text, at) == start;
    val, cp := ReadDigits(text, start, base);
  }

  // ----- what is read, as a text

  /** The text n stands at a position of another one. */
  predicate Occurs(n: string, text: string, at: nat) {
    at + |n| <= |text| && forall k :: 0 <= k < |n| ==> n[k] == text[at + k]
  }

  lemma {:induction false} DigitsEndMeaning(text: string, at: nat, base: nat)
    requires at <= |text|
    ensures var end := DigitsEnd(text, at, base); AllDigits(text, at, end, base) && !IsDigit(At(text, end), base)
    decreases |text| - at
  {
    if at < |text| && IsDigit(text[at], base) { DigitsEndMeaning(text, at + 1, base); }
  }

  /** Wrapping around at every digit or once at the end makes no difference. */
  lemma {:induction false} DigitsMeaning(text: string, from: nat, at: nat, m: nat, base: nat)
    requires from <= at <= m <= |text| && AllDigits(text, from, m, base) && !IsDigit(At(text, m), base)
    ensures DigitsEnd(text, at, base) == m
    ensures DigitsValue(text, at, base, Wrap(Value(text, from, at, base))) == Wrap(Value(text, from, m, base))
    decreases m - at
  {
    if at < m {
      ModStep(Value(text, from, at, base), base, DigitValue(text[at]));
      DigitsMeaning(text, from, at + 1, m, base);
    }
  }

  /** What may follow a number in an address. */
  predicate Separates(c: char) {
    c == '.' || c == '\0' || c == ' '
  }

  lemma {:induction false} SameValue(n: string, text: string, at: nat, from: nat, to: nat, base: nat)
    requires from <= to && Occurs(n, text, at) && AllDigits(n, from, to, base)
    ensures AllDigits(text, at + from, at + to, base)
    ensures Value(text, at + from, at + to, base) == Value(n, from, to, base)
  {
    SameDigits(n, text, at, from, to, base);
    if from < to { SameValue(n, text, at, from, to - 1, base); }
  }

  lemma SameDigits(n: string, text: string, at: nat, from: nat, to: nat, base: nat)
    requires Occurs(n, text, at) && AllDigits(n, from, to, base)
    ensures AllDigits(text, at + from, at + to, base)
  {
    forall k | at + from <= k < at + to ensures IsDigit(text[k], base) { assert n[k - at] == text[k]; }
  }

  lemma NumberIs(n: string, text: string, at: nat)
    requires Occurs(n, text, at) && IsNumeral(n) && Base(n) == BaseAt(text, at)
    requires !IsDigit(At(text, at + |n|), Base(n))
    ensures NumberEnd(text, at) == at + |n| && NumberValue(text, at) == NumeralValue(n)
  {
    var p := PrefixLength(n);
    SameValue(n, text, at, p, |n|, Base(n));
    DigitsMeaning(text, at + p, at + p, at + |n|, Base(n));
  }

  lemma SameBase(n: string, text: string, at: nat)
    requires Occurs(n, text, at) && |n| > 0
    ensures At(n, 0) == At(text, at) && (|n| > 1 ==> At(n, 1) == At(text, at + 1))
  {
    assert n[0] == text[at + 0];
    assert |n| > 1 ==> n[1] == text[at + 1];
  }

  /** A number is read to its end, and its value is what is read. */
  lemma NumeralStops(n: string, text: string, at: nat)
    requires Occurs(n, text, at) && IsNumeral(n) && Separates(At(text, at + |n|))
    ensures IsDecimal(At(text, at)) && NumberEnd(text, at) == at + |n| && NumberValue(text, at) == NumeralValue(n)
  {
    SameBase(n, text, at);
    NumberIs(n, text, at);
  }

  lemma SliceOccurs(text: string, at: nat, end: nat)
    requires at <= end <= |text|
    ensures Occurs(text[at..end], text, at)
  {
  }

  /** What is read is a number. */
  lemma NumeralCut(text: string, at: nat) returns (n: string)
    requires at <= |text| && IsDecimal(At(text, at))
    ensures |n| > 0 && Occurs(n, text, at) && IsNumeral(n) && NumberEnd(text, at) == at + |n|
    ensures NumberValue(text, at) == NumeralValue(n)
  {
    var end, start := NumberEnd(text, at), DigitsStart(text, at);
    var base := BaseAt(text, at);
    DigitsEndMeaning(text, start, base);
    n := text[at..end];
    SliceOccurs(text, at, end);
    SameBase(n, text, at);
    assert PrefixLength(n) == start - at;
    forall k | PrefixLength(n) <= k < |n| ensures IsDigit(n[k], base) { assert n[k] == text[at + k]; }
    NumberIs(n, text, at);
  }
}
