/**
  What the forms of an address mean that inet_ntoa does not print: fewer than four numbers, numbers
  that are too large, and octal numbers with the digits 8 and 9.
*/
module InetForms {

  import opened ByteOps
  import opened InetAddr
  import opened InetNumber
  import opened InetAton

  // ----- fewer than four numbers

  lemma OneWord(low: nat, high: nat, factor: nat, n: nat)
    requires low < factor == Pow2(n) && low + high * factor < 0x1_0000_0000
    ensures Or(low, high * factor) == low + high * factor
  {
    OrAdds(low, high, n);
  }

  lemma TopByte(p: byte, q: byte)
    ensures Or(p * 0x100_0000, q * 0x1_0000) == q * 0x1_0000 + p * 0x100_0000
  {
    Pow2Of32();
    OrAdds(q * 0x1_0000, p, 24);
  }

  /** Two numbers: the first is the top byte, modulo 256, and the second the 24 bits below it. */
  lemma TwoParts(p: Word32, val: Word32)
    ensures Concoct([p, val]) == if val > 0xff_ffff then None else Some(p % 0x100 * 0x100_0000 + val)
  {
    ShiftModulo(p);
    Pow2Of32();
    if val <= 0xff_ffff { OneWord(val, p % 0x100, 0x100_0000, 24); }
  }

  /** Three numbers: two bytes, the first modulo 256, and 16 bits below them. */
  lemma ThreeParts(p: Word32, q: byte, val: Word32)
    ensures Concoct([p, q, val]) ==
              if val > 0xffff then None else Some(p % 0x100 * 0x100_0000 + q * 0x1_0000 + val)
  {
    ShiftModulo(p);
    ShiftedBytes(q);
    TopByte(p % 0x100, q);
    Pow2Of32();
    if val <= 0xffff { OneWord(val, p % 0x100 * 0x100 + q, 0x1_0000, 16); }
  }

  /** Four numbers: three bytes, the first modulo 256, and a last number that has to fit a byte. */
  lemma FourPartsModulo(p: Word32, q: byte, r: byte, val: Word32)
    ensures Concoct([p, q, r, val]) ==
              if val > 0xff then None else Some(p % 0x100 * 0x100_0000 + q * 0x1_0000 + r * 0x100 + val)
  {
    if val <= 0xff {
      FirstPartModulo([p, q, r, val]);
      assert [p, q, r, val][0 := p % 0x100] == [p % 0x100, q, r, val];
      FourParts(p % 0x100, q, r, val);
    }
  }

  /** Whatever the four numbers are, as long as the last one fits: a bit of the address is 1 exactly if it
      is in one of them, shifted to its place and cut off at 32 bits. */
  lemma FourPartsByBit(p: Word32, q: Word32, r: Word32, val: byte, k: nat)
    ensures Concoct([p, q, r, val]).Some?
    ensures Bit(Concoct([p, q, r, val]).value, k) == 1 <==>
            Bit(val, k) == 1 || Bit(p * 0x100_0000 % 0x1_0000_0000, k) == 1 ||
            Bit(q * 0x1_0000 % 0x1_0000_0000, k) == 1 || Bit(r * 0x100 % 0x1_0000_0000, k) == 1
  {
    var x, y, z := Shift(p, 0x100_0000), Shift(q, 0x1_0000), Shift(r, 0x100);
    WrapIsModulo(p * 0x100_0000);
    WrapIsModulo(q * 0x1_0000);
    WrapIsModulo(r * 0x100);
    OrByBit(x, y, k);
    OrByBit(Or(x, y), z, k);
    OrByBit(val, Or(Or(x, y), z), k);
  }

  // ----- as texts

  /** A dotted text whose first number is too large for a byte is accepted, and that number is taken
      modulo 256. */
  lemma LargeFirstNumber(p: Word32, q: byte, r: byte, s: byte, rest: string)
    requires Ends(At(rest, 0))
    ensures Aton(Dotted(FourNumbers(p, q, r, s)) + rest) ==
            Some(p % 0x100 * 0x100_0000 + q * 0x1_0000 + r * 0x100 + s)
  {
    FourValues(p, q, r, s);
    DottedRead(FourNumbers(p, q, r, s), rest);
    FourPartsModulo(p, q, r, s);
  }

  lemma Decimal256()
    ensures Decimal(256) == "256" && Decimal(0) == "0" && Decimal(1) == "1"
  {
    assert Decimal(2) == "2";
    assert Decimal(25) == "2" + "5" == "25";
    assert Decimal(256) == "25" + "6" == "256";
  }

  /** 256.0.0.1 is read as 0.0.0.1. */
  lemma Accepts256(rest: string)
    requires Ends(At(rest, 0))
    ensures Aton("256.0.0.1" + rest) == Some(1)
  {
    Text256();
    LargeFirstNumber(256, 0, 0, 1, rest);
  }

  lemma Text256()
    ensures Dotted(FourNumbers(256, 0, 0, 1)) == "256.0.0.1"
  {
    Decimal256();
    assert Dotted(Last("1")) == "1";
    assert Dotted(More("0", Last("1"))) == "0.1";
    assert Dotted(More("0", More("0", Last("1")))) == "0.0.1";
  }

  lemma {:induction false} OrSelf(a: nat)
    ensures OrBits(a, a) == a
  {
    if a > 0 { OrSelf(a / 2); }
  }

  lemma OverlapParts()
    ensures Concoct([1, 256, 0, 1]) == Some(0x100_0001)
  {
    var top: Word32 := 0x100_0000;
    assert Shift(1, 0x100_0000) == top && Shift(256, 0x1_0000) == top && Shift(0, 0x100) == 0;
    OrSelf(top);
    Pow2Of32();
    OrAdds(1, 1, 24);
    assert Or(1, top) == 0x100_0001;
  }

  /** A second number above 255 is not cut off: it runs into the first.  1.256.0.1 is read as 1.0.0.1. */
  lemma NumbersOverlap(rest: string)
    requires Ends(At(rest, 0))
    ensures Aton("1.256.0.1" + rest) == Some(0x100_0001)
  {
    FourValues(1, 256, 0, 1);
    DottedRead(FourNumbers(1, 256, 0, 1), rest);
    OverlapText();
    OverlapParts();
  }

  lemma OverlapText()
    ensures Dotted(FourNumbers(1, 256, 0, 1)) == "1.256.0.1"
  {
    Decimal256();
    assert Dotted(Last("1")) == "1";
    assert Dotted(More("0", Last("1"))) == "0.1";
    assert Dotted(More("256", More("0", Last("1")))) == "256.0.1";
  }

  // ----- octal numbers

  /** The digits 8 and 9 are taken in octal numbers: 08 is 8, and 019 is 17. */
  lemma OctalNines()
    ensures IsNumeral("08") && NumeralValue("08") == 8 && IsNumeral("019") && NumeralValue("019") == 17
  {
    assert Value("08", 1, 1, 8) == 0;
    assert Value("08", 1, 2, 8) == 8;
    assert Value("019", 1, 1, 8) == 0;
    assert Value("019", 1, 2, 8) == 1;
    assert Value("019", 1, 3, 8) == 17;
  }

  lemma AcceptsOctalNines(rest: string)
    requires Ends(At(rest, 0))
    ensures Aton("019" + rest) == Some(17)
  {
    OctalNines();
    DottedRead(Last("019"), rest);
    assert [] + [17] == [17];
  }

  // ----- hexadecimal numbers

  /** The sixteen digits, in both cases. */
  lemma HexDigits(i: nat)
    requires i < 16
    ensures var lower, upper := "0123456789abcdef"[i], "0123456789ABCDEF"[i];
            IsDigit(lower, 16) && IsDigit(upper, 16) && DigitValue(lower) == DigitValue(upper) == i
  {
  }

  lemma HexNumeral()
    ensures IsNumeral("0xC0a80001") && NumeralValue("0xC0a80001") == 3232235521
  {
    var n := "0xC0a80001";
    assert Value(n, 2, 2, 16) == 0;
    assert Value(n, 2, 3, 16) == 12;
    assert Value(n, 2, 4, 16) == 192;
    assert Value(n, 2, 5, 16) == 3082;
    assert Value(n, 2, 6, 16) == 49320;
    assert Value(n, 2, 7, 16) == 789120;
    assert Value(n, 2, 8, 16) == 12625920;
    assert Value(n, 2, 9, 16) == 202014720;
    assert Value(n, 2, 10, 16) == 3232235521;
  }

  lemma ShortHexNumerals()
    ensures IsNumeral("0x") && NumeralValue("0x") == 0 && IsNumeral("0X1f") && NumeralValue("0X1f") == 31
  {
    assert Value("0x", 2, 2, 16) == 0;
    assert Value("0X1f", 2, 2, 16) == 0;
    assert Value("0X1f", 2, 3, 16) == 1;
    assert Value("0X1f", 2, 4, 16) == 31;
  }

  /** The prefix may be written either way, and need not be followed by a digit. */
  lemma HexPrefixes(rest: string)
    requires Ends(At(rest, 0))
    ensures Aton("0x" + rest) == Some(0) && Aton("0X1f" + rest) == Some(31)
  {
    ShortHexNumerals();
    DottedRead(Last("0x"), rest);
    DottedRead(Last("0X1f"), rest);
    assert [] + [0] == [0] && [] + [31] == [31];
  }

  /** 0xC0a80001 is 192.168.0.1. */
  lemma HexAddress(rest: string)
    requires Ends(At(rest, 0))
    ensures Aton("0xC0a80001" + rest) == Some(3232235521) == Concoct([192, 168, 0, 1])
  {
    HexNumeral();
    DottedRead(Last("0xC0a80001"), rest);
    assert [] + [3232235521] == [3232235521];
    FourParts(192, 168, 0, 1);
  }

  // ----- what may follow

  /** Behind a number that is neither continued by a digit nor followed by a dot, only a blank and the end
      of the text are good: a newline, for one, is not. */
  lemma WhatMayFollow(c: char, rest: string)
    requires !('0' <= c <= '9') && c != '.'
    ensures Aton("1" + [c] + rest) == if c == ' ' || c == '\0' then Some(1) else None
  {
    var text := "1" + [c] + rest;
    if c == ' ' || c == '\0' {
      assert Value("1", 0, 0, 10) == 0 && Value("1", 0, 1, 10) == 1;
      assert IsNumeral("1") && NumeralValue("1") == 1;
      assert text == Dotted(Last("1")) + ([c] + rest);
      DottedRead(Last("1"), [c] + rest);
      assert [] + [1] == [1];
    } else {
      assert text[0] == '1' && text[1] == c;
      assert NumberEnd(text, 0) == DigitsEnd(text, 1, 10) == 1;
    }
  }
}
