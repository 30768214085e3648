/**
  The Dallas CRC-8 of Application Note 27, as a shift register clocked one bit at a time.

  The C code updates the register one byte at a time (xor the byte in, then shift eight times);
  `ByteUpdateIsEightClocks` ties the two forms together, and everything else is proved on the
  bit-serial form, for messages of any length in bits.
*/
module Crc8 {

  const POLYNOMIAL: bv8 := 0x8C

  function Shift(crc: bv8): bv8 {
    if crc & 1 == 1 then (crc >> 1) ^ POLYNOMIAL else crc >> 1
  }

  function Clock(crc: bv8, bit: bool): bv8 {
    Shift(if bit then crc ^ 1 else crc)
  }

  /** The register after the message `bits`, starting from `crc`. */
  function Feed(crc: bv8, bits: seq<bool>): bv8 {
    if bits == [] then crc
    else Clock(Feed(crc, bits[..|bits| - 1]), bits[|bits| - 1])
  }

  /** The walking mask of the C code: 1, then shifted left once per bit. */
  function Mask(i: nat): bv8 {
    if i == 0 then 1 else Mask(i - 1) << 1
  }

  function ShiftedRight(byte: bv8, n: nat): bv8 {
    if n == 0 then byte else ShiftedRight(byte, n - 1) >> 1
  }

  /** Bit i of a byte, tested with a mask as the C code does. */
  predicate BitOf(byte: bv8, i: nat) {
    byte & Mask(i) != 0
  }

  function ByteBits(byte: bv8): (bits: seq<bool>)
    ensures |bits| == 8
  {
    seq(8, i requires 0 <= i => BitOf(byte, i))
  }

  function ShiftTimes(crc: bv8, n: nat): bv8 {
    if n == 0 then crc else Shift(ShiftTimes(crc, n - 1))
  }

  lemma {:induction false} FeedConcat(crc: bv8, a: seq<bool>, b: seq<bool>)
    ensures Feed(crc, a + b) == Feed(Feed(crc, a), b)
  {
    if b == [] {
      assert a + b == a;
    } else {
      var m := |b| - 1;
      assert (a + b)[..|a + b| - 1] == a + b[..m];
      FeedConcat(crc, a, b[..m]);
    }
  }

  // ----- the byte-wise update is eight clocks

  lemma Masks()
    ensures Mask(0) == 1 && Mask(1) == 2 && Mask(2) == 4 && Mask(3) == 8
    ensures Mask(4) == 16 && Mask(5) == 32 && Mask(6) == 64 && Mask(7) == 128 && Mask(8) == 0
  {
    assert Mask(1) == 2;
    assert Mask(2) == 4;
    assert Mask(3) == 8;
    assert Mask(4) == 16;
    assert Mask(5) == 32;
    assert Mask(6) == 64;
    assert Mask(7) == 128;
  }

  lemma MaskSelectsBit(byte: bv8, i: nat)
    requires i < 8
    ensures BitOf(byte, i) <==> ShiftedRight(byte, i) & 1 == 1
  {
    Masks();
    var b1 := byte >> 1; var b2 := b1 >> 1; var b3 := b2 >> 1; var b4 := b3 >> 1;
    var b5 := b4 >> 1; var b6 := b5 >> 1; var b7 := b6 >> 1;
    assert ShiftedRight(byte, 1) == b1;
    assert ShiftedRight(byte, 2) == b2;
    assert ShiftedRight(byte, 3) == b3;
    assert ShiftedRight(byte, 4) == b4;
    assert ShiftedRight(byte, 5) == b5;
    assert ShiftedRight(byte, 6) == b6;
    assert ShiftedRight(byte, 7) == b7;
  }

  lemma ClockOfByte(crc: bv8, rest: bv8, bit: bool, sum: bv8)
    requires sum == crc ^ rest && bit == (rest & 1 == 1)
    ensures Shift(sum) == Clock(crc, bit) ^ (rest >> 1)
  {
  }

  lemma FeedStep(crc: bv8, bits: seq<bool>, n: nat)
    requires n < |bits|
    ensures Feed(crc, bits[..n + 1]) == Clock(Feed(crc, bits[..n]), bits[n])
  {
    assert bits[..n + 1][..n] == bits[..n];
  }

  lemma {:induction false} ShiftsFeedBits(crc: bv8, data: bv8, sum: bv8, n: nat)
    requires n <= 8 && sum == crc ^ data
    ensures ShiftTimes(sum, n) == Feed(crc, ByteBits(data)[..n]) ^ ShiftedRight(data, n)
  {
    if n > 0 {
      ShiftsFeedBits(crc, data, sum, n - 1);
      MaskSelectsBit(data, n - 1);
      FeedStep(crc, ByteBits(data), n - 1);
      ClockOfByte(Feed(crc, ByteBits(data)[..n - 1]), ShiftedRight(data, n - 1), ByteBits(data)[n - 1],
                  ShiftTimes(sum, n - 1));
    }
  }

  lemma ByteUpdateIsEightClocks(crc: bv8, data: bv8)
    ensures ShiftTimes(crc ^ data, 8) == Feed(crc, ByteBits(data))
  {
    ShiftsFeedBits(crc, data, crc ^ data, 8);
    assert ByteBits(data)[..8] == ByteBits(data);
    EightShifts(data);
  }

  lemma EightShifts(data: bv8)
    ensures ShiftedRight(data, 8) == 0
  {
    assert ShiftedRight(data, 1) == data >> 1;
    assert ShiftedRight(data, 2) == data >> 2;
    assert ShiftedRight(data, 3) == data >> 3;
    assert ShiftedRight(data, 4) == data >> 4;
    assert ShiftedRight(data, 5) == data >> 5;
    assert ShiftedRight(data, 6) == data >> 6;
    assert ShiftedRight(data, 7) == data >> 7;
  }

  // ----- what the register can tell apart

  lemma ClockInjective(c: bv8, d: bv8, x: bool)
    requires Clock(c, x) == Clock(d, x)
    ensures c == d
  {
  }

  /** For a fixed message the register before determines and is determined by the register after. */
  lemma {:induction false} FeedInjective(c: bv8, d: bv8, bits: seq<bool>)
    ensures Feed(c, bits) == Feed(d, bits) <==> c == d
  {
    if bits != [] {
      var m := |bits| - 1;
      FeedInjective(c, d, bits[..m]);
      if Feed(c, bits) == Feed(d, bits) {
        ClockInjective(Feed(c, bits[..m]), Feed(d, bits[..m]), bits[m]);
      }
    }
  }

  /** Two messages that differ in the last bit only never share a register value. */
  lemma LastBitMatters(bits: seq<bool>)
    ensures Feed(0, bits + [false]) != Feed(0, bits + [true])
  {
    assert (bits + [false])[..|bits|] == bits && (bits + [true])[..|bits|] == bits;
    LastClockMatters(Feed(0, bits));
  }

  lemma LastClockMatters(c: bv8)
    ensures Clock(c, false) != Clock(c, true)
  {
  }

  lemma ShiftLinear(c: bv8, d: bv8)
    ensures Shift(c ^ d) == Shift(c) ^ Shift(d)
  {
  }

  function Iterate<T>(f: T -> T, x: T, n: nat): T {
    if n == 0 then x else f(Iterate(f, x, n - 1))
  }

  /** What distributes over a sum distributes over it any number of times. */
  lemma {:induction false} IterateDistributes<T>(f: T -> T, plus: (T, T) -> T, x: T, y: T, n: nat)
    requires forall c, d :: f(plus(c, d)) == plus(f(c), f(d))
    ensures Iterate(f, plus(x, y), n) == plus(Iterate(f, x, n), Iterate(f, y, n))
  {
    if n > 0 { IterateDistributes(f, plus, x, y, n - 1); }
  }

  lemma {:induction false} ShiftTimesIterates(crc: bv8, n: nat)
    ensures ShiftTimes(crc, n) == Iterate(Shift, crc, n)
  {
    if n > 0 { ShiftTimesIterates(crc, n - 1); }
  }

  /** Exclusive or is the addition for which the register is linear. */
  function Sum(c: bv8, d: bv8): bv8 {
    c ^ d
  }

  lemma ShiftDistributes()
    ensures forall c, d :: Shift(Sum(c, d)) == Sum(Shift(c), Shift(d))
  {
    forall c, d ensures Shift(Sum(c, d)) == Sum(Shift(c), Shift(d)) { ShiftLinear(c, d); }
  }

  lemma {:induction false} IterateLinear(c: bv8, d: bv8, n: nat)
    ensures Iterate(Shift, Sum(c, d), n) == Sum(Iterate(Shift, c, n), Iterate(Shift, d, n))
  {
    ShiftDistributes();
    IterateDistributes(Shift, Sum, c, d, n);
  }

  /** Shifting is linear: differences pass through the register on their own. */
  lemma {:induction false} ShiftTimesLinear(c: bv8, d: bv8, n: nat)
    ensures ShiftTimes(Sum(c, d), n) == Sum(ShiftTimes(c, n), ShiftTimes(d, n))
  {
    IterateLinear(c, d, n);
    ShiftTimesIterates(Sum(c, d), n);
    ShiftTimesIterates(c, n);
    ShiftTimesIterates(d, n);
  }

  lemma {:induction false} ShiftTimesInjective(c: bv8, d: bv8, n: nat)
    requires ShiftTimes(c, n) == ShiftTimes(d, n)
    ensures c == d
  {
    if n > 0 {
      ShiftInjective(ShiftTimes(c, n - 1), ShiftTimes(d, n - 1));
      ShiftTimesInjective(c, d, n - 1);
    }
  }

  lemma ShiftInjective(c: bv8, d: bv8)
    requires Shift(c) == Shift(d)
    ensures c == d
  {
  }

  lemma {:induction false} ShiftTimesOfZero(n: nat)
    ensures ShiftTimes(0, n) == 0
  {
    if n > 0 { ShiftTimesOfZero(n - 1); }
  }

  /** The register is 0 after the last byte exactly when that byte is the CRC of what came before. */
  lemma ResidueIsZero(message: seq<bool>, check: bv8)
    ensures Feed(0, message + ByteBits(check)) == 0 <==> check == Feed(0, message)
  {
    var crc := Feed(0, message);
    FeedConcat(0, message, ByteBits(check));
    ByteUpdateIsEightClocks(crc, check);
    ShiftTimesOfZero(8);
    if ShiftTimes(crc ^ check, 8) == 0 { ShiftTimesInjective(crc ^ check, 0, 8); }
    assert crc ^ check == 0 <==> crc == check;
  }

  lemma BitsOfSomeByte(bits: seq<bool>) returns (b: bv8)
    requires |bits| == 8
    ensures ByteBits(b) == bits
  {
    Masks();
    b := (if bits[0] then 1 else 0) | (if bits[1] then 2 else 0)
       | (if bits[2] then 4 else 0) | (if bits[3] then 8 else 0)
       | (if bits[4] then 16 else 0) | (if bits[5] then 32 else 0)
       | (if bits[6] then 64 else 0) | (if bits[7] then 128 else 0);
    assert (b & 1 != 0) == bits[0] && (b & 2 != 0) == bits[1] && (b & 4 != 0) == bits[2];
    assert (b & 8 != 0) == bits[3] && (b & 16 != 0) == bits[4] && (b & 32 != 0) == bits[5];
    assert (b & 64 != 0) == bits[6] && (b & 128 != 0) == bits[7];
  }

  lemma BytesDiffer(crc: bv8, v: bv8, w: bv8)
    requires Feed(crc, ByteBits(v)) == Feed(crc, ByteBits(w))
    ensures v == w
  {
    ByteUpdateIsEightClocks(crc, v);
    ByteUpdateIsEightClocks(crc, w);
    ShiftTimesInjective(crc ^ v, crc ^ w, 8);
    XorInjective(crc, v, w);
  }

  lemma XorInjective(crc: bv8, v: bv8, w: bv8)
    requires crc ^ v == crc ^ w
    ensures v == w
  {
  }

  lemma WindowsDiffer(crc: bv8, v: seq<bool>, w: seq<bool>)
    requires |v| == |w| <= 8 && Feed(crc, v) == Feed(crc, w)
    ensures v == w
  {
    var pad := seq(8 - |v|, i => false);
    FeedConcat(crc, v, pad);
    FeedConcat(crc, w, pad);
    var x := BitsOfSomeByte(v + pad);
    var y := BitsOfSomeByte(w + pad);
    BytesDiffer(crc, x, y);
    assert v == (v + pad)[..|v|] && w == (w + pad)[..|w|];
  }

  /** Every error burst of at most eight consecutive bits, in a message of any length, changes the
      register's final value. */
  lemma BurstDetected(crc: bv8, before: seq<bool>, sent: seq<bool>, received: seq<bool>, after: seq<bool>)
    requires |sent| == |received| <= 8 && sent != received
    ensures Feed(crc, before + sent + after) != Feed(crc, before + received + after)
  {
    var start := Feed(crc, before);
    FeedConcat(crc, before, sent);
    FeedConcat(crc, before, received);
    FeedConcat(crc, before + sent, after);
    FeedConcat(crc, before + received, after);
    if Feed(crc, before + sent + after) == Feed(crc, before + received + after) {
      FeedInjective(Feed(start, sent), Feed(start, received), after);
      WindowsDiffer(start, sent, received);
    }
  }

  /** The register after a byte with one bit set: by linearity, these eight values are the whole CRC. */
  lemma CrcOfOneBit(b: bv8, crc: bv8)
    requires crc == Feed(0, ByteBits(b))
    ensures b == 0x01 ==> crc == 0x5E
    ensures b == 0x02 ==> crc == 0xBC
    ensures b == 0x04 ==> crc == 0x61
    ensures b == 0x08 ==> crc == 0xC2
    ensures b == 0x10 ==> crc == 0x9D
    ensures b == 0x20 ==> crc == 0x23
    ensures b == 0x40 ==> crc == 0x46
    ensures b == 0x80 ==> crc == 0x8C
  {
    CrcOfByte(b);
    OneBitShifts(b);
  }

  lemma CrcOfByte(b: bv8)
    ensures Feed(0, ByteBits(b)) == ShiftTimes(b, 8)
  {
    assert 0 ^ b == b;
    ByteUpdateIsEightClocks(0, b);
  }

  lemma OneBitShifts(b: bv8)
    ensures b == 0x01 ==> ShiftTimes(b, 8) == 0x5E
    ensures b == 0x02 ==> ShiftTimes(b, 8) == 0xBC
    ensures b == 0x04 ==> ShiftTimes(b, 8) == 0x61
    ensures b == 0x08 ==> ShiftTimes(b, 8) == 0xC2
    ensures b == 0x10 ==> ShiftTimes(b, 8) == 0x9D
    ensures b == 0x20 ==> ShiftTimes(b, 8) == 0x23
    ensures b == 0x40 ==> ShiftTimes(b, 8) == 0x46
    ensures b == 0x80 ==> ShiftTimes(b, 8) == 0x8C
  {
    var s1 := Shift(b);
    var s2 := Shift(s1);
    var s3 := Shift(s2);
    var s4 := Shift(s3);
    var s5 := Shift(s4);
    var s6 := Shift(s5);
    var s7 := Shift(s6);
    assert ShiftTimes(b, 1) == s1;
    assert ShiftTimes(b, 2) == s2;
    assert ShiftTimes(b, 3) == s3;
    assert ShiftTimes(b, 4) == s4;
    assert ShiftTimes(b, 5) == s5;
    assert ShiftTimes(b, 6) == s6;
    assert ShiftTimes(b, 7) == s7;
  }
}
