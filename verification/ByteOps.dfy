/** Bytes as numbers from 0 to 255, with exclusive or and conjunction computed bit by bit. */
module ByteOps {

  type byte = x: int | 0 <= x < 256

  function XorBits(a: nat, b: nat): nat
    decreases a + b
  {
    if a + b == 0 then 0 else (a + b) % 2 + 2 * XorBits(a / 2, b / 2)
  }

  function AndBits(a: nat, b: nat): nat {
    if a == 0 || b == 0 then 0 else a % 2 * (b % 2) + 2 * AndBits(a / 2, b / 2)
  }

  function Pow2(n: nat): (r: nat)
    ensures r > 0
  {
    if n == 0 then 1 else 2 * Pow2(n - 1)
  }

  lemma {:induction false} BitsBounded(a: nat, b: nat, n: nat)
    requires a < Pow2(n) && b < Pow2(n)
    ensures XorBits(a, b) < Pow2(n) && AndBits(a, b) < Pow2(n)
  {
    if n > 0 {
      BitsBounded(a / 2, b / 2, n - 1);
      OneBit(a, b);
    }
  }

  lemma OneBit(a: nat, b: nat)
    ensures 0 <= a % 2 * (b % 2) <= 1
  {
  }

  lemma Pow2Of8()
    ensures Pow2(8) == 256
  {
    assert Pow2(4) == 16;
  }

  function Xor(a: byte, b: byte): byte {
    Pow2Of8();
    BitsBounded(a, b, 8);
    XorBits(a, b)
  }

  function And(a: byte, b: byte): byte {
    Pow2Of8();
    BitsBounded(a, b, 8);
    AndBits(a, b)
  }

  lemma {:induction false} XorBitsZero(a: nat)
    ensures XorBits(0, a) == a
  {
    if a > 0 { XorBitsZero(a / 2); }
  }

  lemma {:induction false} XorBitsCommute(a: nat, b: nat)
    ensures XorBits(a, b) == XorBits(b, a)
    decreases a + b
  {
    if a + b > 0 { XorBitsCommute(a / 2, b / 2); }
  }

  lemma XorBitsUnfold(a: nat, b: nat)
    ensures XorBits(a, b) == (a + b) % 2 + 2 * XorBits(a / 2, b / 2)
  {
  }

  lemma EqualHalves(p: nat, x: nat, q: nat, y: nat)
    requires p < 2 && q < 2 && p + 2 * x == q + 2 * y
    ensures p == q && x == y
  {
  }

  lemma EqualNumbers(a: nat, b: nat, c: nat)
    requires (a + c) % 2 == (b + c) % 2 && a / 2 == b / 2
    ensures a == b
  {
  }

  lemma {:induction false} XorBitsInjective(a: nat, b: nat, c: nat)
    requires XorBits(a, c) == XorBits(b, c)
    ensures a == b
    decreases a + b + c
  {
    if a + b + c > 0 {
      XorBitsUnfold(a, c);
      XorBitsUnfold(b, c);
      EqualHalves((a + c) % 2, XorBits(a / 2, c / 2), (b + c) % 2, XorBits(b / 2, c / 2));
      XorBitsInjective(a / 2, b / 2, c / 2);
      EqualNumbers(a, b, c);
    }
  }

  lemma XorZero(a: byte)
    ensures Xor(0, a) == a
  {
    XorBitsZero(a);
  }

  /** Exclusive or with the same byte keeps different bytes different. */
  lemma XorCancels(a: byte, b: byte, c: byte)
    ensures Xor(a, c) == Xor(b, c) <==> a == b
    ensures Xor(c, a) == Xor(c, b) <==> a == b
  {
    XorBitsCommute(a, c);
    XorBitsCommute(b, c);
    if Xor(a, c) == Xor(b, c) { XorBitsInjective(a, b, c); }
  }

  lemma {:induction false} AndBitsOnes(a: nat, n: nat)
    requires a < Pow2(n)
    ensures AndBits(Pow2(n) - 1, a) == a
  {
    if n > 0 {
      assert (Pow2(n) - 1) / 2 == Pow2(n - 1) - 1 && (Pow2(n) - 1) % 2 == 1;
      AndBitsOnes(a / 2, n - 1);
    }
  }

  lemma {:induction false} AndBitsHalves(a: nat, b: nat)
    ensures AndBits(a, b) % 2 == a % 2 * (b % 2) && AndBits(a, b) / 2 == AndBits(a / 2, b / 2)
    ensures AndBits(a, b) == a % 2 * (b % 2) + 2 * AndBits(a / 2, b / 2)
  {
    OneBit(a, b);
  }

  lemma {:induction false} AndBitsAssociate(a: nat, b: nat, c: nat)
    ensures AndBits(AndBits(a, b), c) == AndBits(a, AndBits(b, c))
    decreases a + b + c
  {
    if a + b + c > 0 {
      AndBitsHalves(a, b);
      AndBitsHalves(b, c);
      AndBitsHalves(AndBits(a, b), c);
      AndBitsHalves(a, AndBits(b, c));
      BitsAssociate(a % 2, b % 2, c % 2);
      AndBitsAssociate(a / 2, b / 2, c / 2);
    }
  }

  lemma BitsAssociate(x: nat, y: nat, z: nat)
    requires x < 2 && y < 2 && z < 2
    ensures x * y * z == x * (y * z)
  {
  }

  lemma {:induction false} AndBitsSelf(a: nat)
    ensures AndBits(a, a) == a
  {
    if a > 0 {
      AndBitsHalves(a, a);
      AndBitsSelf(a / 2);
    }
  }

  lemma AndOnes(a: byte)
    ensures And(255, a) == a
  {
    Pow2Of8();
    AndBitsOnes(a, 8);
  }

  lemma {:induction false} AndBitsCommute(a: nat, b: nat)
    ensures AndBits(a, b) == AndBits(b, a)
    decreases a + b
  {
    if a > 0 && b > 0 {
      AndBitsHalves(a, b);
      AndBitsHalves(b, a);
      AndBitsCommute(a / 2, b / 2);
    }
  }

  lemma AndOnesRight(a: byte)
    ensures And(a, 255) == a
  {
    AndOnes(a);
    AndBitsCommute(a, 255);
  }

  /** `b` has no bit that `a` has not: what writing a flash cell without erasing it can do. */
  predicate OnlyClears(a: byte, b: byte) {
    And(a, b) == b
  }

  lemma AndOnlyClears(a: byte, b: byte)
    ensures OnlyClears(a, And(a, b))
  {
    AndBitsAssociate(a, a, b);
    AndBitsSelf(a);
  }

  lemma OnlyClearsReflexive(a: byte)
    ensures OnlyClears(a, a)
  {
    AndBitsSelf(a);
  }

  lemma OnlyClearsTransitive(a: byte, b: byte, c: byte)
    requires OnlyClears(a, b) && OnlyClears(b, c)
    ensures OnlyClears(a, c)
  {
    AndBitsAssociate(a, b, c);
  }

  // ----- bit by bit

  /** Bit k of a number. */
  function Bit(a: nat, k: nat): nat {
    a / Pow2(k) % 2
  }

  lemma HalvesOfQuotient(a: nat, m: nat)
    requires m > 0
    ensures a / (2 * m) == a / 2 / m
  {
    var q, r := a / 2 / m, a / 2 % m;
    assert a / 2 == q * m + r;
    assert a == q * (2 * m) + (2 * r + a % 2);
    QuotientUnique(a, 2 * m, q, 2 * r + a % 2);
  }

  lemma Multiple(d: int, m: int)
    requires d >= 1 && m > 0
    ensures d * m >= m && -d * m <= -m
  {
    assert d * m == m + (d - 1) * m;
  }

  lemma QuotientUnique(a: int, m: int, q: int, r: int)
    requires a == q * m + r && 0 <= r < m
    ensures a / m == q
  {
    var d, s := a / m - q, a % m;
    assert a == (q + d) * m + s;
    assert d * m == r - s;
    if d >= 1 { Multiple(d, m); }
    if d <= -1 { Multiple(-d, m); }
  }

  lemma BitNext(a: nat, k: nat)
    ensures Bit(a, 0) == a % 2 && Bit(a, k + 1) == Bit(a / 2, k)
  {
    HalvesOfQuotient(a, Pow2(k));
  }

  lemma XorHalf(a: nat, b: nat)
    ensures XorBits(a, b) % 2 == (a + b) % 2 && XorBits(a, b) / 2 == XorBits(a / 2, b / 2)
  {
    XorBitsUnfold(a, b);
    Composed((a + b) % 2, XorBits(a / 2, b / 2));
  }

  lemma Composed(low: nat, high: nat)
    requires low < 2
    ensures (low + 2 * high) % 2 == low && (low + 2 * high) / 2 == high
  {
  }

  lemma LowBits(a: nat, b: nat)
    ensures (a + b) % 2 == if a % 2 != b % 2 then 1 else 0
  {
  }

  /** Each bit of the exclusive or is 1 exactly if the two bits differ. */
  lemma {:induction false} XorByBit(a: nat, b: nat, k: nat)
    ensures Bit(XorBits(a, b), k) == if Bit(a, k) != Bit(b, k) then 1 else 0
    decreases k
  {
    XorHalf(a, b);
    if k == 0 {
      BitNext(a, 0);
      BitNext(b, 0);
      BitNext(XorBits(a, b), 0);
      LowBits(a, b);
    } else {
      BitNext(a, k - 1);
      BitNext(b, k - 1);
      BitNext(XorBits(a, b), k - 1);
      XorByBit(a / 2, b / 2, k - 1);
    }
  }

  /** Each bit of the conjunction is 1 exactly if both bits are. */
  lemma {:induction false} AndByBit(a: nat, b: nat, k: nat)
    ensures Bit(AndBits(a, b), k) == if Bit(a, k) == 1 && Bit(b, k) == 1 then 1 else 0
    decreases k
  {
    AndBitsHalves(a, b);
    if k == 0 {
      BitNext(a, 0);
      BitNext(b, 0);
      BitNext(AndBits(a, b), 0);
      OneBit(a, b);
    } else {
      BitNext(a, k - 1);
      BitNext(b, k - 1);
      BitNext(AndBits(a, b), k - 1);
      AndByBit(a / 2, b / 2, k - 1);
    }
  }

  /** The two operations on bytes, with the weights of the eight bits written out. */
  lemma ByteLaws(a: byte, b: byte, k: nat)
    requires k < 8
    ensures var weight := [1, 2, 4, 8, 16, 32, 64, 128][k];
            (Xor(a, b) / weight % 2 == 1 <==> a / weight % 2 != b / weight % 2) &&
            (And(a, b) / weight % 2 == 1 <==> a / weight % 2 == 1 && b / weight % 2 == 1)
  {
    Weights(k);
    XorByBit(a, b, k);
    AndByBit(a, b, k);
  }

  lemma Weights(k: nat)
    requires k < 8
    ensures Pow2(k) == [1, 2, 4, 8, 16, 32, 64, 128][k]
  {
    assert Pow2(1) == 2 && Pow2(2) == 4 && Pow2(3) == 8;
    assert Pow2(4) == 16 && Pow2(5) == 32 && Pow2(6) == 64 && Pow2(7) == 128;
  }
}
