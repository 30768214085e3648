/**
  Internet addresses as text.  An address is a 32-bit word in network byte order: on this
  little-endian machine its first byte in memory is the first number of the dotted form.
*/
module InetAddr {
  import opened ByteOps

  type Word32 = x: int | 0 <= x < 0x1_0000_0000

  datatype Option<T> = None | Some(value: T)

  // ----- bytes in memory

  datatype Quad = Quad(b0: byte, b1: byte, b2: byte, b3: byte)

  /** The word whose bytes are q, lowest address first. */
  function Load(q: Quad): Word32 {
    q.b0 + 0x100 * q.b1 + 0x1_0000 * q.b2 + 0x100_0000 * q.b3
  }

  function Memory(v: Word32): Quad {
    Quad(v % 0x100, v / 0x100 % 0x100, v / 0x1_0000 % 0x100, v / 0x100_0000)
  }

  lemma MemoryOfLoad(q: Quad)
    ensures Memory(Load(q)) == q
  {
    var high2, high1 := q.b2 + 0x100 * q.b3, q.b1 + 0x100 * (q.b2 + 0x100 * q.b3);
    assert Load(q) == q.b0 + 0x100 * high1;
    assert Load(q) / 0x100 == high1;
    assert Load(q) == (q.b0 + 0x100 * q.b1) + 0x1_0000 * high2;
    assert Load(q) / 0x1_0000 == high2;
  }

  lemma LoadOfMemory(v: Word32)
    ensures Load(Memory(v)) == v
  {
    var v1 := v / 0x100;
    var v2 := v1 / 0x100;
    assert v / 0x1_0000 == v2 && v / 0x100_0000 == v2 / 0x100;
  }

  function Htonl(v: Word32): Word32 {
    v % 0x100 * 0x100_0000 + v / 0x100 % 0x100 * 0x1_0000 + v / 0x1_0000 % 0x100 * 0x100 + v / 0x100_0000
  }

  function Reversed(q: Quad): Quad {
    Quad(q.b3, q.b2, q.b1, q.b0)
  }

  /** htonl reverses the bytes in memory ... */
  lemma HtonlReverses(v: Word32)
    ensures Memory(Htonl(v)) == Reversed(Memory(v))
  {
    assert Htonl(v) == Load(Reversed(Memory(v)));
    MemoryOfLoad(Reversed(Memory(v)));
  }

  /** ... so ntohl, which is the same function, undoes it. */
  lemma HtonlUndone(v: Word32)
    ensures Htonl(Htonl(v)) == v
  {
    HtonlReverses(v);
    assert Htonl(Htonl(v)) == Load(Reversed(Memory(Htonl(v))));
    LoadOfMemory(v);
  }

  // ----- from an address to text

  function Digit(d: nat): char
    requires d < 10
  {
    '0' + d as char
  }

  function Decimal(n: nat): (r: string)
    ensures |r| > 0
  {
    if n < 10 then [Digit(n)] else Decimal(n / 10) + [Digit(n % 10)]
  }

  lemma DecimalLength(b: byte)
    ensures |Decimal(b)| <= 3
  {
    assert b / 10 / 10 < 10;
    assert b >= 100 ==> |Decimal(b / 10 / 10)| == 1;
  }

  /** Each number with a dot after it. */
  function Dots(bytes: seq<byte>): string {
    if bytes == [] then "" else Dots(bytes[..|bytes| - 1]) + Decimal(bytes[|bytes| - 1]) + "."
  }

  lemma {:induction false} DotsLength(bytes: seq<byte>)
    ensures |Dots(bytes)| <= 4 * |bytes|
    ensures bytes != [] ==> |Dots(bytes)| >= 2 && Dots(bytes)[|Dots(bytes)| - 1] == '.'
  {
    if bytes != [] {
      DotsLength(bytes[..|bytes| - 1]);
      DecimalLength(bytes[|bytes| - 1]);
    }
  }

  function Octets(q: Quad): seq<byte> {
    [q.b0, q.b1, q.b2, q.b3]
  }

  /** The dotted decimal form of an address. */
  function Text(addr: Word32): string {
    DotsLength(Octets(Memory(addr)));
    var dots := Dots(Octets(Memory(addr)));
    dots[..|dots| - 1]
  }

  lemma LoopbackDigits()
    ensures Decimal(0) == "0" && Decimal(1) == "1" && Decimal(127) == "127"
  {
    assert Decimal(12) == "1" + "2" == "12";
    assert Decimal(127) == "12" + "7";
  }

  /** The bytes 127, 0, 0, 1 in this order in memory. */
  lemma Loopback()
    ensures Text(0x0100_007F) == "127.0.0.1" && Htonl(0x7F00_0001) == 0x0100_007F
  {
    LoopbackDigits();
    var octets := Octets(Memory(0x0100_007F));
    assert octets == [127, 0, 0, 1];
    DotsStep(octets, 0);
    DotsStep(octets, 1);
    DotsStep(octets, 2);
    DotsStep(octets, 3);
    assert octets[..4] == octets && octets[..0] == [];
    assert Dots(octets) == "127.0.0.1.";
  }

  function Backwards(s: string): string {
    if s == [] then [] else [s[|s| - 1]] + Backwards(s[..|s| - 1])
  }

  /** Some digits have been moved to the buffer, and what is left has the others. */
  predicate Moving(all: string, left: byte, done: string) {
    Decimal(left) + Backwards(done) == all && |done| + |Decimal(left)| == |all|
  }

  /** Moving the last digit of what is left to the buffer keeps the digits of the whole. */
  lemma DigitStep(left: byte, done: string, all: string)
    requires Moving(all, left, done)
    ensures |done| < |all|
    ensures var next := done + [Digit(left % 10)];
            if left / 10 == 0 then Backwards(next) == all && |next| == |all| else Moving(all, left / 10, next)
  {
    var next := done + [Digit(left % 10)];
    assert next[..|done|] == done;
    assert Backwards(next) == [Digit(left % 10)] + Backwards(done);
  }

  /** The digits of one byte, last digit first, never more than the buffer's three. */
  method Digits(b: byte, inv: array<char>) returns (i: nat)
    requires inv.Length == 3
    modifies inv
    ensures i <= 3 && Backwards(inv[..i]) == Decimal(b)
  {
    DecimalLength(b);
    var ap: byte := b;
    i := 0;
    while true
      invariant i <= 3 && Moving(Decimal(b), ap, inv[..i])
      decreases ap
    {
      ghost var done, left := inv[..i], ap;
      DigitStep(left, done, Decimal(b));
      var rem := ap % 10;
      ap := ap / 10;
      inv[i] := Digit(rem);
      i := i + 1;
      assert inv[..i] == done + [Digit(left % 10)];
      if ap == 0 {
        break;
      }
    }
  }

  /** One byte's digits and a dot appended to the text. */
  method PutByte(b: byte, str: array<char>, inv: array<char>, rp: nat) returns (end: nat)
    requires inv.Length == 3 && str != inv && rp + |Decimal(b)| < str.Length
    modifies str, inv
    ensures end == rp + |Decimal(b)| + 1 && str[..end] == old(str[..rp]) + Decimal(b) + "."
  {
    var i: nat := Digits(b, inv);
    end := rp;
    while i > 0
      invariant i <= inv.Length
      invariant end + |Backwards(inv[..i])| == rp + |Decimal(b)|
      invariant str[..end] + Backwards(inv[..i]) == old(str[..rp]) + Decimal(b)
    {
      i := i - 1;
      assert inv[..i + 1][..i] == inv[..i];
      str[end] := inv[i];
      end := end + 1;
    }
    str[end] := '.';
    end := end + 1;
  }

  lemma DotsStep(octets: seq<byte>, n: nat)
    requires n < |octets|
    ensures Dots(octets[..n + 1]) == Dots(octets[..n]) + Decimal(octets[n]) + "."
  {
    assert octets[..n + 1][..n] == octets[..n];
  }

  /** inet_ntoa into its static buffer of 16 characters. */
  method InetNtoa(addr: Word32, str: array<char>)
    requires str.Length == 16
    modifies str
    ensures |Text(addr)| < 16 && str[..|Text(addr)|] == Text(addr) && str[|Text(addr)|] == '\0'
  {
    var octets := Octets(Memory(addr));
    var inv := new char[3];
    var rp: nat := 0;
    for n := 0 to 4
      invariant rp <= 4 * n && str[..rp] == Dots(octets[..n])
    {
      DotsStep(octets, n);
      DecimalLength(octets[n]);
      rp := PutByte(octets[n], str, inv, rp);
    }
    assert octets[..4] == octets;
    DotsLength(octets);
    rp := rp - 1;
    str[rp] := '\0';
  }
}
