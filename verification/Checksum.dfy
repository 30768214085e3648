/**
  The Internet checksum of RFC 1071 (sections 1 and 2) as the ping command computes it, with the C
  code's 32-bit accumulator and 16-bit words on a little-endian machine.
*/
module Checksum {

  import opened ByteOps

  const ICMP_ECHO: byte := 8

  function Word(high: nat, low: nat): nat {
    high * 256 + low
  }

  /** The big-endian 16-bit words of a buffer added up; a last odd byte counts as a high byte. */
  function WordSum(data: seq<byte>): nat {
    if |data| == 0 then 0
    else if |data| == 1 then Word(data[0], 0)
    else Word(data[0], data[1]) + WordSum(data[2..])
  }

  /** The ones' complement sum: addition modulo 2^16 - 1, in which only an empty sum is 0. */
  function OnesSum(sum: nat): (r: nat)
    ensures r < 0x1_0000
  {
    if sum == 0 then 0 else (sum - 1) % 65535 + 1
  }

  /** Add the carries above 16 bits back in. */
  function Fold(acc: nat): nat {
    acc / 0x1_0000 + acc % 0x1_0000
  }

  /** htons on a little-endian machine. */
  function Swap(x: nat): (r: nat)
    requires x < 0x1_0000
    ensures r < 0x1_0000
  {
    Word(x % 256, x / 256)
  }

  function Invert(x: nat): (r: nat)
    requires x < 0x1_0000
    ensures r < 0x1_0000
  {
    65535 - x
  }

  lemma {:induction false} WordSumBound(data: seq<byte>)
    ensures WordSum(data) <= 65535 * ((|data| + 1) / 2)
  {
    if |data| >= 2 {
      WordSumBound(data[2..]);
      assert (|data[2..]| + 1) / 2 == (|data| + 1) / 2 - 1;
    }
  }

  /** A sum of at most 65535 bytes fits the 32-bit accumulator. */
  lemma AccumulatorFits(data: seq<byte>)
    requires |data| <= 65535
    ensures WordSum(data) <= 65535 * 32768 < 0x1_0000_0000
  {
    WordSumBound(data);
  }

  /** Folding does not change the ones' complement sum. */
  lemma FoldKeepsSum(acc: nat)
    ensures OnesSum(Fold(acc)) == OnesSum(acc) && Fold(acc) <= acc
    ensures acc >= 0x1_0000 ==> Fold(acc) < acc
  {
    var q, r := acc / 0x1_0000, acc % 0x1_0000;
    assert acc == q * 65535 + (q + r);
    SameResidue(q + r, acc, q);
  }

  lemma SameResidue(a: nat, b: nat, k: nat)
    requires b == k * 65535 + a && (a == 0 ==> b == 0)
    ensures OnesSum(a) == OnesSum(b)
  {
    if a > 0 { AddMultiple(a - 1, k); }
  }

  lemma AddMultiple(x: nat, k: nat)
    ensures (k * 65535 + x) % 65535 == x % 65535
  {
  }

  lemma OnesSumOfWord(x: nat)
    requires x < 0x1_0000
    ensures OnesSum(x) == x
  {
  }

  lemma NextWord(data: seq<byte>, p: nat)
    requires p + 2 <= |data|
    ensures WordSum(data[p..]) == Word(data[p], data[p + 1]) + WordSum(data[p + 2..])
  {
    assert data[p..][2..] == data[p + 2..];
  }

  /** The deferred carries: one fold, and a second one only if the first leaves a carry.  For the sums
      that occur two folds are enough. */
  method AddCarries(acc: nat) returns (sum: nat)
    requires acc <= 65535 * 32768
    ensures sum == OnesSum(acc)
  {
    FoldKeepsSum(acc);
    sum := Fold(acc);
    if sum >= 0x1_0000 {
      FoldKeepsSum(sum);
      sum := Fold(sum);
    }
    OnesSumOfWord(sum);
  }

  /** The sum as standard_chksum returns it: byte-swapped, not inverted. */
  method StandardChksum(data: seq<byte>) returns (chksum: nat)
    requires |data| <= 65535
    ensures chksum == Swap(OnesSum(WordSum(data)))
  {
    AccumulatorFits(data);
    var acc: nat, p: nat, len: nat := 0, 0, |data|;
    assert data[0..] == data;
    while len > 1
      invariant p + len == |data| && acc + WordSum(data[p..]) == WordSum(data)
    {
      NextWord(data, p);
      var src := Word(data[p], data[p + 1]);
      assert acc + src < 0x1_0000_0000;
      acc := acc + src;
      p := p + 2;
      len := len - 2;
    }
    if len > 0 {
      assert data[p..] == [data[p]];
      assert acc + Word(data[p], 0) < 0x1_0000_0000;
      acc := acc + Word(data[p], 0);
    }
    acc := AddCarries(acc);
    chksum := Swap(acc);
  }

  /** The checksum as it is stored in the header. */
  method InetChksum(data: seq<byte>) returns (chksum: nat)
    requires |data| <= 65535
    ensures chksum == Stored(data) < 0x1_0000
  {
    var acc := StandardChksum(data);
    chksum := Invert(acc);
  }

  function Stored(data: seq<byte>): (v: nat)
    ensures v < 0x1_0000
  {
    Invert(Swap(OnesSum(WordSum(data))))
  }

  // ----- what the checksum is for

  /** Sections 1 and 2 of RFC 1071: the sum may be taken in parts of even length. */
  lemma {:induction false} SumOfParts(a: seq<byte>, b: seq<byte>)
    requires |a| % 2 == 0
    ensures WordSum(a + b) == WordSum(a) + WordSum(b)
  {
    if a == [] {
      assert a + b == b;
    } else {
      assert (a + b)[2..] == a[2..] + b;
      SumOfParts(a[2..], b);
    }
  }

  /** A 16-bit value in the machine's byte order. */
  function Store16(packet: seq<byte>, at: nat, v: nat): (r: seq<byte>)
    requires at + 2 <= |packet| && v < 0x1_0000
    ensures |r| == |packet|
  {
    packet[at := v % 256][at + 1 := v / 256]
  }

  lemma StoredWord(packet: seq<byte>, v: nat)
    requires 4 <= |packet| && v < 0x1_0000
    ensures WordSum(Store16(packet, 2, v)) == WordSum(Store16(packet, 2, 0)) + Swap(v)
  {
    var a, b := Store16(packet, 2, v), Store16(packet, 2, 0);
    assert a[2..][2..] == a[4..] == b[4..] == b[2..][2..];
    assert a[2..][0] == v % 256 && a[2..][1] == v / 256 && b[2..][0] == 0 && b[2..][1] == 0;
  }

  lemma Halves(high: byte, low: byte)
    ensures Word(high, low) / 256 == high && Word(high, low) % 256 == low
  {
  }

  lemma SwapWord(high: byte, low: byte)
    ensures Swap(Word(high, low)) == Word(low, high)
  {
    Halves(high, low);
  }

  lemma SwapTwice(x: nat)
    requires x < 0x1_0000
    ensures Swap(Swap(x)) == x && Swap(Invert(x)) == Invert(Swap(x))
  {
    var high: byte, low: byte := x / 256, x % 256;
    SwapWord(high, low);
    SwapWord(low, high);
    SwapWord(255 - high, 255 - low);
    assert Invert(x) == Word(255 - high, 255 - low);
  }

  /** Adding the inverted sum makes the ones' complement sum all ones. */
  lemma ComplementSums(sum: nat)
    ensures OnesSum(sum + Invert(OnesSum(sum))) == 65535
  {
    if sum > 0 {
      var q, r := (sum - 1) / 65535, (sum - 1) % 65535;
      assert sum + Invert(OnesSum(sum)) == q * 65535 + 65535;
      SameResidue(65535, q * 65535 + 65535, q);
    }
  }

  lemma SwapStored(ones: nat)
    requires ones < 0x1_0000
    ensures Swap(Invert(Swap(ones))) == Invert(ones)
  {
    SwapTwice(ones);
    SwapTwice(Swap(ones));
  }

  lemma AllOnes()
    ensures Invert(Swap(65535)) == 0
  {
    Halves(255, 255);
  }

  /** A packet whose checksum field was computed over the packet with a zero field checks to 0. */
  lemma PacketChecks(packet: seq<byte>)
    requires 4 <= |packet|
    ensures Stored(Store16(packet, 2, Stored(Store16(packet, 2, 0)))) == 0
  {
    var sum := WordSum(Store16(packet, 2, 0));
    StoredWord(packet, Stored(Store16(packet, 2, 0)));
    SwapStored(OnesSum(sum));
    ComplementSums(sum);
    AllOnes();
  }

  /** A 16-bit value in network byte order. */
  function Field(packet: seq<byte>, at: nat): nat
    requires at + 2 <= |packet|
  {
    Word(packet[at], packet[at + 1])
  }

  /** Storing htons(v) in the machine's byte order puts v in network byte order. */
  lemma NetworkOrder(packet: seq<byte>, at: nat, v: nat)
    requires at + 2 <= |packet| && v < 0x1_0000
    ensures Field(Store16(packet, at, Swap(v)), at) == v
  {
    Halves(v % 256, v / 256);
  }

  method Store(packet: array<byte>, at: nat, v: nat)
    requires at + 2 <= packet.Length && v < 0x1_0000
    modifies packet
    ensures packet[..] == Store16(old(packet[..]), at, v)
  {
    packet[at] := v % 256;
    packet[at + 1] := v / 256;
  }

  /** send_cb: fill in the echo header and its checksum; the packet that goes out checks to 0. */
  method FillPacket(icmp: array<byte>, id: nat, seqno: nat)
    requires 8 <= icmp.Length <= 65535 && id < 0x1_0000 && seqno < 0x1_0000
    modifies icmp
    ensures Stored(icmp[..]) == 0
    ensures icmp[0] == 8 && icmp[1] == 0
    ensures Field(icmp[..], 4) == id && Field(icmp[..], 6) == seqno
    ensures icmp[8..] == old(icmp[8..])
  {
    icmp[0] := ICMP_ECHO;
    icmp[1] := 0;
    Store(icmp, 2, 0);
    NetworkOrder(icmp[..], 4, id);
    Store(icmp, 4, Swap(id));
    NetworkOrder(icmp[..], 6, seqno);
    Store(icmp, 6, Swap(seqno));
    ghost var zeroed := icmp[..];
    var chksum := InetChksum(icmp[..]);
    PacketChecks(zeroed);
    assert Store16(zeroed, 2, 0) == zeroed;
    Store(icmp, 2, chksum);
  }

  /** The numerical example in section 3 of RFC 1071: the sum of these eight bytes is ddf2, and the checksum
      is stored as the bytes 22 0d.  A last odd byte is the high one of its word. */
  lemma NumericalExample()
    ensures var data := [0x00, 0x01, 0xf2, 0x03, 0xf4, 0xf5, 0xf6, 0xf7];
            WordSum(data) == 0x2_ddf0 && OnesSum(WordSum(data)) == 0xddf2 && Stored(data) == 0x0d22
    ensures WordSum([0x00, 0x01, 0xf2]) == 0xf201
  {
    var data := [0x00, 0x01, 0xf2, 0x03, 0xf4, 0xf5, 0xf6, 0xf7];
    assert data[2..] == [0xf2, 0x03, 0xf4, 0xf5, 0xf6, 0xf7];
    assert data[2..][2..] == [0xf4, 0xf5, 0xf6, 0xf7] && data[2..][2..][2..] == [0xf6, 0xf7];
    assert [0xf6, 0xf7][2..] == [];
    assert [0x00, 0x01, 0xf2][2..] == [0xf2];
    assert WordSum([0xf6, 0xf7]) == 0xf6f7;
    assert WordSum([0xf4, 0xf5, 0xf6, 0xf7]) == 0x1_ebec;
  }

  /** Section 2 of RFC 1071: a machine of the other byte order gets the same checksum, byte-swapped. */
  function LittleSum(data: seq<byte>): nat {
    if |data| == 0 then 0
    else if |data| == 1 then Word(0, data[0])
    else Word(data[1], data[0]) + LittleSum(data[2..])
  }

  /** The two sums differ by a factor of 256, modulo 65535. */
  lemma {:induction false} LittleSumResidue(data: seq<byte>) returns (k: nat)
    ensures WordSum(data) * 256 == k * 65535 + LittleSum(data)
    ensures WordSum(data) == 0 <==> LittleSum(data) == 0
  {
    if |data| == 0 {
      k := 0;
    } else if |data| == 1 {
      k := data[0];
    } else {
      k := LittleSumResidue(data[2..]);
      k := k + data[0];
    }
  }

  lemma SwapResidue(x: nat)
    requires x < 0x1_0000
    ensures x * 256 == x / 256 * 65535 + Swap(x) && (Swap(x) == 0 <==> x == 0)
  {
  }

  lemma {:induction false} ByteOrderIrrelevant(data: seq<byte>)
    ensures OnesSum(LittleSum(data)) == Swap(OnesSum(WordSum(data)))
  {
    var sum, little, ones := WordSum(data), LittleSum(data), OnesSum(WordSum(data));
    var k := LittleSumResidue(data);
    if sum > 0 {
      SameResidue(little, sum * 256, k);
      var q := (sum - 1) / 65535;
      assert sum == q * 65535 + ones;
      SwapResidue(ones);
      assert sum * 256 == (q * 256 + ones / 256) * 65535 + Swap(ones);
      SameResidue(Swap(ones), sum * 256, q * 256 + ones / 256);
      OnesSumOfWord(Swap(ones));
    }
  }
}
