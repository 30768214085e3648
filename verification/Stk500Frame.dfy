/**
  The STK500v2 message frame: the byte-driven receive state machine of the bootloader and the frame
  that its reply loop emits.
*/
module Stk500Frame {
  import opened ByteOps

  const MESSAGE_START: byte := 0x1B
  const TOKEN: byte := 0x0E

  datatype ParseState = Start | GetSeqNum | MsgSize1 | MsgSize2 | GetToken | GetData | GetCheck | Process

  /** The receiver: its state, the expected sequence number, the announced length, the running
      checksum, and the message bytes stored so far. */
  datatype Parser = Parser(state: ParseState, seqNum: byte, length: nat, checksum: byte, data: seq<byte>)

  function Rejected(p: Parser): Parser {
    p.(state := Start)
  }

  /** One received byte. */
  function Receive(p: Parser, c: byte): Parser {
    match p.state
    case Start => if c == MESSAGE_START then p.(state := GetSeqNum, checksum := MESSAGE_START) else p
    case GetSeqNum =>
      if c == 1 || c == p.seqNum then p.(state := MsgSize1, seqNum := c, checksum := Xor(p.checksum, c))
      else Rejected(p)
    case MsgSize1 => p.(state := MsgSize2, length := c * 256, checksum := Xor(p.checksum, c))
    case MsgSize2 => p.(state := GetToken, length := p.length + c, checksum := Xor(p.checksum, c))
    case GetToken =>
      if c == TOKEN then p.(state := GetData, checksum := Xor(p.checksum, c), data := []) else Rejected(p)
    case GetData =>
      var more := p.(data := p.data + [c], checksum := Xor(p.checksum, c));
      if |more.data| == p.length then more.(state := GetCheck) else more
    case GetCheck => if c == p.checksum then p.(state := Process) else Rejected(p)
    case Process => p
  }

  function ReceiveAll(p: Parser, bytes: seq<byte>): Parser {
    if bytes == [] then p
    else Receive(ReceiveAll(p, bytes[..|bytes| - 1]), bytes[|bytes| - 1])
  }

  lemma {:induction false} ReceiveConcat(p: Parser, a: seq<byte>, b: seq<byte>)
    ensures ReceiveAll(p, a + b) == ReceiveAll(ReceiveAll(p, a), b)
  {
    if b == [] {
      assert a + b == a;
    } else {
      var m := |b| - 1;
      assert (a + b)[..|a + b| - 1] == a + b[..m];
      ReceiveConcat(p, a, b[..m]);
    }
  }

  lemma ReceiveNext(p: Parser, bytes: seq<byte>, c: byte)
    ensures ReceiveAll(p, bytes + [c]) == Receive(ReceiveAll(p, bytes), c)
  {
    assert (bytes + [c])[..|bytes|] == bytes;
  }

  lemma ReceiveOne(p: Parser, c: byte)
    ensures ReceiveAll(p, [c]) == Receive(p, c)
  {
    assert [c][..0] == [];
  }

  // ----- the frame

  function XorAll(start: byte, bytes: seq<byte>): byte {
    if bytes == [] then start else Xor(XorAll(start, bytes[..|bytes| - 1]), bytes[|bytes| - 1])
  }

  function Header(seqNum: byte, n: nat): seq<byte>
    requires n < 0x1_0000
  {
    [MESSAGE_START, seqNum, n / 256, n % 256, TOKEN]
  }

  function Checksum(seqNum: byte, payload: seq<byte>): byte
    requires |payload| < 0x1_0000
  {
    XorAll(XorAll(0, Header(seqNum, |payload|)), payload)
  }

  function Frame(seqNum: byte, payload: seq<byte>): seq<byte>
    requires |payload| < 0x1_0000
  {
    Header(seqNum, |payload|) + payload + [Checksum(seqNum, payload)]
  }

  lemma XorAllStep(bytes: seq<byte>, c: byte)
    ensures XorAll(0, bytes + [c]) == Xor(XorAll(0, bytes), c)
  {
    assert (bytes + [c])[..|bytes|] == bytes;
  }

  lemma HeaderChecksum(a: byte, b: byte, c: byte, d: byte, e: byte)
    ensures XorAll(0, [a, b, c, d, e]) == Xor(Xor(Xor(Xor(a, b), c), d), e)
  {
    assert [] + [a] == [a] && [a] + [b] == [a, b] && [a, b] + [c] == [a, b, c];
    assert [a, b, c] + [d] == [a, b, c, d] && [a, b, c, d] + [e] == [a, b, c, d, e];
    XorAllStep([], a);
    XorAllStep([a], b);
    XorAllStep([a, b], c);
    XorAllStep([a, b, c], d);
    XorAllStep([a, b, c, d], e);
    XorZero(a);
  }

  lemma ReceiveFive(p: Parser, a: byte, b: byte, c: byte, d: byte, e: byte)
    ensures ReceiveAll(p, [a, b, c, d, e]) == Receive(Receive(Receive(Receive(Receive(p, a), b), c), d), e)
  {
    assert [a] + [b] == [a, b] && [a, b] + [c] == [a, b, c];
    assert [a, b, c] + [d] == [a, b, c, d] && [a, b, c, d] + [e] == [a, b, c, d, e];
    ReceiveOne(p, a);
    ReceiveNext(p, [a], b);
    ReceiveNext(p, [a, b], c);
    ReceiveNext(p, [a, b, c], d);
    ReceiveNext(p, [a, b, c, d], e);
  }

  lemma HeaderAccepted(p: Parser, seqNum: byte, n: nat)
    requires p.state == Start && n < 0x1_0000 && (seqNum == 1 || seqNum == p.seqNum)
    ensures ReceiveAll(p, Header(seqNum, n)) ==
            Parser(GetData, seqNum, n, XorAll(0, Header(seqNum, n)), [])
  {
    HeaderChecksum(MESSAGE_START, seqNum, n / 256, n % 256, TOKEN);
    ReceiveFive(p, MESSAGE_START, seqNum, n / 256, n % 256, TOKEN);
  }

  lemma {:induction false} DataReceived(p: Parser, bytes: seq<byte>)
    requires p.state == GetData && p.data == [] && 1 <= p.length && |bytes| <= p.length
    ensures ReceiveAll(p, bytes) ==
            Parser(if |bytes| == p.length then GetCheck else GetData, p.seqNum, p.length,
                   XorAll(p.checksum, bytes), bytes)
  {
    if bytes != [] {
      var m := |bytes| - 1;
      DataReceived(p, bytes[..m]);
      assert bytes[..m] + [bytes[m]] == bytes;
    }
  }

  /** A message with a well-formed header is processed exactly when its last byte is the checksum,
      and then the receiver holds exactly the payload. */
  lemma AcceptedIffChecksum(p: Parser, seqNum: byte, payload: seq<byte>, check: byte)
    requires p.state == Start && (seqNum == 1 || seqNum == p.seqNum) && 1 <= |payload| < 0x1_0000
    ensures var q := ReceiveAll(p, Header(seqNum, |payload|) + payload + [check]);
            q.seqNum == seqNum && q.length == |payload| && q.data == payload &&
            q.state == if check == Checksum(seqNum, payload) then Process else Start
  {
    var header := Header(seqNum, |payload|);
    ReceiveConcat(p, header + payload, [check]);
    ReceiveConcat(p, header, payload);
    HeaderAccepted(p, seqNum, |payload|);
    DataReceived(ReceiveAll(p, header), payload);
    ReceiveOne(ReceiveAll(p, header + payload), check);
  }

  /** Round trip: what the reply loop emits, the receive loop accepts, with the same payload. */
  lemma FrameRoundTrip(p: Parser, seqNum: byte, payload: seq<byte>)
    requires p.state == Start && (seqNum == 1 || seqNum == p.seqNum) && 1 <= |payload| < 0x1_0000
    ensures var q := ReceiveAll(p, Frame(seqNum, payload));
            q.state == Process && q.data == payload && q.length == |payload| && q.seqNum == seqNum
  {
    AcceptedIffChecksum(p, seqNum, payload, Checksum(seqNum, payload));
  }

  /** Noise before the start byte is skipped. */
  lemma {:induction false} NoiseSkipped(p: Parser, noise: seq<byte>, rest: seq<byte>)
    requires p.state == Start && MESSAGE_START !in noise
    ensures ReceiveAll(p, noise + rest) == ReceiveAll(p, rest)
  {
    ReceiveConcat(p, noise, rest);
    NoiseIgnored(p, noise);
  }

  lemma {:induction false} NoiseIgnored(p: Parser, noise: seq<byte>)
    requires p.state == Start && MESSAGE_START !in noise
    ensures ReceiveAll(p, noise) == p
  {
    if noise != [] {
      NoiseIgnored(p, noise[..|noise| - 1]);
      assert noise[|noise| - 1] in noise;
    }
  }

  lemma WrongSequenceRejected(p: Parser, seqNum: byte)
    requires p.state == Start && seqNum != 1 && seqNum != p.seqNum
    ensures ReceiveAll(p, [MESSAGE_START, seqNum]).state == Start
  {
    assert [MESSAGE_START, seqNum] == [MESSAGE_START] + [seqNum];
    ReceiveConcat(p, [MESSAGE_START], [seqNum]);
    ReceiveOne(p, MESSAGE_START);
    ReceiveOne(Receive(p, MESSAGE_START), seqNum);
  }

  /** Any other byte where the token is expected, and the receiver looks for a start byte again. */
  lemma WrongTokenRejected(p: Parser, seqNum: byte, high: byte, low: byte, c: byte)
    requires p.state == Start && (seqNum == 1 || seqNum == p.seqNum) && c != 0x0E
    ensures ReceiveAll(p, [0x1B, seqNum, high, low, c]).state == Start
  {
    ReceiveFive(p, 0x1B, seqNum, high, low, c);
  }

  // ----- a message in numbers

  lemma HalfXors()
    ensures XorBits(1, 0) == 1 && XorBits(1, 1) == 0
    ensures XorBits(3, 0) == 3 && XorBits(3, 1) == 2 && XorBits(2, 2) == 0
    ensures XorBits(6, 0) == 6 && XorBits(6, 3) == 5 && XorBits(5, 4) == 1
    ensures XorBits(13, 0) == 13 && XorBits(13, 7) == 10 && XorBits(10, 9) == 3
  {
    assert XorBits(1, 0) == 1 && XorBits(1, 1) == 0;
    assert XorBits(3, 0) == 3 && XorBits(3, 1) == 2 && XorBits(2, 2) == 0;
    assert XorBits(6, 0) == 6 && XorBits(6, 3) == 5 && XorBits(5, 4) == 1;
  }

  lemma HeaderXors()
    ensures Xor(0x1B, 0x01) == 0x1A && Xor(0x1A, 0x00) == 0x1A && Xor(0x1A, 0x01) == 0x1B
    ensures Xor(0x1B, 0x0E) == 0x15 && Xor(0x15, 0x12) == 0x07
  {
    HalfXors();
  }

  lemma XorAllOne(start: byte, c: byte)
    ensures XorAll(start, [c]) == Xor(start, c)
  {
    assert [c][..0] == [];
  }

  /** A message of one byte, whose checksum is built up by the sums x1 to x5. */
  lemma ShortFrame(a: byte, b: byte, c: byte, d: byte, e: byte, f: byte,
                   x1: byte, x2: byte, x3: byte, x4: byte, x5: byte)
    requires Header(b, 1) == [a, b, c, d, e]
    requires x1 == Xor(a, b) && x2 == Xor(x1, c) && x3 == Xor(x2, d) && x4 == Xor(x3, e) && x5 == Xor(x4, f)
    ensures Frame(b, [f]) == [a, b, c, d, e, f, x5]
  {
    HeaderChecksum(a, b, c, d, e);
    XorAllOne(x4, f);
  }

  /** CHIP_ERASE_ISP under the number 1 as it goes over the line: what a host sends is these seven bytes,
      and the receiver gets one byte of payload from them, whatever number it expects. */
  lemma EraseFrame(p: Parser)
    requires p.state == Start
    ensures Frame(1, [0x12]) == [0x1B, 0x01, 0x00, 0x01, 0x0E, 0x12, 0x07]
    ensures var q := ReceiveAll(p, [0x1B, 0x01, 0x00, 0x01, 0x0E, 0x12, 0x07]);
            q.state == Process && q.data == [0x12] && q.seqNum == 1
  {
    HalfXors();
    HeaderXors();
    ShortFrame(0x1B, 0x01, 0x00, 0x01, 0x0E, 0x12, 0x1A, 0x1A, 0x1B, 0x15, 0x07);
    FrameRoundTrip(p, 1, [0x12]);
  }

  // ----- damaged messages

  lemma {:induction false} XorAllInjective(a: byte, b: byte, bytes: seq<byte>)
    ensures XorAll(a, bytes) == XorAll(b, bytes) <==> a == b
  {
    if bytes != [] {
      var m := |bytes| - 1;
      XorAllInjective(a, b, bytes[..m]);
      XorCancels(XorAll(a, bytes[..m]), XorAll(b, bytes[..m]), bytes[m]);
    }
  }

  lemma {:induction false} XorAllConcat(start: byte, a: seq<byte>, b: seq<byte>)
    ensures XorAll(start, a + b) == XorAll(XorAll(start, a), b)
  {
    if b == [] {
      assert a + b == a;
    } else {
      var m := |b| - 1;
      assert (a + b)[..|a + b| - 1] == a + b[..m];
      XorAllConcat(start, a, b[..m]);
    }
  }

  lemma OneByteChangesChecksum(start: byte, bytes: seq<byte>, i: nat, c: byte)
    requires i < |bytes| && c != bytes[i]
    ensures XorAll(start, bytes[i := c]) != XorAll(start, bytes)
  {
    var before, after := bytes[..i], bytes[i + 1..];
    assert bytes == before + [bytes[i]] + after && bytes[i := c] == before + [c] + after;
    XorAllConcat(start, before + [bytes[i]], after);
    XorAllConcat(start, before + [c], after);
    XorAllConcat(start, before, [bytes[i]]);
    XorAllConcat(start, before, [c]);
    assert [c][..0] == [] && [bytes[i]][..0] == [];
    XorCancels(c, bytes[i], XorAll(start, before));
    XorAllInjective(XorAll(start, before + [c]), XorAll(start, before + [bytes[i]]), after);
  }

  /** Altering any one byte of the payload, or the checksum, makes the receiver reject. */
  lemma OneByteDamageRejected(p: Parser, seqNum: byte, payload: seq<byte>, i: nat, c: byte)
    requires p.state == Start && (seqNum == 1 || seqNum == p.seqNum) && 1 <= |payload| < 0x1_0000
    requires i <= |payload| && c != (payload + [Checksum(seqNum, payload)])[i]
    ensures var sent := payload + [Checksum(seqNum, payload)];
            ReceiveAll(p, Header(seqNum, |payload|) + sent[i := c]).state == Start
  {
    var check := Checksum(seqNum, payload);
    var header := Header(seqNum, |payload|);
    var sent := payload + [check];
    if i == |payload| {
      assert header + sent[i := c] == header + payload + [c];
      AcceptedIffChecksum(p, seqNum, payload, c);
    } else {
      OneByteChangesChecksum(XorAll(0, header), payload, i, c);
      assert header + sent[i := c] == header + payload[i := c] + [check];
      AcceptedIffChecksum(p, seqNum, payload[i := c], check);
    }
  }
}
