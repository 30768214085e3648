/**
  Whole runs of the bootloader: messages framed as the programmer frames them, with noise between
  them, go in as bytes; what comes out of it all is an image in the flash.
*/
module Stk500Session {
  import opened ByteOps
  import opened Stk500Frame
  import opened Stk500Flash
  import opened Stk500Boot

  /** The message says by itself, whatever the rest of the buffer holds, that `c` is to be done. */
  ghost predicate Means(message: seq<byte>, c: Command) {
    && 1 <= |message| <= BUFFER_SIZE && WellFormed(c)
    && forall rest: seq<byte> :: |message + rest| == BUFFER_SIZE ==>
         Covered(message + rest) && Decode(message + rest) == c
  }

  ghost predicate AllMean(messages: seq<seq<byte>>, cs: seq<Command>) {
    |messages| == |cs| && forall i :: 0 <= i < |cs| ==> Means(messages[i], cs[i])
  }

  function CommandByte(c: Command): byte {
    match c
    case ChipErase => CMD_CHIP_ERASE_ISP
    case LoadAddress(_) => CMD_LOAD_ADDRESS
    case ProgramFlash(_) => CMD_PROGRAM_FLASH_ISP
    case _ => CMD_READ_FLASH_ISP
  }

  /** What a command has to be answered with. */
  function Reply(d: Device, c: Command): (reply: seq<byte>)
    requires Ok(d) && WellFormed(c)
    ensures 2 <= |reply| <= BUFFER_SIZE
  {
    var head := [CommandByte(c), STATUS_CMD_OK];
    if c.ReadFlash? then head + ReadData(d, c.size) + [STATUS_CMD_OK] else head
  }

  lemma AnswerIsReply(d: Device, buffer: seq<byte>)
    requires Ok(d) && |buffer| == BUFFER_SIZE && Covered(buffer)
    ensures Answer(d, buffer) == Reply(d, Decode(buffer))
  {
  }

  lemma MeansComplete(message: seq<byte>, c: Command, buffer: seq<byte>)
    requires Means(message, c) && |buffer| == BUFFER_SIZE && message <= buffer
    ensures Complete(message) && Covered(buffer) && Decode(buffer) == c
  {
    assert buffer == message + buffer[|message|..];
  }

  lemma MeansIsComplete(message: seq<byte>, c: Command)
    requires Means(message, c)
    ensures Complete(message)
  {
  }

  // ----- noise and a frame

  predicate Noise(bytes: seq<byte>) {
    MESSAGE_START !in bytes
  }

  /** The receiver takes the number that it expects, and 1 at any time: so can a host begin. */
  lemma NoisyFrameReceived(p: Parser, noise: seq<byte>, number: byte, message: seq<byte>)
    requires p.state == Start && Noise(noise) && 1 <= |message| <= BUFFER_SIZE
    requires number == 1 || number == p.seqNum
    ensures var q := ReceiveAll(p, noise + Frame(number, message));
            q.state == Process && q.data == message && q.seqNum == number
    ensures Fits(p, noise + Frame(number, message))
  {
    var frame := Frame(number, message);
    NoiseSkipped(p, noise, frame);
    FrameRoundTrip(p, number, message);
    FrameFits(p, number, message);
    var bytes := noise + frame;
    forall i | 0 <= i < |bytes|
      ensures var q := ReceiveAll(p, bytes[..i]); q.state == GetData ==> |q.data| < BUFFER_SIZE
    {
      NoisyPrefix(p, noise, frame, i);
    }
  }

  lemma NoisyPrefix(p: Parser, noise: seq<byte>, frame: seq<byte>, i: nat)
    requires p.state == Start && Noise(noise) && Fits(p, frame) && i < |noise + frame|
    ensures var q := ReceiveAll(p, (noise + frame)[..i]); q.state == GetData ==> |q.data| < BUFFER_SIZE
  {
    if i < |noise| {
      assert (noise + frame)[..i] == noise[..i];
      NoiseIgnored(p, noise[..i]);
    } else {
      assert (noise + frame)[..i] == noise + frame[..i - |noise|];
      NoiseSkipped(p, noise, frame[..i - |noise|]);
    }
  }

  // ----- the main loop

  /** The next sequence number. */
  function Successor(number: byte): byte {
    if number == 255 then 0 else number + 1
  }

  lemma SuccessorWraps(number: byte)
    ensures Successor(number) == (number + 1) % 256
  {
  }

  function NumberAfter(first: byte, n: nat): byte {
    if n == 0 then first else Successor(NumberAfter(first, n - 1))
  }

  /** The frames that answer a run of commands, the first under the number `first`. */
  function Answers(d: Device, cs: seq<Command>, first: byte): seq<seq<byte>>
    requires Ok(d) && AllWellFormed(cs)
  {
    if cs == [] then []
    else
      var n := |cs| - 1;
      Answers(d, cs[..n], first) + [Frame(NumberAfter(first, n), Reply(ExecuteAll(d, cs[..n]), cs[n]))]
  }

  lemma OneMoreCommand(d: Device, cs: seq<Command>, c: Command, first: byte)
    requires Ok(d) && AllWellFormed(cs) && WellFormed(c)
    ensures var e := ExecuteAll(d, cs);
            AllWellFormed(cs + [c]) && ExecuteAll(d, cs + [c]) == Execute(e, c) &&
            Answers(d, cs + [c], first) == Answers(d, cs, first) + [Frame(NumberAfter(first, |cs|), Reply(e, c))]
  {
    assert (cs + [c])[..|cs|] == cs;
  }

  /** The first n commands are done. */
  ghost predicate Served(d: Device, first: byte, cs: seq<Command>, n: nat, now: Device, answers: seq<seq<byte>>)
    requires Ok(d) && AllWellFormed(cs) && n <= |cs|
  {
    now == ExecuteAll(d, cs[..n]) && answers == Answers(d, cs[..n], first)
  }

  lemma {:induction false} ServedNext(d: Device, first: byte, cs: seq<Command>, n: nat, now: Device,
                                      answers: seq<seq<byte>>, number: byte)
    requires Ok(d) && AllWellFormed(cs) && n < |cs| && Served(d, first, cs, n, now, answers) && Ok(now)
    requires number == NumberAfter(first, n)
    ensures Served(d, first, cs, n + 1, Execute(now, cs[n]), answers + [Frame(number, Reply(now, cs[n]))])
  {
    assert cs[..n + 1] == cs[..n] + [cs[n]];
    OneMoreCommand(d, cs[..n], cs[n], first);
  }

  /** One message under a number that the receiver takes, and its answer. */
  method Exchange(b: Bootloader, noise: seq<byte>, number: byte, message: seq<byte>, ghost c: Command)
    returns (answer: seq<byte>)
    requires b.Valid() && b.msgParseState == Start && Noise(noise) && Means(message, c)
    requires number == 1 || number == b.seqNum
    modifies b, b.msgBuffer
    ensures b.Valid() && b.msgParseState == Start && b.seqNum == Successor(number)
    ensures b.Hardware() == Execute(old(b.Hardware()), c)
    ensures answer == Frame(number, Reply(old(b.Hardware()), c))
  {
    ghost var d, p := b.Hardware(), b.Receiver();
    SuccessorWraps(number);
    var bytes := noise + Frame(number, message);
    MessageArrives(p, noise, number, message, c);
    ghost var buffer;
    answer, buffer := b.MainLoopPass(bytes);
    assert ReceiveAll(p, bytes).data == message && ReceiveAll(p, bytes).seqNum == number;
    MessageDone(d, message, c, buffer);
  }

  lemma MessageDone(d: Device, message: seq<byte>, c: Command, buffer: seq<byte>)
    requires Ok(d) && Means(message, c) && |buffer| == BUFFER_SIZE && message <= buffer
    ensures Covered(buffer) && Decode(buffer) == c && Answer(d, buffer) == Reply(d, c)
  {
    MeansComplete(message, c, buffer);
    AnswerIsReply(d, buffer);
  }

  lemma MessageArrives(p: Parser, noise: seq<byte>, number: byte, message: seq<byte>, c: Command)
    requires p.state == Start && Noise(noise) && Means(message, c) && (number == 1 || number == p.seqNum)
    ensures Fits(p, noise + Frame(number, message))
    ensures var q := ReceiveAll(p, noise + Frame(number, message));
            q.state == Process && q.data == message && q.seqNum == number && Complete(message)
  {
    NoisyFrameReceived(p, noise, number, message);
    MeansIsComplete(message, c);
  }

  /** The main loop on any number of messages: the device executes the commands in order, and each
      message is answered under its own sequence number.  The first number is the expected one, or 1,
      and the others follow it. */
  method MainLoop(b: Bootloader, first: byte, noises: seq<seq<byte>>, messages: seq<seq<byte>>, ghost cs: seq<Command>)
    returns (answers: seq<seq<byte>>)
    requires b.Valid() && b.msgParseState == Start && AllMean(messages, cs) && AllWellFormed(cs)
    requires first == 1 || first == b.seqNum
    requires |noises| == |messages| && forall i :: 0 <= i < |noises| ==> Noise(noises[i])
    modifies b, b.msgBuffer
    ensures b.Valid() && b.msgParseState == Start
    ensures |cs| > 0 ==> b.seqNum == NumberAfter(first, |cs|)
    ensures b.Hardware() == ExecuteAll(old(b.Hardware()), cs)
    ensures answers == Answers(old(b.Hardware()), cs, first)
  {
    answers := [];
    ghost var d := b.Hardware();
    var number := first;
    for i := 0 to |messages|
      invariant b.Valid() && b.msgParseState == Start && Served(d, first, cs, i, b.Hardware(), answers)
      invariant number == NumberAfter(first, i) && (number == b.seqNum || (i == 0 && number == 1))
    {
      ServedNext(d, first, cs, i, b.Hardware(), answers, number);
      var answer := Exchange(b, noises[i], number, messages[i], cs[i]);
      answers := answers + [answer];
      number := b.seqNum;
    }
    assert cs[..|messages|] == cs;
  }

  // ----- programming an image over the wire

  function ProgramBlockMessage(block: seq<byte>): seq<byte>
    requires |block| < 0x1_0000
  {
    [CMD_PROGRAM_FLASH_ISP, |block| / 256, |block| % 256] + [0, 0, 0, 0, 0, 0, 0] + block
  }

  /** The messages of a session, in the order in which they are sent. */
  function SessionMessages(pages: seq<seq<byte>>): seq<seq<byte>>
    requires Pages(pages)
  {
    if pages == [] then [[CMD_CHIP_ERASE_ISP], [CMD_LOAD_ADDRESS, 0, 0, 0, 0]]
    else SessionMessages(pages[..|pages| - 1]) + [ProgramBlockMessage(pages[|pages| - 1])]
  }

  /** The last block may be shorter than a page, or missing. */
  predicate Tail(tail: seq<byte>) {
    |tail| < PAGE && |tail| % 2 == 0
  }

  function UploadMessages(pages: seq<seq<byte>>, tail: seq<byte>): seq<seq<byte>>
    requires Pages(pages) && Tail(tail)
  {
    SessionMessages(pages) + if tail == [] then [] else [ProgramBlockMessage(tail)]
  }

  function UploadCommands(pages: seq<seq<byte>>, tail: seq<byte>): seq<Command> {
    SessionCommands(pages) + if tail == [] then [] else [ProgramFlash(tail)]
  }

  lemma EraseMeans()
    ensures Means([CMD_CHIP_ERASE_ISP], ChipErase)
  {
    forall rest: seq<byte> | |[CMD_CHIP_ERASE_ISP] + rest| == BUFFER_SIZE
      ensures Covered([CMD_CHIP_ERASE_ISP] + rest) && Decode([CMD_CHIP_ERASE_ISP] + rest) == ChipErase
    {
      ChipEraseMessage(rest);
    }
  }

  lemma LoadMeans(b3: byte, b2: byte, b1: byte, b0: byte)
    ensures Means([CMD_LOAD_ADDRESS, b3, b2, b1, b0],
                  LoadAddress(b3 * 0x100_0000 + b2 * 0x1_0000 + b1 * 0x100 + b0))
  {
    var message := [CMD_LOAD_ADDRESS, b3, b2, b1, b0];
    forall rest: seq<byte> | |message + rest| == BUFFER_SIZE
      ensures Covered(message + rest)
      ensures Decode(message + rest) == LoadAddress(b3 * 0x100_0000 + b2 * 0x1_0000 + b1 * 0x100 + b0)
    {
      LoadAddressMessage(b3, b2, b1, b0, rest);
    }
  }

  lemma ProgramMeans(block: seq<byte>)
    requires 2 <= |block| <= PAGE && |block| % 2 == 0
    ensures Means(ProgramBlockMessage(block), ProgramFlash(block))
  {
    forall rest: seq<byte> | |ProgramBlockMessage(block) + rest| == BUFFER_SIZE
      ensures Covered(ProgramBlockMessage(block) + rest)
      ensures Decode(ProgramBlockMessage(block) + rest) == ProgramFlash(block)
    {
      ProgramMessage([0, 0, 0, 0, 0, 0, 0], block, rest);
    }
  }

  lemma ReadMeans(high: byte, low: byte)
    requires 2 <= high * 256 + low <= 282 && low % 2 == 0
    ensures Means([CMD_READ_FLASH_ISP, high, low], ReadFlash(high * 256 + low))
  {
    var message := [CMD_READ_FLASH_ISP, high, low];
    forall rest: seq<byte> | |message + rest| == BUFFER_SIZE
      ensures Covered(message + rest) && Decode(message + rest) == ReadFlash(high * 256 + low)
    {
      ReadFlashMessage(high, low, rest);
    }
  }

  lemma {:induction false} SessionMeans(pages: seq<seq<byte>>)
    requires Pages(pages)
    ensures AllMean(SessionMessages(pages), SessionCommands(pages))
  {
    if pages == [] {
      EraseMeans();
      LoadMeans(0, 0, 0, 0);
    } else {
      SessionMeans(pages[..|pages| - 1]);
      ProgramMeans(pages[|pages| - 1]);
    }
  }

  lemma UploadMeans(pages: seq<seq<byte>>, tail: seq<byte>)
    requires Pages(pages) && Tail(tail)
    ensures AllMean(UploadMessages(pages, tail), UploadCommands(pages, tail))
    ensures AllWellFormed(UploadCommands(pages, tail))
  {
    SessionMeans(pages);
    SessionWellFormed(pages);
    if tail != [] { ProgramMeans(tail); }
  }

  lemma UploadResult(d: Device, pages: seq<seq<byte>>, tail: seq<byte>)
    requires Ok(d) && Pages(pages) && Tail(tail) && AllWellFormed(UploadCommands(pages, tail))
    requires |pages| * PAGE + (if tail == [] then 0 else PAGE) <= APP_END
    ensures ExecuteAll(d, UploadCommands(pages, tail)).flash == Uploaded(d.flash, pages, tail)
  {
    if tail == [] {
      UploadWhole(d, pages);
    } else {
      SessionWithTail(d, pages, tail);
    }
  }

  lemma {:induction false} UploadWhole(d: Device, pages: seq<seq<byte>>)
    requires Ok(d) && Pages(pages) && AllWellFormed(UploadCommands(pages, [])) && |pages| * PAGE <= APP_END
    ensures ExecuteAll(d, UploadCommands(pages, [])).flash == Uploaded(d.flash, pages, [])
  {
    assert UploadCommands(pages, []) == SessionCommands(pages);
    SessionWritesImage(d, pages);
    assert Image(pages) + [] == Image(pages);
  }

  /** The image, the rest of its last page erased, and everything else as before. */
  function Uploaded(before: seq<byte>, pages: seq<seq<byte>>, tail: seq<byte>): seq<byte>
    requires |before| == FLASH_SIZE && Pages(pages) && Tail(tail) && (|pages| + 1) * PAGE <= FLASH_SIZE
  {
    Image(pages) + tail +
    if tail == [] then before[|pages| * PAGE..] else Blank()[|tail|..] + before[(|pages| + 1) * PAGE..]
  }

  /** From bytes on the line to bytes in the flash: after the session's messages the flash holds the
      image, nothing else has changed, and the next message is awaited. */
  method Upload(b: Bootloader, first: byte, noises: seq<seq<byte>>, pages: seq<seq<byte>>, tail: seq<byte>)
    returns (answers: seq<seq<byte>>)
    requires b.Valid() && b.msgParseState == Start && (first == 1 || first == b.seqNum)
    requires Pages(pages) && Tail(tail) && |pages| * PAGE + (if tail == [] then 0 else PAGE) <= APP_END
    requires |noises| == |UploadMessages(pages, tail)| && forall i :: 0 <= i < |noises| ==> Noise(noises[i])
    modifies b, b.msgBuffer
    ensures b.Valid() && b.msgParseState == Start && b.flash == Uploaded(old(b.flash), pages, tail)
    ensures var cs := UploadCommands(pages, tail);
            AllWellFormed(cs) && answers == Answers(old(b.Hardware()), cs, first)
  {
    ghost var d := b.Hardware();
    UploadMeans(pages, tail);
    UploadResult(d, pages, tail);
    answers := MainLoop(b, first, noises, UploadMessages(pages, tail), UploadCommands(pages, tail));
  }

  /** Reading a piece of the image back over the wire. */
  method Download(b: Bootloader, first: byte, b3: byte, b2: byte, b1: byte, b0: byte, high: byte, low: byte,
                  ghost image: seq<byte>)
    returns (answer: seq<byte>)
    requires b.Valid() && b.msgParseState == Start && image <= b.flash && (first == 1 || first == b.seqNum)
    requires 2 <= high * 256 + low <= 282 && low % 2 == 0
    requires 2 * (b3 * 0x100_0000 + b2 * 0x1_0000 + b1 * 0x100 + b0) + high * 256 + low <= |image|
    modifies b, b.msgBuffer
    ensures b.Valid() && b.msgParseState == Start && b.flash == old(b.flash)
    ensures var a, size := 2 * (b3 * 0x100_0000 + b2 * 0x1_0000 + b1 * 0x100 + b0), high * 256 + low;
            answer == Frame(Successor(first),
                            [0x14, 0x00] + image[a..a + size] + [0x00])
  {
    ghost var word, size := b3 * 0x100_0000 + b2 * 0x1_0000 + b1 * 0x100 + b0, high * 256 + low;
    ghost var d := b.Hardware();
    assert d.flash == image + d.flash[|image|..];
    LoadMeans(b3, b2, b1, b0);
    ReadMeans(high, low);
    var ready := Exchange(b, [], first, [CMD_LOAD_ADDRESS, b3, b2, b1, b0], LoadAddress(word));
    assert 2 * word / 2 == word;
    ReadBack(d, image, d.flash[|image|..], 2 * word, size);
    answer := Exchange(b, [], b.seqNum, [CMD_READ_FLASH_ISP, high, low], ReadFlash(size));
  }

  // ----- one exchange in numbers

  lemma MoreHalfXors()
    ensures XorBits(13, 1) == 12 && XorBits(12, 7) == 11 && XorBits(11, 9) == 2 && XorBits(2, 0) == 2
  {
    HalfXors();
  }

  lemma AnswerXors()
    ensures Xor(0x1A, 0x02) == 0x18 && Xor(0x18, 0x0E) == 0x16 && Xor(0x16, 0x12) == 0x04 && Xor(0x04, 0x00) == 0x04
  {
    HalfXors();
    MoreHalfXors();
  }

  /** The answer to CHIP_ERASE_ISP under the number 1. */
  lemma EraseAnswer(d: Device)
    requires Ok(d)
    ensures Frame(1, Reply(d, ChipErase)) == [0x1B, 0x01, 0x00, 0x02, 0x0E, 0x12, 0x00, 0x04]
  {
    HalfXors();
    MoreHalfXors();
    HeaderXors();
    AnswerXors();
    TwoByteFrame(0x1B, 0x01, 0x00, 0x02, 0x0E, 0x12, 0x00, [0x1A, 0x1A, 0x18, 0x16, 0x04, 0x04]);
  }

  lemma TwoByteFrame(a: byte, b: byte, c: byte, d: byte, e: byte, f: byte, g: byte, x: seq<byte>)
    requires Header(b, 2) == [a, b, c, d, e] && |x| == 6
    requires x[0] == Xor(a, b) && x[1] == Xor(x[0], c) && x[2] == Xor(x[1], d) && x[3] == Xor(x[2], e)
    requires x[4] == Xor(x[3], f) && x[5] == Xor(x[4], g)
    ensures Frame(b, [f, g]) == [a, b, c, d, e, f, g, x[5]]
  {
    HeaderChecksum(a, b, c, d, e);
    XorAllOne(x[3], f);
    assert [f, g][..1] == [f];
  }

  /** One exchange, byte for byte: seven bytes come in, eight go out, and the erase cursor is at 0. */
  method EraseOverTheLine(b: Bootloader) returns (answer: seq<byte>)
    requires b.Valid() && b.msgParseState == Start
    modifies b, b.msgBuffer
    ensures b.Valid() && b.Hardware() == old(b.Hardware()).(eraseAddress := 0) && b.seqNum == 2
    ensures answer == [0x1B, 0x01, 0x00, 0x02, 0x0E, 0x12, 0x00, 0x04]
  {
    EraseMeans();
    EraseFrame(b.Receiver());
    EraseAnswer(b.Hardware());
    assert [] + Frame(1, [0x12]) == Frame(1, [0x12]);
    answer := Exchange(b, [], 1, [0x12], ChipErase);
  }
}
