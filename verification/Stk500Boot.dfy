/**
  The bootloader's main loop: receive a message into the buffer, carry out the command found there,
  emit the answer from the same buffer.
*/
module Stk500Boot {
  import opened ByteOps
  import opened Stk500Frame
  import opened Stk500Flash

  const BUFFER_SIZE: nat := 285
  const CMD_LOAD_ADDRESS: byte := 0x06
  const CMD_CHIP_ERASE_ISP: byte := 0x12
  const CMD_PROGRAM_FLASH_ISP: byte := 0x13
  const CMD_READ_FLASH_ISP: byte := 0x14
  const STATUS_CMD_OK: byte := 0x00

  /** The receiver never stores more than the buffer holds. */
  predicate Fits(p: Parser, bytes: seq<byte>) {
    forall i :: 0 <= i < |bytes| ==>
      var q := ReceiveAll(p, bytes[..i]); q.state == GetData ==> |q.data| < BUFFER_SIZE
  }

  /** Two bytes, most significant first. */
  function Word(high: nat, low: nat): nat {
    high * 256 + low
  }

  function Size(buffer: seq<byte>): nat
    requires |buffer| == BUFFER_SIZE
  {
    Word(buffer[1], buffer[2])
  }

  /** The first byte selects a command that this model covers, with a size the buffer can hold. */
  predicate Covered(buffer: seq<byte>)
    requires |buffer| == BUFFER_SIZE
  {
    var c := buffer[0];
    c == CMD_CHIP_ERASE_ISP || c == CMD_LOAD_ADDRESS
    || (c == CMD_PROGRAM_FLASH_ISP && 2 <= Size(buffer) <= 274 && Size(buffer) % 2 == 0)
    || (c == CMD_READ_FLASH_ISP && 2 <= Size(buffer) <= 282 && Size(buffer) % 2 == 0)
  }

  function Decode(buffer: seq<byte>): (c: Command)
    requires |buffer| == BUFFER_SIZE && Covered(buffer)
    ensures WellFormed(c)
  {
    if buffer[0] == CMD_CHIP_ERASE_ISP then ChipErase
    else if buffer[0] == CMD_LOAD_ADDRESS then
      LoadAddress(Word(Word(Word(buffer[1], buffer[2]), buffer[3]), buffer[4]))
    else if buffer[0] == CMD_PROGRAM_FLASH_ISP then ProgramFlash(buffer[10..10 + Size(buffer)])
    else ReadFlash(Size(buffer))
  }

  /** A message that says by itself, whatever the rest of the buffer holds, what is to be done. */
  ghost predicate Complete(message: seq<byte>) {
    |message| <= BUFFER_SIZE && forall rest: seq<byte> :: |message + rest| == BUFFER_SIZE ==> Covered(message + rest)
  }

  /** The answer to a command. */
  function Answer(d: Device, buffer: seq<byte>): seq<byte>
    requires Ok(d) && |buffer| == BUFFER_SIZE && Covered(buffer)
  {
    if buffer[0] == CMD_READ_FLASH_ISP
    then [buffer[0], STATUS_CMD_OK] + ReadData(d, Size(buffer)) + [STATUS_CMD_OK]
    else [buffer[0], STATUS_CMD_OK]
  }

  class Bootloader {
    const msgBuffer: array<byte>
    var msgParseState: ParseState
    var seqNum: byte
    var msgLength: nat
    var checksum: byte
    var ii: nat
    var flash: seq<byte>
    var temp: seq<byte>
    var address: nat
    var eraseAddress: nat

    ghost predicate Valid()
      reads this
    {
      msgBuffer.Length == BUFFER_SIZE && ii <= BUFFER_SIZE && Ok(Hardware())
    }

    ghost function Receiver(): Parser
      reads this, msgBuffer
      requires ii <= msgBuffer.Length
    {
      Parser(msgParseState, seqNum, msgLength, checksum, msgBuffer[..ii])
    }

    ghost function Hardware(): Device
      reads this
    {
      Device(flash, temp, address, eraseAddress)
    }

    /** The receive state machine, one byte. */
    method ReceiveByte(c: byte)
      requires Valid() && (msgParseState == GetData ==> ii < BUFFER_SIZE)
      modifies this`msgParseState, this`seqNum, this`msgLength, this`checksum, this`ii, msgBuffer
      ensures Valid() && Receiver() == Receive(old(Receiver()), c)
    {
      match msgParseState
      case Start =>
        if c == MESSAGE_START {
          msgParseState := GetSeqNum;
          checksum := MESSAGE_START;
        }
      case GetSeqNum =>
        if c == 1 || c == seqNum {
          seqNum := c;
          msgParseState := MsgSize1;
          checksum := Xor(checksum, c);
        } else {
          msgParseState := Start;
        }
      case MsgSize1 =>
        msgLength := c * 256;
        msgParseState := MsgSize2;
        checksum := Xor(checksum, c);
      case MsgSize2 =>
        msgLength := msgLength + c;
        msgParseState := GetToken;
        checksum := Xor(checksum, c);
      case GetToken =>
        if c == TOKEN {
          msgParseState := GetData;
          checksum := Xor(checksum, c);
          ii := 0;
        } else {
          msgParseState := Start;
        }
      case GetData =>
        msgBuffer[ii] := c;
        ii := ii + 1;
        checksum := Xor(checksum, c);
        assert msgBuffer[..ii] == old(msgBuffer[..ii]) + [c];
        if ii == msgLength {
          msgParseState := GetCheck;
        }
      case GetCheck =>
        msgParseState := if c == checksum then Process else Start;
      case Process =>
    }

    /** Bytes arriving one after the other. */
    method ReceiveStream(bytes: seq<byte>)
      requires Valid() && Fits(Receiver(), bytes)
      modifies this`msgParseState, this`seqNum, this`msgLength, this`checksum, this`ii, msgBuffer
      ensures Valid() && Receiver() == ReceiveAll(old(Receiver()), bytes)
    {
      for i := 0 to |bytes|
        invariant Valid() && Receiver() == ReceiveAll(old(Receiver()), bytes[..i])
      {
        assert bytes[..i + 1] == bytes[..i] + [bytes[i]];
        ReceiveNext(old(Receiver()), bytes[..i], bytes[i]);
        ReceiveByte(bytes[i]);
      }
      assert bytes[..|bytes|] == bytes;
    }

    /** Fill the page buffer word by word; size is even and not 0, so the do-while loop ends at 0. */
    method FillPageBuffer(size: nat)
      requires Valid() && 2 <= size <= 274 && size % 2 == 0
      modifies this`temp, this`address
      ensures temp == FillWords(old(temp), old(address), msgBuffer[10..10 + size])
      ensures address == Advance(old(address), size)
    {
      ghost var temp0, a0, data := temp, address, msgBuffer[10..10 + size];
      var p := 10;
      var left := size;
      ghost var n, words := 0, size / 2;
      while left > 0
        invariant n == 2 * (size / 2 - words) && left == 2 * words && words >= 0 && p == 10 + n
        invariant |temp| == PAGE && temp == FillWords(temp0, a0, data[..n])
        invariant address == Advance(a0, n)
      {
        var lowByte, highByte := msgBuffer[p], msgBuffer[p + 1];
        assert lowByte == data[n] && highByte == data[n + 1];
        FillNext(temp0, a0, data, n);
        AdvanceMany(a0, n, 2);
        temp := FillWord(temp, address, lowByte, highByte);
        p := p + 2;
        address := Advance(address, 2);
        left := left - 2;
        n, words := n + 2, words - 1;
      }
      assert data[..size] == data;
    }

    /** PROGRAM_FLASH: erase the next page unless it belongs to the boot section, fill the page buffer,
        write it to the page where `address` was. */
    method ProgramFlashIsp(size: nat)
      requires Valid() && 2 <= size <= 274 && size % 2 == 0
      modifies this`flash, this`temp, this`address, this`eraseAddress
      ensures Valid()
      ensures Hardware() == Program(old(Hardware()), msgBuffer[10..10 + size])
    {
      ghost var d := Hardware();
      EraseNextOk(d);
      ExecuteOk(d, ProgramFlash(msgBuffer[10..10 + size]));
      var tempAddress := address;
      if eraseAddress < APP_END {
        flash := ErasePage(flash, eraseAddress);
        eraseAddress := eraseAddress + PAGE;
      }
      FillPageBuffer(size);
      flash := WritePage(flash, temp, tempAddress);
      temp := Blank();
    }

    /** One word read from program memory at `address`, which moves on. */
    method ReadWord() returns (low: byte, high: byte)
      requires Valid()
      modifies this`address
      ensures Valid() && address == Advance(old(address), 2)
      ensures low == flash[old(address) % FLASH_SIZE]
      ensures high == flash[(old(address) + 1) % ADDRESS_RANGE % FLASH_SIZE]
    {
      low := flash[address % FLASH_SIZE];
      high := flash[(address + 1) % ADDRESS_RANGE % FLASH_SIZE];
      address := (address + 2) % ADDRESS_RANGE;
    }

    /** The words of the answer, from the third byte of the buffer on. */
    method CopyWords(size: nat)
      requires Valid() && 2 <= size <= 282 && size % 2 == 0
      modifies this`address, msgBuffer
      ensures Valid() && address == Advance(old(address), size)
      ensures msgBuffer[2..2 + size] == ReadData(old(Hardware()), size)
      ensures msgBuffer[0] == old(msgBuffer[0]) && msgBuffer[1] == old(msgBuffer[1])
    {
      ghost var d, data := Hardware(), ReadData(Hardware(), size);
      var p := 2;
      var left := size;
      ghost var n, words := 0, size / 2;
      while left > 0
        invariant n == 2 * (size / 2 - words) && left == 2 * words && words >= 0 && p == 2 + n
        invariant address == Advance(d.address, n)
        invariant msgBuffer[0] == old(msgBuffer[0]) && msgBuffer[1] == old(msgBuffer[1])
        invariant msgBuffer[2..p] == data[..n]
      {
        ReadNext(d, size, n);
        AdvanceMany(d.address, n, 2);
        var low, high := ReadWord();
        msgBuffer[p] := low;
        msgBuffer[p + 1] := high;
        assert msgBuffer[2..p + 2] == msgBuffer[2..p] + [low, high];
        p := p + 2;
        left := left - 2;
        n, words := n + 2, words - 1;
      }
      assert data[..size] == data;
    }

    /** READ_FLASH: the answer overwrites the command in the buffer. */
    method ReadFlashIsp(size: nat)
      requires Valid() && 2 <= size <= 282 && size % 2 == 0
      modifies this`msgLength, this`address, msgBuffer
      ensures Valid() && Hardware() == old(Hardware()).(address := Advance(old(address), size))
      ensures msgLength == size + 3
      ensures msgBuffer[..msgLength] ==
              [old(msgBuffer[0]), STATUS_CMD_OK] + ReadData(old(Hardware()), size) + [STATUS_CMD_OK]
    {
      msgLength := size + 3;
      msgBuffer[1] := STATUS_CMD_OK;
      CopyWords(size);
      ghost var words := msgBuffer[2..2 + size];
      msgBuffer[2 + size] := STATUS_CMD_OK;
      assert msgBuffer[2..2 + size] == words;
      assert msgBuffer[..msgLength] == [msgBuffer[0], msgBuffer[1]] + msgBuffer[2..2 + size] + [msgBuffer[2 + size]];
    }

    /** The answer to a command that reports nothing but success. */
    method ReportOk()
      requires Valid()
      modifies this`msgLength, msgBuffer
      ensures Valid() && msgLength == 2 && msgBuffer[..2] == [old(msgBuffer[0]), STATUS_CMD_OK]
    {
      msgLength := 2;
      msgBuffer[1] := STATUS_CMD_OK;
    }

    method ChipEraseCommand()
      requires Valid() && msgBuffer[0] == CMD_CHIP_ERASE_ISP
      modifies this`msgLength, this`eraseAddress, msgBuffer
      ensures Valid() && msgLength == 2 && msgBuffer[..2] == [CMD_CHIP_ERASE_ISP, STATUS_CMD_OK]
      ensures Hardware() == Execute(old(Hardware()), Decode(old(msgBuffer[..])))
    {
      eraseAddress := 0;
      ReportOk();
    }

    method LoadAddressCommand()
      requires Valid() && msgBuffer[0] == CMD_LOAD_ADDRESS
      modifies this`msgLength, this`address, msgBuffer
      ensures Valid() && msgLength == 2 && msgBuffer[..2] == [CMD_LOAD_ADDRESS, STATUS_CMD_OK]
      ensures Hardware() == Execute(old(Hardware()), Decode(old(msgBuffer[..])))
    {
      address := Word(Word(Word(msgBuffer[1], msgBuffer[2]), msgBuffer[3]), msgBuffer[4]) * 2 % ADDRESS_RANGE;
      ReportOk();
    }

    method ProgramCommand()
      requires Valid() && msgBuffer[0] == CMD_PROGRAM_FLASH_ISP && Covered(msgBuffer[..])
      modifies this`msgLength, this`flash, this`temp, this`address, this`eraseAddress, msgBuffer
      ensures Valid() && msgLength == 2 && msgBuffer[..2] == [CMD_PROGRAM_FLASH_ISP, STATUS_CMD_OK]
      ensures Hardware() == Execute(old(Hardware()), Decode(old(msgBuffer[..])))
    {
      ghost var buffer, size := msgBuffer[..], Word(msgBuffer[1], msgBuffer[2]);
      assert buffer[10..10 + size] == msgBuffer[10..10 + size];
      ProgramFlashIsp(Word(msgBuffer[1], msgBuffer[2]));
      ReportOk();
    }

    method ReadCommand()
      requires Valid() && msgBuffer[0] == CMD_READ_FLASH_ISP && Covered(msgBuffer[..])
      modifies this`msgLength, this`address, msgBuffer
      ensures Valid() && msgLength <= BUFFER_SIZE
      ensures Hardware() == Execute(old(Hardware()), Decode(old(msgBuffer[..])))
      ensures msgBuffer[..msgLength] == Answer(old(Hardware()), old(msgBuffer[..]))
    {
      ReadFlashIsp(Word(msgBuffer[1], msgBuffer[2]));
    }

    /** Carry out the command in the buffer and leave the answer there. */
    method ProcessCommand()
      requires Valid() && Covered(msgBuffer[..])
      modifies this`msgLength, this`flash, this`temp, this`address, this`eraseAddress, msgBuffer
      ensures Valid() && msgLength <= BUFFER_SIZE
      ensures Hardware() == Execute(old(Hardware()), Decode(old(msgBuffer[..])))
      ensures msgBuffer[..msgLength] == Answer(old(Hardware()), old(msgBuffer[..]))
    {
      if msgBuffer[0] == CMD_CHIP_ERASE_ISP {
        ChipEraseCommand();
      } else if msgBuffer[0] == CMD_LOAD_ADDRESS {
        LoadAddressCommand();
      } else if msgBuffer[0] == CMD_PROGRAM_FLASH_ISP {
        ProgramCommand();
      } else {
        ReadCommand();
      }
    }

    /** The reply loop, and the sequence number for the next message. */
    method SendAnswer() returns (sent: seq<byte>)
      requires Valid() && msgLength <= BUFFER_SIZE
      modifies this`checksum, this`msgLength, this`seqNum
      ensures Valid() && sent == Frame(old(seqNum), old(msgBuffer[..msgLength]))
      ensures seqNum == (old(seqNum) + 1) % 256
    {
      ghost var payload := msgBuffer[..msgLength];
      ghost var header := Header(seqNum, msgLength);
      sent := [MESSAGE_START, seqNum, msgLength / 256, msgLength % 256, TOKEN];
      assert sent == header;
      ghost var expected := Checksum(seqNum, payload);
      checksum := Xor(Xor(Xor(Xor(MESSAGE_START, seqNum), msgLength / 256), msgLength % 256), TOKEN);
      HeaderChecksum(MESSAGE_START, seqNum, msgLength / 256, msgLength % 256, TOKEN);
      var p := 0;
      while msgLength > 0
        invariant 0 <= p <= |payload| && msgLength == |payload| - p && |payload| <= BUFFER_SIZE
        invariant sent == header + payload[..p] && seqNum == old(seqNum)
        invariant checksum == XorAll(XorAll(0, header), payload[..p])
      {
        var c := msgBuffer[p];
        assert payload[..p + 1] == payload[..p] + [c];
        assert payload[..p + 1][..p] == payload[..p];
        sent := sent + [c];
        checksum := Xor(checksum, c);
        p := p + 1;
        msgLength := msgLength - 1;
      }
      assert payload[..p] == payload;
      assert checksum == expected;
      sent := sent + [checksum];
      seqNum := (seqNum + 1) % 256;
    }

    /** The command in the buffer is carried out and answered, and the next message is awaited. */
    method Respond() returns (sent: seq<byte>)
      requires Valid() && Covered(msgBuffer[..])
      modifies this, msgBuffer
      ensures Valid() && msgParseState == Start && seqNum == (old(seqNum) + 1) % 256
      ensures Hardware() == Execute(old(Hardware()), Decode(old(msgBuffer[..])))
      ensures var answer := Answer(old(Hardware()), old(msgBuffer[..]));
              |answer| <= BUFFER_SIZE && sent == Frame(old(seqNum), answer)
    {
      ProcessCommand();
      sent := SendAnswer();
      msgParseState := Start;
    }

    /** One pass of the main loop: a message comes in, its command is carried out, the answer goes out
        with the message's sequence number, and the next number is expected. */
    method MainLoopPass(bytes: seq<byte>) returns (sent: seq<byte>, ghost buffer: seq<byte>)
      requires Valid() && Fits(Receiver(), bytes)
      requires var p := ReceiveAll(Receiver(), bytes); p.state == Process && Complete(p.data)
      modifies this, msgBuffer
      ensures Valid() && msgParseState == Start && |buffer| == BUFFER_SIZE && Covered(buffer)
      ensures var p := ReceiveAll(old(Receiver()), bytes);
              p.data <= buffer && seqNum == (p.seqNum + 1) % 256 &&
              Hardware() == Execute(old(Hardware()), Decode(buffer)) &&
              var answer := Answer(old(Hardware()), buffer);
              |answer| <= BUFFER_SIZE && sent == Frame(p.seqNum, answer)
    {
      ReceiveStream(bytes);
      buffer := msgBuffer[..];
      assert buffer == msgBuffer[..ii] + msgBuffer[ii..];
      sent := Respond();
    }
  }

  // ----- the messages of a programming session, in numbers

  lemma ChipEraseMessage(rest: seq<byte>)
    requires 1 + |rest| == 285
    ensures Covered([0x12] + rest) && Decode([0x12] + rest) == ChipErase
  {
  }

  /** The word address travels most significant byte first. */
  lemma LoadAddressMessage(b3: byte, b2: byte, b1: byte, b0: byte, rest: seq<byte>)
    requires 5 + |rest| == 285
    ensures var buffer := [0x06, b3, b2, b1, b0] + rest;
            Covered(buffer) && Decode(buffer) == LoadAddress(b3 * 0x100_0000 + b2 * 0x1_0000 + b1 * 0x100 + b0)
  {
  }

  /** A block of data travels behind ten bytes of which only command and size matter. */
  lemma ProgramMessage(filler: seq<byte>, block: seq<byte>, rest: seq<byte>)
    requires |filler| == 7 && 2 <= |block| <= 274 && |block| % 2 == 0 && 10 + |block| + |rest| == 285
    ensures var buffer := [0x13, |block| / 256, |block| % 256] + filler + block + rest;
            Covered(buffer) && Decode(buffer) == ProgramFlash(block)
  {
    var buffer := [0x13, |block| / 256, |block| % 256] + filler + block + rest;
    assert Size(buffer) == |block|;
    assert buffer[10..10 + |block|] == block;
  }

  lemma ReadFlashMessage(high: byte, low: byte, rest: seq<byte>)
    requires 2 <= high * 256 + low <= 282 && low % 2 == 0 && 3 + |rest| == 285
    ensures Covered([0x14, high, low] + rest) && Decode([0x14, high, low] + rest) == ReadFlash(high * 256 + low)
  {
  }

  lemma AdvanceMany(a: nat, m: nat, n: nat)
    ensures Advance(Advance(a, m), n) == Advance(a, m + n)
  {
    var q, r := (a + m) / ADDRESS_RANGE, (a + m) % ADDRESS_RANGE;
    assert a + m + n == q * ADDRESS_RANGE + (r + n);
  }

  lemma AdvanceTwo(a: nat, n: nat)
    ensures (Advance(a, n) + 2) % ADDRESS_RANGE == Advance(a, n + 2)
    ensures (Advance(a, n) + 1) % ADDRESS_RANGE == Advance(a, n + 1)
  {
    AdvanceMany(a, n, 2);
    AdvanceMany(a, n, 1);
  }

  /** The address range is a whole number of pages. */
  lemma PageOffset(a: nat, n: nat)
    ensures Advance(a, n) % PAGE == (a + n) % PAGE
  {
    var q, r := (a + n) / ADDRESS_RANGE, (a + n) % ADDRESS_RANGE;
    assert a + n == q * 0x100_0000 * PAGE + r;
  }

  lemma FillNext(temp: seq<byte>, a: nat, data: seq<byte>, n: nat)
    requires |temp| == PAGE && n + 2 <= |data|
    ensures FillWords(temp, a, data[..n + 2]) ==
            FillWord(FillWords(temp, a, data[..n]), Advance(a, n), data[n], data[n + 1])
  {
    assert data[..n + 2][..n] == data[..n];
    PageOffset(a, n);
    SameWord(FillWords(temp, a, data[..n]), a + n, Advance(a, n), data[n], data[n + 1]);
  }

  lemma SameWord(temp: seq<byte>, x: nat, y: nat, low: byte, high: byte)
    requires |temp| == PAGE && x % PAGE == y % PAGE
    ensures FillWord(temp, x, low, high) == FillWord(temp, y, low, high)
  {
  }

  lemma ReadNext(d: Device, size: nat, n: nat)
    requires Ok(d) && n + 2 <= size
    ensures var a := Advance(d.address, n);
            ReadData(d, size)[..n + 2] ==
            ReadData(d, size)[..n] + [d.flash[a % FLASH_SIZE], d.flash[(a + 1) % ADDRESS_RANGE % FLASH_SIZE]]
  {
    AdvanceTwo(d.address, n);
  }

  /** A frame with 1 to 285 payload bytes never overruns the buffer. */
  lemma FrameFits(p: Parser, seqNum: byte, payload: seq<byte>)
    requires p.state == Start && (seqNum == 1 || seqNum == p.seqNum) && 1 <= |payload| <= BUFFER_SIZE
    ensures Fits(p, Frame(seqNum, payload))
  {
    var header := Header(seqNum, |payload|);
    var frame := Frame(seqNum, payload);
    HeaderAccepted(p, seqNum, |payload|);
    forall i | 0 <= i < |frame|
      ensures var q := ReceiveAll(p, frame[..i]); q.state == GetData ==> |q.data| < BUFFER_SIZE
    {
      if i < 5 {
        assert frame[..i] == header[..i];
        NotYetData(p, header, i);
      } else if i <= 5 + |payload| {
        assert frame[..i] == header + payload[..i - 5];
        ReceiveConcat(p, header, payload[..i - 5]);
        DataReceived(ReceiveAll(p, header), payload[..i - 5]);
      }
    }
  }

  /** A receiver reaches the data state after five bytes at the earliest. */
  lemma {:induction false} NotYetData(p: Parser, bytes: seq<byte>, i: nat)
    requires p.state == Start && i <= |bytes| && i < 5
    ensures var s := ReceiveAll(p, bytes[..i]).state;
            s == Start || (s == GetSeqNum && i >= 1) || (s == MsgSize1 && i >= 2)
            || (s == MsgSize2 && i >= 3) || (s == GetToken && i >= 4)
  {
    if i > 0 {
      NotYetData(p, bytes, i - 1);
      assert bytes[..i] == bytes[..i - 1] + [bytes[i - 1]];
      ReceiveNext(p, bytes[..i - 1], bytes[i - 1]);
    }
  }
}
