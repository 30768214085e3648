/**
  The host's verify pass: the address once, then READ_FLASH after READ_FLASH, each from where the last
  one ended.
*/
module Stk500Verify {
  import opened ByteOps
  import opened Stk500Frame
  import opened Stk500Flash
  import opened Stk500Boot
  import opened Stk500Session

  predicate ReadSize(size: nat) {
    2 <= size <= 282 && size % 2 == 0
  }

  predicate ReadSizes(sizes: seq<nat>) {
    forall i :: 0 <= i < |sizes| ==> ReadSize(sizes[i])
  }

  /** The first n sizes together. */
  function Total(sizes: seq<nat>, n: nat): nat
    requires n <= |sizes|
  {
    if n == 0 then 0 else Total(sizes, n - 1) + sizes[n - 1]
  }

  function LoadMessage(word: nat): seq<byte>
    requires word < ADDRESS_RANGE
  {
    [CMD_LOAD_ADDRESS, word / 256 / 256 / 256, word / 256 / 256 % 256, word / 256 % 256, word % 256]
  }

  function ReadMessage(size: nat): seq<byte>
    requires size < 0x1_0000
  {
    [CMD_READ_FLASH_ISP, size / 256, size % 256]
  }

  /** The data of an answer to READ_FLASH: behind five bytes of header, the command and its status, and
      before the second status and the checksum. */
  function Piece(answer: seq<byte>): seq<byte> {
    if |answer| < 9 then [] else answer[7..|answer| - 2]
  }

  lemma LoadMessageMeans(word: nat)
    requires word < ADDRESS_RANGE
    ensures Means(LoadMessage(word), LoadAddress(word))
  {
    var x, y := word / 256, word / 256 / 256;
    assert word == x * 256 + word % 256 && x == y * 256 + x % 256 && y == y / 256 * 256 + y % 256;
    LoadMeans(y / 256, y % 256, x % 256, word % 256);
  }

  lemma ReadMessageMeans(size: nat)
    requires ReadSize(size)
    ensures Means(ReadMessage(size), ReadFlash(size))
  {
    assert size == size / 256 * 256 + size % 256;
    ReadMeans(size / 256, size % 256);
  }

  lemma PieceOfAnswer(number: byte, data: seq<byte>)
    requires 2 <= |data| <= 282
    ensures Piece(Frame(number, [CMD_READ_FLASH_ISP, STATUS_CMD_OK] + data + [STATUS_CMD_OK])) == data
  {
  }

  lemma DataAt(d: Device, size: nat)
    requires Ok(d) && d.address + size <= FLASH_SIZE
    ensures ReadData(d, size) == d.flash[d.address..d.address + size]
  {
    forall i | 0 <= i < size ensures Advance(d.address, i) % FLASH_SIZE == d.address + i {}
  }

  lemma AnswerData(d: Device, size: nat, number: byte)
    requires Ok(d) && ReadSize(size) && d.address + size <= FLASH_SIZE
    ensures Piece(Frame(number, Reply(d, ReadFlash(size)))) == d.flash[d.address..d.address + size]
  {
    DataAt(d, size);
    PieceOfAnswer(number, d.flash[d.address..d.address + size]);
  }

  lemma ReadMoves(d: Device, size: nat)
    requires Ok(d) && ReadSize(size) && d.address + size <= FLASH_SIZE
    ensures Execute(d, ReadFlash(size)) == d.(address := d.address + size)
  {
  }

  /** The next piece: READ_FLASH under the expected number, and the data of its answer. */
  method ReadPiece(b: Bootloader, noise: seq<byte>, size: nat) returns (data: seq<byte>)
    requires b.Valid() && b.msgParseState == Start && Noise(noise)
    requires ReadSize(size) && b.address + size <= FLASH_SIZE
    modifies b, b.msgBuffer
    ensures b.Valid() && b.msgParseState == Start && b.seqNum == Successor(old(b.seqNum))
    ensures b.Hardware() == old(b.Hardware()).(address := old(b.address) + size)
    ensures data == b.flash[old(b.address)..b.address]
  {
    ReadMessageMeans(size);
    AnswerData(b.Hardware(), size, b.seqNum);
    ReadMoves(b.Hardware(), size);
    var answer := Exchange(b, noise, b.seqNum, ReadMessage(size), ReadFlash(size));
    data := Piece(answer);
  }

  lemma Joined(flash: seq<byte>, a: nat, b: nat, c: nat)
    requires a <= b <= c <= |flash|
    ensures flash[a..b] + flash[b..c] == flash[a..c]
  {
  }

  /** The address has come to `end`, nothing else has changed, and the data are those from `a` to there. */
  predicate ReadSoFar(d: Device, now: Device, a: nat, end: nat, data: seq<byte>)
    requires |d.flash| == FLASH_SIZE
  {
    a <= end <= FLASH_SIZE && now == d.(address := end) && data == d.flash[a..end]
  }

  method ReadOn(b: Bootloader, noise: seq<byte>, size: nat, ghost d: Device, ghost a: nat, data: seq<byte>)
    returns (more: seq<byte>)
    requires b.Valid() && b.msgParseState == Start && Noise(noise) && ReadSize(size)
    requires |d.flash| == FLASH_SIZE && ReadSoFar(d, b.Hardware(), a, b.address, data)
    requires b.address + size <= FLASH_SIZE
    modifies b, b.msgBuffer
    ensures b.Valid() && b.msgParseState == Start
    ensures ReadSoFar(d, b.Hardware(), a, old(b.address) + size, more)
  {
    Joined(d.flash, a, b.address, b.address + size);
    var piece := ReadPiece(b, noise, size);
    more := data + piece;
  }

  lemma {:induction false} TotalMonotone(sizes: seq<nat>, m: nat, n: nat)
    requires m <= n <= |sizes|
    ensures Total(sizes, m) <= Total(sizes, n)
  {
    if m < n { TotalMonotone(sizes, m, n - 1); }
  }

  /** The verify pass over the wire: the data of the answers, put together, is what is in the flash from
      the loaded address on, however it is cut into pieces. */
  method VerifyPass(b: Bootloader, first: byte, noises: seq<seq<byte>>, word: nat, sizes: seq<nat>)
    returns (data: seq<byte>)
    requires b.Valid() && b.msgParseState == Start && (first == 1 || first == b.seqNum)
    requires ReadSizes(sizes) && 2 * word + Total(sizes, |sizes|) <= FLASH_SIZE
    requires |noises| == |sizes| + 1 && forall i :: 0 <= i < |noises| ==> Noise(noises[i])
    modifies b, b.msgBuffer
    ensures b.Valid() && b.msgParseState == Start
    ensures b.Hardware() == old(b.Hardware()).(address := 2 * word + Total(sizes, |sizes|))
    ensures data == b.flash[2 * word..2 * word + Total(sizes, |sizes|)]
  {
    ghost var d := b.Hardware();
    LoadMessageMeans(word);
    var ready := Exchange(b, noises[0], first, LoadMessage(word), LoadAddress(word));
    data := [];
    for n := 0 to |sizes|
      invariant b.Valid() && b.msgParseState == Start
      invariant ReadSoFar(d, b.Hardware(), 2 * word, 2 * word + Total(sizes, n), data)
    {
      TotalMonotone(sizes, n + 1, |sizes|);
      data := ReadOn(b, noises[n + 1], sizes[n], d, 2 * word, data);
    }
  }
}
