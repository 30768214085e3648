/**
  Flash programming by the bootloader, as a value: the flash, the page buffer, and the two cursors
  `address` and `eraseAddress` that the commands move independently.

  Erasing sets a page to 0xFF; writing a page can only clear bits.
*/
module Stk500Flash {
  import opened ByteOps

  // The ATmega256RFR2: 256 KiB of flash in pages of 256 bytes.
  const PAGE: nat := 256
  const FLASH_SIZE: nat := 0x4_0000
  const BOOTSIZE: nat := 8192
  const APP_END: nat := FLASH_SIZE - 2 * BOOTSIZE
  const ADDRESS_RANGE: nat := 0x1_0000_0000

  datatype Device = Device(flash: seq<byte>, temp: seq<byte>, address: nat, eraseAddress: nat)

  /** Sizes, and the invariant that every command keeps: the page buffer is erased between commands. */
  predicate Ok(d: Device) {
    && |d.flash| == FLASH_SIZE && d.temp == Blank()
    && d.address < ADDRESS_RANGE
    && d.eraseAddress % PAGE == 0 && d.eraseAddress <= APP_END
  }

  /** Where the page that contains an address begins.  The flash ignores address bits above its size. */
  function PageBase(a: nat): (base: nat)
    ensures base % PAGE == 0 && base <= a % FLASH_SIZE < base + PAGE <= FLASH_SIZE
    ensures a % PAGE == 0 && a < FLASH_SIZE ==> base == a
  {
    a % FLASH_SIZE / PAGE * PAGE
  }

  function ErasePage(flash: seq<byte>, a: nat): (r: seq<byte>)
    requires |flash| == FLASH_SIZE
    ensures |r| == |flash|
  {
    flash[..PageBase(a)] + Blank() + flash[PageBase(a) + PAGE..]
  }

  function AndSeq(a: seq<byte>, b: seq<byte>): (r: seq<byte>)
    requires |a| == |b|
    ensures |r| == |a|
  {
    seq(|a|, i requires 0 <= i < |a| => And(a[i], b[i]))
  }

  function WritePage(flash: seq<byte>, temp: seq<byte>, a: nat): (r: seq<byte>)
    requires |temp| == PAGE && |flash| == FLASH_SIZE
    ensures |r| == |flash|
  {
    var base := PageBase(a);
    flash[..base] + AndSeq(flash[base..base + PAGE], temp) + flash[base + PAGE..]
  }

  function Blank(): (temp: seq<byte>)
    ensures |temp| == PAGE
  {
    seq(PAGE, i => 255)
  }

  /** One word into the page buffer, which ignores the lowest address bit. */
  function FillWord(temp: seq<byte>, a: nat, low: byte, high: byte): (r: seq<byte>)
    requires |temp| == PAGE
    ensures |r| == PAGE
  {
    var i := a % PAGE / 2 * 2;
    temp[i := low][i + 1 := high]
  }

  /** The data bytes of one command, word by word. */
  function FillWords(temp: seq<byte>, a: nat, data: seq<byte>): (r: seq<byte>)
    requires |temp| == PAGE
    ensures |r| == PAGE
  {
    if |data| < 2 then temp
    else
      var n := |data| - 2;
      FillWord(FillWords(temp, a, data[..n]), a + n, data[n], data[n + 1])
  }

  function Advance(a: nat, n: nat): nat {
    (a + n) % ADDRESS_RANGE
  }

  // ----- the commands

  datatype Command =
    | ChipErase
    | LoadAddress(word: nat)
    | ProgramFlash(data: seq<byte>)
    | ReadFlash(size: nat)
    | Other(address: nat)

  /** The size of PROGRAM_FLASH is a 16-bit count of bytes, where 0 stands for 65536 and an odd one would
      never be used up; whatever the bytes are that it covers, in the message and behind it.  The size of
      READ_FLASH is one whose answer the message buffer can hold. */
  predicate WellFormed(c: Command) {
    match c
    case ProgramFlash(data) => 2 <= |data| <= 0x1_0000 && |data| % 2 == 0
    case ReadFlash(size) => 2 <= size <= 282 && size % 2 == 0
    case Other(address) => address < ADDRESS_RANGE
    case LoadAddress(word) => word < ADDRESS_RANGE
    case ChipErase => true
  }

  /** The erase that each PROGRAM_FLASH performs first, bounded by the boot section. */
  function EraseNext(d: Device): Device
    requires Ok(d)
  {
    if d.eraseAddress < APP_END
    then d.(flash := ErasePage(d.flash, d.eraseAddress), eraseAddress := d.eraseAddress + PAGE)
    else d
  }

  function Program(d: Device, data: seq<byte>): Device
    requires Ok(d) && |data| % 2 == 0
  {
    var e := EraseNext(d);
    var temp := FillWords(d.temp, d.address, data);
    e.(flash := WritePage(e.flash, temp, d.address), temp := Blank(), address := Advance(d.address, |data|))
  }

  function ReadData(d: Device, size: nat): (data: seq<byte>)
    requires Ok(d)
    ensures |data| == size
  {
    seq(size, i requires 0 <= i => d.flash[Advance(d.address, i) % FLASH_SIZE])
  }

  /** What a command does to the device.  The commands that are not modelled leave flash and erase cursor
      alone; some use `address` for a number of their own, which may be any. */
  function Execute(d: Device, c: Command): Device
    requires Ok(d) && WellFormed(c)
  {
    match c
    case ChipErase => d.(eraseAddress := 0)
    case LoadAddress(word) => d.(address := word * 2 % ADDRESS_RANGE)
    case ProgramFlash(data) => Program(d, data)
    case ReadFlash(size) => d.(address := Advance(d.address, size))
    case Other(address) => d.(address := address)
  }

  lemma EraseNextOk(d: Device)
    requires Ok(d)
    ensures Ok(EraseNext(d))
    ensures forall i :: APP_END <= i < FLASH_SIZE ==> EraseNext(d).flash[i] == d.flash[i]
  {
    if d.eraseAddress < APP_END { assert d.eraseAddress + PAGE <= APP_END; }
  }

  lemma ExecuteOk(d: Device, c: Command)
    requires Ok(d) && WellFormed(c)
    ensures Ok(Execute(d, c))
  {
    EraseNextOk(d);
  }

  predicate AllWellFormed(cs: seq<Command>) {
    forall i :: 0 <= i < |cs| ==> WellFormed(cs[i])
  }

  function ExecuteAll(d: Device, cs: seq<Command>): (r: Device)
    requires Ok(d) && AllWellFormed(cs)
    ensures Ok(r)
  {
    if cs == [] then d
    else
      var e := ExecuteAll(d, cs[..|cs| - 1]);
      ExecuteOk(e, cs[|cs| - 1]);
      Execute(e, cs[|cs| - 1])
  }

  lemma OneCommand(d: Device, c: Command)
    requires Ok(d) && WellFormed(c)
    ensures AllWellFormed([c]) && ExecuteAll(d, [c]) == Execute(d, c)
  {
    assert [c][..0] == [];
  }

  // ----- arbitrary command sequences

  /** No cell at or above APP_END gains a bit: that part of the flash is never erased. */
  predicate Protected(before: seq<byte>, after: seq<byte>)
    requires |before| == |after| == FLASH_SIZE
  {
    forall i :: APP_END <= i < FLASH_SIZE ==> OnlyClears(before[i], after[i])
  }

  lemma ProtectedSame(before: seq<byte>, after: seq<byte>)
    requires |before| == |after| == FLASH_SIZE && forall i :: APP_END <= i < FLASH_SIZE ==> after[i] == before[i]
    ensures Protected(before, after)
  {
    forall i | APP_END <= i < FLASH_SIZE ensures OnlyClears(before[i], after[i]) { OnlyClearsReflexive(before[i]); }
  }

  lemma ProtectedTransitive(a: seq<byte>, b: seq<byte>, c: seq<byte>)
    requires |a| == |b| == |c| == FLASH_SIZE && Protected(a, b) && Protected(b, c)
    ensures Protected(a, c)
  {
    forall i | APP_END <= i < FLASH_SIZE ensures OnlyClears(a[i], c[i]) { OnlyClearsTransitive(a[i], b[i], c[i]); }
  }

  lemma WritePageOnlyClears(flash: seq<byte>, temp: seq<byte>, a: nat, i: nat)
    requires |temp| == PAGE && |flash| == FLASH_SIZE && i < FLASH_SIZE
    ensures OnlyClears(flash[i], WritePage(flash, temp, a)[i])
  {
    OnlyClearsReflexive(flash[i]);
    var base := PageBase(a);
    if base <= i < base + PAGE { AndOnlyClears(flash[i], temp[i - base]); }
  }

  lemma ExecuteProtects(d: Device, c: Command)
    requires Ok(d) && WellFormed(c)
    ensures Ok(Execute(d, c)) && Protected(d.flash, Execute(d, c).flash)
  {
    ExecuteOk(d, c);
    if c.ProgramFlash? {
      EraseNextOk(d);
      var e := EraseNext(d);
      ProtectedSame(d.flash, e.flash);
      forall i | APP_END <= i < FLASH_SIZE ensures OnlyClears(e.flash[i], Program(d, c.data).flash[i]) {
        WritePageOnlyClears(e.flash, FillWords(d.temp, d.address, c.data), d.address, i);
      }
      ProtectedTransitive(d.flash, e.flash, Program(d, c.data).flash);
    } else {
      ProtectedSame(d.flash, d.flash);
    }
  }

  /** Whatever commands arrive in whatever order, `eraseAddress` stays page-aligned and no page of
      the boot section is ever erased. */
  lemma {:induction false} BootSectionNeverErased(d: Device, cs: seq<Command>)
    requires Ok(d) && AllWellFormed(cs)
    ensures var r := ExecuteAll(d, cs);
            r.eraseAddress % PAGE == 0 && r.eraseAddress <= APP_END && Protected(d.flash, r.flash)
  {
    if cs == [] {
      ProtectedSame(d.flash, d.flash);
    } else {
      var m := |cs| - 1;
      var e := ExecuteAll(d, cs[..m]);
      BootSectionNeverErased(d, cs[..m]);
      ExecuteProtects(e, cs[m]);
      ProtectedTransitive(d.flash, e.flash, Execute(e, cs[m]).flash);
    }
  }

  /** No bit of `after` is 1 where `before` has 0. */
  predicate NoBitSet(before: byte, after: byte) {
    forall k :: 0 <= k < 8 ==> Bit(after, k) == 1 ==> Bit(before, k) == 1
  }

  lemma OnlyClearsBits(before: byte, after: byte)
    requires OnlyClears(before, after)
    ensures NoBitSet(before, after)
  {
    forall k | 0 <= k < 8 && Bit(after, k) == 1 ensures Bit(before, k) == 1 { AndByBit(before, after, k); }
  }

  /** In numbers, for a chip with 0x40000 bytes of flash whose boot section is the last 0x4000: no command
      sequence moves the erase cursor past 0x3C000 or sets a bit behind it. */
  lemma BootSectionInNumbers(d: Device, cs: seq<Command>)
    requires Ok(d) && AllWellFormed(cs)
    ensures var r := ExecuteAll(d, cs);
            r.eraseAddress <= 0x3_C000 && |d.flash| == |r.flash| == 0x4_0000 &&
            forall i :: 0x3_C000 <= i < 0x4_0000 ==> NoBitSet(d.flash[i], r.flash[i])
  {
    BootSectionNeverErased(d, cs);
    var r := ExecuteAll(d, cs);
    forall i | 0x3_C000 <= i < 0x4_0000 ensures NoBitSet(d.flash[i], r.flash[i]) {
      OnlyClearsBits(d.flash[i], r.flash[i]);
    }
  }

  // ----- one block of data

  lemma WordOffset(a: nat, o: nat, m: nat)
    requires a % PAGE == o && o % 2 == 0 && m % 2 == 0 && o + m < PAGE
    ensures (a + m) % PAGE / 2 * 2 == o + m
  {
    assert (a + m) % PAGE == o + m;
  }

  lemma FillWordNext(data: seq<byte>, a: nat, o: nat, m: nat)
    requires a % PAGE == o && o % 2 == 0 && m % 2 == 0 && m + 2 <= |data| && o + |data| <= PAGE
    ensures FillWord(Blank()[..o] + data[..m] + Blank()[o + m..], a + m, data[m], data[m + 1]) ==
            Blank()[..o] + data[..m + 2] + Blank()[o + m + 2..]
  {
    WordOffset(a, o, m);
    var temp: seq<byte> := Blank()[..o] + data[..m] + Blank()[o + m..];
    var next: seq<byte> := Blank()[..o] + data[..m + 2] + Blank()[o + m + 2..];
    assert next == temp[o + m := data[m]][o + m + 1 := data[m + 1]];
  }

  lemma {:induction false} FillPrefix(a: nat, o: nat, data: seq<byte>, n: nat)
    requires a % PAGE == o && o % 2 == 0 && n % 2 == 0 && n <= |data| && o + |data| <= PAGE
    ensures FillWords(Blank(), a, data[..n]) == Blank()[..o] + data[..n] + Blank()[o + n..]
  {
    if n > 0 {
      var m := n - 2;
      FillPrefix(a, o, data, m);
      assert data[..n][..m] == data[..m];
      FillWordNext(data, a, o, m);
    } else {
      assert data[..0] == [];
    }
  }

  /** A block inside one page, at an even address. */
  predicate InsidePage(d: Device, data: seq<byte>) {
    && d.address % 2 == 0 && d.address < FLASH_SIZE
    && 2 <= |data| && |data| % 2 == 0 && d.address % PAGE + |data| <= PAGE
  }

  lemma EvenOffset(a: nat)
    requires a % 2 == 0
    ensures a % PAGE % 2 == 0
  {
    var q := a / PAGE;
    assert a == q * PAGE + a % PAGE;
  }

  /** Each word goes to its place in the erased page buffer once, and the rest stays erased. */
  lemma {:induction false} FillBlock(a: nat, data: seq<byte>)
    requires a % 2 == 0 && |data| % 2 == 0 && a % PAGE + |data| <= PAGE
    ensures var o := a % PAGE;
            FillWords(Blank(), a, data) == Blank()[..o] + data + Blank()[o + |data|..]
  {
    EvenOffset(a);
    FillPrefix(a, a % PAGE, data, |data|);
    assert data[..|data|] == data;
  }

  /** Whatever its size, PROGRAM_FLASH writes to the page of its first byte only: words beyond the end of
      that page go astray within it. */
  lemma WritesOnePage(d: Device, data: seq<byte>, j: nat)
    requires Ok(d) && |data| % 2 == 0 && j < FLASH_SIZE
    requires j < PageBase(d.address) || PageBase(d.address) + PAGE <= j
    ensures Program(d, data).flash[j] == EraseNext(d).flash[j]
  {
  }

  lemma BlockAt(o: nat, data: seq<byte>, i: nat)
    requires o + |data| <= PAGE && i < PAGE
    ensures (Blank()[..o] + data + Blank()[o + |data|..])[i] == if o <= i < o + |data| then data[i - o] else 255
  {
  }

  lemma WrittenCell(flash: seq<byte>, temp: seq<byte>, a: nat, j: nat)
    requires |flash| == FLASH_SIZE && |temp| == PAGE && PageBase(a) <= j < PageBase(a) + PAGE
    ensures WritePage(flash, temp, a)[j] == And(flash[j], temp[j - PageBase(a)])
  {
  }

  lemma AtOffset(a: nat)
    requires a < FLASH_SIZE
    ensures PageBase(a) + a % PAGE == a
  {
  }

  lemma FilledCell(a: nat, data: seq<byte>, j: nat)
    requires a % 2 == 0 && |data| % 2 == 0 && a % PAGE + |data| <= PAGE && a < FLASH_SIZE
    requires PageBase(a) <= j < PageBase(a) + PAGE
    ensures FillWords(Blank(), a, data)[j - PageBase(a)] == if a <= j < a + |data| then data[j - a] else 255
  {
    AtOffset(a);
    FillBlock(a, data);
    BlockAt(a % PAGE, data, j - PageBase(a));
  }

  /** The cells of the page that is written. */
  lemma ProgramCell(d: Device, data: seq<byte>, j: nat)
    requires Ok(d) && InsidePage(d, data) && PageBase(d.address) <= j < PageBase(d.address) + PAGE
    ensures var e := EraseNext(d).flash;
            Program(d, data).flash[j] ==
              if d.address <= j < d.address + |data| then And(e[j], data[j - d.address]) else e[j]
  {
    var e := EraseNext(d).flash;
    FilledCell(d.address, data, j);
    WrittenCell(e, FillWords(d.temp, d.address, data), d.address, j);
    AndOnesRight(e[j]);
  }

  /** The command's own erase hits the page that it writes. */
  predicate EraseHits(d: Device) {
    d.eraseAddress == PageBase(d.address) && d.eraseAddress < APP_END
  }

  lemma ErasedCell(d: Device, j: nat)
    requires Ok(d) && d.address < FLASH_SIZE && PageBase(d.address) <= j < PageBase(d.address) + PAGE
    ensures EraseNext(d).flash[j] == if EraseHits(d) then 255 else d.flash[j]
  {
    var a, b := PageBase(d.address), d.eraseAddress;
    if b < APP_END && a != b { assert a + PAGE <= b || b + PAGE <= a; }
  }

  lemma RightByteIff(hit: bool, before: byte, erased: byte, c: byte)
    requires erased == if hit then 255 else before
    ensures And(erased, c) == c <==> hit || OnlyClears(before, c)
  {
    AndOnes(c);
  }

  /** When a cell of the block holds the byte that was sent. */
  lemma BlockCell(d: Device, data: seq<byte>, i: nat)
    requires Ok(d) && InsidePage(d, data) && i < |data|
    ensures d.address + i < FLASH_SIZE
    ensures Program(d, data).flash[d.address + i] == data[i] <==>
            EraseHits(d) || OnlyClears(d.flash[d.address + i], data[i])
  {
    AtOffset(d.address);
    var j := d.address + i;
    ProgramCell(d, data, j);
    ErasedCell(d, j);
    RightByteIff(EraseHits(d), d.flash[j], EraseNext(d).flash[j], data[i]);
  }

  /** Programming a block inside a page succeeds if and only if the command's own erase hits that page, or
      no bit has to be set. */
  lemma ProgramBlockIff(d: Device, data: seq<byte>)
    requires Ok(d) && InsidePage(d, data)
    ensures d.address + |data| <= FLASH_SIZE
    ensures Program(d, data).flash[d.address..d.address + |data|] == data <==>
            EraseHits(d) || forall i :: 0 <= i < |data| ==> OnlyClears(d.flash[d.address + i], data[i])
  {
    AtOffset(d.address);
    var a, r := d.address, Program(d, data).flash;
    forall i | 0 <= i < |data|
      ensures r[a..a + |data|][i] == data[i] <==> EraseHits(d) || OnlyClears(d.flash[a + i], data[i])
    {
      BlockCell(d, data, i);
    }
  }

  /** A program that is loaded to the second page first: its erase hits the first page. */
  lemma UnerasedPage()
    ensures var zeros := seq(FLASH_SIZE, i => 0);
            var d := Device(zeros, Blank(), 0, 0);
            var e := Execute(Execute(d, ChipErase), LoadAddress(PAGE / 2));
            Ok(d) && Ok(e) && InsidePage(e, Blank()) &&
            Execute(e, ProgramFlash(Blank())).flash[PAGE..2 * PAGE] != Blank()
  {
    var zeros := seq(FLASH_SIZE, i => 0);
    var d := Device(zeros, Blank(), 0, 0);
    var e := Execute(Execute(d, ChipErase), LoadAddress(PAGE / 2));
    assert e == d.(address := PAGE);
    BlockCell(e, Blank(), 0);
    ZeroClears();
    assert Execute(e, ProgramFlash(Blank())).flash[PAGE..2 * PAGE][0] != Blank()[0];
  }

  lemma ZeroClears()
    ensures !OnlyClears(0, 255)
  {
    assert And(0, 255) == 0;
  }

  // ----- a programming session

  predicate Pages(pages: seq<seq<byte>>) {
    forall i :: 0 <= i < |pages| ==> |pages[i]| == PAGE
  }

  function Image(pages: seq<seq<byte>>): (image: seq<byte>)
    requires Pages(pages)
    ensures |image| == |pages| * PAGE
  {
    if pages == [] then [] else Image(pages[..|pages| - 1]) + pages[|pages| - 1]
  }

  /** CHIP_ERASE, LOAD_ADDRESS 0, then PROGRAM_FLASH with each page in turn. */
  function SessionCommands(pages: seq<seq<byte>>): seq<Command> {
    if pages == [] then [ChipErase, LoadAddress(0)]
    else SessionCommands(pages[..|pages| - 1]) + [ProgramFlash(pages[|pages| - 1])]
  }

  lemma {:induction false} SessionWellFormed(pages: seq<seq<byte>>)
    requires Pages(pages)
    ensures AllWellFormed(SessionCommands(pages))
  {
    if pages != [] { SessionWellFormed(pages[..|pages| - 1]); }
  }

  /** A cell after a block that continues the image. */
  function Spliced(image: seq<byte>, block: seq<byte>, old_: seq<byte>, j: nat): byte
    requires j < |old_|
  {
    var a := |image|;
    if j < a then image[j] else if j < a + |block| then block[j - a] else if j < a + PAGE then 255 else old_[j]
  }

  lemma SplicedAt(image: seq<byte>, block: seq<byte>, old_: seq<byte>, flash: seq<byte>)
    requires |block| <= PAGE && |image| + PAGE <= |old_| == |flash|
    requires forall j: nat :: j < |flash| ==> flash[j] == Spliced(image, block, old_, j)
    ensures flash == image + block + Blank()[|block|..] + old_[|image| + PAGE..]
  {
    var a, n := |image|, |block|;
    assert flash[..a] == image;
    assert flash[a..a + n] == block;
    assert flash[a + n..a + PAGE] == Blank()[n..];
    assert flash[a + PAGE..] == old_[a + PAGE..];
    assert flash == flash[..a] + flash[a..a + n] + flash[a + n..a + PAGE] + flash[a + PAGE..];
  }

  lemma SplicedCell(e: Device, block: seq<byte>, old_: seq<byte>, image: seq<byte>, j: nat)
    requires Ok(e) && 2 <= |block| <= PAGE && |block| % 2 == 0 && j < FLASH_SIZE
    requires e.address == e.eraseAddress == |image| && |image| + PAGE <= APP_END
    requires |old_| == FLASH_SIZE && e.flash == image + old_[|image|..]
    ensures Program(e, block).flash[j] == Spliced(image, block, old_, j)
  {
    var a := |image|;
    assert PageBase(a) == a;
    if j < a || a + PAGE <= j {
      WritesOnePage(e, block, j);
    } else {
      ProgramCell(e, block, j);
      ErasedCell(e, j);
      if j < a + |block| { AndOnes(block[j - a]); }
    }
  }

  /** A block that continues the image: it is there afterwards, and the rest of its page is erased. */
  lemma SessionStep(e: Device, block: seq<byte>, old_: seq<byte>, image: seq<byte>)
    requires Ok(e) && 2 <= |block| <= PAGE && |block| % 2 == 0
    requires e.address == e.eraseAddress == |image| && |image| + PAGE <= APP_END
    requires |old_| == FLASH_SIZE && e.flash == image + old_[|image|..]
    ensures var r := Execute(e, ProgramFlash(block));
            r.address == |image| + |block| && r.eraseAddress == |image| + PAGE &&
            r.flash == image + block + Blank()[|block|..] + old_[|image| + PAGE..]
  {
    var flash := Program(e, block).flash;
    forall j: nat | j < |flash| ensures flash[j] == Spliced(image, block, old_, j) {
      SplicedCell(e, block, old_, image, j);
    }
    SplicedAt(image, block, old_, flash);
  }

  /** The two cursors at the end of the image, and nothing behind it changed. */
  predicate Written(r: Device, image: seq<byte>, before: seq<byte>)
    requires |image| <= |before|
  {
    r.address == r.eraseAddress == |image| && r.flash == image + before[|image|..]
  }

  lemma SessionStart(d: Device)
    requires Ok(d) && AllWellFormed([ChipErase, LoadAddress(0)])
    ensures Written(ExecuteAll(d, [ChipErase, LoadAddress(0)]), [], d.flash)
  {
    var cs := [ChipErase, LoadAddress(0)];
    assert cs[..1] == [ChipErase] && [ChipErase][..0] == [];
    assert ExecuteAll(d, [ChipErase]) == Execute(d, ChipErase);
    assert ExecuteAll(d, cs) == Execute(Execute(d, ChipErase), LoadAddress(0));
    assert d.flash == [] + d.flash[0..];
  }

  lemma NextPage(e: Device, page: seq<byte>, image: seq<byte>, before: seq<byte>)
    requires Ok(e) && |page| == PAGE && |image| + PAGE <= APP_END && |before| == FLASH_SIZE && Written(e, image, before)
    ensures Written(Execute(e, ProgramFlash(page)), image + page, before)
  {
    SessionStep(e, page, before, image);
    assert Blank()[PAGE..] == [];
    assert image + page + [] + before[|image| + PAGE..] == image + page + before[|image| + PAGE..];
  }

  lemma {:induction false} SessionWritten(d: Device, pages: seq<seq<byte>>)
    requires Ok(d) && Pages(pages) && |pages| * PAGE <= APP_END
    requires AllWellFormed(SessionCommands(pages))
    ensures Written(ExecuteAll(d, SessionCommands(pages)), Image(pages), d.flash)
  {
    if pages == [] {
      SessionStart(d);
    } else {
      var n := |pages| - 1;
      var cs := SessionCommands(pages);
      assert cs[..|cs| - 1] == SessionCommands(pages[..n]);
      SessionWellFormed(pages[..n]);
      SessionWritten(d, pages[..n]);
      NextPage(ExecuteAll(d, SessionCommands(pages[..n])), pages[n], Image(pages[..n]), d.flash);
    }
  }

  /** After a session of any length below the boot section the flash holds the image, nothing behind
      it has changed, and the two cursors have kept step. */
  lemma SessionWritesImage(d: Device, pages: seq<seq<byte>>)
    requires Ok(d) && Pages(pages) && |pages| * PAGE <= APP_END
    requires AllWellFormed(SessionCommands(pages))
    ensures var r := ExecuteAll(d, SessionCommands(pages));
            r.address == r.eraseAddress == |pages| * PAGE &&
            r.flash == Image(pages) + d.flash[|pages| * PAGE..]
  {
    SessionWritten(d, pages);
  }

  /** A program that fills the application section to its last byte: 960 pages of 256 bytes, and the boot
      section behind it is as it was. */
  lemma FullSession(d: Device, pages: seq<seq<byte>>)
    requires Ok(d) && |pages| == 960 && (forall i :: 0 <= i < |pages| ==> |pages[i]| == 256)
    requires AllWellFormed(SessionCommands(pages))
    ensures var r := ExecuteAll(d, SessionCommands(pages));
            Pages(pages) && r.address == r.eraseAddress == 0x3_C000 && |Image(pages)| == 0x3_C000 &&
            r.flash == Image(pages) + d.flash[0x3_C000..]
  {
    assert Pages(pages) && |pages| * PAGE == APP_END;
    SessionWritesImage(d, pages);
  }

  /** The same with a last block that does not fill its page; the rest of that page is erased. */
  lemma SessionWithTail(d: Device, pages: seq<seq<byte>>, tail: seq<byte>)
    requires Ok(d) && Pages(pages) && (|pages| + 1) * PAGE <= APP_END && 2 <= |tail| <= PAGE && |tail| % 2 == 0
    requires AllWellFormed(SessionCommands(pages) + [ProgramFlash(tail)])
    ensures var r := ExecuteAll(d, SessionCommands(pages) + [ProgramFlash(tail)]);
            r.flash == Image(pages) + tail + Blank()[|tail|..] + d.flash[(|pages| + 1) * PAGE..]
  {
    var cs := SessionCommands(pages) + [ProgramFlash(tail)];
    SessionWellFormed(pages);
    SessionWritesImage(d, pages);
    assert cs[..|cs| - 1] == SessionCommands(pages);
    SessionStep(ExecuteAll(d, SessionCommands(pages)), tail, d.flash, Image(pages));
  }

  /** READ_FLASH gives back what is in the flash, so after a session it gives back the image. */
  lemma ReadBack(d: Device, image: seq<byte>, rest: seq<byte>, a: nat, size: nat)
    requires Ok(d) && d.flash == image + rest && a % 2 == 0 && a + size <= |image|
    ensures var r := Execute(d, LoadAddress(a / 2));
            Ok(r) && ReadData(r, size) == image[a..a + size]
  {
    var r := Execute(d, LoadAddress(a / 2));
    assert r.address == a;
    forall i | 0 <= i < size ensures ReadData(r, size)[i] == image[a..a + size][i] {
      assert Advance(a, i) % FLASH_SIZE == a + i;
    }
  }
}
