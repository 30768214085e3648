/**
  What the bootloader's erase cursor destroys.

  PROGRAM_FLASH erases where `eraseAddress` is and writes where `address` is, and LOAD_ADDRESS moves only
  the second.  For one command, and for a run of commands from any page on, the flash afterwards is that
  which the host wants under an exact condition on what is in the flash before.
*/
module Stk500Pages {
  import opened ByteOps
  import opened Stk500Flash

  /** A flash with a block put into it, and nothing else changed. */
  function With(flash: seq<byte>, a: nat, block: seq<byte>): (r: seq<byte>)
    requires a + |block| <= |flash|
    ensures |r| == |flash|
  {
    flash[..a] + block + flash[a + |block|..]
  }

  lemma WithCell(flash: seq<byte>, a: nat, block: seq<byte>, j: nat)
    requires a + |block| <= |flash| && j < |flash|
    ensures With(flash, a, block)[j] == if a <= j < a + |block| then block[j - a] else flash[j]
  {
  }

  /** A cell that the erases of n commands hit, the first of them at `start`. */
  predicate Erased(start: nat, n: nat, j: nat) {
    start <= j < start + n * PAGE && j < APP_END
  }

  /** What becomes of a cell that shall hold `goal`; `rewritten` if it is written no earlier than erased. */
  function CellAfter(before: byte, goal: byte, erased: bool, rewritten: bool): byte {
    if erased then (if rewritten then goal else 255) else And(before, goal)
  }

  /** An erased cell has to be written afterwards or to be blank; in any other no bit has to be set. */
  predicate CellRight(before: byte, goal: byte, erased: bool, rewritten: bool) {
    if erased then rewritten || goal == 255 else OnlyClears(before, goal)
  }

  lemma RightIff(before: byte, goal: byte, erased: bool, rewritten: bool)
    ensures CellAfter(before, goal, erased, rewritten) == goal <==> CellRight(before, goal, erased, rewritten)
  {
  }

  // ----- one command

  predicate AllBlank(flash: seq<byte>) {
    forall j :: 0 <= j < |flash| ==> flash[j] == 255
  }

  lemma EraseCell(d: Device, j: nat)
    requires Ok(d) && j < FLASH_SIZE
    ensures EraseNext(d).flash[j] == if Erased(d.eraseAddress, 1, j) then 255 else d.flash[j]
  {
    if d.eraseAddress < APP_END { assert PageBase(d.eraseAddress) == d.eraseAddress; }
  }

  /** The page at the erase cursor is blank already, or it is the one that is written, or it belongs to
      the boot section. */
  predicate EraseHarmless(d: Device)
    requires Ok(d)
  {
    || d.eraseAddress >= APP_END || d.eraseAddress == PageBase(d.address)
    || d.flash[d.eraseAddress..d.eraseAddress + PAGE] == Blank()
  }

  /** All cells but those of the page that the command writes to are as before. */
  predicate OthersKept(d: Device, r: Device)
    requires |d.flash| == |r.flash| == FLASH_SIZE
  {
    var base := PageBase(d.address);
    forall j :: 0 <= j < FLASH_SIZE && !(base <= j < base + PAGE) ==> r.flash[j] == d.flash[j]
  }

  lemma ErasedIsOther(d: Device, i: nat)
    requires Ok(d) && d.eraseAddress < APP_END && d.eraseAddress != PageBase(d.address) && i < PAGE
    ensures var j, base := d.eraseAddress + i, PageBase(d.address);
            j < FLASH_SIZE && !(base <= j < base + PAGE) && Erased(d.eraseAddress, 1, j)
  {
    var a, b := PageBase(d.address), d.eraseAddress;
    assert b + PAGE <= APP_END;
    assert a + PAGE <= b || b + PAGE <= a;
  }

  /** If they are as before, the page that is erased was blank. */
  lemma HarmBlank(d: Device, data: seq<byte>)
    requires Ok(d) && |data| % 2 == 0 && OthersKept(d, Program(d, data))
    requires d.eraseAddress < APP_END && d.eraseAddress != PageBase(d.address)
    ensures d.flash[d.eraseAddress..d.eraseAddress + PAGE] == Blank()
  {
    var s := d.eraseAddress;
    forall i | 0 <= i < PAGE ensures d.flash[s..s + PAGE][i] == Blank()[i] {
      ErasedIsOther(d, i);
      WritesOnePage(d, data, s + i);
      EraseCell(d, s + i);
    }
  }

  /** PROGRAM_FLASH leaves the other pages alone if and only if its own erase does no harm there. */
  lemma OthersKeptIff(d: Device, data: seq<byte>)
    requires Ok(d) && |data| % 2 == 0
    ensures OthersKept(d, Program(d, data)) <==> EraseHarmless(d)
  {
    var r, s := Program(d, data), d.eraseAddress;
    if EraseHarmless(d) {
      forall j | 0 <= j < FLASH_SIZE && !(PageBase(d.address) <= j < PageBase(d.address) + PAGE)
        ensures r.flash[j] == d.flash[j]
      {
        WritesOnePage(d, data, j);
        EraseCell(d, j);
        if Erased(s, 1, j) && s != PageBase(d.address) { assert d.flash[j] == d.flash[s..s + PAGE][j - s]; }
      }
    } else if OthersKept(d, r) {
      HarmBlank(d, data);
      assert false;
    }
  }

  lemma ProgrammedCell(d: Device, data: seq<byte>, j: nat)
    requires Ok(d) && InsidePage(d, data) && d.address + |data| <= FLASH_SIZE && j < FLASH_SIZE
    ensures var a := d.address;
            Program(d, data).flash[j] ==
              CellAfter(d.flash[j], With(d.flash, a, data)[j], Erased(d.eraseAddress, 1, j), a <= j < a + |data|)
  {
    var a, base := d.address, PageBase(d.address);
    AtOffset(a);
    WithCell(d.flash, a, data, j);
    EraseCell(d, j);
    OnlyClearsReflexive(d.flash[j]);
    if base <= j < base + PAGE {
      ProgramCell(d, data, j);
      if a <= j < a + |data| { AndOnes(data[j - a]); }
    } else {
      WritesOnePage(d, data, j);
    }
  }

  /** Programming a block inside a page puts it into the flash and changes nothing else, if and only if
      every other cell of the page that is erased is blank, and no bit of the remaining cells has to be
      set. */
  lemma ProgramExactIff(d: Device, data: seq<byte>)
    requires Ok(d) && InsidePage(d, data)
    ensures d.address + |data| <= FLASH_SIZE
    ensures var a, goal := d.address, With(d.flash, d.address, data);
            Program(d, data).flash == goal <==>
            forall j :: 0 <= j < FLASH_SIZE ==>
              CellRight(d.flash[j], goal[j], Erased(d.eraseAddress, 1, j), a <= j < a + |data|)
  {
    AtOffset(d.address);
    var a, goal, r := d.address, With(d.flash, d.address, data), Program(d, data).flash;
    forall j | 0 <= j < FLASH_SIZE
      ensures r[j] == goal[j] <==>
              CellRight(d.flash[j], goal[j], Erased(d.eraseAddress, 1, j), a <= j < a + |data|)
    {
      ProgrammedCell(d, data, j);
      RightIff(d.flash[j], goal[j], Erased(d.eraseAddress, 1, j), a <= j < a + |data|);
    }
  }

  function Zeros(): (page: seq<byte>)
    ensures |page| == PAGE
  {
    seq(PAGE, i => 0)
  }

  /** Any block gets onto blank flash, wherever the erase cursor is. */
  lemma BlankTakes(d: Device, data: seq<byte>)
    requires Ok(d) && InsidePage(d, data) && AllBlank(d.flash)
    ensures d.address + |data| <= FLASH_SIZE
    ensures Program(d, data).flash[d.address..d.address + |data|] == data
  {
    AtOffset(d.address);
    forall i | 0 <= i < |data| ensures OnlyClears(d.flash[d.address + i], data[i]) { AndOnes(data[i]); }
    ProgramBlockIff(d, data);
  }

  lemma BlankPage(flash: seq<byte>, a: nat)
    requires a + PAGE <= |flash| && forall j :: a <= j < a + PAGE ==> flash[j] == 255
    ensures flash[a..a + PAGE] == Blank()
  {
  }

  /** The page at the erase cursor is blank afterwards if the command writes elsewhere. */
  lemma ElsewhereErased(d: Device, data: seq<byte>)
    requires Ok(d) && |data| % 2 == 0 && d.eraseAddress < APP_END && d.eraseAddress != PageBase(d.address)
    ensures d.eraseAddress + PAGE <= FLASH_SIZE
    ensures Program(d, data).flash[d.eraseAddress..d.eraseAddress + PAGE] == Blank()
  {
    var s, r := d.eraseAddress, Program(d, data).flash;
    forall j | s <= j < s + PAGE ensures j < FLASH_SIZE && r[j] == 255 {
      ErasedIsOther(d, j - s);
      WritesOnePage(d, data, j);
      EraseCell(d, j);
    }
    BlankPage(r, s);
  }

  /** On a blank device, two blocks from the second page on: the first gets there, and the erase of the
      second command destroys it. */
  lemma SecondBlockDestroysFirst(d: Device)
    requires Ok(d) && AllBlank(d.flash)
    ensures var ready := Execute(Execute(d, ChipErase), LoadAddress(PAGE / 2));
            Ok(ready) &&
            var one := Execute(ready, ProgramFlash(Zeros()));
            Ok(one) && one.flash[PAGE..2 * PAGE] == Zeros() &&
            Execute(one, ProgramFlash(Zeros())).flash[PAGE..2 * PAGE] == Blank()
  {
    var ready := d.(address := PAGE, eraseAddress := 0);
    assert ready == Execute(Execute(d, ChipErase), LoadAddress(PAGE / 2));
    BlankTakes(ready, Zeros());
    ExecuteOk(ready, ProgramFlash(Zeros()));
    var one := Program(ready, Zeros());
    assert one.address == 2 * PAGE && one.eraseAddress == PAGE && PageBase(2 * PAGE) == 2 * PAGE;
    ElsewhereErased(one, Zeros());
  }

  // ----- whole pages from any page on

  /** LOAD_ADDRESS to the page at `a`, then PROGRAM_FLASH with each page in turn. */
  function LoadCommands(a: nat, pages: seq<seq<byte>>): (cs: seq<Command>)
    requires Pages(pages) && a < ADDRESS_RANGE
    ensures AllWellFormed(cs)
  {
    if pages == [] then [LoadAddress(a / 2)]
    else LoadCommands(a, pages[..|pages| - 1]) + [ProgramFlash(pages[|pages| - 1])]
  }

  /** The cell holds a byte of the image, and its page was erased, if at all, no later than written. */
  predicate Rewritten(s: nat, a: nat, n: nat, j: nat) {
    a <= j < a + n * PAGE && a <= s
  }

  predicate Room(a: nat, pages: seq<seq<byte>>) {
    Pages(pages) && a % PAGE == 0 && a + |pages| * PAGE <= FLASH_SIZE
  }

  function Goal(flash: seq<byte>, a: nat, pages: seq<seq<byte>>): (goal: seq<byte>)
    requires |flash| == FLASH_SIZE && Room(a, pages)
    ensures |goal| == FLASH_SIZE
  {
    With(flash, a, Image(pages))
  }

  predicate CellsAfter(flash: seq<byte>, goal: seq<byte>, s: nat, a: nat, n: nat, r: seq<byte>)
    requires |flash| == |goal| == |r| == FLASH_SIZE
  {
    forall j: nat :: j < FLASH_SIZE ==>
      r[j] == CellAfter(flash[j], goal[j], Erased(s, n, j), Rewritten(s, a, n, j))
  }

  /** Where the run has got to. */
  predicate Loaded(before: seq<byte>, goal: seq<byte>, s: nat, a: nat, n: nat, r: Device)
    requires |before| == |goal| == |r.flash| == FLASH_SIZE
  {
    && r.address == a + n * PAGE
    && r.eraseAddress == (if s + n * PAGE < APP_END then s + n * PAGE else APP_END)
    && CellsAfter(before, goal, s, a, n, r.flash)
  }

  lemma LoadsAddress(d: Device, word: nat)
    requires Ok(d) && word * 2 < ADDRESS_RANGE
    ensures Execute(d, LoadAddress(word)) == d.(address := word * 2)
  {
  }

  lemma Halved(x: nat)
    ensures 2 * x / 2 == x
  {
  }

  lemma PageIsEven(a: nat)
    requires a % PAGE == 0
    ensures a / 2 * 2 == a
  {
    var q := a / PAGE;
    assert a == 2 * (q * (PAGE / 2));
    Halved(q * (PAGE / 2));
  }

  lemma FirstCommand(d: Device, a: nat)
    requires Ok(d) && a % PAGE == 0 && a < ADDRESS_RANGE
    ensures ExecuteAll(d, LoadCommands(a, [])) == d.(address := a)
  {
    OneCommand(d, LoadAddress(a / 2));
    PageIsEven(a);
    LoadsAddress(d, a / 2);
  }

  lemma NothingLoaded(d: Device, a: nat)
    requires Ok(d) && Room(a, [])
    ensures Loaded(d.flash, Goal(d.flash, a, []), d.eraseAddress, a, 0, d.(address := a))
  {
    var goal := Goal(d.flash, a, []);
    var s := d.eraseAddress;
    forall j: nat | j < FLASH_SIZE
      ensures d.flash[j] == CellAfter(d.flash[j], goal[j], Erased(s, 0, j), Rewritten(s, a, 0, j))
    {
      WithCell(d.flash, a, [], j);
      OnlyClearsReflexive(d.flash[j]);
    }
  }

  /** Cells after one more page: erased now or before, written now or before. */
  lemma OneMorePage(s: nat, a: nat, n: nat, j: nat)
    requires s % PAGE == 0 && a % PAGE == 0 && j < FLASH_SIZE
    ensures var now := a + n * PAGE <= j < a + n * PAGE + PAGE;
            var cursor := if s + n * PAGE < APP_END then s + n * PAGE else APP_END;
            (Erased(s, n + 1, j) <==> Erased(s, n, j) || Erased(cursor, 1, j)) &&
            (now ==> !Rewritten(s, a, n, j) && (Erased(s, n + 1, j) ==> Rewritten(s, a, n + 1, j))) &&
            (!now ==> (Rewritten(s, a, n + 1, j) <==> Rewritten(s, a, n, j)) &&
                      (Erased(cursor, 1, j) ==> !Rewritten(s, a, n, j)))
  {
  }

  lemma InFullPage(e: Device, page: seq<byte>, j: nat)
    requires Ok(e) && |page| == PAGE && e.address % PAGE == 0 && e.address <= j < e.address + PAGE <= FLASH_SIZE
    ensures Program(e, page).flash[j] == And(EraseNext(e).flash[j], page[j - e.address])
  {
    EvenOffset(e.address);
    assert PageBase(e.address) == e.address;
    ProgramCell(e, page, j);
  }

  lemma OutsideFullPage(e: Device, page: seq<byte>, j: nat)
    requires Ok(e) && |page| == PAGE && e.address % PAGE == 0 && e.address + PAGE <= FLASH_SIZE && j < FLASH_SIZE
    requires !(e.address <= j < e.address + PAGE)
    ensures Program(e, page).flash[j] == EraseNext(e).flash[j]
  {
    assert PageBase(e.address) == e.address;
    WritesOnePage(e, page, j);
  }

  /** One cell, when the next page is written (`now`) or another one. */
  lemma CellNext(before: byte, goal: byte, next: byte, erased: bool, hit: bool, early: bool, rewritten: bool, now: bool)
    requires now ==> goal == before && !early && (erased || hit ==> rewritten)
    requires !now ==> next == goal && (rewritten <==> early) && (hit ==> !early)
    ensures var x := if hit then 255 else CellAfter(before, goal, erased, early);
            (if now then And(x, next) else x) == CellAfter(before, next, erased || hit, rewritten)
  {
    OnlyClearsReflexive(before);
    AndOnes(next);
  }

  /** The cell under the cursors `a + n * PAGE` and `cursor`. */
  lemma NextCell(e: Device, page: seq<byte>, before: byte, goal: byte, next: byte, s: nat, a: nat, n: nat, j: nat)
    requires Ok(e) && |page| == PAGE && j < FLASH_SIZE && s % PAGE == 0 && a % PAGE == 0
    requires e.address == a + n * PAGE <= FLASH_SIZE - PAGE
    requires e.eraseAddress == if s + n * PAGE < APP_END then s + n * PAGE else APP_END
    requires e.flash[j] == CellAfter(before, goal, Erased(s, n, j), Rewritten(s, a, n, j))
    requires e.address <= j < e.address + PAGE ==> goal == before && next == page[j - e.address]
    requires !(e.address <= j < e.address + PAGE) ==> next == goal
    ensures Program(e, page).flash[j] == CellAfter(before, next, Erased(s, n + 1, j), Rewritten(s, a, n + 1, j))
  {
    EraseCell(e, j);
    OneMorePage(s, a, n, j);
    CellNext(before, goal, next, Erased(s, n, j), Erased(e.eraseAddress, 1, j), Rewritten(s, a, n, j),
             Rewritten(s, a, n + 1, j), e.address <= j < e.address + PAGE);
    if e.address <= j < e.address + PAGE { InFullPage(e, page, j); } else { OutsideFullPage(e, page, j); }
  }

  predicate GoalGrows(before: seq<byte>, goal: seq<byte>, next: seq<byte>, a: nat, page: seq<byte>)
    requires |before| == |goal| == |next| == FLASH_SIZE && |page| == PAGE
  {
    forall j: nat :: j < FLASH_SIZE ==>
      if a <= j < a + PAGE then goal[j] == before[j] && next[j] == page[j - a] else next[j] == goal[j]
  }

  lemma GoalCell(flash: seq<byte>, a: nat, image: seq<byte>, page: seq<byte>, j: nat)
    requires |flash| == FLASH_SIZE && |page| == PAGE && a + |image| + PAGE <= FLASH_SIZE && j < FLASH_SIZE
    ensures var goal, next, b := With(flash, a, image), With(flash, a, image + page), a + |image|;
            if b <= j < b + PAGE then goal[j] == flash[j] && next[j] == page[j - b] else next[j] == goal[j]
  {
    WithCell(flash, a, image, j);
    WithCell(flash, a, image + page, j);
  }

  lemma NextGoal(flash: seq<byte>, a: nat, image: seq<byte>, page: seq<byte>)
    requires |flash| == FLASH_SIZE && |page| == PAGE && a + |image| + PAGE <= FLASH_SIZE
    ensures GoalGrows(flash, With(flash, a, image), With(flash, a, image + page), a + |image|, page)
  {
    forall j: nat | j < FLASH_SIZE
      ensures var goal, next, b := With(flash, a, image), With(flash, a, image + page), a + |image|;
              if b <= j < b + PAGE then goal[j] == flash[j] && next[j] == page[j - b] else next[j] == goal[j]
    {
      GoalCell(flash, a, image, page, j);
    }
  }

  lemma NextCells(e: Device, page: seq<byte>, before: seq<byte>, goal: seq<byte>, next: seq<byte>,
                  s: nat, a: nat, n: nat)
    requires Ok(e) && |page| == PAGE && |before| == |goal| == |next| == FLASH_SIZE && s % PAGE == 0 && a % PAGE == 0
    requires Loaded(before, goal, s, a, n, e) && e.address <= FLASH_SIZE - PAGE
    requires GoalGrows(before, goal, next, e.address, page)
    ensures CellsAfter(before, next, s, a, n + 1, Program(e, page).flash)
  {
    var r := Program(e, page).flash;
    forall j: nat | j < FLASH_SIZE
      ensures r[j] == CellAfter(before[j], next[j], Erased(s, n + 1, j), Rewritten(s, a, n + 1, j))
    {
      NextCell(e, page, before[j], goal[j], next[j], s, a, n, j);
    }
  }

  lemma NextCursors(e: Device, page: seq<byte>)
    requires Ok(e) && |page| == PAGE && e.address + PAGE <= FLASH_SIZE
    ensures var r := Program(e, page);
            |r.flash| == FLASH_SIZE && r.address == e.address + PAGE &&
            r.eraseAddress == if e.eraseAddress < APP_END then e.eraseAddress + PAGE else e.eraseAddress
  {
  }

  lemma LoadNext(e: Device, page: seq<byte>, before: seq<byte>, goal: seq<byte>, next: seq<byte>,
                 s: nat, a: nat, n: nat)
    requires Ok(e) && |page| == PAGE && |before| == |goal| == |next| == FLASH_SIZE && s % PAGE == 0 && a % PAGE == 0
    requires Loaded(before, goal, s, a, n, e) && e.address <= FLASH_SIZE - PAGE
    requires GoalGrows(before, goal, next, e.address, page)
    ensures Loaded(before, next, s, a, n + 1, Program(e, page))
  {
    NextCursors(e, page);
    NextCells(e, page, before, goal, next, s, a, n);
  }

  lemma LoadUnfold(d: Device, a: nat, pages: seq<seq<byte>>, n: nat)
    requires Ok(d) && Room(a, pages) && |pages| == n + 1 && Room(a, pages[..n])
    ensures ExecuteAll(d, LoadCommands(a, pages)) == Program(ExecuteAll(d, LoadCommands(a, pages[..n])), pages[n])
  {
    var cs := LoadCommands(a, pages);
    assert cs[..|cs| - 1] == LoadCommands(a, pages[..n]);
  }

  lemma {:induction false} LoadRun(d: Device, a: nat, pages: seq<seq<byte>>)
    requires Ok(d) && Room(a, pages)
    ensures Loaded(d.flash, Goal(d.flash, a, pages), d.eraseAddress, a, |pages|, ExecuteAll(d, LoadCommands(a, pages)))
    decreases |pages|
  {
    if pages == [] {
      FirstCommand(d, a);
      NothingLoaded(d, a);
    } else {
      var n := |pages| - 1;
      assert Room(a, pages[..n]);
      NextGoal(d.flash, a, Image(pages[..n]), pages[n]);
      LoadRun(d, a, pages[..n]);
      LoadNext(ExecuteAll(d, LoadCommands(a, pages[..n])), pages[n], d.flash, Goal(d.flash, a, pages[..n]),
               Goal(d.flash, a, pages), d.eraseAddress, a, n);
      LoadUnfold(d, a, pages, n);
    }
  }

  /** A run of whole pages from any page on, with the erase cursor anywhere: the pages are in the flash and
      nothing else has changed if and only if each cell that an erase hits is a cell of the image and is
      not written before that, or is to be blank, and in no other cell a bit has to be set. */
  lemma LoadIff(d: Device, a: nat, pages: seq<seq<byte>>)
    requires Ok(d) && Room(a, pages)
    ensures var n, s, goal := |pages|, d.eraseAddress, Goal(d.flash, a, pages);
            ExecuteAll(d, LoadCommands(a, pages)).flash == goal <==>
            forall j: nat :: j < FLASH_SIZE ==>
              CellRight(d.flash[j], goal[j], Erased(s, n, j), Rewritten(s, a, n, j))
  {
    var n, s, goal, r := |pages|, d.eraseAddress, Goal(d.flash, a, pages), ExecuteAll(d, LoadCommands(a, pages)).flash;
    LoadRun(d, a, pages);
    forall j: nat | j < FLASH_SIZE
      ensures r[j] == goal[j] <==> CellRight(d.flash[j], goal[j], Erased(s, n, j), Rewritten(s, a, n, j))
    {
      RightIff(d.flash[j], goal[j], Erased(s, n, j), Rewritten(s, a, n, j));
    }
  }

  /** The same if the erases begin at the first page, as they do after CHIP_ERASE. */
  predicate ErasedFromStart(before: byte, goal: byte, a: nat, size: nat, j: nat) {
    if j < size && j < APP_END then a == 0 || goal == 255 else OnlyClears(before, goal)
  }

  predicate AllErasedFromStart(flash: seq<byte>, goal: seq<byte>, a: nat, size: nat)
    requires |flash| == |goal| == FLASH_SIZE
  {
    forall j: nat :: j < FLASH_SIZE ==> ErasedFromStart(flash[j], goal[j], a, size, j)
  }

  /** After CHIP_ERASE: from the first page on, the pages below the boot section need nothing; from any
      later page on, all that the erases hit has to be blank in the end. */
  lemma LoadAfterChipErase(d: Device, a: nat, pages: seq<seq<byte>>)
    requires Ok(d) && Room(a, pages)
    ensures var size, goal := |pages| * PAGE, Goal(d.flash, a, pages);
            ExecuteAll(Execute(d, ChipErase), LoadCommands(a, pages)).flash == goal <==>
            AllErasedFromStart(d.flash, goal, a, size)
  {
    var e, n, goal := Execute(d, ChipErase), |pages|, Goal(d.flash, a, pages);
    LoadIff(e, a, pages);
    forall j: nat | j < FLASH_SIZE
      ensures CellRight(e.flash[j], goal[j], Erased(0, n, j), Rewritten(0, a, n, j)) <==>
              ErasedFromStart(d.flash[j], goal[j], a, n * PAGE, j)
    {
    }
  }

  predicate BlankUpTo(image: seq<byte>, n: int)
    requires n <= |image|
  {
    forall i: nat :: i < n ==> image[i] == 255
  }

  lemma BlankCell(flash: seq<byte>, a: nat, image: seq<byte>, j: nat)
    requires |flash| == FLASH_SIZE && 0 < a && a + |image| <= FLASH_SIZE && |image| <= APP_END
    requires AllBlank(flash) && j < FLASH_SIZE
    ensures ErasedFromStart(flash[j], With(flash, a, image)[j], a, |image|, j) <==>
            (a <= j < |image| ==> image[j - a] == 255)
  {
    AndOnes(With(flash, a, image)[j]);
    WithCell(flash, a, image, j);
  }

  lemma BlankCells(flash: seq<byte>, a: nat, image: seq<byte>)
    requires |flash| == FLASH_SIZE && 0 < a && a + |image| <= FLASH_SIZE && |image| <= APP_END && AllBlank(flash)
    ensures AllErasedFromStart(flash, With(flash, a, image), a, |image|) <==> BlankUpTo(image, |image| - a)
  {
    var goal := With(flash, a, image);
    forall j: nat | j < FLASH_SIZE
      ensures ErasedFromStart(flash[j], goal[j], a, |image|, j) <==> (a <= j < |image| ==> image[j - a] == 255)
    {
      BlankCell(flash, a, image, j);
    }
    if AllErasedFromStart(flash, goal, a, |image|) {
      forall i: nat | i < |image| - a ensures image[i] == 255 { BlankCell(flash, a, image, a + i); }
    }
  }

  /** On a blank device, from a later page on: the pages get there if and only if they end before the run
      of erases reaches them, or are blank where it does. */
  lemma LaterPagesOnBlankDevice(d: Device, a: nat, pages: seq<seq<byte>>)
    requires Ok(d) && Room(a, pages) && 0 < a && |pages| * PAGE <= APP_END && AllBlank(d.flash)
    ensures ExecuteAll(Execute(d, ChipErase), LoadCommands(a, pages)).flash == Goal(d.flash, a, pages) <==>
            BlankUpTo(Image(pages), |pages| * PAGE - a)
  {
    LoadAfterChipErase(d, a, pages);
    BlankCells(d.flash, a, Image(pages));
  }
}
