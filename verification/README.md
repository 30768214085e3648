# avr-Xinu: a verified model

avr-Xinu is a small operating system for Atmel AVR microcontrollers with drivers and applications
around it. This project models the parts of it whose correctness is least obvious from reading the
code, and proves what they are for. C code that works by updating state is a class or a method here,
with the same branches, loops and constants, proved against a specification function; the theorems
are about that function, over every input, every run, or every set of devices.

**1-Wire ROM search** (`RomTrie`, `Crc8`, `OneWireBus`, `RomSearch`, `Discovery`, `Families`, `Scans`,
`Filter`). `OWSearch` walks a binary trie of 64-bit device numbers over a wired-AND bus and keeps four
variables between calls. The bus is a finite set of devices; a read slot returns the AND of the
listening devices' bits, a write slot silences those that disagree. Both implementations (bit-banged,
and through the DS2482 bridge's triplet command) are proved to compute one specification, `Search`, the
second as long as the bridge's status is read back. From it follow: a whole scan lists every device
once, in order, and ends where it began; the state between calls always points at the successor;
directed searches verify a device and list a family; both rest on the CRC, whose algebra is proved here
too. `OWFamilySkipSetup` works exactly when the family discrepancy is not left over from an earlier
family. The scan that the example program builds on it is correct all the same.

**STK500v2 bootloader** (`ByteOps`, `Stk500Frame`, `Stk500Flash`, `Stk500Pages`, `Stk500Boot`,
`Stk500Session`, `Stk500Verify`). The byte-driven receiver, the reply loop, and the flash commands with
their two independent cursors. Flash erases to 0xFF and writes as AND. A run of framed messages with
noise between them, of any length, ends with the image in the flash, a verify pass reads it back, and no
command sequence erases the boot section. What the erase cursor does to a program that is loaded to any
other place is stated exactly.

**Calendar conversion** (`Calendar`). `ntp_offtime`'s guess-and-correct loop against a calendar that
is counted day by day.

**Socket list** (`SockModel`, `SockEvents`, `SockPoll`, `SockExact`, `SockList`). The wlp API's linked
list on the heap while a poll traverses it and callbacks open, accept and close sockets. Closing during
a poll only marks a socket; what that makes different from closing at once is stated exactly, for every
call and for whole polls, and so is what a socket's callbacks may rely on over its life.

**Smaller pieces.** The RFC 1071 checksum (`Checksum`), the two-wire interrupt handler over chained
command blocks (`TwiChain`), Internet addresses as text (`InetAddr`, `InetNumber`, `InetAton`,
`InetForms`), and the resumable string matcher (`Matcher`).

## Where the code does less than its description

- Family skip: `LastFamilyDiscrepancy` is never cleared when a search starts, so after `OWNext` has
  entered the last family, a skip goes back to a device already seen (`Families.SkipFindsNextFamily`,
  `Scans.SkipRepeatsDevice`, with concrete device numbers in `Scans.DemoBus`).
- A poll calls back a socket that an earlier callback has closed, if it comes to it later and one of
  its guards holds (`SockPoll.ClosedSocketCalledBack`, `SockPoll.CallsMeaning`). If that does not happen, and
  every call is harmless, closing at the end is closing at once (`SockPoll.PollRefinesAtOnce`). Where
  callbacks only open, accept and close, the poll is the same as one that closes at once if and only if
  no closed socket is called back (`SockExact.PollIsExact`); it is enough that each callback closes no
  socket but its own (`SockExact.OwnClosesSuffice`).
- Calls that take an id find closed sockets too: listen and connect cancel the close, and a callback
  that is set is lost, most of all when the device reuses the id (`SockModel.CallIsExact`,
  `SockModel.CloseThenConnect`, `SockModel.ReuseLosesCallback`, `SockModel.ReuseRevivesSocket`).
- `match_string` misses some occurrences of patterns such as "aab" (`Matcher.MatcherReliableIff`,
  `Matcher.MissedPattern`), and does not report a first match that ends the buffer until the next one
  comes (`Matcher.MatchAtEndIsPending`, `Matcher.RegularReportsIff`).
- `inet_aton` promises to refuse invalid addresses but asks nothing of the numbers before the last:
  256.0.0.1 reads as 0.0.0.1, and 1.256.0.1 as 1.0.0.1 (`InetForms.Accepts256`,
  `InetForms.NumbersOverlap`). It also takes the digits 8 and 9 as octal
  (`InetForms.AcceptsOctalNines`), and of the white space only the blank ends a text.
- PROGRAM_FLASH erases the page at its own erase cursor, not the page that it writes. The block gets
  there exactly when the two agree or no bit has to be set (`Stk500Flash.ProgramBlockIff`,
  `Stk500Flash.UnerasedPage`), and the other pages keep what they hold exactly when the two agree, the
  page at the erase cursor is blank, or that cursor has come to the boot section
  (`Stk500Pages.OthersKeptIff`). So the second of two blocks loaded from the second page on destroys the
  first, although both are written to blank flash (`Stk500Pages.SecondBlockDestroysFirst`). A program
  that is loaded to a later page of a blank device gets there exactly when it ends before the run of
  erases comes to it or is blank there (`Stk500Pages.LaterPagesOnBlankDevice`).
- `DS2482_search_triplet` takes a failing status read for success and returns the status of the
  read before, which is right only by chance (`OneWireBus.RightStatusIff`); the search then believes it
  (`RomSearch.StaleSearchParts`).

## Model

| member | source | states |
|---|---|---|
| RomTrie.FreshSearchFindsLeast | avr-Xinu/APIs/1-Wire /singleGPIO/OWSearch.c:81-143 | with no discrepancy recorded, the walk ends at the least device in LSB-first order |
| RomTrie.LastZeroIsMaximum | avr-Xinu/APIs/1-Wire /singleGPIO/OWSearch.c:145-157 | there is no last zero on the path exactly when the device is the greatest |
| RomTrie.LastZeroFindsNext | avr-Xinu/APIs/1-Wire /singleGPIO/OWSearch.c:99-116 | taking 1 at the last zero leads to exactly the successor device |
| RomTrie.ForkFindsLeast | avr-Xinu/APIs/1-Wire /singleGPIO/OWSearch.c:99-116 | taking 1 at any conflict leads to the least device past that fork |
| RomTrie.LastZeroUnique | avr-Xinu/APIs/1-Wire /singleGPIO/OWSearch.c:108-116 | the recorded position is determined by its meaning: the last conflict at which 0 was taken |
| RomTrie.DirectedWalk | avr-Xinu/APIs/1-Wire /common/OWVerify.c:57-76 | a walk aimed at a number reaches it exactly when it is on the bus, if nothing conflicts at the very last bit |
| Crc8.ByteUpdateIsEightClocks | avr-Xinu/APIs/1-Wire /common/OWutil.c:163-178 | the byte-wise update is eight clocks of the bit-serial CRC register |
| Crc8.ShiftTimesLinear | avr-Xinu/APIs/1-Wire /common/OWutil.c:168-175 | the shifts are linear over exclusive or |
| Crc8.FeedInjective | avr-Xinu/APIs/1-Wire /common/OWutil.c:163-178 | for a fixed message, the register after determines the register before, and conversely |
| Crc8.ResidueIsZero | avr-Xinu/APIs/1-Wire /common/OWutil.c:163-178 | the register ends at 0 exactly when the last byte is the CRC of the bits before it |
| Crc8.BurstDetected | avr-Xinu/APIs/1-Wire /common/OWutil.c:163-178 | every error burst of at most eight bits in a message of any length changes the result |
| Crc8.LastBitMatters | avr-Xinu/APIs/1-Wire /common/OWVerify.c:57-59 | two messages that differ in the last bit alone never have the same CRC register |
| Crc8.CrcOfOneBit | avr-Xinu/APIs/1-Wire /common/OWutil.c:163-178 | the register after each byte that has one bit set, in numbers, which by linearity fixes the whole CRC |
| OneWireBus.Bus.ReadBit | avr-Xinu/APIs/1-Wire /singleGPIO/OWSearch.c:86-88 | two read slots tell whether a device continues the path with 0, and whether one does with 1 |
| OneWireBus.Bridge.SearchTriplet | avr-Xinu/APIs/1-Wire /TWIDriver/DS2482_search_triplet.c:42-70 | SYSERR if the command is refused or the first 200 polls find the bridge busy; the right status if a poll reads it; otherwise the byte of the read before the one that failed; the bus takes the right direction in every case in which the command went out and settled |
| OneWireBus.RightStatusIff | avr-Xinu/APIs/1-Wire /TWIDriver/DS2482_search_triplet.c:52-69 | if the command went out and settled, the driver's answer is this triplet's status if and only if a poll read it, or the first poll failed and the chained read already had it |
| OneWireBus.AnswerInNumbers | avr-Xinu/APIs/1-Wire /TWIDriver/DS2482_search_triplet.c:42-70 | 0xFF if the command is refused or 200 polls find the bridge busy; otherwise, at the first poll that does not and succeeds, bits 5, 6 and 7 are the two bits read and the one written |
| RomSearch.OneWire.CalcCrc8 | avr-Xinu/APIs/1-Wire /TWIDriver/OWSearch.c:184-199 | updates the global register as the bit-serial CRC does with the byte's bits, least significant first |
| RomSearch.OneWire.RecordBit | avr-Xinu/APIs/1-Wire /singleGPIO/OWSearch.c:119-140 | the chosen bit becomes the next bit of the path in ROM_NO, and the CRC follows at byte ends |
| RomSearch.OneWire.OWSearch | avr-Xinu/APIs/1-Wire /singleGPIO/OWSearch.c:52-169 | from any search state on any bus: result, ROM_NO, both discrepancies, last-device flag and crc8 are those of the specification Search; TRUE leaves a family byte that is not 0 and a CRC register that is |
| RomSearch.OneWire.OWSearchTriplet | avr-Xinu/APIs/1-Wire /TWIDriver/OWSearch.c:58-177 | for every behaviour of the bridge: result, ROM_NO, both discrepancies, flag and crc8 are what the status bytes say, right or stale, and each byte is the driver's answer to a triplet on the right path; TRUE leaves a family byte that is not 0 and a CRC register that is |
| RomSearch.SearchFinds | avr-Xinu/APIs/1-Wire /singleGPIO/OWSearch.c:145-166 | a search succeeds if and only if the flag is clear, a device is there, the CRC register ends at 0 and one of the first eight bits is 1; otherwise both discrepancies are 0 and the flag is clear |
| RomSearch.TripletsFind | avr-Xinu/APIs/1-Wire /TWIDriver/OWSearch.c:155-175 | the same for the search by triplets and the 64 bits that it was told |
| RomSearch.ZerosRefused | avr-Xinu/APIs/1-Wire /singleGPIO/OWSearch.c:160 | an input: a bus whose only number reads as 64 zeros, with a CRC that fits, is not found |
| RomSearch.AnsweredRunIsSearch | avr-Xinu/APIs/1-Wire /TWIDriver/OWSearch.c:90-176 | refinement: if every status is read back, up to a triplet that fails, that outcome is the one of Search, although the direction is chosen before the bits are seen; from a failing triplet on it is as if no device answered |
| RomSearch.StaleSearchParts | avr-Xinu/APIs/1-Wire /TWIDriver/OWSearch.c:111-120 | an input on which the two searches part: a stale status ends the search by triplets with "no devices", and the bit-level search finds the device |
| RomSearch.OneWire.SearchWith | avr-Xinu/APIs/1-Wire /TWIDriver/OWSearch.c:58-177 | with either driver the outcome is what the answers say, right or stale; it is that of Search for the number of bits that are answered, if no stale status is taken for an answer |
| RomSearch.OneWire.OWFirst | avr-Xinu/APIs/1-Wire /common/OWFirst.c:46-54 | with either driver, and whatever the bridge answers, a search from the initial state, whatever the state was |
| RomSearch.OneWire.OWNext | avr-Xinu/APIs/1-Wire /common/OWNext.c:46-54 | with either driver, and whatever the bridge answers, a search from the state that the last one left |
| RomSearch.OneWire.OWVerify | avr-Xinu/APIs/1-Wire /common/OWVerify.c:45-86 | TRUE exactly if the directed search, whatever it is answered, finds the same number; ROM_NO, both discrepancies and the flag are restored |
| RomSearch.OneWire.OWTargetSetup | avr-Xinu/APIs/1-Wire /common/OWTargetSetup.c:50-61 | the state aims at the family's code followed by zeros |
| RomSearch.OneWire.OWFamilySkipSetup | avr-Xinu/APIs/1-Wire /common/OWFamilySkipSetup.c:45-56 | the state aims past the recorded family fork, or at the end of the scan |
| RomSearch.OneWire.OWFirstType | avr-Xinu/APIs/1-Wire /common/OWutil.c:66-76 | TRUE exactly if the aimed search, whatever it is answered, succeeds with a device of the family |
| RomSearch.OneWire.OWNextType | avr-Xinu/APIs/1-Wire /common/OWutil.c:78-87 | TRUE exactly if the next search, whatever it is answered, succeeds with a device of the family |
| RomSearch.FamilyByte | avr-Xinu/APIs/1-Wire /singleGPIO/OWSearch.c:160 | the byte test that rejects a number is the test for an all-zero family code |
| Discovery.FirstSearch | avr-Xinu/APIs/1-Wire /common/OWFirst.c:46-54 | finds the least device and establishes the invariant between calls |
| Discovery.NextSearch | avr-Xinu/APIs/1-Wire /singleGPIO/OWSearch.c:99-156 | from every state that satisfies the invariant the search finds exactly the successor and keeps the invariant |
| Discovery.ReachedLastDevice | avr-Xinu/APIs/1-Wire /singleGPIO/OWSearch.c:151-153 | under the invariant the last-device flag is set exactly at the greatest device |
| Discovery.RunLists | avr-Xinu/APIs/1-Wire /common/OWNext.c:46-54 | what a run still returns is exactly the current device and the sound ones after it, in order |
| Discovery.EnumerationIsComplete | avr-Xinu/APIs/1-Wire /singleGPIO/OWSearch.c:52-169 | OWFirst, then OWNext until FALSE, lists exactly the devices before the first one with a wrong CRC or family 0, each once, ascending |
| Discovery.WholeBusListed | avr-Xinu/APIs/1-Wire /singleGPIO/OWSearch.c:145-166 | that is the whole bus exactly when every device is sound |
| Discovery.ListLength | avr-Xinu/APIs/1-Wire /TWIDriver/Xinu_mainDS2482.c:91-98 | such a list has as many entries as there are devices: that many searches return TRUE |
| Scans.ListDevices | avr-Xinu/APIs/1-Wire /TWIDriver/Xinu_mainDS2482.c:91-98 | with either driver the program's loop returns that list and leaves the state as at the start; it returns the beginning of the list if, and only as far as, a search is not answered in full |
| Families.NoConflictAtLastBit | avr-Xinu/APIs/1-Wire /common/OWTargetSetup.c:58 | among devices with a valid CRC there is never a conflict at bit 64, which makes 64 safe as a discrepancy |
| Families.VerifyIsMembership | avr-Xinu/APIs/1-Wire /common/OWVerify.c:57-76 | the directed search finds its number exactly when that device is on the bus |
| Scans.AccessSerialNumber | avr-Xinu/APIs/1-Wire /common/OWutil.c:57-64 | TRUE exactly if the directed search for the given number finds it, whatever the search state, which is kept except for ROM_NO; unless a stale status is taken for an answer, TRUE only if that device is on the bus, and exactly then if the search is answered in full |
| Families.TargetFindsFamily | avr-Xinu/APIs/1-Wire /common/OWTargetSetup.c:43-61 | the search after the setup finds the family's least device, or one of another family if there is none |
| Families.FamiliesContiguous | avr-Xinu/APIs/1-Wire /common/OWutil.c:78-87 | no other family lies between two devices of one family |
| Scans.FamilyScanStep | avr-Xinu/APIs/1-Wire /common/OWutil.c:78-87 | OWNextType gives the next member, or ends with no member missed |
| Scans.ListFamily | avr-Xinu/APIs/1-Wire /TWIDriver/Xinu_mainDS2482.c:137-142 | with either driver the loop over OWFirstType and OWNextType returns exactly the family's devices, each once, ascending; some of them if a search is not answered in full |
| Families.SkipFindsNextFamily | avr-Xinu/APIs/1-Wire /common/OWFamilySkipSetup.c:41-56 | after a skip the search finds the first device of the next family (or ends if there is none) if and only if the flag is set, the family discrepancy is 0, or the current bit there is 0 |
| Families.StaleSkipGoesBack | avr-Xinu/APIs/1-Wire /common/OWFamilySkipSetup.c:47-51 | in all other cases the search returns a device that is not later than the current one |
| Families.SkipKeepsInvariant | avr-Xinu/APIs/1-Wire /common/OWFamilySkipSetup.c:45-56 | the search after a skip restores the invariant between calls, with a family discrepancy that is not stale |
| Scans.SkipRepeatsDevice | avr-Xinu/APIs/1-Wire /common/OWFamilySkipSetup.c:45-56 | on a bus of three devices, OWFirst, OWNext, skip, OWNext finds the second device twice |
| Scans.DemoBus | avr-Xinu/APIs/1-Wire /common/OWFamilySkipSetup.c:45-56 | three concrete device numbers with valid CRC bytes that form such a bus |
| Filter.NextKeepsTidy | avr-Xinu/APIs/1-Wire /singleGPIO/OWSearch.c:113-115 | along any mixture of searches, a stale family discrepancy marks the fork past which only the current family lies |
| Filter.StaleSkipStays | avr-Xinu/APIs/1-Wire /common/OWFamilySkipSetup.c:45-56 | a skip that goes wrong happens in the last family only, finds a device of that family again, and cannot happen twice |
| Filter.UnwantedStep | avr-Xinu/APIs/1-Wire /TWIDriver/Xinu_mainDS2482.c:119-125 | skipping at an unwanted device misses no wanted one and repeats none, whether the skip works or goes wrong |
| Filter.ListExcept | avr-Xinu/APIs/1-Wire /TWIDriver/Xinu_mainDS2482.c:119-133 | with either driver the loop that skips unwanted families needs at most two more searches than there are devices, and returns exactly the devices of all other families, each once, ascending; some of them if a search is not answered in full |
| ByteOps.ByteLaws | avr-Xinu/platform/256rfr2XplainPro/stk500v2Boot/stk500boot.c:603-668 | the exclusive or of the checksum and the conjunction of flash writes, bit by bit: the one is 1 exactly where the operands differ, the other exactly where both are 1 |
| Stk500Frame.AcceptedIffChecksum | avr-Xinu/platform/256rfr2XplainPro/stk500v2Boot/stk500boot.c:601-668 | after a good header a message is processed exactly when its last byte is the checksum, with exactly its payload in the buffer |
| Stk500Frame.FrameRoundTrip | avr-Xinu/platform/256rfr2XplainPro/stk500v2Boot/stk500boot.c:966-991 | what the reply loop emits, the receiver accepts, with the same payload and sequence number |
| Stk500Frame.NoiseSkipped | avr-Xinu/platform/256rfr2XplainPro/stk500v2Boot/stk500boot.c:603-609 | bytes other than the start byte change nothing |
| Stk500Frame.WrongSequenceRejected | avr-Xinu/platform/256rfr2XplainPro/stk500v2Boot/stk500boot.c:611-622 | a sequence number that is neither 1 nor the expected one is rejected |
| Stk500Frame.WrongTokenRejected | avr-Xinu/platform/256rfr2XplainPro/stk500v2Boot/stk500boot.c:636-648 | a header whose fifth byte is not 0x0E returns the receiver to the start state |
| Stk500Frame.EraseFrame | avr-Xinu/platform/256rfr2XplainPro/stk500v2Boot/stk500boot.c:603-668 | CHIP_ERASE_ISP under the number 1 is the seven bytes 1B 01 00 01 0E 12 07, and these are received as a message of one byte, whatever number is expected |
| Stk500Frame.OneByteDamageRejected | avr-Xinu/platform/256rfr2XplainPro/stk500v2Boot/stk500boot.c:649-667 | altering any one byte of the payload or the checksum makes the receiver reject |
| Stk500Flash.BootSectionNeverErased | avr-Xinu/platform/256rfr2XplainPro/stk500v2Boot/stk500boot.c:867-873 | after any sequence of commands, with any data and any size of PROGRAM_FLASH that comes to an end, the erase cursor is page-aligned and no bit at or above APP_END has been set |
| Stk500Flash.BootSectionInNumbers | avr-Xinu/platform/256rfr2XplainPro/stk500v2Boot/stk500boot.c:228 | in numbers: after any sequence of commands the erase cursor is at most 0x3C000 and no bit from there to 0x3FFFF has been set |
| Stk500Flash.FillBlock | avr-Xinu/platform/256rfr2XplainPro/stk500v2Boot/stk500boot.c:875-885 | a block inside a page goes to its place in the erased page buffer word by word, and the rest of the buffer stays erased |
| Stk500Flash.ProgramBlockIff | avr-Xinu/platform/256rfr2XplainPro/stk500v2Boot/stk500boot.c:855-890 | the cells of a block inside a page, full or partial, hold the block after the command if and only if its own erase hits that page or no bit has to be set |
| Stk500Flash.WritesOnePage | avr-Xinu/platform/256rfr2XplainPro/stk500v2Boot/stk500boot.c:862-888 | whatever the size, only the page of the first byte is written |
| Stk500Pages.OthersKeptIff | avr-Xinu/platform/256rfr2XplainPro/stk500v2Boot/stk500boot.c:866-888 | whatever the size, all cells outside the page of the first byte are unchanged if and only if the page at the erase cursor is that page, is blank, or lies in the boot section |
| Stk500Pages.ProgramExactIff | avr-Xinu/platform/256rfr2XplainPro/stk500v2Boot/stk500boot.c:855-890 | the flash holds the block and is otherwise unchanged if and only if every cell that the erase hits is in the block or blank already, and in no other cell a bit has to be set |
| Stk500Pages.SecondBlockDestroysFirst | avr-Xinu/platform/256rfr2XplainPro/stk500v2Boot/stk500boot.c:867-873 | an input: on a blank device, after CHIP_ERASE and LOAD_ADDRESS to the second page, the first page of zeros gets there, and the next PROGRAM_FLASH erases it |
| Stk500Pages.LoadIff | avr-Xinu/platform/256rfr2XplainPro/stk500v2Boot/stk500boot.c:845-890 | LOAD_ADDRESS to any page and then any number of full pages, the erase cursor anywhere: the pages are in the flash and nothing else has changed if and only if every cell that an erase hits is written no earlier than erased or is to be blank, and in no other cell a bit has to be set |
| Stk500Pages.LoadAfterChipErase | avr-Xinu/platform/256rfr2XplainPro/stk500v2Boot/stk500boot.c:839-890 | the same behind CHIP_ERASE: from the first page on, the pages below the boot section need nothing; from a later page on, all that the erases hit has to be blank in the end |
| Stk500Pages.LaterPagesOnBlankDevice | avr-Xinu/platform/256rfr2XplainPro/stk500v2Boot/stk500boot.c:839-890 | on a blank device a program loaded to a later page is there if and only if it ends before the erases reach it or is blank where they do |
| Stk500Flash.UnerasedPage | avr-Xinu/platform/256rfr2XplainPro/stk500v2Boot/stk500boot.c:867-873 | an input that fails: after CHIP_ERASE and LOAD_ADDRESS to the second page, a full page of ones does not get into it |
| Stk500Flash.SessionWritesImage | avr-Xinu/platform/256rfr2XplainPro/stk500v2Boot/stk500boot.c:839-914 | CHIP_ERASE, LOAD_ADDRESS 0 and full pages: the flash holds the image, is otherwise unchanged, and the two cursors have kept step |
| Stk500Flash.SessionWithTail | avr-Xinu/platform/256rfr2XplainPro/stk500v2Boot/stk500boot.c:839-914 | the same with a shorter last block, the rest of whose page is erased |
| Stk500Flash.FullSession | avr-Xinu/platform/256rfr2XplainPro/stk500v2Boot/stk500boot.c:839-914 | 960 pages of 256 bytes fill the application section to its last byte, and the boot section from 0x3C000 on is as it was |
| Stk500Flash.ReadBack | avr-Xinu/platform/256rfr2XplainPro/stk500v2Boot/stk500boot.c:916-940 | reading any even-addressed piece of the image returns it |
| Stk500Boot.Bootloader.ReceiveByte | avr-Xinu/platform/256rfr2XplainPro/stk500v2Boot/stk500boot.c:601-668 | the C variables take the step of the receiver's specification |
| Stk500Boot.Bootloader.ProgramFlashIsp | avr-Xinu/platform/256rfr2XplainPro/stk500v2Boot/stk500boot.c:855-890 | erase, fill and write have the effect of the specification's Program on flash, page buffer and both cursors |
| Stk500Boot.Bootloader.ReadFlashIsp | avr-Xinu/platform/256rfr2XplainPro/stk500v2Boot/stk500boot.c:916-955 | the buffer holds command, status, the flash contents at the address, status; only the address moves |
| Stk500Boot.Bootloader.SendAnswer | avr-Xinu/platform/256rfr2XplainPro/stk500v2Boot/stk500boot.c:966-992 | emits exactly the frame of the buffer's message and advances the sequence number modulo 256 |
| Stk500Boot.Bootloader.MainLoopPass | avr-Xinu/platform/256rfr2XplainPro/stk500v2Boot/stk500boot.c:563-999 | a received message is executed once and answered under its own sequence number |
| Stk500Boot.LoadAddressMessage | avr-Xinu/platform/256rfr2XplainPro/stk500v2Boot/stk500boot.c:845-853 | the word address is read most significant byte first |
| Stk500Boot.ProgramMessage | avr-Xinu/platform/256rfr2XplainPro/stk500v2Boot/stk500boot.c:855-862 | a block of any even size behind ten header bytes is decoded as exactly that block |
| Stk500Boot.FrameFits | avr-Xinu/platform/256rfr2XplainPro/stk500v2Boot/stk500boot.c:649-656 | a frame with 1 to 285 payload bytes never overruns the message buffer |
| Stk500Session.NoisyFrameReceived | avr-Xinu/platform/256rfr2XplainPro/stk500v2Boot/stk500boot.c:569-669 | noise followed by a frame under the expected number, or under 1, is received as the frame's message, within the buffer |
| Stk500Session.MainLoop | avr-Xinu/platform/256rfr2XplainPro/stk500v2Boot/stk500boot.c:563-999 | any number of framed messages with noise between them, numbered from the expected number or from 1: the commands are executed in order and each is answered under its own number |
| Stk500Session.EraseOverTheLine | avr-Xinu/platform/256rfr2XplainPro/stk500v2Boot/stk500boot.c:563-999 | one exchange byte for byte: the frame of CHIP_ERASE_ISP comes in, 1B 01 00 02 0E 12 00 04 goes out, the erase cursor is 0 and the number 2 is expected |
| Stk500Session.SessionMeans | avr-Xinu/platform/256rfr2XplainPro/stk500v2Boot/stk500boot.c:839-862 | the bytes of a programming session decode to the session's commands, whatever older messages left in the buffer |
| Stk500Session.Upload | avr-Xinu/platform/256rfr2XplainPro/stk500v2Boot/stk500boot.c:563-999 | from bytes on the line to flash: after the session's messages, with a partial last block or without, the flash holds the image and is otherwise unchanged, and the host has received the answer to each command under its number |
| Stk500Session.Download | avr-Xinu/platform/256rfr2XplainPro/stk500v2Boot/stk500boot.c:845-955 | the answer to a read request, numbered from the expected number or from 1, is a frame around exactly the requested piece of the image |
| Stk500Verify.VerifyPass | avr-Xinu/platform/256rfr2XplainPro/stk500v2Boot/stk500boot.c:563-999 | a whole verify pass, LOAD_ADDRESS once and then READ_FLASH piece after piece: the data of the answers, put together, is what the flash holds from that address on, however it is cut, and only the address has moved |
| Calendar.LeapsCountLeapYears | avr-Xinu/APIs/owl_pico-r2844/wlp_ntp.c:170-173 | the difference of the closed forms counts the leap years between |
| Calendar.Div | avr-Xinu/APIs/owl_pico-r2844/wlp_ntp.c:170 | truncated division with the macro's correction rounds down |
| Calendar.DayNumberMeaning | avr-Xinu/APIs/owl_pico-r2844/wlp_ntp.c:135-141 | the calendar that turns over day by day agrees with the closed form for years, the month table and the weekday formula |
| Calendar.GregorianCycle | avr-Xinu/APIs/owl_pico-r2844/wlp_ntp.c:132-193 | 146097 days later it is the same date 400 years later, on the same weekday |
| Calendar.KnownDays | avr-Xinu/APIs/owl_pico-r2844/wlp_ntp.c:132-193 | three dates in numbers: 29 February 2000 a Tuesday, 1 March 2100 a Monday, 7 February 2106 a Sunday |
| Calendar.MonthLengths | avr-Xinu/APIs/owl_pico-r2844/wlp_ntp.c:135-141 | the lengths of the twelve months |
| Calendar.DateUnique | avr-Xinu/APIs/owl_pico-r2844/wlp_ntp.c:184-191 | a day count belongs to one well-formed date only |
| Calendar.OneGuess | avr-Xinu/APIs/owl_pico-r2844/wlp_ntp.c:176-182 | one pass keeps (days before year y) + days, and bounds how far it overshoots |
| Calendar.GuessIsCloser | avr-Xinu/APIs/owl_pico-r2844/wlp_ntp.c:174-183 | every pass ends the loop or strictly lowers a measure, although days may become negative |
| Calendar.FindYear | avr-Xinu/APIs/owl_pico-r2844/wlp_ntp.c:169-183 | terminates for every natural day count with the right year and day of the year; at most two passes below 133225 days, more than 32-bit times reach |
| Calendar.FindMonth | avr-Xinu/APIs/owl_pico-r2844/wlp_ntp.c:186-190 | the month whose days contain the day of the year |
| Calendar.NtpOfftime | avr-Xinu/APIs/owl_pico-r2844/wlp_ntp.c:132-193 | for every 32-bit t the fields are the day that the day-by-day calendar reaches, weekday and day of the year included, and convert back to t; 951827696 is 12:34:56 on 29 February 2000 |
| SockList.SockTable.Append | avr-Xinu/APIs/owl_pico-r2844/wlp_api/wlp_api.c:346-357 | the new node becomes the last, and the chain is otherwise the same |
| SockList.SockTable.Find | avr-Xinu/APIs/owl_pico-r2844/wlp_api/wlp_api.c:1013-1021 | the first node with the id, or null if there is none |
| SockList.SockTable.LookUp | avr-Xinu/APIs/owl_pico-r2844/wlp_api/wlp_api.c:363-459 | the calls that take an id change the first entry with it as specified, null callbacks included, and nothing else; they fail exactly if there is none |
| SockList.SockTable.Accept | avr-Xinu/APIs/owl_pico-r2844/wlp_api/wlp_api.c:462-498 | on a list that holds a socket, a connected entry is added at the tail, or nothing changes if the device refuses |
| SockList.SockTable.Close | avr-Xinu/APIs/owl_pico-r2844/wlp_api/wlp_api.c:501-554 | during a poll only marks the first unmarked entry with the id, otherwise unlinks and frees exactly that node |
| SockList.Sock.Poll | avr-Xinu/APIs/owl_pico-r2844/wlp_api/wlp_api.c:756-796 | the poll's tests for one socket have the outcome of the specification Dispatch, and each of the five callbacks is chosen exactly under its condition on the entry, the pending byte count and the reported state |
| SockEvents.WhichCallback | avr-Xinu/APIs/owl_pico-r2844/wlp_api/wlp_api.c:763-796 | when each of the five callbacks is invoked, and what becomes of the two flags, as conditions on the entry, the pending byte count and the reported state alone |
| SockEvents.SettingsTakeEffect | avr-Xinu/APIs/owl_pico-r2844/wlp_api/wlp_api.c:363-447 | a callback that was set is the one that the next poll with its event invokes, and one that was taken away is not |
| SockEvents.ClearingStartsAnew | avr-Xinu/APIs/owl_pico-r2844/wlp_api/wlp_api.c:418-447 | after a listen or a connect the outcome is signalled anew, whatever was signalled before, and only the given callback has changed |
| SockEvents.NewSockets | avr-Xinu/APIs/owl_pico-r2844/wlp_api/wlp_api.c:321-498 | a refused socket or accept changes nothing; a new socket has no callback, and only one from accept is connected |
| SockEvents.FlagsExclude | avr-Xinu/APIs/owl_pico-r2844/wlp_api/wlp_api.c:766-775 | over the life of a socket CONNECTED and ERROR are never set together |
| SockEvents.ConnUpAlternates | avr-Xinu/APIs/owl_pico-r2844/wlp_api/wlp_api.c:763-768 | between two signals that a connection is up there is its end, signalled, or a listen or connect |
| SockEvents.ConnDownOnce | avr-Xinu/APIs/owl_pico-r2844/wlp_api/wlp_api.c:770-776 | a failure is signalled once until the socket is up or used again |
| SockEvents.EndSignalledOnce | avr-Xinu/APIs/owl_pico-r2844/wlp_api/wlp_api.c:790-795 | the end is signalled once for each time that the connection was up |
| SockEvents.DataThenEnd | avr-Xinu/APIs/owl_pico-r2844/wlp_api/wlp_api.c:782-796 | when a connection is gone but data is still pending, poll after poll passes the data on, and the first that finds none left signals the end |
| SockList.SockTable.TraverseAll | avr-Xinu/APIs/owl_pico-r2844/wlp_api/wlp_api.c:752-797 | every node is visited once, those added on the way included; no node is unlinked or freed |
| SockList.SockTable.SweepMarked | avr-Xinu/APIs/owl_pico-r2844/wlp_api/wlp_api.c:804-821 | exactly the unmarked nodes remain, in order, and each marked one is freed once |
| SockList.SockTable.PollSockets | avr-Xinu/APIs/owl_pico-r2844/wlp_api/wlp_api.c:748-821 | a whole poll with arbitrary callbacks: the visited nodes extend the old list, the new list is their unmarked part, and no mark is left; if the poll is smooth, it is the list that closing at once would have led to |
| SockModel.TraverseOnlyGrows | avr-Xinu/APIs/owl_pico-r2844/wlp_api/wlp_api.c:748-797 | during the traversal the list only grows at its tail |
| SockModel.MarksPersist | avr-Xinu/APIs/owl_pico-r2844/wlp_api/wlp_api.c:539-542 | as long as no callback listens or connects, a marked entry stays marked until the sweep |
| SockModel.SweepKeeps | avr-Xinu/APIs/owl_pico-r2844/wlp_api/wlp_api.c:804-821 | an entry survives exactly if it is not marked |
| SockModel.CloseDeferred | avr-Xinu/APIs/owl_pico-r2844/wlp_api/wlp_api.c:518-551 | marking now and sweeping later is closing at once on the live list |
| SockModel.CallbackDeferred | avr-Xinu/APIs/owl_pico-r2844/wlp_api/wlp_api.c:518-551 | a run of calls in one callback, swept, is the same run at once on the live list, if each call is harmless |
| SockModel.OpenAcceptCloseUndisturbed | avr-Xinu/APIs/owl_pico-r2844/wlp_api/wlp_api.c:321-554 | runs of socket, accept and close always are |
| SockModel.CallIsExact | avr-Xinu/APIs/owl_pico-r2844/wlp_api/wlp_api.c:363-554 | for every call: made during a poll it leads to the same list as made at once, if and only if it does not find a marked entry, or only sets a callback that the live entry has already or that no live entry could take |
| SockModel.ClearingIsExact | avr-Xinu/APIs/owl_pico-r2844/wlp_api/wlp_api.c:418-447 | listen and connect during a poll are equivalent to immediate ones if and only if they do not find a marked entry |
| SockModel.SettingIsExact | avr-Xinu/APIs/owl_pico-r2844/wlp_api/wlp_api.c:363-388 | a callback set on a marked entry is lost: equivalent if and only if the live entry with the id, if there is one, has that setting |
| SockModel.CloseThenConnect | avr-Xinu/APIs/owl_pico-r2844/wlp_api/wlp_api.c:437-447 | close, then connect, in one callback leaves a socket that immediate closing would have removed |
| SockModel.ReuseLosesCallback | avr-Xinu/APIs/owl_pico-r2844/wlp_api/wlp_api.c:522-531 | when the device reuses the id of a socket closed during the poll, the callback set for the new socket goes to the old entry and is lost |
| SockModel.ReuseRevivesSocket | avr-Xinu/APIs/owl_pico-r2844/wlp_api/wlp_api.c:522-531 | when it does, connecting the new socket brings the old one back beside it |
| SockPoll.CallsMeaning | avr-Xinu/APIs/owl_pico-r2844/wlp_api/wlp_api.c:752-796 | a poll calls back exactly the entries for which a guard holds when it comes to them, closed or not, and none that it has passed |
| SockPoll.ClosedSocketCalledBack | avr-Xinu/APIs/owl_pico-r2844/wlp_api/wlp_api.c:752-776 | an input: a socket that an earlier callback closed is called back, and its callback opens another |
| SockPoll.ClosedVisitIsExact | avr-Xinu/APIs/owl_pico-r2844/wlp_api/wlp_api.c:752-796 | visiting a closed socket leaves no trace, whatever its callback does, if and only if no guard holds for it |
| SockPoll.PollRefinesAtOnce | avr-Xinu/APIs/owl_pico-r2844/wlp_api/wlp_api.c:748-821 | a poll in which every call is harmless and no closed socket is called back invokes the same callbacks in the same order, and leaves the same list, as a poll in which a close takes effect at once |
| SockPoll.SmoothIff | avr-Xinu/APIs/owl_pico-r2844/wlp_api/wlp_api.c:748-821 | if callbacks only open, accept and close, a poll is smooth if and only if no closed socket is called back |
| SockExact.PollIsExact | avr-Xinu/APIs/owl_pico-r2844/wlp_api/wlp_api.c:748-821 | if callbacks only open, accept and close, and no two sockets with callbacks have one id at the start: the poll invokes the same callbacks as one in which a close takes effect at once, and then leaves the same list, if and only if no closed socket is called back |
| SockExact.NeverLogged | avr-Xinu/APIs/owl_pico-r2844/wlp_api/wlp_api.c:748-796 | a poll that closes at once never calls back an id whose live sockets have no callbacks, which new sockets have not |
| SockExact.OwnClosesSuffice | avr-Xinu/APIs/owl_pico-r2844/wlp_api/wlp_api.c:501-554 | if each callback closes no socket but its own, no closed socket is called back, and the two polls are the same |
| Checksum.AccumulatorFits | avr-Xinu/APIs/owl_pico-r2844/wlp_ping.c:112-142 | up to 65535 bytes never overflow the 32-bit accumulator |
| Checksum.AddCarries | avr-Xinu/APIs/owl_pico-r2844/wlp_ping.c:142-147 | at most two folds give the ones' complement sum |
| Checksum.StandardChksum | avr-Xinu/APIs/owl_pico-r2844/wlp_ping.c:114-152 | the byte-swapped ones' complement sum of the big-endian words, a last odd byte counting as a high byte |
| Checksum.InetChksum | avr-Xinu/APIs/owl_pico-r2844/wlp_ping.c:163-173 | the inverse of that sum |
| Checksum.SumOfParts | avr-Xinu/APIs/owl_pico-r2844/wlp_ping.c:124-141 | a message may be summed in parts of even length |
| Checksum.ByteOrderIrrelevant | avr-Xinu/APIs/owl_pico-r2844/wlp_ping.c:122 | summing little-endian words gives the same sum, byte-swapped |
| Checksum.PacketChecks | avr-Xinu/APIs/owl_pico-r2844/wlp_ping.c:242-248 | storing the checksum computed over a zero field makes the packet check to 0 |
| Checksum.NumericalExample | avr-Xinu/APIs/owl_pico-r2844/wlp_ping.c:112-173 | the numerical example of section 3 of RFC 1071, and the place of a last odd byte |
| Checksum.FillPacket | avr-Xinu/APIs/owl_pico-r2844/wlp_ping.c:242-248 | the packet that goes out checks to 0, has id and sequence number in network order, and keeps its data |
| TwiChain.Twi.DoCommand | avr-Xinu/APIs/1-Wire /TWIDriver/twi.c:87-107 | the driver's state after any events is that of the specification Play; it waits exactly while the interface is in use, SYSERR is returned exactly if an event was a failure, and OK means that every block's bytes are those that the bus carried |
| TwiChain.AtMostOneMessage | avr-Xinu/APIs/1-Wire /TWIDriver/twi.c:115-193 | over every run at most one message is sent, and none while the command is under way |
| TwiChain.SyserrIffFailure | avr-Xinu/APIs/1-Wire /TWIDriver/twi.c:181-192 | over every run: the waiting process gets SYSERR if and only if an event that could happen was an address or byte not acknowledged, a bus error or an unforeseen status |
| TwiChain.FailureIsFinal | avr-Xinu/APIs/1-Wire /TWIDriver/twi.c:181-192 | from that event on the interface is disabled, and nothing that follows changes anything |
| TwiChain.NobodyThere | avr-Xinu/APIs/1-Wire /TWIDriver/twi.c:181-192 | a first block, of either kind, whose address no slave acknowledges: SYSERR |
| TwiChain.Twi.Interrupt | avr-Xinu/APIs/1-Wire /TWIDriver/twi.c:136-193 | for every status that the hardware can raise the C variables take the step of the specification Handle, inside the buffer |
| TwiChain.OkMeansDelivered | avr-Xinu/APIs/1-Wire /TWIDriver/twi.c:115-193 | an OK means that the bus carried each write block's bytes, all of them in order, and that each read block's buffer holds exactly the bytes that the bus delivered for it |
| TwiChain.LossRestartsBlock | avr-Xinu/APIs/1-Wire /TWIDriver/twi.c:178-180 | after arbitration loss at any point, the current block starts again from its first byte |
| TwiChain.FaultFreeBusIsOk | avr-Xinu/APIs/1-Wire /TWIDriver/twi.c:115-193 | on a bus without faults every command ends in OK, and each read block holds what the slave sent |
| InetAddr.HtonlReverses | avr-Xinu/APIs/owl_pico-r2844/wlp_api/wlp_inet.c:16-27 | htonl reverses the bytes in memory |
| InetAddr.HtonlUndone | avr-Xinu/APIs/owl_pico-r2844/wlp_api/wlp_inet.c:16-27 | applied twice it gives every word back |
| InetAddr.Loopback | avr-Xinu/APIs/owl_pico-r2844/wlp_api/wlp_inet.c:16-182 | the bytes 127, 0, 0, 1 in this order in memory print as 127.0.0.1 |
| InetAddr.Digits | avr-Xinu/APIs/owl_pico-r2844/wlp_api/wlp_inet.c:169-174 | the digits of a byte, last first, within three characters |
| InetAddr.InetNtoa | avr-Xinu/APIs/owl_pico-r2844/wlp_api/wlp_inet.c:154-182 | the dotted decimal text and its NUL, within sixteen characters |
| InetNumber.ReadDigits | avr-Xinu/APIs/owl_pico-r2844/wlp_api/wlp_inet.c:80-90 | the end and the 32-bit value of the row of digits, without reading past the text |
| InetNumber.NumeralStops | avr-Xinu/APIs/owl_pico-r2844/wlp_api/wlp_inet.c:68-90 | a C number is read to its end, and its value is the number it denotes, wrapped to 32 bits once |
| InetAton.InetAton | avr-Xinu/APIs/owl_pico-r2844/wlp_api/wlp_inet.c:53-144 | accepts as the specification Aton does and stores its value in network order |
| InetAton.AtonAccepts | avr-Xinu/APIs/owl_pico-r2844/wlp_api/wlp_inet.c:53-144 | a text is accepted if and only if it is one to four C numbers with dots between them, a NUL or blank follows, and the last number fits the bits left over |
| InetAton.AtonValue | avr-Xinu/APIs/owl_pico-r2844/wlp_api/wlp_inet.c:111-140 | the value is that of the numbers the text is made of |
| InetForms.TwoParts | avr-Xinu/APIs/owl_pico-r2844/wlp_api/wlp_inet.c:123-127 | a.b is the top byte, a modulo 256, and 24 bits |
| InetForms.ThreeParts | avr-Xinu/APIs/owl_pico-r2844/wlp_api/wlp_inet.c:129-133 | a.b.c is two bytes, a modulo 256, and 16 bits |
| InetAton.FourParts | avr-Xinu/APIs/owl_pico-r2844/wlp_api/wlp_inet.c:135-139 | four bytes make the address with the first byte on top |
| InetForms.FourPartsByBit | avr-Xinu/APIs/owl_pico-r2844/wlp_api/wlp_inet.c:135-139 | whatever the first three numbers are, a bit of the address is 1 exactly if it is in one of the numbers, shifted to its place and cut off at 32 bits |
| InetForms.FourPartsModulo | avr-Xinu/APIs/owl_pico-r2844/wlp_api/wlp_inet.c:135-139 | three bytes, the first modulo 256, and a last number that is refused above 255 |
| InetForms.LargeFirstNumber | avr-Xinu/APIs/owl_pico-r2844/wlp_api/wlp_inet.c:123-139 | a dotted text with a first number of any size is accepted, and that number is taken modulo 256 |
| InetForms.Accepts256 | avr-Xinu/APIs/owl_pico-r2844/wlp_api/wlp_inet.c:123-139 | "256.0.0.1" reads as 0.0.0.1 |
| InetForms.AcceptsOctalNines | avr-Xinu/APIs/owl_pico-r2844/wlp_api/wlp_inet.c:80-84 | "019" reads as 17 |
| InetForms.NumbersOverlap | avr-Xinu/APIs/owl_pico-r2844/wlp_api/wlp_inet.c:135-139 | "1.256.0.1" reads as 1.0.0.1 |
| InetForms.HexDigits | avr-Xinu/APIs/owl_pico-r2844/wlp_api/wlp_inet.c:84-87 | the sixteen digits in both cases have the values 0 to 15 |
| InetForms.HexAddress | avr-Xinu/APIs/owl_pico-r2844/wlp_api/wlp_inet.c:70-89 | "0xC0a80001" reads as 192.168.0.1 |
| InetForms.HexPrefixes | avr-Xinu/APIs/owl_pico-r2844/wlp_api/wlp_inet.c:70-79 | "0x" reads as 0, and "0X1f" as 31 |
| InetForms.WhatMayFollow | avr-Xinu/APIs/owl_pico-r2844/wlp_api/wlp_inet.c:106-110 | what follows a number, if it is no digit and no dot, must be a blank or the end of the text |
| InetAton.DecimalIsNumeral | avr-Xinu/APIs/owl_pico-r2844/wlp_api/wlp_inet.c:70-79 | no printed number is misread as octal |
| InetAton.RoundTrip | avr-Xinu/APIs/owl_pico-r2844/wlp_api/wlp_inet.c:53-182 | reading the printed text of any of the 2^32 addresses succeeds and gives the address back |
| Matcher.FoldsLetters | avr-Xinu/APIs/owl_pico-r2844/httpd/match.c:20 | without case exactly the 26 letters fold; with case no character does |
| Matcher.MatchString | avr-Xinu/APIs/owl_pico-r2844/httpd/match.c:7-45 | the loop computes the specification Scan on the folded text, match position and new offset included |
| Matcher.ScanSplit | avr-Xinu/APIs/owl_pico-r2844/httpd/match.c:16-19 | carrying the offset across any split of the text gives the same result as one call on the whole |
| Matcher.FoundIsMatch | avr-Xinu/APIs/owl_pico-r2844/httpd/match.c:22-37 | every reported position ends an occurrence of the pattern |
| Matcher.RegularFindsFirst | avr-Xinu/APIs/owl_pico-r2844/httpd/match.c:22-37 | for a regular pattern the offset is the longest pattern prefix that ends the text, and no earlier occurrence is passed over |
| Matcher.FirstCharacterUniqueIsRegular | avr-Xinu/APIs/owl_pico-r2844/httpd/match.c:27-32 | a pattern whose first character does not recur is regular |
| Matcher.MatcherReliableIff | avr-Xinu/APIs/owl_pico-r2844/httpd/match.c:21-37 | the matcher finds an occurrence in every text that has one followed by another character, if and only if the pattern is regular |
| Matcher.RegularReportsIff | avr-Xinu/APIs/owl_pico-r2844/httpd/match.c:22-37 | for a regular pattern a match is reported if and only if a character follows one in the buffer |
| Matcher.MatchAtEndIsPending | avr-Xinu/APIs/owl_pico-r2844/httpd/match.c:22-42 | for a regular pattern and any text, the full offset is left waiting, unreported, if and only if the first match ends the text; the next character then reports it |
| Matcher.MissedPattern | avr-Xinu/APIs/owl_pico-r2844/httpd/match.c:27-32 | "aab" is not found in "aaabx" |

## Left out

- 1-Wire waveforms, delays, bus shorts and the I2C transfers of OWReset and OWWriteByte: hardware; the bus here is the logical one, and devices neither join nor leave during a search.
- Scans.ListDevices: needs a driver that does not take a stale status for an answer; with one, a search can return any number whose CRC fits.
- Scans.ListFamily: the same.
- Filter.ListExcept: the same.
- The status register's bits other than busy, SBR, TSB and DIR are 0.
- Loop bodies that the two searches share, long loop bodies elsewhere, and the cases of the bootloader's switch are methods of their own; the C code has them in line.
- The alarm search command and the copies of the 1-Wire files under I2Cbridge: the same search.
- Bootloader commands other than CHIP_ERASE, LOAD_ADDRESS, PROGRAM_FLASH and READ_FLASH: SIGN_ON, parameters, signature, fuses, lock bits, EEPROM, SPI_MULTI and the monitor; in Stk500Flash they occur as one command that leaves any number in the address.
- Stk500Boot.Bootloader.MainLoopPass: does not cover those commands, messages of length 0 or above 285, and data sizes that are odd, 0 or larger than the buffer, for which the C loops leave the buffer or do not end.
- Stk500Flash.BootSectionNeverErased: covers READ_FLASH with sizes whose answer the message buffer holds.
- Stk500Session.MainLoop: does not cover messages that carry the commands left out.
- Stk500Boot.Bootloader.ProgramFlashIsp: does not cover sizes whose bytes lie behind the buffer; what such a command does to the flash, whatever those bytes are, is in Stk500Flash.
- Stk500Boot.Bootloader.ReadFlashIsp: does not cover sizes whose answer would overwrite what lies behind the buffer.
- The flash and page sizes of the ATmega256RFR2 are written out here as constants; the device headers that hold them are not part of this model. A word of the page buffer that one over-long block fills twice is replaced here.
- The two loops of ntp_offtime that normalise a time zone offset: the offset is the constant 0, so they never run. Time stamps are unbounded integers below 2^32 here, and all intermediate values fit the code's 32-bit types.
- The carry loop of inet_chksum: its operand is a 16-bit value, so it never runs.
- The device side of the wlp calls (requests and their replies), link, address and DNS events of wlp_poll, memory exhaustion, and a poll inside a callback: results of the device are arbitrary inputs.
- Callback functions are whether one is set, and what it does is a sequence of calls.
- SockPoll.PollRefinesAtOnce: one direction only for polls whose callbacks also listen, connect or set callbacks; the exact condition is SockExact.PollIsExact where they do not, and SockModel.CallIsExact call by call.
- SockList.SockTable.Accept: needs a socket in the list, as the C code does: it follows the list's head without a test.
- TwiChain.Twi.DoCommand: does not model two blocks that share a buffer, cyclic chains, read blocks of length 0 (the counter then wraps to 255), or a zero process id, for which no message is sent.
- Checksum.FillPacket: does not cover the transmission of the packet, the counters and the timer.
- InetAton.InetAton: does not model the null pointer by which a caller asks for validation only.
- Matcher.MatchString: does not model the null pointer by which a caller declines to resume; the offset 0 gives the same result.
- Kernel, shell, web pages, time of sunrise, conversions of temperature and voltage: hardware, user interface or floating point.
