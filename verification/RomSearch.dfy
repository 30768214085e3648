/**
  The search state kept between calls, and what one search does to it.

  `Search` says what a call of the search must leave behind, for any devices and any state, and
  `TripletOutcome` what the search by triplets makes of the status bytes that it gets.  The
  class holds the C globals.
*/
module RomSearch {
  import opened RomTrie
  import opened Crc8
  import opened OneWireBus

  const FAMILY_BITS: nat := 8

  /** ROM_NO, LastDiscrepancy, LastFamilyDiscrepancy and LastDeviceFlag. */
  datatype Cursor = Cursor(rom: Rom, last: int, family: int, done: bool)

  datatype Outcome = Outcome(found: bool, cursor: Cursor, crc: bv8)

  function Min(a: int, b: int): int {
    if a < b then a else b
  }

  /** The last zero inside the family byte; 0 keeps the value of an earlier search. */
  ghost function FamilyZero(S: set<Rom>, path: Rom, old_: int): int {
    var z := LastZero(S, path[..Min(FAMILY_BITS, |path|)]);
    if z > 0 then z else old_
  }

  predicate ZeroFamily(rom: Rom)
    requires |rom| == ROM_BITS
  {
    forall i :: 0 <= i < FAMILY_BITS ==> !rom[i]
  }

  /** A device number that the search accepts: its CRC byte fits and its family is not 0. */
  predicate Sound(rom: Rom) {
    |rom| == ROM_BITS && Feed(0, rom) == 0 && !ZeroFamily(rom)
  }

  function Restart(rom: Rom): Cursor {
    Cursor(rom, 0, 0, false)
  }

  /** One search on a bus with the devices S, if the first `answered` bit positions get an answer. */
  ghost function Search(S: set<Rom>, c: Cursor, answered: nat): Outcome
    requires |c.rom| == ROM_BITS && answered <= ROM_BITS
  {
    if c.done || S == {} then Outcome(false, Restart(c.rom), 0)
    else
      var leaf := Descend(S, c.rom, c.last, []);
      var crc := Feed(0, WholeBytes(leaf[..answered]));
      if answered == ROM_BITS && Sound(leaf) then
        Outcome(true, Cursor(leaf, LastZero(S, leaf), FamilyZero(S, leaf, c.family), LastZero(S, leaf) == 0), crc)
      else Outcome(false, Restart(Patched(c.rom, leaf[..answered])), crc)
  }

  /** What a search leaves behind that has recorded these bits, and these zeros on the way. */
  function Finish(c: Cursor, bits: Rom, lastZero: int, family: int): Outcome
    requires |bits| <= ROM_BITS == |c.rom|
  {
    var crc := Feed(0, WholeBytes(bits));
    if |bits| == ROM_BITS && Sound(bits) then Outcome(true, Cursor(bits, lastZero, family, lastZero == 0), crc)
    else Outcome(false, Restart(Patched(c.rom, bits)), crc)
  }

  /** A complete search succeeds exactly if the number at the end of the walk has a zero CRC register
      and a one among its first eight bits; otherwise the three variables are back at their start. */
  lemma SearchFinds(S: set<Rom>, c: Cursor)
    requires |c.rom| == ROM_BITS && Uniform(S, ROM_BITS)
    ensures var o, leaf := Search(S, c, ROM_BITS), Descend(S, c.rom, c.last, []);
            (S != {} ==> |leaf| == 64) &&
            (o.found <==> !c.done && S != {} && Feed(0, leaf) == 0 && exists i :: 0 <= i < 8 && leaf[i]) &&
            (if o.found then o.cursor.rom == leaf
             else o.cursor.last == 0 && o.cursor.family == 0 && !o.cursor.done)
  {
    if S != {} {
      var d :| d in S;
      assert [] <= d;
      LeafIsDevice(S, c.rom, c.last, []);
    }
  }

  /** The same for the search by triplets, which looks at the bits that it was told. */
  lemma TripletsFind(c: Cursor, statuses: seq<bv8>)
    requires |statuses| <= ROM_BITS == |c.rom|
    ensures var o, bits := TripletOutcome(c, statuses), Directions(statuses);
            (o.found <==> |statuses| == 64 && Feed(0, bits) == 0 && exists i :: 0 <= i < 8 && bits[i]) &&
            (if o.found then o.cursor.rom == bits
             else o.cursor.last == 0 && o.cursor.family == 0 && !o.cursor.done)
  {
  }

  lemma {:induction false} ZerosFeedZero(n: nat)
    ensures Feed(0, seq(n, i => false)) == 0
  {
    if n > 0 {
      ZerosFeedZero(n - 1);
      assert seq(n, i => false)[..n - 1] == seq(n - 1, i => false);
    }
  }

  /** 64 zero bits: the CRC fits, and the number is refused all the same. */
  lemma ZerosRefused(rom: Rom)
    requires rom == seq(64, i => false)
    ensures Feed(0, rom) == 0 && !Search({rom}, Restart(rom), ROM_BITS).found
  {
    ZerosFeedZero(64);
    assert rom in {rom};
    FreshSearchFindsLeast({rom}, rom);
    SearchFinds({rom}, Restart(rom));
  }

  // ----- seeds for directed searches

  /** OWVerify: aim at the number in ROM_NO. */
  function Aim(c: Cursor): Cursor {
    c.(last := ROM_BITS, done := false)
  }

  /** OWTargetSetup: aim at a family. */
  function Target(family: bv8): Cursor {
    Cursor(ByteBits(family) + seq(ROM_BITS - FAMILY_BITS, i => false), ROM_BITS, 0, false)
  }

  /** OWFamilySkipSetup. */
  function Skip(c: Cursor): Cursor {
    Cursor(c.rom, c.family, 0, c.done || c.family == 0)
  }

  function Family(rom: Rom): Rom
    requires |rom| == ROM_BITS
  {
    rom[..FAMILY_BITS]
  }

  // ----- device numbers as bytes

  function RomBits(bytes: seq<bv8>): (bits: Rom)
    requires |bytes| == 8
    ensures |bits| == ROM_BITS
  {
    seq(ROM_BITS, k requires 0 <= k < ROM_BITS => BitOf(bytes[k / 8], k % 8))
  }

  lemma MasksDisjoint(i: nat, j: nat)
    requires i < 8 && j < 8
    ensures Mask(i) != 0 && Mask(i) & Mask(j) == if i == j then Mask(i) else 0
  {
    Masks();
  }

  lemma MaskSets(byte: bv8, mask: bv8, other: bv8)
    requires mask & other == if mask == other then mask else 0
    requires mask != 0 && other != 0
    ensures ((byte | mask) & other != 0) == (mask == other || byte & other != 0)
    ensures mask == other ==> (byte & !mask) & other == 0
    ensures mask != other ==> ((byte & !mask) & other != 0) == (byte & other != 0)
  {
  }

  function WithBit(byte: bv8, i: nat, bit: bool): bv8 {
    if bit then byte | Mask(i) else byte & !Mask(i)
  }

  lemma WithBitSets(byte: bv8, i: nat, bit: bool, j: nat)
    requires i < 8 && j < 8
    ensures BitOf(WithBit(byte, i, bit), j) == if i == j then bit else BitOf(byte, j)
  {
    MasksDisjoint(i, j);
    MasksDisjoint(j, i);
    MaskSets(byte, Mask(i), Mask(j));
  }

  lemma SetRomBit(bytes: seq<bv8>, n: nat, i: nat, bit: bool)
    requires |bytes| == 8 && n < 8 && i < 8
    ensures RomBits(bytes[n := WithBit(bytes[n], i, bit)]) == RomBits(bytes)[8 * n + i := bit]
  {
    var byte := WithBit(bytes[n], i, bit);
    var a, b := RomBits(bytes[n := byte]), RomBits(bytes)[8 * n + i := bit];
    forall k | 0 <= k < ROM_BITS ensures a[k] == b[k] {
      WithBitSets(bytes[n], i, bit, k % 8);
    }
  }

  lemma RomByte(bytes: seq<bv8>, n: nat)
    requires |bytes| == 8 && n < 8
    ensures RomBits(bytes)[8 * n..8 * n + 8] == ByteBits(bytes[n])
  {
    var a, b := RomBits(bytes)[8 * n..8 * n + 8], ByteBits(bytes[n]);
    forall j | 0 <= j < 8 ensures a[j] == b[j] {
      assert (8 * n + j) / 8 == n && (8 * n + j) % 8 == j;
    }
  }

  lemma {:induction false} RomsEqual(a: seq<bv8>, b: seq<bv8>)
    requires |a| == |b| == 8
    ensures RomBits(a) == RomBits(b) <==> a == b
  {
    if RomBits(a) == RomBits(b) {
      forall n | 0 <= n < 8 ensures a[n] == b[n] {
        RomByte(a, n);
        RomByte(b, n);
        BytesDiffer(0, a[n], b[n]);
      }
    }
  }

  lemma NoBitsOfZero(i: nat)
    ensures !BitOf(0, i)
  {
  }

  lemma FamilyByte(bytes: seq<bv8>)
    requires |bytes| == 8
    ensures ZeroFamily(RomBits(bytes)) <==> bytes[0] == 0
  {
    if bytes[0] == 0 {
      forall i | 0 <= i < FAMILY_BITS ensures !RomBits(bytes)[i] { NoBitsOfZero(i); }
    } else if ZeroFamily(RomBits(bytes)) {
      forall i | 0 <= i < 8 ensures ByteBits(bytes[0])[i] == ByteBits(0)[i] {
        NoBitsOfZero(i);
        assert RomBits(bytes)[i] == BitOf(bytes[0], i);
      }
      assert ByteBits(bytes[0]) == ByteBits(0);
      BytesDiffer(0, bytes[0], 0);
    }
  }

  lemma FamilyOfByte(bytes: seq<bv8>, family: bv8)
    requires |bytes| == 8
    ensures Family(RomBits(bytes)) == ByteBits(family) <==> bytes[0] == family
  {
    RomByte(bytes, 0);
    if ByteBits(bytes[0]) == ByteBits(family) {
      BytesDiffer(0, bytes[0], family);
    }
  }

  lemma TargetBytes(bytes: seq<bv8>, family: bv8)
    requires |bytes| == 8 && bytes[0] == family && forall i :: 1 <= i < 8 ==> bytes[i] == 0
    ensures RomBits(bytes) == Target(family).rom
  {
    forall k | 0 <= k < ROM_BITS ensures RomBits(bytes)[k] == Target(family).rom[k] {
      NoBitsOfZero(k % 8);
    }
  }

  // ----- the walk as the search loop sees it

  /** `path` is a prefix of the walk. */
  ghost predicate OnWalk(S: set<Rom>, c: Cursor, path: Rom) {
    && |path| <= ROM_BITS == |c.rom| && Uniform(S, ROM_BITS) && Below(S, path)
    && Descend(S, c.rom, c.last, path) == Descend(S, c.rom, c.last, [])
  }

  function Patched(rom: Rom, path: Rom): Rom
    requires |path| <= |rom|
  {
    path + rom[|path|..]
  }

  /** The CRC register covers the bytes that are complete. */
  function WholeBytes(path: Rom): Rom {
    path[..|path| / 8 * 8]
  }

  lemma StartOfWalk(S: set<Rom>, c: Cursor)
    requires Uniform(S, ROM_BITS) && |c.rom| == ROM_BITS
    ensures S != {} ==> OnWalk(S, c, [])
    ensures Patched(c.rom, []) == c.rom && WholeBytes([]) == []
    ensures ZerosSeen(S, [], c.family, 0, c.family)
  {
    if S != {} {
      var d :| d in S;
      assert [] <= d;
    }
  }

  lemma PrefixOfWalk(S: set<Rom>, c: Cursor, path: Rom)
    requires OnWalk(S, c, path)
    ensures path == Descend(S, c.rom, c.last, [])[..|path|]
    ensures |path| == ROM_BITS ==> Patched(c.rom, path) == path && WholeBytes(path) == path
  {
  }

  lemma WholeRom(rom: Rom, bits: Rom)
    requires |bits| <= |rom| == ROM_BITS
    ensures |bits| == ROM_BITS ==> Patched(rom, bits) == bits && WholeBytes(bits) == bits
  {
  }

  lemma WalkStep(S: set<Rom>, c: Cursor, path: Rom)
    requires OnWalk(S, c, path) && |path| < ROM_BITS
    ensures OnWalk(S, c, path + [Direction(S, c.rom, c.last, path)])
  {
    BelowChild(S, path, |c.rom|);
  }

  /** A search that got no bit, or all of them. */
  lemma {:induction false} WalkEnds(S: set<Rom>, c: Cursor, path: Rom)
    requires |c.rom| == ROM_BITS
    requires if c.done then path == [] else S != {} && |path| == ROM_BITS && OnWalk(S, c, path)
    ensures Finish(c, path, LastZero(S, path), FamilyZero(S, path, c.family)) == Search(S, c, ROM_BITS) ||
            (c.done && forall z, f :: Finish(c, path, z, f) == Search(S, c, ROM_BITS))
  {
    if c.done {
      assert WholeBytes([]) == [] && Patched(c.rom, []) == c.rom;
    } else {
      PrefixOfWalk(S, c, path);
      var leaf := Descend(S, c.rom, c.last, []);
      LeafIsDevice(S, c.rom, c.last, path);
      assert leaf[..ROM_BITS] == leaf;
    }
  }

  lemma ChosenDirection(S: set<Rom>, c: Cursor, path: Rom, idBit: bool, cmpIdBit: bool, direction: bool)
    requires OnWalk(S, c, path) && |path| < ROM_BITS
    requires idBit == !Below(S, path + [false]) && cmpIdBit == !Below(S, path + [true])
    requires !idBit || !cmpIdBit
    requires direction == if idBit != cmpIdBit then idBit else Prefer(c.rom, c.last, |path|)
    ensures direction == Direction(S, c.rom, c.last, path)
  {
  }

  lemma PatchStep(rom: Rom, path: Rom, bit: bool)
    requires |path| < |rom|
    ensures Patched(rom, path + [bit]) == Patched(rom, path)[|path| := bit]
  {
  }

  lemma LastByte(rom: Rom, path: Rom)
    requires 8 <= |path| <= |rom|
    ensures Patched(rom, path)[|path| - 8..|path|] == path[|path| - 8..|path|]
  {
  }

  /** The two zero positions that the loop keeps. */
  ghost predicate ZerosSeen(S: set<Rom>, path: Rom, before: int, lastZero: int, family: int) {
    lastZero == LastZero(S, path) && family == FamilyZero(S, path, before)
  }

  lemma ZeroStep(S: set<Rom>, path: Rom, before: int, bit: bool, z: int, f: int, lastZero: int, family: int)
    requires ZerosSeen(S, path, before, z, f)
    requires if Conflict(S, path) && !bit
             then lastZero == |path| + 1 && family == (if lastZero < 9 then lastZero else f)
             else lastZero == z && family == f
    ensures ZerosSeen(S, path + [bit], before, lastZero, family)
  {
    var next := path + [bit];
    var n := |path| + 1;
    assert next[..|path|] == path;
    if n <= FAMILY_BITS {
      assert next[..Min(FAMILY_BITS, n)] == next && path[..Min(FAMILY_BITS, |path|)] == path;
    } else {
      assert next[..FAMILY_BITS] == path[..FAMILY_BITS];
    }
  }

  /** The loop has walked down `path` and counted its zeros. */
  ghost predicate Walked(S: set<Rom>, c: Cursor, path: Rom, idBitNumber: int, lastZero: int, family: int) {
    |path| == idBitNumber - 1 && OnWalk(S, c, path) && ZerosSeen(S, path, c.family, lastZero, family)
  }

  lemma WalkedOn(S: set<Rom>, c: Cursor, path: Rom, n: int, z: int, f: int, bit: bool, lastZero: int, family: int)
    requires Walked(S, c, path, n, z, f) && |path| < ROM_BITS && bit == Direction(S, c.rom, c.last, path)
    requires ZerosSeen(S, path + [bit], c.family, lastZero, family)
    ensures Walked(S, c, path + [bit], n + 1, lastZero, family)
  {
    WalkStep(S, c, path);
  }

  /** ROM_NO, the byte counter, the mask and the CRC register, for the bits of `path`. */
  ghost predicate RecordedIn(rom: Rom, path: Rom, romByteNumber: int, romByteMask: bv8, bytes: seq<bv8>, crc: bv8)
    requires |bytes| == 8 && |path| <= |rom| == ROM_BITS
  {
    && romByteNumber == |path| / 8 && romByteMask == Mask(|path| % 8)
    && RomBits(bytes) == Patched(rom, path) && crc == Feed(0, WholeBytes(path))
  }

  /** Where bit number n + 1 is stored. */
  lemma NextPlace(n: nat)
    ensures n == 8 * (n / 8) + n % 8 && Mask(0) == 1
    ensures if Mask(n % 8) << 1 == 0 then n % 8 == 7 && (n + 1) / 8 == n / 8 + 1 && (n + 1) % 8 == 0
            else (n + 1) / 8 == n / 8 && (n + 1) % 8 == n % 8 + 1 && Mask(n % 8) << 1 == Mask((n + 1) % 8)
  {
    Masks();
  }

  lemma RecordedBit(rom: Rom, path: Rom, bit: bool, n: nat, mask: bv8, before: seq<bv8>, crc: bv8, bytes: seq<bv8>)
    requires |before| == |bytes| == 8 && |path| < |rom| == ROM_BITS
    requires RecordedIn(rom, path, n, mask, before, crc) && mask << 1 != 0
    requires RomBits(bytes) == RomBits(before)[|path| := bit]
    ensures RecordedIn(rom, path + [bit], n, mask << 1, bytes, crc)
  {
    NextPlace(|path|);
    PatchStep(rom, path, bit);
    CrcStep(path, bit);
  }

  lemma RecordedByte(rom: Rom, path: Rom, bit: bool, n: nat, mask: bv8, before: seq<bv8>, crc: bv8,
                     bytes: seq<bv8>, next: bv8)
    requires |before| == |bytes| == 8 && |path| < |rom| == ROM_BITS
    requires RecordedIn(rom, path, n, mask, before, crc) && mask << 1 == 0
    requires RomBits(bytes) == RomBits(before)[|path| := bit] && next == Feed(crc, ByteBits(bytes[n]))
    ensures RecordedIn(rom, path + [bit], n + 1, 1, bytes, next)
  {
    NextPlace(|path|);
    PatchStep(rom, path, bit);
    CrcStep(path, bit);
    RomByte(bytes, n);
    LastByte(rom, path + [bit]);
  }

  lemma CrcStep(path: Rom, bit: bool)
    ensures var n := |path| + 1;
            var next := path + [bit];
            var crc := Feed(0, WholeBytes(path));
            Feed(0, WholeBytes(next)) == if n % 8 == 0 then Feed(crc, next[n - 8..n]) else crc
  {
    var next := path + [bit];
    var n := |path| + 1;
    if n % 8 == 0 {
      assert WholeBytes(path) == next[..n - 8];
      assert next == next[..n - 8] + next[n - 8..n];
      FeedConcat(0, next[..n - 8], next[n - 8..n]);
      assert WholeBytes(next) == next;
    } else {
      assert WholeBytes(path) == WholeBytes(next);
    }
  }

  // ----- triplets

  /** The first n of a search's 64 triplets are answered, and the next one, if any, fails. */
  ghost predicate Answered(attempts: nat -> Attempt, n: nat) {
    && n <= ROM_BITS && (forall i :: 0 <= i < n ==> StatusRead(attempts(i)))
    && (n < ROM_BITS ==> TripletFails(attempts(n)))
  }

  /** 0xFF, and any other byte with both bits, reads as a bus without devices. */
  predicate NoDevices(status: bv8) {
    status & STATUS_SBR == STATUS_SBR && status & STATUS_TSB == STATUS_TSB
  }

  predicate DirectionOf(status: bv8) {
    status & STATUS_DIR == STATUS_DIR
  }

  predicate ZeroTaken(status: bv8) {
    status & STATUS_SBR != STATUS_SBR && status & STATUS_TSB != STATUS_TSB && !DirectionOf(status)
  }

  /** The bits that the search records from the status bytes that it gets, right or wrong. */
  function Directions(statuses: seq<bv8>): (bits: Rom)
    ensures |bits| == |statuses|
  {
    seq(|statuses|, k requires 0 <= k < |statuses| => DirectionOf(statuses[k]))
  }

  function ZeroOf(statuses: seq<bv8>): nat {
    if statuses == [] then 0
    else
      var n := |statuses| - 1;
      if ZeroTaken(statuses[n]) then n + 1 else ZeroOf(statuses[..n])
  }

  function FamilyZeroOf(statuses: seq<bv8>, old_: int): int {
    var z := ZeroOf(statuses[..Min(FAMILY_BITS, |statuses|)]);
    if z > 0 then z else old_
  }

  /** What the search makes of the status bytes. */
  function TripletOutcome(c: Cursor, statuses: seq<bv8>): Outcome
    requires |statuses| <= ROM_BITS == |c.rom|
  {
    Finish(c, Directions(statuses), ZeroOf(statuses), FamilyZeroOf(statuses, c.family))
  }

  /** The right answer to the triplet that continues a path. */
  ghost function RightStatus(S: set<Rom>, path: Rom, wanted: bool): bv8 {
    var idBit, complement := !Below(S, path + [false]), !Below(S, path + [true]);
    StatusByte(idBit, complement, Taken(idBit, complement, wanted))
  }

  /** The driver's answer to triplet k; on the bus the search is on the right path in any case. */
  ghost predicate Reading(S: set<Rom>, c: Cursor, attempts: nat -> Attempt, k: nat, status: bv8)
    requires k < ROM_BITS == |c.rom|
  {
    var leaf := Descend(S, c.rom, c.last, []);
    k <= |leaf| && Returned(attempts(k), RightStatus(S, leaf[..k], Prefer(c.rom, c.last, k)), status)
  }

  /** The driver's answer to triplet k is a status byte that the search records. */
  ghost predicate GoodReading(S: set<Rom>, c: Cursor, attempts: nat -> Attempt, k: nat, status: bv8) {
    k < ROM_BITS == |c.rom| && Reading(S, c, attempts, k, status) && !NoDevices(status)
  }

  /** The driver's answers to the first triplets; none of them reads as a bus without devices. */
  ghost predicate AllRead(S: set<Rom>, c: Cursor, attempts: nat -> Attempt, statuses: seq<bv8>) {
    && |statuses| <= ROM_BITS == |c.rom|
    && forall k: nat :: k < |statuses| ==> GoodReading(S, c, attempts, k, statuses[k])
  }

  /** The status bytes of a search: those it records, and one that ends it early. */
  ghost predicate TripletRun(S: set<Rom>, c: Cursor, attempts: nat -> Attempt, statuses: seq<bv8>)
    requires |statuses| <= ROM_BITS == |c.rom|
  {
    if c.done || S == {} then statuses == []
    else
      && AllRead(S, c, attempts, statuses)
      && (|statuses| < ROM_BITS ==> exists s :: Reading(S, c, attempts, |statuses|, s) && NoDevices(s))
  }

  lemma RightStatusMeaning(S: set<Rom>, path: Rom, wanted: bool)
    requires Below(S, path + [false]) || Below(S, path + [true])
    ensures var s := RightStatus(S, path, wanted);
            !NoDevices(s) && DirectionOf(s) == (if Conflict(S, path) then wanted else Below(S, path + [true])) &&
            (ZeroTaken(s) <==> Conflict(S, path) && !DirectionOf(s))
  {
    var idBit, complement := !Below(S, path + [false]), !Below(S, path + [true]);
    StatusBits(idBit, complement, Taken(idBit, complement, wanted));
  }

  /** The status bytes are the right ones for a prefix of the walk. */
  ghost predicate AllRight(S: set<Rom>, c: Cursor, statuses: seq<bv8>)
    requires |c.rom| == ROM_BITS
  {
    var leaf := Descend(S, c.rom, c.last, []);
    |statuses| <= |leaf| &&
    forall k: nat :: k < |statuses| ==> statuses[k] == RightStatus(S, leaf[..k], Prefer(c.rom, c.last, k))
  }

  lemma WalkPrefix(S: set<Rom>, c: Cursor, k: nat)
    requires Uniform(S, ROM_BITS) && S != {} && |c.rom| == ROM_BITS && k <= ROM_BITS
    ensures var leaf := Descend(S, c.rom, c.last, []);
            |leaf| == ROM_BITS && OnWalk(S, c, leaf[..k]) &&
            (k < ROM_BITS ==> leaf[k] == Direction(S, c.rom, c.last, leaf[..k]))
  {
    var leaf := Descend(S, c.rom, c.last, []);
    if k == 0 {
      StartOfWalk(S, c);
      LeafIsDevice(S, c.rom, c.last, []);
      assert leaf[..0] == [];
      WalkPrefixStep(S, c, []);
    } else {
      WalkPrefix(S, c, k - 1);
      WalkPrefixStep(S, c, leaf[..k - 1]);
      if k < ROM_BITS { WalkPrefixStep(S, c, leaf[..k]); }
    }
  }

  lemma WalkPrefixStep(S: set<Rom>, c: Cursor, path: Rom)
    requires OnWalk(S, c, path) && |path| < ROM_BITS
    ensures var leaf := Descend(S, c.rom, c.last, []);
            var next := path + [Direction(S, c.rom, c.last, path)];
            |leaf| == ROM_BITS && OnWalk(S, c, next) && next == leaf[..|path| + 1] && path == leaf[..|path|]
  {
    WalkStep(S, c, path);
    var next := path + [Direction(S, c.rom, c.last, path)];
    PrefixOfWalk(S, c, path);
    LeafIsDevice(S, c.rom, c.last, path);
    PrefixOfWalk(S, c, next);
  }

  /** One right status byte says what the bit-level search sees. */
  lemma RightRecord(S: set<Rom>, c: Cursor, k: nat)
    requires Uniform(S, ROM_BITS) && S != {} && |c.rom| == ROM_BITS && k < ROM_BITS
    ensures var leaf := Descend(S, c.rom, c.last, []);
            |leaf| == ROM_BITS &&
            var s := RightStatus(S, leaf[..k], Prefer(c.rom, c.last, k));
            !NoDevices(s) && DirectionOf(s) == leaf[k] && (ZeroTaken(s) <==> Conflict(S, leaf[..k]) && !leaf[k])
  {
    var leaf := Descend(S, c.rom, c.last, []);
    WalkPrefix(S, c, k);
    BelowChild(S, leaf[..k], ROM_BITS);
    RightStatusMeaning(S, leaf[..k], Prefer(c.rom, c.last, k));
  }

  lemma {:induction false} RightDirections(S: set<Rom>, c: Cursor, statuses: seq<bv8>)
    requires Uniform(S, ROM_BITS) && S != {} && |c.rom| == ROM_BITS && AllRight(S, c, statuses)
    ensures Directions(statuses) == Descend(S, c.rom, c.last, [])[..|statuses|]
  {
    var leaf := Descend(S, c.rom, c.last, []);
    WalkPrefix(S, c, 0);
    forall k: nat | k < |statuses| ensures DirectionOf(statuses[k]) == leaf[k] { RightRecord(S, c, k); }
  }

  lemma {:induction false} RightZeros(S: set<Rom>, c: Cursor, statuses: seq<bv8>, n: nat)
    requires Uniform(S, ROM_BITS) && S != {} && |c.rom| == ROM_BITS && AllRight(S, c, statuses) && n <= |statuses|
    ensures ZeroOf(statuses[..n]) == LastZero(S, Descend(S, c.rom, c.last, [])[..n])
  {
    if n > 0 {
      RightZeros(S, c, statuses, n - 1);
      WalkPrefix(S, c, n - 1);
      RightRecord(S, c, n - 1);
      SameZero(S, Descend(S, c.rom, c.last, []), statuses, n - 1);
    }
  }

  lemma SameZero(S: set<Rom>, leaf: Rom, statuses: seq<bv8>, m: nat)
    requires m < |leaf| && m < |statuses| && ZeroOf(statuses[..m]) == LastZero(S, leaf[..m])
    requires ZeroTaken(statuses[m]) <==> Conflict(S, leaf[..m]) && !leaf[m]
    ensures ZeroOf(statuses[..m + 1]) == LastZero(S, leaf[..m + 1])
  {
    assert statuses[..m + 1][..m] == statuses[..m] && leaf[..m + 1][..m] == leaf[..m];
  }

  lemma RightOutcome(S: set<Rom>, c: Cursor, statuses: seq<bv8>)
    requires Uniform(S, ROM_BITS) && S != {} && |c.rom| == ROM_BITS && !c.done
    requires |statuses| <= ROM_BITS && AllRight(S, c, statuses)
    ensures TripletOutcome(c, statuses) == Search(S, c, |statuses|)
  {
    var n, f := |statuses|, Min(FAMILY_BITS, |statuses|);
    var leaf := Descend(S, c.rom, c.last, []);
    RightDirections(S, c, statuses);
    RightZeros(S, c, statuses, n);
    RightZeros(S, c, statuses, f);
    WalkPrefix(S, c, n);
    assert statuses[..n] == statuses;
    if n == ROM_BITS { assert leaf[..n] == leaf; }
  }

  /** If every status is read back, up to a triplet that fails, the search by triplets does what the
      bit-level search does on a bus that stops answering there. */
  lemma AnsweredRunIsSearch(S: set<Rom>, c: Cursor, attempts: nat -> Attempt, statuses: seq<bv8>, answers: nat)
    requires Uniform(S, ROM_BITS) && |statuses| <= ROM_BITS == |c.rom|
    requires TripletRun(S, c, attempts, statuses) && Answered(attempts, answers)
    ensures TripletOutcome(c, statuses) == Search(S, c, answers)
  {
    StartOfWalk(S, c);
    if !c.done && S != {} {
      RunLength(S, c, attempts, statuses, answers);
      RightOutcome(S, c, statuses);
    } else {
      assert Directions([]) == [];
    }
  }

  lemma RunLength(S: set<Rom>, c: Cursor, attempts: nat -> Attempt, statuses: seq<bv8>, answers: nat)
    requires Uniform(S, ROM_BITS) && |statuses| <= ROM_BITS == |c.rom| && !c.done && S != {}
    requires TripletRun(S, c, attempts, statuses) && Answered(attempts, answers)
    ensures |statuses| == answers && AllRight(S, c, statuses)
  {
    var n, leaf := |statuses|, Descend(S, c.rom, c.last, []);
    WalkPrefix(S, c, 0);
    if answers < n {
      assert GoodReading(S, c, attempts, answers, statuses[answers]);
      FailureEnds();
    }
    if n < answers {
      var s :| Reading(S, c, attempts, n, s) && NoDevices(s);
      RightRecord(S, c, n);
    }
    forall k: nat | k < n ensures statuses[k] == RightStatus(S, leaf[..k], Prefer(c.rom, c.last, k)) {
      assert GoodReading(S, c, attempts, k, statuses[k]);
    }
  }

  lemma FailureEnds()
    ensures NoDevices(SYSERR)
  {
  }

  /** The stale byte ends the search at once. */
  lemma StaleEndsRun(S: set<Rom>, c: Cursor, attempts: nat -> Attempt, statuses: seq<bv8>)
    requires S != {} && !c.done && |statuses| <= ROM_BITS == |c.rom|
    requires attempts(0) == StaleAttempt(0x61) && TripletRun(S, c, attempts, statuses)
    ensures statuses == []
  {
    StaleIsNoDevices();
    if statuses != [] {
      var s := statuses[0];
      assert GoodReading(S, c, attempts, 0, s);
      StaleStatus(0x61, RightStatus(S, Descend(S, c.rom, c.last, [])[..0], Prefer(c.rom, c.last, 0)), s);
      assert false;
    }
  }

  /** On a bus with one device, a first triplet whose poll fails while the status still shows the bits
      of an earlier one ends the search with "no devices"; the bit-level search finds the device. */
  lemma StaleSearchParts(rom: Rom, attempts: nat -> Attempt, statuses: seq<bv8>)
    requires Sound(rom) && attempts(0) == StaleAttempt(0x61) && |statuses| <= ROM_BITS
    requires TripletRun({rom}, Restart(rom), attempts, statuses)
    ensures !TripletFails(attempts(0)) && !TripletOutcome(Restart(rom), statuses).found
    ensures Search({rom}, Restart(rom), ROM_BITS).found
  {
    assert rom in {rom};
    StaleEndsRun({rom}, Restart(rom), attempts, statuses);
    NoTriplets(Restart(rom));
    FreshSearchFindsLeast({rom}, rom);
    StaleGoesOut(0x61);
  }

  lemma StaleIsNoDevices()
    ensures NoDevices(0x61)
  {
  }

  lemma {:induction false} ZeroOfNext(statuses: seq<bv8>, status: bv8, old_: int)
    ensures var n, next := |statuses| + 1, statuses + [status];
            ZeroOf(next) == (if ZeroTaken(status) then n else ZeroOf(statuses)) &&
            FamilyZeroOf(next, old_) == if ZeroTaken(status) && n < 9 then n else FamilyZeroOf(statuses, old_)
  {
    var n, next := |statuses| + 1, statuses + [status];
    assert next[..|statuses|] == statuses;
    if n <= FAMILY_BITS {
      assert next[..Min(FAMILY_BITS, n)] == next && statuses[..Min(FAMILY_BITS, |statuses|)] == statuses;
    } else {
      assert next[..FAMILY_BITS] == statuses[..FAMILY_BITS];
    }
  }

  lemma DirectionsNext(statuses: seq<bv8>, status: bv8)
    ensures Directions(statuses + [status]) == Directions(statuses) + [DirectionOf(status)]
  {
  }

  lemma ReadingsNext(S: set<Rom>, c: Cursor, attempts: nat -> Attempt, statuses: seq<bv8>, status: bv8)
    requires |statuses| < ROM_BITS == |c.rom| && GoodReading(S, c, attempts, |statuses|, status)
    requires AllRead(S, c, attempts, statuses)
    ensures AllRead(S, c, attempts, statuses + [status])
  {
    var next := statuses + [status];
    forall k: nat | k < |next| ensures GoodReading(S, c, attempts, k, next[k]) {
      if k < |statuses| { assert GoodReading(S, c, attempts, k, statuses[k]); }
    }
  }

  lemma NoTriplets(c: Cursor)
    requires |c.rom| == ROM_BITS
    ensures Directions([]) == [] && ZeroOf([]) == 0 && FamilyZeroOf([], c.family) == c.family
    ensures TripletOutcome(c, []) == Outcome(false, Restart(c.rom), 0)
  {
    assert Directions([]) == [];
    assert Patched(c.rom, []) == c.rom && WholeBytes([]) == [];
  }

  /** The two builds of the programs; a bridge comes with what its I2C side does during one search. */
  datatype Driver = SingleGPIO | DS2482(attempts: nat -> Attempt)

  /** How many bits of a search get an answer, as long as the driver does not take a stale status
      for one. */
  ghost predicate Answers(driver: Driver, n: nat) {
    match driver
    case SingleGPIO => n == ROM_BITS
    case DS2482(attempts) => Answered(attempts, n)
  }

  /** What a search from state c can come to: one outcome on the bare bus, and with a bridge what the
      status bytes say that its driver returns, right or stale. */
  ghost predicate Yields(S: set<Rom>, c: Cursor, driver: Driver, o: Outcome)
    requires |c.rom| == ROM_BITS
  {
    match driver
    case SingleGPIO => o == Search(S, c, ROM_BITS)
    case DS2482(attempts) => exists statuses :: TripletsYield(S, c, attempts, statuses, o)
  }

  ghost predicate TripletsYield(S: set<Rom>, c: Cursor, attempts: nat -> Attempt, statuses: seq<bv8>, o: Outcome)
    requires |c.rom| == ROM_BITS
  {
    |statuses| <= ROM_BITS && TripletRun(S, c, attempts, statuses) && o == TripletOutcome(c, statuses)
  }

  /** As long as no stale status is taken for an answer, there is one outcome, that of Search. */
  lemma YieldsSearch(S: set<Rom>, c: Cursor, driver: Driver, o: Outcome, n: nat)
    requires |c.rom| == ROM_BITS && Uniform(S, ROM_BITS) && Yields(S, c, driver, o) && Answers(driver, n)
    ensures o == Search(S, c, n)
  {
    if driver.DS2482? {
      var statuses :| TripletsYield(S, c, driver.attempts, statuses, o);
      AnsweredRunIsSearch(S, c, driver.attempts, statuses, n);
    }
  }

  class OneWire {
    const bus: Bus
    const bridge: Bridge
    const romNo: array<bv8>
    var lastDiscrepancy: int
    var lastFamilyDiscrepancy: int
    var lastDeviceFlag: bool
    var crc8: bv8

    ghost predicate Valid()
      reads this, bus
    {
      romNo.Length == 8 && bridge.bus == bus && bus.Valid()
    }

    ghost function State(): Cursor
      reads this, romNo
      requires romNo.Length == 8
    {
      Cursor(RomBits(romNo[..]), lastDiscrepancy, lastFamilyDiscrepancy, lastDeviceFlag)
    }

    constructor (b: Bus)
      requires b.Valid()
      ensures Valid() && bus == b && fresh(romNo)
    {
      bus := b;
      bridge := new Bridge(b);
      romNo := new bv8[8];
      lastDiscrepancy, lastFamilyDiscrepancy, lastDeviceFlag, crc8 := 0, 0, false, 0;
    }

    method CalcCrc8(data: bv8) returns (crc: bv8)
      modifies this`crc8
      ensures crc == crc8 == Feed(old(crc8), ByteBits(data))
    {
      ByteUpdateIsEightClocks(crc8, data);
      crc8 := crc8 ^ data;
      ghost var start := crc8;
      for i := 0 to 8
        invariant crc8 == ShiftTimes(start, i)
      {
        if crc8 & 1 == 1 {
          crc8 := (crc8 >> 1) ^ 0x8C;
        } else {
          crc8 := crc8 >> 1;
        }
      }
      crc := crc8;
    }

    method StoreMasked(romByteNumber: nat, romByteMask: bv8, ghost i: nat, bit: bool)
      requires romNo.Length == 8 && romByteNumber < 8 && i < 8 && romByteMask == Mask(i)
      modifies romNo
      ensures romNo[..] == old(romNo[..])[romByteNumber := WithBit(old(romNo[romByteNumber]), i, bit)]
    {
      if bit {
        romNo[romByteNumber] := romNo[romByteNumber] | romByteMask;
      } else {
        romNo[romByteNumber] := romNo[romByteNumber] & !romByteMask;
      }
    }

    /** Set or clear one bit of ROM_NO; both searches do this. */
    method StoreBit(romByteNumber: nat, romByteMask: bv8, ghost i: nat, bit: bool)
      requires romNo.Length == 8 && romByteNumber < 8 && i < 8 && romByteMask == Mask(i)
      modifies romNo
      ensures RomBits(romNo[..]) == old(RomBits(romNo[..]))[8 * romByteNumber + i := bit]
    {
      SetRomBit(romNo[..], romByteNumber, i, bit);
      StoreMasked(romByteNumber, romByteMask, i, bit);
    }

    /** ROM_NO, the byte counter, the mask and the CRC register agree about the bits taken so far. */
    ghost predicate Recorded(rom: Rom, path: Rom, romByteNumber: int, romByteMask: bv8)
      reads this, romNo
      requires romNo.Length == 8 && |path| <= |rom| == ROM_BITS
    {
      RecordedIn(rom, path, romByteNumber, romByteMask, romNo[..], crc8)
    }

    /** Store one bit, shift the mask, and after eight bits accumulate the CRC; both searches do this. */
    method RecordBit(romByteNumber: nat, romByteMask: bv8, bit: bool, ghost rom: Rom, ghost path: Rom)
        returns (nextByte: nat, nextMask: bv8)
      requires romNo.Length == 8 && |path| < |rom| == ROM_BITS
      requires Recorded(rom, path, romByteNumber, romByteMask)
      modifies this`crc8, romNo
      ensures Recorded(rom, path + [bit], nextByte, nextMask)
    {
      NextPlace(|path|);
      ghost var before, crc := romNo[..], crc8;
      StoreBit(romByteNumber, romByteMask, |path| % 8, bit);
      nextByte, nextMask := romByteNumber, romByteMask << 1;
      if nextMask == 0 {
        var _ := CalcCrc8(romNo[romByteNumber]);
        RecordedByte(rom, path, bit, romByteNumber, romByteMask, before, crc, romNo[..], crc8);
        nextByte, nextMask := romByteNumber + 1, 1;
      } else {
        RecordedBit(rom, path, bit, romByteNumber, romByteMask, before, crc, romNo[..]);
      }
    }

    /** The search has recorded the bits of `path`. */
    ghost predicate Taken(S: set<Rom>, c: Cursor, path: Rom, idBitNumber: int, lastZero: int,
                          romByteNumber: int, romByteMask: bv8)
      reads this, romNo
    {
      && romNo.Length == 8 && Walked(S, c, path, idBitNumber, lastZero, lastFamilyDiscrepancy)
      && Recorded(c.rom, path, romByteNumber, romByteMask)
      && lastDiscrepancy == c.last && !lastDeviceFlag
    }

    /** The search loop has taken the bits of `path`, and the bus is waiting for the next ones. */
    ghost predicate InSearch(c: Cursor, path: Rom, idBitNumber: int, lastZero: int,
                             romByteNumber: int, romByteMask: bv8)
      reads this, bus, romNo
    {
      && Valid() && bus.path == path && bus.slot == SendsBit
      && Taken(bus.devices, c, path, idBitNumber, lastZero, romByteNumber, romByteMask)
    }

    /** The end of a search, shared by both: keep the new state, or restart after a failure.  `bits`
        is what was recorded. */
    method Conclude(idBitNumber: int, lastZero: int, romByteNumber: int, romByteMask: bv8,
                    ghost c: Cursor, ghost bits: Rom) returns (found: bool)
      requires romNo.Length == 8 && |bits| <= ROM_BITS == |c.rom| && |bits| == idBitNumber - 1
      requires Recorded(c.rom, bits, romByteNumber, romByteMask)
      requires |bits| == ROM_BITS ==> !lastDeviceFlag
      modifies this`lastDiscrepancy, this`lastFamilyDiscrepancy, this`lastDeviceFlag
      ensures Outcome(found, State(), crc8) == Finish(c, bits, lastZero, old(lastFamilyDiscrepancy))
      ensures found ==> romNo[0] != 0 && crc8 == 0
    {
      FamilyByte(romNo[..]);
      WholeRom(c.rom, bits);
      found := false;
      if !(idBitNumber < 65 || crc8 != 0) {
        lastDiscrepancy := lastZero;
        if lastDiscrepancy == 0 {
          lastDeviceFlag := true;
        }
        found := true;
      }
      if !found || romNo[0] == 0 {
        lastDiscrepancy, lastDeviceFlag, lastFamilyDiscrepancy := 0, false, 0;
        found := false;
      }
    }

    /** Same as last time before the last discrepancy, 1 at it, 0 after it. */
    method Preferred(idBitNumber: int, romByteNumber: nat, romByteMask: bv8, ghost c: Cursor, ghost path: Rom)
        returns (direction: bool)
      requires romNo.Length == 8 && |path| < ROM_BITS == |c.rom|
      requires Recorded(c.rom, path, romByteNumber, romByteMask)
      requires idBitNumber == |path| + 1 && lastDiscrepancy == c.last
      ensures direction == Prefer(c.rom, c.last, |path|)
    {
      if idBitNumber < lastDiscrepancy {
        assert RomBits(romNo[..])[|path|] == c.rom[|path|];
        direction := romNo[romByteNumber] & romByteMask > 0;
      } else {
        direction := idBitNumber == lastDiscrepancy;
      }
    }

    /** 0 was taken where devices differ: remember the position, and apart if it is in the family. */
    method NoteZero(idBitNumber: int) returns (lastZero: int)
      modifies this`lastFamilyDiscrepancy
      ensures lastZero == idBitNumber
      ensures lastFamilyDiscrepancy == if idBitNumber < 9 then idBitNumber else old(lastFamilyDiscrepancy)
    {
      lastZero := idBitNumber;
      if lastZero < 9 {
        lastFamilyDiscrepancy := lastZero;
      }
    }

    /** The direction of the bit-banged search, once the bits are read. */
    method Choose(idBit: bool, cmpIdBit: bool, idBitNumber: int, lastZero: int, romByteNumber: nat, romByteMask: bv8,
                  ghost S: set<Rom>, ghost c: Cursor, ghost path: Rom) returns (searchDirection: bool, lastZero': int)
      requires |path| < ROM_BITS && Taken(S, c, path, idBitNumber, lastZero, romByteNumber, romByteMask)
      requires idBit == !Below(S, path + [false]) && cmpIdBit == !Below(S, path + [true]) && (!idBit || !cmpIdBit)
      modifies this`lastFamilyDiscrepancy
      ensures searchDirection == Direction(S, c.rom, c.last, path)
      ensures ZerosSeen(S, path + [searchDirection], c.family, lastZero', lastFamilyDiscrepancy)
    {
      ghost var f := lastFamilyDiscrepancy;
      lastZero' := lastZero;
      if idBit != cmpIdBit {
        searchDirection := idBit;
      } else {
        searchDirection := Preferred(idBitNumber, romByteNumber, romByteMask, c, path);
        if !searchDirection {
          lastZero' := NoteZero(idBitNumber);
        }
      }
      ChosenDirection(S, c, path, idBit, cmpIdBit, searchDirection);
      ZeroStep(S, path, c.family, searchDirection, lastZero, f, lastZero', lastFamilyDiscrepancy);
    }

    /** One bit chosen and recorded. */
    method TakeBit(idBit: bool, cmpIdBit: bool, idBitNumber: int, lastZero: int, romByteNumber: nat, romByteMask: bv8,
                   ghost S: set<Rom>, ghost c: Cursor, ghost path: Rom)
        returns (searchDirection: bool, lastZero': int, nextByte: nat, nextMask: bv8)
      requires |path| < ROM_BITS && Taken(S, c, path, idBitNumber, lastZero, romByteNumber, romByteMask)
      requires idBit == !Below(S, path + [false]) && cmpIdBit == !Below(S, path + [true]) && (!idBit || !cmpIdBit)
      modifies this`lastFamilyDiscrepancy, this`crc8, romNo
      ensures searchDirection == Direction(S, c.rom, c.last, path)
      ensures Taken(S, c, path + [searchDirection], idBitNumber + 1, lastZero', nextByte, nextMask)
    {
      ghost var f := lastFamilyDiscrepancy;
      searchDirection, lastZero' :=
        Choose(idBit, cmpIdBit, idBitNumber, lastZero, romByteNumber, romByteMask, S, c, path);
      WalkedOn(S, c, path, idBitNumber, lastZero, f, searchDirection, lastZero', lastFamilyDiscrepancy);
      nextByte, nextMask := RecordBit(romByteNumber, romByteMask, searchDirection, c.rom, path);
    }

    /** The body of the bit-banged search's loop; `answered` is false where the C code breaks off. */
    method SearchBit(idBitNumber: int, lastZero: int, romByteNumber: nat, romByteMask: bv8, ghost c: Cursor)
        returns (answered: bool, lastZero': int, nextByte: nat, nextMask: bv8)
      requires |bus.path| < ROM_BITS && InSearch(c, bus.path, idBitNumber, lastZero, romByteNumber, romByteMask)
      modifies this`lastFamilyDiscrepancy, this`crc8, bus, romNo
      ensures answered
      ensures var path := old(bus.path);
              InSearch(c, path + [Direction(bus.devices, c.rom, c.last, path)], idBitNumber + 1, lastZero',
                       nextByte, nextMask)
    {
      ghost var path := bus.path;
      BelowChild(bus.devices, path, ROM_BITS);
      answered, lastZero', nextByte, nextMask := true, lastZero, romByteNumber, romByteMask;
      var idBit := bus.ReadBit();
      var cmpIdBit := bus.ReadBit();
      if idBit && cmpIdBit {
        answered := false;
        return;
      }
      var searchDirection;
      searchDirection, lastZero', nextByte, nextMask :=
        TakeBit(idBit, cmpIdBit, idBitNumber, lastZero, romByteNumber, romByteMask, bus.devices, c, path);
      bus.WriteBit(searchDirection);
    }

    /** The bit-banged search. */
    method OWSearch() returns (found: bool)
      requires Valid()
      modifies this, bus, romNo
      ensures Valid()
      ensures Outcome(found, State(), crc8) == Search(bus.devices, old(State()), ROM_BITS)
      ensures found ==> romNo[0] != 0 && crc8 == 0
    {
      ghost var S, c := bus.devices, State();
      ghost var path: Rom := [];
      StartOfWalk(S, c);
      var idBitNumber, lastZero := 1, 0;
      var romByteNumber, romByteMask: bv8 := 0, 1;
      crc8 := 0;

      if !lastDeviceFlag {
        var presence := bus.Reset();
        if !presence {
          lastDiscrepancy, lastDeviceFlag, lastFamilyDiscrepancy := 0, false, 0;
          return false;
        }
        bus.WriteByte(SEARCH_ROM);

        while romByteNumber < 8
          invariant InSearch(c, path, idBitNumber, lastZero, romByteNumber, romByteMask)
          decreases 65 - idBitNumber
        {
          path := path + [Direction(S, c.rom, c.last, path)];
          var answered;
          answered, lastZero, romByteNumber, romByteMask :=
            SearchBit(idBitNumber, lastZero, romByteNumber, romByteMask, c);
          if !answered {
            break;
          }
          idBitNumber := idBitNumber + 1;
        }
      }
      WalkEnds(S, c, path);
      found := Conclude(idBitNumber, lastZero, romByteNumber, romByteMask, c, path);
    }

    /** The search by triplets has recorded these status bytes. */
    ghost predicate Noted(c: Cursor, statuses: seq<bv8>, idBitNumber: int, lastZero: int,
                          romByteNumber: int, romByteMask: bv8)
      reads this, romNo
    {
      && romNo.Length == 8 && |statuses| == idBitNumber - 1 && |statuses| <= ROM_BITS == |c.rom|
      && Recorded(c.rom, Directions(statuses), romByteNumber, romByteMask)
      && lastZero == ZeroOf(statuses) && lastFamilyDiscrepancy == FamilyZeroOf(statuses, c.family)
      && lastDiscrepancy == c.last && !lastDeviceFlag
    }

    /** The bus is on the walk, n bits down. */
    ghost predicate OnBus(c: Cursor, n: nat)
      reads this, bus
    {
      Valid() && bus.devices != {} && |bus.path| == n && bus.slot == SendsBit && OnWalk(bus.devices, c, bus.path)
    }

    ghost predicate InTriplets(c: Cursor, attempts: nat -> Attempt, statuses: seq<bv8>, idBitNumber: int,
                               lastZero: int, romByteNumber: int, romByteMask: bv8)
      reads this, bus, romNo
    {
      && OnBus(c, |statuses|) && Noted(c, statuses, idBitNumber, lastZero, romByteNumber, romByteMask)
      && AllRead(bus.devices, c, attempts, statuses)
    }

    /** One triplet: the direction that the search prefers, and the bridge's answer. */
    method Triplet(idBitNumber: int, lastZero: int, romByteNumber: nat, romByteMask: bv8, a: Attempt,
                   ghost c: Cursor, ghost attempts: nat -> Attempt, ghost statuses: seq<bv8>) returns (status: bv8)
      requires |statuses| < ROM_BITS && a == attempts(|statuses|)
      requires InTriplets(c, attempts, statuses, idBitNumber, lastZero, romByteNumber, romByteMask)
      modifies bus
      ensures Valid() && Reading(bus.devices, c, attempts, |statuses|, status)
      ensures !NoDevices(status) ==> OnBus(c, |statuses| + 1)
    {
      ghost var S, path, n := bus.devices, bus.path, |statuses|;
      PrefixOfWalk(S, c, path);
      WalkStep(S, c, path);
      BelowChild(S, path, ROM_BITS);
      var wanted := Preferred(idBitNumber, romByteNumber, romByteMask, c, Directions(statuses));
      status := bridge.SearchTriplet(wanted, a);
      RightStatusMeaning(S, path, wanted);
      FailureEnds();
      WalkPrefix(S, c, n);
    }

    /** What the search does with a status byte. */
    method NoteStatus(status: bv8, idBitNumber: int, lastZero: int, romByteNumber: nat, romByteMask: bv8,
                      ghost c: Cursor, ghost statuses: seq<bv8>)
        returns (answered: bool, lastZero': int, nextByte: nat, nextMask: bv8)
      requires |statuses| < ROM_BITS && Noted(c, statuses, idBitNumber, lastZero, romByteNumber, romByteMask)
      modifies this`lastFamilyDiscrepancy, this`crc8, romNo
      ensures answered <==> !NoDevices(status)
      ensures if answered then Noted(c, statuses + [status], idBitNumber + 1, lastZero', nextByte, nextMask)
              else Noted(c, statuses, idBitNumber, lastZero', nextByte, nextMask)
    {
      answered, lastZero', nextByte, nextMask := true, lastZero, romByteNumber, romByteMask;
      var idBit := status & STATUS_SBR == STATUS_SBR;
      var cmpIdBit := status & STATUS_TSB == STATUS_TSB;
      var searchDirection := status & STATUS_DIR == STATUS_DIR;
      if idBit && cmpIdBit {
        answered := false;
        return;
      }
      if !idBit && !cmpIdBit && !searchDirection {
        lastZero' := NoteZero(idBitNumber);
      }
      ZeroOfNext(statuses, status, c.family);
      DirectionsNext(statuses, status);
      nextByte, nextMask := RecordBit(romByteNumber, romByteMask, searchDirection, c.rom, Directions(statuses));
    }

    /** The body of the loop in the search by triplets. */
    method SearchTriplet(idBitNumber: int, lastZero: int, romByteNumber: nat, romByteMask: bv8, a: Attempt,
                         ghost c: Cursor, ghost attempts: nat -> Attempt, ghost statuses: seq<bv8>)
        returns (answered: bool, lastZero': int, nextByte: nat, nextMask: bv8, status: bv8)
      requires |statuses| < ROM_BITS && a == attempts(|statuses|)
      requires InTriplets(c, attempts, statuses, idBitNumber, lastZero, romByteNumber, romByteMask)
      modifies this`lastFamilyDiscrepancy, this`crc8, bus, romNo
      ensures Valid() && Reading(bus.devices, c, attempts, |statuses|, status) && (answered <==> !NoDevices(status))
      ensures if answered
              then InTriplets(c, attempts, statuses + [status], idBitNumber + 1, lastZero', nextByte, nextMask)
              else Noted(c, statuses, idBitNumber, lastZero', nextByte, nextMask)
    {
      status := Triplet(idBitNumber, lastZero, romByteNumber, romByteMask, a, c, attempts, statuses);
      answered, lastZero', nextByte, nextMask :=
        NoteStatus(status, idBitNumber, lastZero, romByteNumber, romByteMask, c, statuses);
      if answered { ReadingsNext(bus.devices, c, attempts, statuses, status); }
    }

    /** The search through the DS2482's triplet command, which must be told the direction before the
        bits are known.  Whatever the bridge answers, the outcome is what the status bytes say. */
    method OWSearchTriplet(attempts: nat -> Attempt) returns (found: bool, ghost statuses: seq<bv8>)
      requires Valid()
      modifies this, bus, romNo
      ensures Valid() && |statuses| <= ROM_BITS
      ensures TripletRun(bus.devices, old(State()), attempts, statuses)
      ensures Outcome(found, State(), crc8) == TripletOutcome(old(State()), statuses)
      ensures found ==> romNo[0] != 0 && crc8 == 0
    {
      ghost var S, c := bus.devices, State();
      statuses := [];
      StartOfWalk(S, c);
      NoTriplets(c);
      var idBitNumber, lastZero := 1, 0;
      var romByteNumber, romByteMask: bv8 := 0, 1;
      crc8 := 0;

      if !lastDeviceFlag {
        var presence := bus.Reset();
        if !presence {
          lastDiscrepancy, lastDeviceFlag, lastFamilyDiscrepancy := 0, false, 0;
          return false, [];
        }
        bus.WriteByte(SEARCH_ROM);

        while romByteNumber < 8
          invariant InTriplets(c, attempts, statuses, idBitNumber, lastZero, romByteNumber, romByteMask)
          decreases 65 - idBitNumber
        {
          var answered, status;
          answered, lastZero, romByteNumber, romByteMask, status :=
            SearchTriplet(idBitNumber, lastZero, romByteNumber, romByteMask, attempts(idBitNumber - 1),
                          c, attempts, statuses);
          if !answered {
            break;
          }
          statuses := statuses + [status];
          idBitNumber := idBitNumber + 1;
        }
      }
      found := Conclude(idBitNumber, lastZero, romByteNumber, romByteMask, c, Directions(statuses));
    }

    /** Whichever of the two searches the program is linked with. */
    method SearchWith(driver: Driver) returns (found: bool)
      requires Valid()
      modifies this, bus, romNo
      ensures Valid() && Yields(bus.devices, old(State()), driver, Outcome(found, State(), crc8))
      ensures found ==> romNo[0] != 0 && crc8 == 0
      ensures forall n: nat :: Answers(driver, n) ==>
                Outcome(found, State(), crc8) == Search(bus.devices, old(State()), n)
    {
      ghost var S, c := bus.devices, State();
      match driver {
        case SingleGPIO => found := OWSearch();
        case DS2482(attempts) =>
          ghost var statuses;
          found, statuses := OWSearchTriplet(attempts);
          assert TripletsYield(S, c, attempts, statuses, Outcome(found, State(), crc8));
      }
      forall n: nat | Answers(driver, n) ensures Outcome(found, State(), crc8) == Search(S, c, n) {
        YieldsSearch(S, c, driver, Outcome(found, State(), crc8), n);
      }
    }

    method OWFirst(driver: Driver) returns (found: bool)
      requires Valid()
      modifies this, bus, romNo
      ensures Valid() && Yields(bus.devices, Restart(old(State()).rom), driver, Outcome(found, State(), crc8))
      ensures found ==> romNo[0] != 0 && crc8 == 0
      ensures forall n: nat :: Answers(driver, n) ==>
                Outcome(found, State(), crc8) == Search(bus.devices, Restart(old(State()).rom), n)
    {
      lastDiscrepancy, lastDeviceFlag, lastFamilyDiscrepancy := 0, false, 0;
      found := SearchWith(driver);
    }

    method OWNext(driver: Driver) returns (found: bool)
      requires Valid()
      modifies this, bus, romNo
      ensures Valid() && Yields(bus.devices, old(State()), driver, Outcome(found, State(), crc8))
      ensures found ==> romNo[0] != 0 && crc8 == 0
      ensures forall n: nat :: Answers(driver, n) ==>
                Outcome(found, State(), crc8) == Search(bus.devices, old(State()), n)
    {
      found := SearchWith(driver);
    }

    static method CopyRom(from: array<bv8>, to: array<bv8>)
      requires from.Length == to.Length == 8 && from != to
      modifies to
      ensures to[..] == from[..]
    {
      for i := 0 to 8
        invariant forall j :: 0 <= j < i ==> to[j] == from[j]
      {
        to[i] := from[i];
      }
    }

    static method SameRom(a: array<bv8>, b: array<bv8>) returns (same: bool)
      requires a.Length == b.Length == 8
      ensures same <==> a[..] == b[..]
    {
      same := true;
      for i := 0 to 8
        invariant same && forall j :: 0 <= j < i ==> a[j] == b[j]
      {
        if a[i] != b[i] {
          same := false;
          return;
        }
      }
    }

    /** Is the device whose number is in ROM_NO on the bus?  The search state is put back. */
    method OWVerify(driver: Driver) returns (present: bool)
      requires Valid()
      modifies this, bus, romNo
      ensures Valid() && State() == old(State())
      ensures exists o :: Yields(bus.devices, Aim(old(State())), driver, o) &&
                (present <==> o.found && o.cursor.rom == old(State()).rom)
      ensures forall n: nat :: Answers(driver, n) ==>
                var o := Search(bus.devices, Aim(old(State())), n);
                (present <==> o.found && o.cursor.rom == old(State()).rom)
    {
      var romBackup := new bv8[8];
      CopyRom(romNo, romBackup);
      var ldBackup, ldfBackup, lfdBackup := lastDiscrepancy, lastDeviceFlag, lastFamilyDiscrepancy;

      lastDiscrepancy, lastDeviceFlag := 64, false;
      present := SearchWith(driver);
      ghost var o := Outcome(present, State(), crc8);
      if present {
        RomsEqual(romNo[..], romBackup[..]);
        present := SameRom(romBackup, romNo);
      }
      CopyRom(romBackup, romNo);
      lastDiscrepancy, lastDeviceFlag, lastFamilyDiscrepancy := ldBackup, ldfBackup, lfdBackup;
    }

    method OWTargetSetup(familyCode: bv8)
      requires Valid()
      modifies this, romNo
      ensures Valid() && State() == Target(familyCode)
    {
      romNo[0] := familyCode;
      for i := 1 to 8
        invariant romNo[0] == familyCode && forall j :: 1 <= j < i ==> romNo[j] == 0
      {
        romNo[i] := 0;
      }
      TargetBytes(romNo[..], familyCode);
      lastDiscrepancy, lastFamilyDiscrepancy, lastDeviceFlag := 64, 0, false;
    }

    method OWFamilySkipSetup()
      requires Valid()
      modifies this
      ensures Valid() && State() == Skip(old(State()))
    {
      lastDiscrepancy := lastFamilyDiscrepancy;
      lastFamilyDiscrepancy := 0;
      if lastDiscrepancy == 0 {
        lastDeviceFlag := true;
      }
    }

    method OWFirstType(family: bv8, driver: Driver) returns (found: bool)
      requires Valid()
      modifies this, bus, romNo
      ensures Valid()
      ensures exists o :: Yields(bus.devices, Target(family), driver, o) && State() == o.cursor &&
                (found <==> o.found && Family(o.cursor.rom) == ByteBits(family))
      ensures forall n: nat :: Answers(driver, n) ==>
                var o := Search(bus.devices, Target(family), n);
                State() == o.cursor && (found <==> o.found && Family(o.cursor.rom) == ByteBits(family))
    {
      OWTargetSetup(family);
      found := OWNext(driver);
      ghost var o := Outcome(found, State(), crc8);
      FamilyOfByte(romNo[..], family);
      if romNo[0] != family {
        return false;
      }
    }

    method OWNextType(family: bv8, driver: Driver) returns (found: bool)
      requires Valid()
      modifies this, bus, romNo
      ensures Valid()
      ensures exists o :: Yields(bus.devices, old(State()), driver, o) && State() == o.cursor &&
                (found <==> o.found && Family(o.cursor.rom) == ByteBits(family))
      ensures forall n: nat :: Answers(driver, n) ==>
                var o := Search(bus.devices, old(State()), n);
                State() == o.cursor && (found <==> o.found && Family(o.cursor.rom) == ByteBits(family))
    {
      found := OWNext(driver);
      ghost var o := Outcome(found, State(), crc8);
      FamilyOfByte(romNo[..], family);
      if romNo[0] != family {
        return false;
      }
    }
  }
}
