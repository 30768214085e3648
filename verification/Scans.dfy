/**
  The 1-Wire programs' loops that list all devices or one family, and the check for one device, run
  on the C globals; and a bus on which skipping a family repeats a device.
*/
module Scans {
  import opened RomTrie
  import opened Crc8
  import opened OneWireBus
  import opened RomSearch
  import opened Discovery
  import opened Families

  /** A search that stops getting answers finds nothing, and the next one begins anew. */
  lemma UnansweredSearch(S: set<Rom>, c: Cursor, n: nat)
    requires |c.rom| == ROM_BITS && n < ROM_BITS
    ensures var o := Search(S, c, n); !o.found && o.cursor == Restart(o.cursor.rom)
  {
  }

  /** What is listed so far and what is still to come make up the whole listing; `complete` says that
      no search has been left without an answer. */
  ghost predicate Listed(S: set<Rom>, rom: Rom, list: seq<Rom>, found: bool, c: Cursor, complete: bool)
    requires Uniform(S, ROM_BITS) && |rom| == |c.rom| == ROM_BITS
  {
    if found then Reached(S, c) && list + Run(S, c) == Listing(S, rom)
    else c == Restart(c.rom) && list <= Listing(S, rom) && (complete ==> list == Listing(S, rom))
  }

  lemma ListedStart(S: set<Rom>, rom: Rom, n: nat)
    requires Uniform(S, ROM_BITS) && |rom| == ROM_BITS && n <= ROM_BITS
    ensures var o := Search(S, Restart(rom), n); Listed(S, rom, [], o.found, o.cursor, n == ROM_BITS)
  {
    if n < ROM_BITS {
      UnansweredSearch(S, Restart(rom), n);
    } else if S != {} {
      FirstSearch(S, rom);
    }
  }

  lemma RunSplits(S: set<Rom>, c: Cursor)
    requires Uniform(S, ROM_BITS) && Reached(S, c)
    ensures var o := Search(S, c, ROM_BITS);
            if o.found then Reached(S, o.cursor) && Run(S, c) == [c.rom] + Run(S, o.cursor)
            else Run(S, c) == [c.rom] && o.cursor == Restart(o.cursor.rom)
    ensures Search(S, c, ROM_BITS).found ==> Later(S, Search(S, c, ROM_BITS).cursor.rom) < Later(S, c.rom)
  {
    if !c.done {
      NextSearch(S, c);
      if Search(S, c, ROM_BITS).found { LaterShrinks(S, c.rom, Descend(S, c.rom, c.last, [])); }
    }
  }

  lemma Regroup(list: seq<Rom>, rom: Rom, rest: seq<Rom>)
    ensures list + ([rom] + rest) == list + [rom] + rest
  {
  }

  lemma ListedNext(S: set<Rom>, rom: Rom, list: seq<Rom>, c: Cursor)
    requires Uniform(S, ROM_BITS) && |rom| == |c.rom| == ROM_BITS && Listed(S, rom, list, true, c, true)
    ensures var o := Search(S, c, ROM_BITS);
            Listed(S, rom, list + [c.rom], o.found, o.cursor, true) &&
            (o.found ==> Later(S, o.cursor.rom) < Later(S, c.rom))
  {
    RunSplits(S, c);
    var o := Search(S, c, ROM_BITS);
    if o.found { Regroup(list, c.rom, Run(S, o.cursor)); }
  }

  lemma RunStarts(S: set<Rom>, c: Cursor)
    requires Uniform(S, ROM_BITS) && Reached(S, c)
    ensures |Run(S, c)| > 0 && Run(S, c)[0] == c.rom
  {
  }

  lemma ListedStep(S: set<Rom>, rom: Rom, list: seq<Rom>, c: Cursor, n: nat)
    requires Uniform(S, ROM_BITS) && |rom| == |c.rom| == ROM_BITS && Listed(S, rom, list, true, c, true)
    requires n <= ROM_BITS
    ensures var o := Search(S, c, n);
            Listed(S, rom, list + [c.rom], o.found, o.cursor, n == ROM_BITS) &&
            (o.found ==> Later(S, o.cursor.rom) < Later(S, c.rom))
  {
    if n < ROM_BITS {
      UnansweredSearch(S, c, n);
      RunStarts(S, c);
      assert list + [c.rom] <= list + Run(S, c);
    } else {
      ListedNext(S, rom, list, c);
    }
  }

  /** `drivers(m)` is the driver during the m-th search of a scan, and `answers(m)` says how many bits
      are answered then. */
  ghost predicate AllAnswer(drivers: nat -> Driver, answers: nat -> nat) {
    forall m: nat :: Answers(drivers(m), answers(m))
  }

  /** Every device once, in ascending order, up to the first unsound one; the state is then back
      where it started, so that the next scan begins anew.  The list ends early only at a search that
      is not answered in full. */
  method ListDevices(w: OneWire, drivers: nat -> Driver, ghost answers: nat -> nat) returns (list: seq<Rom>)
    requires w.Valid() && AllAnswer(drivers, answers)
    modifies w, w.bus, w.romNo
    ensures w.Valid() && w.State() == Restart(w.State().rom)
    ensures list <= Listing(w.bus.devices, old(w.State()).rom)
    ensures Lists(Listing(w.bus.devices, old(w.State()).rom), SoundPart(w.bus.devices))
    ensures answers(|list|) == ROM_BITS ==> list == Listing(w.bus.devices, old(w.State()).rom)
  {
    ghost var S, rom := w.bus.devices, w.State().rom;
    list := [];
    AnswersAtMost(drivers(0), answers(0));
    ListedStart(S, rom, answers(0));
    var found := w.OWFirst(drivers(0));
    while found
      invariant w.Valid() && Listed(S, rom, list, found, w.State(), answers(|list|) == ROM_BITS)
      decreases found, Later(S, w.State().rom)
    {
      AnswersAtMost(drivers(|list| + 1), answers(|list| + 1));
      ListedStep(S, rom, list, w.State(), answers(|list| + 1));
      list := list + [RomBits(w.romNo[..])];
      found := w.OWNext(drivers(|list|));
    }
    EnumerationIsComplete(S, rom);
  }

  lemma AnswersAtMost(driver: Driver, n: nat)
    requires Answers(driver, n)
    ensures n <= ROM_BITS
  {
  }

  lemma AimedSearch(S: set<Rom>, c: Cursor, answers: nat)
    requires Uniform(S, ROM_BITS) && AllSound(S) && |c.rom| == ROM_BITS && answers <= ROM_BITS
    ensures var o := Search(S, Aim(c), answers);
            (o.found && o.cursor.rom == c.rom ==> c.rom in S) &&
            (answers == ROM_BITS ==> (o.found && o.cursor.rom == c.rom <==> c.rom in S))
  {
    if answers < ROM_BITS { UnansweredSearch(S, Aim(c), answers); } else { VerifyIsMembership(S, c); }
  }

  /** OWAccessSerialNumber: is this one device on the bus?  Whatever the search state, only ROM_NO
      changes; TRUE is always right, and so is FALSE if the search is answered, unless a stale status is
      taken for an answer. */
  method AccessSerialNumber(w: OneWire, laserRom: array<bv8>, driver: Driver) returns (present: bool)
    requires w.Valid() && AllSound(w.bus.devices) && laserRom.Length == 8 && laserRom != w.romNo
    modifies w, w.bus, w.romNo
    ensures w.Valid() && w.State() == old(w.State()).(rom := RomBits(laserRom[..]))
    ensures exists o :: Yields(w.bus.devices, Aim(w.State()), driver, o) &&
              (present <==> o.found && o.cursor.rom == RomBits(laserRom[..]))
    ensures forall answers: nat :: Answers(driver, answers) ==>
              (present ==> RomBits(laserRom[..]) in w.bus.devices) &&
              (answers == ROM_BITS ==> (present <==> RomBits(laserRom[..]) in w.bus.devices))
  {
    OneWire.CopyRom(laserRom, w.romNo);
    forall answers: nat | Answers(driver, answers)
      ensures var o := Search(w.bus.devices, Aim(w.State()), answers);
              (o.found && o.cursor.rom == w.State().rom ==> w.State().rom in w.bus.devices) &&
              (answers == ROM_BITS ==> (o.found && o.cursor.rom == w.State().rom <==> w.State().rom in w.bus.devices))
    {
      AnswersAtMost(driver, answers);
      AimedSearch(w.bus.devices, w.State(), answers);
    }
    present := w.OWVerify(driver);
  }

  // ----- one family

  ghost function Before(T: set<Rom>, rom: Rom): set<Rom> {
    set d | d in T && Less(d, rom)
  }

  lemma MembersStep(S: set<Rom>, f: Rom, rom: Rom, next: Rom)
    requires Uniform(S, ROM_BITS) && rom in Members(S, f) && IsNext(S, rom, next)
    ensures if Family(next) == f then Before(Members(S, f), next) == Before(Members(S, f), rom) + {rom}
            else Members(S, f) == Before(Members(S, f), rom) + {rom}
  {
    forall d | d in Members(S, f)
      ensures d == rom || Less(d, rom) || (Less(rom, d) && Family(next) == f && !Less(d, next))
    {
      LessTotal(d, rom);
      if Less(rom, d) {
        if d != next { FamiliesContiguous(rom, next, d); LessStrict(next, d); } else { NotLessSelf(d); }
      }
    }
    forall d | d in Members(S, f) && Less(d, rom) ensures Less(d, next) { LessTransitive(d, rom, next); }
    forall d | d in Members(S, f) && Less(d, rom) ensures d != rom && !Less(rom, d) { LessStrict(d, rom); }
  }

  lemma NotLessSelf(d: Rom)
    ensures !Less(d, d)
  {
    if Less(d, d) { LessStrict(d, d); }
  }

  lemma MembersEnd(S: set<Rom>, f: Rom, c: Cursor)
    requires Uniform(S, ROM_BITS) && Reached(S, c) && c.done && c.rom in Members(S, f)
    ensures Members(S, f) == Before(Members(S, f), c.rom) + {c.rom}
  {
    ReachedLastDevice(S, c);
    forall d | d in Members(S, f) ensures d == c.rom || Less(d, c.rom) { LessTotal(d, c.rom); }
  }

  lemma ListGrows(list: seq<Rom>, T: set<Rom>, rom: Rom)
    requires Lists(list, T) && forall d :: d in T ==> Less(d, rom)
    ensures Lists(list + [rom], T + {rom})
  {
    var longer := list + [rom];
    forall i, j | 0 <= i < j < |longer| ensures Less(longer[i], longer[j]) {
      if j == |list| { assert list[i] in list; }
    }
  }

  /** One step of a family scan: either the next member, or nothing and no member is missing. */
  lemma FamilyScanStep(S: set<Rom>, f: Rom, c: Cursor, list: seq<Rom>)
    requires AllSound(S) && Uniform(S, ROM_BITS) && Reached(S, c) && c.rom in Members(S, f)
    requires Lists(list, Before(Members(S, f), c.rom))
    ensures var o := Search(S, c, ROM_BITS);
            if o.found && Family(o.cursor.rom) == f
            then Reached(S, o.cursor) && IsNext(S, c.rom, o.cursor.rom) &&
                 Lists(list + [c.rom], Before(Members(S, f), o.cursor.rom))
            else Lists(list + [c.rom], Members(S, f))
  {
    ListGrows(list, Before(Members(S, f), c.rom), c.rom);
    if c.done {
      MembersEnd(S, f, c);
    } else {
      NextSearch(S, c);
      MembersStep(S, f, c.rom, Descend(S, c.rom, c.last, []));
    }
  }

  /** Some of these devices, each once, in ascending order. */
  ghost predicate ListsSome(list: seq<Rom>, T: set<Rom>) {
    && (forall i, j :: 0 <= i < j < |list| ==> Less(list[i], list[j]))
    && (forall d :: d in list ==> d in T)
  }

  /** A scan of one family: the devices before the current one are listed, or all of them, or, after
      a search without an answer, some. */
  ghost predicate FamilyListed(S: set<Rom>, f: Rom, list: seq<Rom>, found: bool, c: Cursor, complete: bool) {
    && ListsSome(list, Members(S, f))
    && if found then Reached(S, c) && c.rom in Members(S, f) && Lists(list, Before(Members(S, f), c.rom))
       else complete ==> Lists(list, Members(S, f))
  }

  lemma FamilyListedStart(S: set<Rom>, family: bv8, n: nat)
    requires AllSound(S) && n <= ROM_BITS
    ensures var f, o := ByteBits(family), Search(S, Target(family), n);
            FamilyListed(S, f, [], o.found && Family(o.cursor.rom) == f, o.cursor, n == ROM_BITS)
  {
    if n < ROM_BITS {
      UnansweredSearch(S, Target(family), n);
    } else if S != {} {
      TargetFindsFamily(S, family);
      var o := Search(S, Target(family), n);
      if Members(S, ByteBits(family)) != {} { NothingBeforeLeast(Members(S, ByteBits(family)), o.cursor.rom); }
    }
  }

  lemma FamilyListedStep(S: set<Rom>, f: Rom, list: seq<Rom>, c: Cursor, n: nat)
    requires AllSound(S) && Uniform(S, ROM_BITS) && FamilyListed(S, f, list, true, c, true) && n <= ROM_BITS
    ensures var o := Search(S, c, n);
            var found := o.found && Family(o.cursor.rom) == f;
            FamilyListed(S, f, list + [c.rom], found, o.cursor, n == ROM_BITS) &&
            (found ==> Later(S, o.cursor.rom) < Later(S, c.rom))
  {
    ListGrows(list, Before(Members(S, f), c.rom), c.rom);
    FamilyScanStep(S, f, c, list);
    if n < ROM_BITS {
      UnansweredSearch(S, c, n);
    } else {
      var o := Search(S, c, n);
      if o.found && Family(o.cursor.rom) == f { LaterShrinks(S, c.rom, o.cursor.rom); }
    }
  }

  /** Exactly the devices of one family, each once, in ascending order; fewer only if a search is not
      answered in full. */
  method ListFamily(w: OneWire, family: bv8, drivers: nat -> Driver, ghost answers: nat -> nat)
    returns (list: seq<Rom>)
    requires w.Valid() && AllSound(w.bus.devices) && AllAnswer(drivers, answers)
    modifies w, w.bus, w.romNo
    ensures w.Valid()
    ensures ListsSome(list, Members(w.bus.devices, ByteBits(family)))
    ensures answers(|list|) == ROM_BITS ==> Lists(list, Members(w.bus.devices, ByteBits(family)))
  {
    ghost var S, f, n := w.bus.devices, ByteBits(family), answers(0);
    list := [];
    var driver := drivers(0);
    AnswersAtMost(driver, n);
    FamilyListedStart(S, family, n);
    var found := w.OWFirstType(family, driver);
    while found
      invariant w.Valid() && n == answers(|list|) && FamilyListed(S, f, list, found, w.State(), n == ROM_BITS)
      decreases found, Later(S, w.State().rom)
    {
      n, driver := answers(|list| + 1), drivers(|list| + 1);
      AnswersAtMost(driver, n);
      FamilyListedStep(S, f, list, w.State(), n);
      list := list + [RomBits(w.romNo[..])];
      found := w.OWNextType(family, driver);
    }
  }

  lemma NothingBeforeLeast(T: set<Rom>, rom: Rom)
    requires IsLeast(T, rom)
    ensures Before(T, rom) == {}
  {
    forall d | d in T ensures !Less(d, rom) {
      if Less(d, rom) { LessStrict(d, rom); }
    }
  }

  // ----- where skipping goes wrong

  /** Three devices: `a` in one family, then `b1` and `b2` in a family that branches off from `a` in
      the very first bit. */
  ghost predicate ForkedBus(S: set<Rom>, a: Rom, b1: Rom, b2: Rom) {
    && S == {a, b1, b2} && AllSound(S) && Less(b1, b2)
    && !a[0] && b1[0] && Family(b1) == Family(b2)
  }

  lemma ForkedZerosA(S: set<Rom>, a: Rom, b1: Rom, b2: Rom)
    requires ForkedBus(S, a, b1, b2)
    ensures LastZero(S, a) == 1
  {
    assert b2[0] == Family(b2)[0] == Family(b1)[0];
    assert [] + [false] <= a && [] + [true] <= b1 && a[..0] == [];
    forall k | 1 <= k < |a| && Conflict(S, a[..k]) ensures a[k] {
      var d :| d in S && a[..k] + [false] <= d;
      var e :| e in S && a[..k] + [true] <= e;
      assert d[0] == a[..k][0] && e[0] == a[..k][0];
    }
    LastZeroUnique(S, a, 1);
  }

  lemma ForkedZerosB(S: set<Rom>, a: Rom, b1: Rom, b2: Rom)
    requires ForkedBus(S, a, b1, b2)
    ensures LastZero(S, Family(b1)) == 0
  {
    var f := Family(b1);
    forall k | 0 <= k < FAMILY_BITS && Conflict(S, f[..k]) ensures f[k] {
      if k > 0 {
        var d :| d in S && f[..k] + [false] <= d;
        var e :| e in S && f[..k] + [true] <= e;
        assert d[0] == f[..k][0] && e[0] == f[..k][0];
        assert d[k] == Family(d)[k] && e[k] == Family(e)[k];
      }
    }
    LastZeroUnique(S, f, 0);
  }

  lemma ForkedOrder(S: set<Rom>, a: Rom, b1: Rom, b2: Rom)
    requires ForkedBus(S, a, b1, b2)
    ensures Less(a, b1) && Less(a, b2) && b2[0] && a != b1
    ensures forall d :: IsLeast(S, d) ==> d == a
    ensures forall d :: IsNext(S, a, d) ==> d == b1
  {
    assert b2[0] == Family(b2)[0] == Family(b1)[0];
    assert LessAt(a, b1, 0) && LessAt(a, b2, 0);
    LessStrict(a, b1);
    LessStrict(a, b2);
    LessStrict(b1, b2);
  }

  lemma ForkedFirst(S: set<Rom>, a: Rom, b1: Rom, b2: Rom, rom: Rom)
    requires ForkedBus(S, a, b1, b2) && |rom| == ROM_BITS
    ensures var o := Search(S, Restart(rom), ROM_BITS);
            o.found && o.cursor == Cursor(a, 1, 1, false) && Reached(S, o.cursor)
  {
    SoundIsUniform(S);
    FirstSearch(S, rom);
    ForkedOrder(S, a, b1, b2);
    ForkedZerosA(S, a, b1, b2);
    FamilyOfLast(S, a);
  }

  lemma ForkedSecond(S: set<Rom>, a: Rom, b1: Rom, b2: Rom)
    requires ForkedBus(S, a, b1, b2) && Reached(S, Cursor(a, 1, 1, false))
    ensures var o := Search(S, Cursor(a, 1, 1, false), ROM_BITS);
            o.found && o.cursor.rom == b1 && o.cursor.family == 1 && !o.cursor.done && Reached(S, o.cursor)
  {
    SoundIsUniform(S);
    NextSearch(S, Cursor(a, 1, 1, false));
    ForkedOrder(S, a, b1, b2);
    ForkedZerosB(S, a, b1, b2);
    LastZeroIsMaximum(S, b1);
  }

  lemma ForkedThird(S: set<Rom>, a: Rom, b1: Rom, b2: Rom, c: Cursor)
    requires ForkedBus(S, a, b1, b2) && Reached(S, c) && c.rom == b1 && c.family == 1 && !c.done
    ensures var o := Search(S, Skip(c), ROM_BITS); o.found && o.cursor.rom == b1
  {
    SoundIsUniform(S);
    assert b1[..0] + [false] <= a;
    StaleSkipGoesBack(S, c);
    PrefixBelow(S, b1, 0);
    ForkFindsLeast(S, b1, 1);
    LessStrict(b1, b2);
  }

  /** On such a bus OWFirst, OWNext, OWFamilySkipSetup, OWNext finds `b1` twice. */
  lemma SkipRepeatsDevice(S: set<Rom>, a: Rom, b1: Rom, b2: Rom, rom: Rom)
    requires ForkedBus(S, a, b1, b2) && |rom| == ROM_BITS
    ensures var first := Search(S, Restart(rom), ROM_BITS);
            var second := Search(S, first.cursor, ROM_BITS);
            var third := Search(S, Skip(second.cursor), ROM_BITS);
            first.found && first.cursor.rom == a && second.found && second.cursor.rom == b1 &&
            third.found && third.cursor.rom == b1
  {
    ForkedFirst(S, a, b1, b2, rom);
    ForkedSecond(S, a, b1, b2);
    ForkedThird(S, a, b1, b2, Search(S, Cursor(a, 1, 1, false), ROM_BITS).cursor);
  }

  // ----- numbers for that bus: family code 0x28 once, family code 0x01 twice

  lemma ByteByByte(bytes: seq<bv8>, n: nat, crc: bv8)
    requires |bytes| == 8 && n < 8 && Feed(0, RomBits(bytes)[..8 * n]) == crc
    ensures Feed(0, RomBits(bytes)[..8 * n + 8]) == ShiftTimes(crc ^ bytes[n], 8)
  {
    var bits := RomBits(bytes);
    RomByte(bytes, n);
    assert bits[..8 * n + 8] == bits[..8 * n] + bits[8 * n..8 * n + 8];
    FeedConcat(0, bits[..8 * n], bits[8 * n..8 * n + 8]);
    ByteUpdateIsEightClocks(crc, bytes[n]);
  }

  /** The register after each of eight bytes makes a number sound if it ends with 0. */
  lemma SoundByTrace(bytes: seq<bv8>, trace: seq<bv8>)
    requires |bytes| == 8 && |trace| == 9 && trace[0] == trace[8] == 0 && bytes[0] != 0
    requires forall n :: 0 <= n < 8 ==> ShiftTimes(trace[n] ^ bytes[n], 8) == trace[n + 1]
    ensures Sound(RomBits(bytes))
  {
    var bits := RomBits(bytes);
    for n := 0 to 8
      invariant Feed(0, bits[..8 * n]) == trace[n]
    {
      ByteByByte(bytes, n, trace[n]);
    }
    assert bits[..64] == bits;
    FamilyByte(bytes);
  }

  function DemoBytes(family: bv8, byte6: bv8, check: bv8): seq<bv8> {
    [family, 0, 0, 0, 0, 0, byte6, check]
  }

  lemma SoundA()
    ensures Sound(RomBits(DemoBytes(0x28, 0, 0x1E)))
  {
    SoundByTrace(DemoBytes(0x28, 0, 0x1E), [0, 0xE1, 0xB7, 0xB1, 0x6C, 0xC6, 0x17, 0x1E, 0]);
  }

  lemma SoundB1()
    ensures Sound(RomBits(DemoBytes(0x01, 0, 0x3D)))
  {
    SoundByTrace(DemoBytes(0x01, 0, 0x3D), [0, 0x5E, 0xC4, 0xAB, 0x8F, 0xCD, 0x37, 0x3D, 0]);
  }

  lemma SoundB2()
    ensures Sound(RomBits(DemoBytes(0x01, 0x80, 0xB1)))
  {
    assert ShiftTimes(0xB7, 8) == 0xB1;
    SoundByTrace(DemoBytes(0x01, 0x80, 0xB1), [0, 0x5E, 0xC4, 0xAB, 0x8F, 0xCD, 0x37, 0xB1, 0]);
  }

  lemma DemoOrder(check: bv8, other: bv8)
    ensures Less(RomBits(DemoBytes(0x01, 0, check)), RomBits(DemoBytes(0x01, 0x80, other)))
  {
    var b1, b2 := RomBits(DemoBytes(0x01, 0, check)), RomBits(DemoBytes(0x01, 0x80, other));
    forall k | 0 <= k < 55 ensures b1[..55][k] == b2[..55][k] {
      if k >= 48 { ByteSixAgrees(k % 8); }
    }
    NoBitsOfZero(7);
    Masks();
    assert LessAt(b1, b2, 55);
  }

  lemma DemoFirstBits(byte6: bv8, check: bv8)
    ensures !RomBits(DemoBytes(0x28, byte6, check))[0] && RomBits(DemoBytes(0x01, byte6, check))[0]
  {
    Masks();
  }

  lemma DemoBus() returns (a: Rom, b1: Rom, b2: Rom)
    ensures ForkedBus({a, b1, b2}, a, b1, b2)
  {
    a, b1 := RomBits(DemoBytes(0x28, 0, 0x1E)), RomBits(DemoBytes(0x01, 0, 0x3D));
    b2 := RomBits(DemoBytes(0x01, 0x80, 0xB1));
    SoundA();
    SoundB1();
    SoundB2();
    DemoOrder(0x3D, 0xB1);
    DemoFirstBits(0, 0x1E);
    DemoFirstBits(0, 0x3D);
    FamilyOfByte(DemoBytes(0x01, 0, 0x3D), 0x01);
    FamilyOfByte(DemoBytes(0x01, 0x80, 0xB1), 0x01);
  }

  lemma ByteSixAgrees(i: nat)
    requires i < 7
    ensures BitOf(0, i) == BitOf(0x80, i)
  {
    Masks();
  }
}
