/**
  The scan that leaves out some families: it calls OWFamilySkipSetup at every device of a family it
  does not want.  Although a skip can go wrong, the scan as a whole does not.
*/
module Filter {
  import opened RomTrie
  import opened Crc8
  import opened OneWireBus
  import opened RomSearch
  import opened Discovery
  import opened Families
  import opened Scans

  /** A left-over family discrepancy marks the fork at which the current family begins: the devices
      past that fork are all of this family. */
  ghost predicate ForkOfFamily(S: set<Rom>, c: Cursor)
    requires Uniform(S, ROM_BITS) && |c.rom| == ROM_BITS && 1 <= c.family <= FAMILY_BITS
  {
    forall d :: d in S && c.rom[..c.family - 1] + [true] <= d ==> Family(d) == Family(c.rom)
  }

  /** The invariant of any mixture of OWNext and family skips. */
  ghost predicate Tidy(S: set<Rom>, c: Cursor)
    requires Uniform(S, ROM_BITS)
  {
    Reached(S, c) && (Stale(S, c) ==> ForkOfFamily(S, c))
  }

  lemma NextKeepsTidy(S: set<Rom>, c: Cursor)
    requires Uniform(S, ROM_BITS) && Tidy(S, c) && !c.done
    ensures var o := Search(S, c, ROM_BITS); o.found ==> Tidy(S, o.cursor)
  {
    NextSearch(S, c);
    var o := Search(S, c, ROM_BITS);
    if o.found && Stale(S, o.cursor) {
      StaleIsLastFamily(S, o.cursor);
      StillForkOfFamily(S, c, o.cursor);
    }
  }

  lemma StillForkOfFamily(S: set<Rom>, c: Cursor, c': Cursor)
    requires Uniform(S, ROM_BITS) && Tidy(S, c) && !c.done
    requires |c'.rom| == ROM_BITS && c'.rom in S && Stale(S, c') && c'.family == c.family
    requires c'.rom == Descend(S, c.rom, c.last, []) && LastZero(S, Family(c'.rom)) == 0
    ensures ForkOfFamily(S, c')
  {
    PastTheFork(S, c);
    if c.last > FAMILY_BITS {
      SameFamilyStale(S, c, c');
    } else {
      FamilyIsFork(S, c);
      LeastOfLastFamily(S, c', c.rom[..c.last - 1] + [true]);
    }
  }

  lemma PastTheFork(S: set<Rom>, c: Cursor)
    requires Uniform(S, ROM_BITS) && Reached(S, c) && !c.done
    ensures var next := Descend(S, c.rom, c.last, []);
            0 < c.last <= ROM_BITS && |next| == ROM_BITS && next[..c.last - 1] == c.rom[..c.last - 1] &&
            forall e :: e in S && c.rom[..c.last - 1] + [true] <= e ==> e == next || Less(next, e)
  {
    LastZeroMeaning(S, c.rom);
    ForkFindsLeast(S, c.rom, c.last);
  }

  lemma FamilyIsFork(S: set<Rom>, c: Cursor)
    requires Reached(S, c) && 0 < c.last <= FAMILY_BITS
    ensures c.family == c.last
  {
    FamilyOfLast(S, c.rom);
  }

  lemma StaleIsLastFamily(S: set<Rom>, c: Cursor)
    requires Uniform(S, ROM_BITS) && Reached(S, c) && Stale(S, c)
    ensures LastZero(S, Family(c.rom)) == 0 && LastFamily(S, c.rom)
  {
    if LastZero(S, Family(c.rom)) != 0 { NotStale(S, c); }
    NoFamilyFork(S, c.rom);
  }

  /** The next device is of the same family, and the discrepancy is as old as before. */
  lemma SameFamilyStale(S: set<Rom>, c: Cursor, c': Cursor)
    requires Uniform(S, ROM_BITS) && Tidy(S, c) && |c'.rom| == ROM_BITS && Stale(S, c') && c'.family == c.family
    requires FAMILY_BITS < c.last <= ROM_BITS && c'.rom[..c.last - 1] == c.rom[..c.last - 1]
    ensures ForkOfFamily(S, c')
  {
    var p := c.family;
    assert c'.rom[..p - 1] == c'.rom[..c.last - 1][..p - 1] == c.rom[..c.last - 1][..p - 1] == c.rom[..p - 1];
    assert c'.rom[p - 1] == c'.rom[..c.last - 1][p - 1] == c.rom[..c.last - 1][p - 1] == c.rom[p - 1];
    assert Family(c'.rom) == c'.rom[..c.last - 1][..FAMILY_BITS] == c.rom[..c.last - 1][..FAMILY_BITS] == Family(c.rom);
    assert Stale(S, c);
  }

  /** The least device past a fork, if it is of the last family: so are all the others. */
  lemma LeastOfLastFamily(S: set<Rom>, c: Cursor, fork: Rom)
    requires Uniform(S, ROM_BITS) && c.rom in S && LastZero(S, Family(c.rom)) == 0
    requires forall e :: e in S && fork <= e ==> e == c.rom || Less(c.rom, e)
    ensures forall d :: d in S && fork <= d ==> Family(d) == Family(c.rom)
  {
    NoFamilyFork(S, c.rom);
    forall d | d in S && fork <= d ensures Family(d) == Family(c.rom) {
      LessTotal(Family(d), Family(c.rom));
      if Less(Family(d), Family(c.rom)) {
        LessExtends(Family(d), Family(c.rom), d, c.rom);
        LessStrict(d, c.rom);
      }
    }
  }

  /** A skip that goes wrong only happens in the last family, stays in it, and cannot happen again. */
  lemma StaleSkipStays(S: set<Rom>, c: Cursor)
    requires AllSound(S) && Uniform(S, ROM_BITS) && Tidy(S, c) && Stale(S, c) && !c.done
    ensures LastFamily(S, c.rom)
    ensures var o := Search(S, Skip(c), ROM_BITS);
            o.found && Tidy(S, o.cursor) && o.cursor.family == 0 && Family(o.cursor.rom) == Family(c.rom)
  {
    StaleIsLastFamily(S, c);
    StaleSkipGoesBack(S, c);
    SkipKeepsInvariant(S, c);
    PrefixBelow(S, c.rom, c.family - 1);
    ForkFindsLeast(S, c.rom, c.family);
    var d := Search(S, Skip(c), ROM_BITS).cursor.rom;
    assert Family(d) == Family(c.rom);
  }

  // ----- what the scan keeps

  predicate Excluded(rom: Rom, families: set<bv8>)
    requires |rom| == ROM_BITS
  {
    exists f :: f in families && ByteBits(f) == Family(rom)
  }

  ghost function Kept(S: set<Rom>, families: set<bv8>): set<Rom> {
    set d | d in S && |d| == ROM_BITS && !Excluded(d, families)
  }

  /** Devices of different families are in the order of their families. */
  lemma FamilyOrder(a: Rom, b: Rom)
    requires |a| == |b| == ROM_BITS && Family(a) != Family(b)
    ensures Less(a, b) <==> Less(Family(a), Family(b))
  {
    LessTotal(Family(a), Family(b));
    if Less(Family(a), Family(b)) {
      LessExtends(Family(a), Family(b), a, b);
    } else {
      LessExtends(Family(b), Family(a), b, a);
      LessStrict(b, a);
      LessStrict(Family(b), Family(a));
    }
  }

  lemma NextKept(S: set<Rom>, families: set<bv8>, rom: Rom, next: Rom)
    requires Uniform(S, ROM_BITS) && rom in Kept(S, families) && IsNext(S, rom, next)
    ensures Before(Kept(S, families), next) == Before(Kept(S, families), rom) + {rom}
  {
    forall d | d in Kept(S, families) ensures Less(d, next) <==> d == rom || Less(d, rom) {
      LessTotal(d, rom);
      if Less(d, rom) {
        LessTransitive(d, rom, next);
      } else if d != rom {
        LessStrict(rom, d);
        if d == next { NotLessSelf(d); } else { LessStrict(next, d); }
      }
    }
  }

  lemma LastKept(S: set<Rom>, families: set<bv8>, c: Cursor)
    requires Uniform(S, ROM_BITS) && Reached(S, c) && c.done && c.rom in Kept(S, families)
    ensures Kept(S, families) == Before(Kept(S, families), c.rom) + {c.rom}
  {
    ReachedLastDevice(S, c);
    forall d | d in Kept(S, families) ensures d == c.rom || Less(d, c.rom) { LessTotal(d, c.rom); }
  }

  /** Going from an unwanted device to the next family, or about in the same one, misses nothing. */
  lemma SkippedKept(S: set<Rom>, families: set<bv8>, rom: Rom, d: Rom)
    requires Uniform(S, ROM_BITS) && rom in S && d in S && Excluded(rom, families)
    requires Family(d) == Family(rom) || StartsNextFamily(S, rom, d)
    ensures Before(Kept(S, families), d) == Before(Kept(S, families), rom)
  {
    forall e | e in Kept(S, families) ensures Less(e, d) <==> Less(e, rom) {
      FamilyOrder(e, rom);
      if Family(d) == Family(rom) {
        FamilyOrder(e, d);
      } else {
        LessTotal(Family(e), Family(rom));
        if Less(Family(e), Family(rom)) {
          LessExtends(Family(rom), Family(d), rom, d);
          LessTransitive(e, rom, d);
        } else {
          LessStrict(Family(rom), Family(e));
          if e == d { NotLessSelf(e); } else { LessStrict(d, e); }
        }
      }
    }
  }

  lemma NothingLeft(S: set<Rom>, families: set<bv8>, rom: Rom)
    requires Uniform(S, ROM_BITS) && rom in S && Excluded(rom, families) && LastFamily(S, rom)
    ensures Kept(S, families) == Before(Kept(S, families), rom)
  {
    forall e | e in Kept(S, families) ensures Less(e, rom) {
      FamilyOrder(e, rom);
      LessTotal(Family(e), Family(rom));
    }
  }

  // ----- the scan

  /** The search after a device that is wanted. */
  lemma WantedStep(S: set<Rom>, families: set<bv8>, c: Cursor, list: seq<Rom>)
    requires AllSound(S) && Uniform(S, ROM_BITS) && Tidy(S, c) && c.rom in Kept(S, families)
    requires Lists(list, Before(Kept(S, families), c.rom))
    ensures var o := Search(S, c, ROM_BITS);
            if o.found
            then Tidy(S, o.cursor) && IsNext(S, c.rom, o.cursor.rom) &&
                 Lists(list + [c.rom], Before(Kept(S, families), o.cursor.rom))
            else Lists(list + [c.rom], Kept(S, families))
  {
    ListGrows(list, Before(Kept(S, families), c.rom), c.rom);
    if c.done {
      LastKept(S, families, c);
    } else {
      NextSearch(S, c);
      NextKeepsTidy(S, c);
      NextKept(S, families, c.rom, Descend(S, c.rom, c.last, []));
    }
  }

  /** The search after a device that is skipped: on to the next family, to the end, or once more
      through the last family. */
  lemma UnwantedStep(S: set<Rom>, families: set<bv8>, c: Cursor, list: seq<Rom>)
    requires AllSound(S) && Uniform(S, ROM_BITS) && Tidy(S, c) && Excluded(c.rom, families)
    requires Lists(list, Before(Kept(S, families), c.rom))
    ensures var o := Search(S, Skip(c), ROM_BITS);
            if o.found
            then Tidy(S, o.cursor) && Lists(list, Before(Kept(S, families), o.cursor.rom)) &&
                 (Less(c.rom, o.cursor.rom) || (o.cursor.family == 0 && Excluded(o.cursor.rom, families))) &&
                 c.family != 0
            else Lists(list, Kept(S, families))
  {
    var o := Search(S, Skip(c), ROM_BITS);
    if Stale(S, c) && !c.done {
      StaleSkipStays(S, c);
      SkippedKept(S, families, c.rom, o.cursor.rom);
    } else {
      SkipFindsNextFamily(S, c);
      LastZeroMeaning(S, Family(c.rom));
      SkipKeepsInvariant(S, c);
      if o.found {
        LessExtends(Family(c.rom), Family(o.cursor.rom), c.rom, o.cursor.rom);
        SkippedKept(S, families, c.rom, o.cursor.rom);
      } else {
        NothingLeft(S, families, c.rom);
      }
    }
  }

  lemma LaterSubset(S: set<Rom>, rom: Rom, next: Rom)
    requires next in S && Less(rom, next)
    ensures Later(S, next) < Later(S, rom)
  {
    NotLessSelf(next);
    forall d | d in Later(S, next) ensures d in Later(S, rom) { LessTransitive(rom, next, d); }
    assert next in Later(S, rom) && next !in Later(S, next);
  }

  /** What holds between two steps of the scan.  Only a scan that may repeat can be sent back;
      `complete` says that no search has been left without an answer. */
  ghost predicate Scanning(S: set<Rom>, families: set<bv8>, list: seq<Rom>, found: bool, c: Cursor,
                           mayRepeat: bool, complete: bool)
    requires Uniform(S, ROM_BITS)
  {
    && ListsSome(list, Kept(S, families))
    && if found
       then complete && Tidy(S, c) && Lists(list, Before(Kept(S, families), c.rom)) &&
            (mayRepeat || (c.family == 0 && Excluded(c.rom, families)))
       else complete ==> Lists(list, Kept(S, families))
  }

  lemma ScanStart(S: set<Rom>, families: set<bv8>, rom: Rom, n: nat)
    requires AllSound(S) && Uniform(S, ROM_BITS) && |rom| == ROM_BITS && n <= ROM_BITS
    ensures var o := Search(S, Restart(rom), n);
            Scanning(S, families, [], o.found, o.cursor, true, n == ROM_BITS)
  {
    if n < ROM_BITS {
      UnansweredSearch(S, Restart(rom), n);
    } else if S != {} {
      FirstSearch(S, rom);
      NothingKeptBefore(S, families, Descend(S, rom, 0, []));
    }
  }

  lemma NothingKeptBefore(S: set<Rom>, families: set<bv8>, least: Rom)
    requires IsLeast(S, least)
    ensures Lists([], Before(Kept(S, families), least))
  {
    forall d | d in S ensures !Less(d, least) {
      if Less(d, least) { LessStrict(d, least); }
    }
  }

  /** How the scan has come on after one step. */
  ghost predicate Stepped(S: set<Rom>, families: set<bv8>, longer: seq<Rom>, found: bool, c: Cursor, next: Cursor,
                          mayRepeat: bool, again: bool, complete: bool)
    requires Uniform(S, ROM_BITS)
  {
    && Scanning(S, families, longer, found, next, again, complete)
    && (found ==> mayRepeat && (!again || (next.rom in S && Less(c.rom, next.rom))))
  }

  lemma SkipStepped(S: set<Rom>, families: set<bv8>, c: Cursor, list: seq<Rom>, mayRepeat: bool, n: nat)
    requires AllSound(S) && Uniform(S, ROM_BITS) && n <= ROM_BITS
    requires Scanning(S, families, list, true, c, mayRepeat, true) && Excluded(c.rom, families)
    ensures var o := Search(S, Skip(c), n);
            var again := mayRepeat && (!o.found || Less(c.rom, o.cursor.rom));
            Stepped(S, families, list, o.found, c, o.cursor, mayRepeat, again, n == ROM_BITS)
  {
    if n < ROM_BITS { UnansweredSearch(S, Skip(c), n); } else { UnwantedStep(S, families, c, list); }
  }

  lemma KeepStepped(S: set<Rom>, families: set<bv8>, c: Cursor, list: seq<Rom>, mayRepeat: bool, n: nat)
    requires AllSound(S) && Uniform(S, ROM_BITS) && n <= ROM_BITS
    requires Scanning(S, families, list, true, c, mayRepeat, true) && !Excluded(c.rom, families)
    ensures var o := Search(S, c, n);
            Stepped(S, families, list + [c.rom], o.found, c, o.cursor, mayRepeat, mayRepeat, n == ROM_BITS)
  {
    ListGrows(list, Before(Kept(S, families), c.rom), c.rom);
    if n < ROM_BITS { UnansweredSearch(S, c, n); } else { WantedStep(S, families, c, list); }
  }

  method ScanStep(w: OneWire, families: set<bv8>, list: seq<Rom>, driver: Driver, ghost n: nat, ghost mayRepeat: bool)
    returns (longer: seq<Rom>, found: bool, ghost again: bool)
    requires w.Valid() && AllSound(w.bus.devices) && Uniform(w.bus.devices, ROM_BITS)
    requires Scanning(w.bus.devices, families, list, true, w.State(), mayRepeat, true)
    requires Answers(driver, n) && n <= ROM_BITS
    modifies w, w.bus, w.romNo
    ensures w.Valid()
    ensures Stepped(w.bus.devices, families, longer, found, old(w.State()), w.State(), mayRepeat, again, n == ROM_BITS)
  {
    ghost var S, c := w.bus.devices, w.State();
    longer, again := list, mayRepeat;
    if IsExcluded(w.romNo[..], families) {
      SkipStepped(S, families, c, list, mayRepeat, n);
      w.OWFamilySkipSetup();
      found := w.OWNext(driver);
      again := mayRepeat && (!found || Less(c.rom, w.State().rom));
    } else {
      KeepStepped(S, families, c, list, mayRepeat, n);
      longer := list + [RomBits(w.romNo[..])];
      found := w.OWNext(driver);
    }
  }

  lemma FewerElements(a: set<Rom>, b: set<Rom>)
    requires a < b
    ensures |a| < |b|
  {
    var d :| d in b && d !in a;
    assert a <= b - {d};
    SubsetSize(a, b - {d});
  }

  lemma SubsetSize(a: set<Rom>, b: set<Rom>)
    requires a <= b
    ensures |a| <= |b|
  {
    assert b == a + (b - a);
  }

  /** After m searches: each one has come to a later device, but for one that may have gone back. */
  ghost predicate Searched(S: set<Rom>, m: nat, found: bool, rom: Rom, mayRepeat: bool) {
    if !found then m <= |S| + 1 else if mayRepeat then m + 1 + |Later(S, rom)| <= |S| else m <= |S|
  }

  lemma SearchedStart(S: set<Rom>, found: bool, rom: Rom)
    requires found ==> rom in S
    ensures Searched(S, 0, found, rom, true)
  {
    if found {
      NotLessSelf(rom);
      assert Later(S, rom) < S;
      FewerElements(Later(S, rom), S);
    }
  }

  lemma SearchedStep(S: set<Rom>, m: nat, rom: Rom, mayRepeat: bool, found: bool, next: Rom, again: bool)
    requires Searched(S, m, true, rom, mayRepeat)
    requires found ==> mayRepeat && (!again || (next in S && Less(rom, next)))
    ensures Searched(S, m + 1, found, next, again)
  {
    if found && again {
      LaterSubset(S, rom, next);
      FewerElements(Later(S, next), Later(S, rom));
    }
  }

  ghost predicate AllAnswered(answers: nat -> nat, m: nat) {
    forall k: nat :: k < m ==> answers(k) == ROM_BITS
  }

  /** The scan after its m-th search. */
  ghost predicate InScan(S: set<Rom>, families: set<bv8>, answers: nat -> nat, m: nat,
                         list: seq<Rom>, found: bool, c: Cursor, mayRepeat: bool)
    requires Uniform(S, ROM_BITS)
  {
    && Scanning(S, families, list, found, c, mayRepeat, answers(m) == ROM_BITS)
    && Searched(S, m, found, c.rom, mayRepeat) && AllAnswered(answers, m)
  }

  lemma InScanStep(S: set<Rom>, families: set<bv8>, answers: nat -> nat, m: nat, c: Cursor, mayRepeat: bool,
                   longer: seq<Rom>, found: bool, next: Cursor, again: bool)
    requires Uniform(S, ROM_BITS) && Searched(S, m, true, c.rom, mayRepeat)
    requires AllAnswered(answers, m) && answers(m) == ROM_BITS
    requires Stepped(S, families, longer, found, c, next, mayRepeat, again, answers(m + 1) == ROM_BITS)
    ensures InScan(S, families, answers, m + 1, longer, found, next, again) && m <= |S|
  {
    SearchedStep(S, m, c.rom, mayRepeat, found, next.rom, again);
  }

  method NextSearchOfScan(w: OneWire, families: set<bv8>, drivers: nat -> Driver, ghost answers: nat -> nat, m: nat,
                          list: seq<Rom>, ghost mayRepeat: bool)
    returns (longer: seq<Rom>, found: bool, ghost again: bool)
    requires w.Valid() && AllSound(w.bus.devices) && Uniform(w.bus.devices, ROM_BITS)
    requires InScan(w.bus.devices, families, answers, m, list, true, w.State(), mayRepeat)
    requires AllAnswer(drivers, answers)
    modifies w, w.bus, w.romNo
    ensures w.Valid()
    ensures InScan(w.bus.devices, families, answers, m + 1, longer, found, w.State(), again)
    ensures m <= |w.bus.devices|
  {
    ghost var S, c := w.bus.devices, w.State();
    var driver := drivers(m + 1);
    AnswersAtMost(driver, answers(m + 1));
    longer, found, again := ScanStep(w, families, list, driver, answers(m + 1), mayRepeat);
    InScanStep(S, families, answers, m, c, mayRepeat, longer, found, w.State(), again);
  }

  method FirstSearchOfScan(w: OneWire, families: set<bv8>, drivers: nat -> Driver, ghost answers: nat -> nat)
    returns (found: bool)
    requires w.Valid() && AllSound(w.bus.devices) && Uniform(w.bus.devices, ROM_BITS)
    requires AllAnswer(drivers, answers)
    modifies w, w.bus, w.romNo
    ensures w.Valid() && InScan(w.bus.devices, families, answers, 0, [], found, w.State(), true)
  {
    var driver := drivers(0);
    AnswersAtMost(driver, answers(0));
    ScanStart(w.bus.devices, families, w.State().rom, answers(0));
    found := w.OWFirst(driver);
    SearchedStart(w.bus.devices, found, w.State().rom);
  }

  lemma ScanEnds(S: set<Rom>, families: set<bv8>, answers: nat -> nat, m: nat, list: seq<Rom>, c: Cursor,
                 mayRepeat: bool)
    requires Uniform(S, ROM_BITS) && InScan(S, families, answers, m, list, false, c, mayRepeat)
    ensures ListsSome(list, Kept(S, families)) && m <= |S| + 1 && AllAnswered(answers, m)
    ensures answers(m) == ROM_BITS ==> Lists(list, Kept(S, families))
  {
  }

  /** Exactly the devices of the other families, each once, in ascending order, and fewer only if a
      search is not answered in full.  `drivers(m)` and `answers(m)` belong to the m-th search; at
      most two more searches are needed than there are devices. */
  method ListExcept(w: OneWire, families: set<bv8>, drivers: nat -> Driver, ghost answers: nat -> nat)
    returns (list: seq<Rom>, ghost m: nat)
    requires w.Valid() && AllSound(w.bus.devices) && AllAnswer(drivers, answers)
    modifies w, w.bus, w.romNo
    ensures w.Valid()
    ensures ListsSome(list, Kept(w.bus.devices, families))
    ensures m <= |w.bus.devices| + 1 && AllAnswered(answers, m)
    ensures answers(m) == ROM_BITS ==> Lists(list, Kept(w.bus.devices, families))
  {
    ghost var S, mayRepeat := w.bus.devices, true;
    SoundIsUniform(S);
    var searches: nat := 0;
    list := [];
    var found := FirstSearchOfScan(w, families, drivers, answers);
    while found
      invariant w.Valid()
      invariant InScan(S, families, answers, searches, list, found, w.State(), mayRepeat)
      decreases |S| + 1 - searches
    {
      list, found, mayRepeat := NextSearchOfScan(w, families, drivers, answers, searches, list, mayRepeat);
      searches := searches + 1;
    }
    m := searches;
    ScanEnds(S, families, answers, m, list, w.State(), mayRepeat);
  }

  /** The program's test on the family byte. */
  predicate IsExcluded(bytes: seq<bv8>, families: set<bv8>)
    requires |bytes| == 8
    ensures IsExcluded(bytes, families) <==> Excluded(RomBits(bytes), families)
  {
    FamiliesOfByte(bytes, families);
    bytes[0] in families
  }

  lemma FamiliesOfByte(bytes: seq<bv8>, families: set<bv8>)
    requires |bytes| == 8
    ensures bytes[0] in families <==> Excluded(RomBits(bytes), families)
  {
    FamilyOfByte(bytes, bytes[0]);
    forall f | ByteBits(f) == Family(RomBits(bytes)) ensures bytes[0] == f {
      FamilyOfByte(bytes, f);
    }
  }
}
