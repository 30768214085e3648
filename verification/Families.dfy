/**
  Directed searches: verifying one device, listing one family, skipping a family.
*/
module Families {
  import opened RomTrie
  import opened Crc8
  import opened OneWireBus
  import opened RomSearch
  import opened Discovery

  // ----- why the number 64 is safe as a discrepancy

  /** Two sound devices never differ in bit 64 alone. */
  lemma NoConflictAtLastBit(S: set<Rom>, path: Rom)
    requires AllSound(S) && |path| == ROM_BITS - 1
    ensures !Conflict(S, path)
  {
    if Conflict(S, path) {
      var a :| a in S && path + [false] <= a;
      var b :| b in S && path + [true] <= b;
      assert a == path + [false] && b == path + [true];
      LastBitMatters(path);
    }
  }

  lemma SoundIsUniform(S: set<Rom>)
    requires AllSound(S)
    ensures Uniform(S, ROM_BITS)
  {
  }

  /** The directed search finds the number it is aimed at exactly when that device is on the bus. */
  lemma VerifyIsMembership(S: set<Rom>, c: Cursor)
    requires AllSound(S) && |c.rom| == ROM_BITS
    ensures var o := Search(S, Aim(c), ROM_BITS); o.found && o.cursor.rom == c.rom <==> c.rom in S
  {
    SoundIsUniform(S);
    if S != {} {
      forall p | |p| == ROM_BITS - 1 ensures !Conflict(S, p) { NoConflictAtLastBit(S, p); }
      DirectedWalk(S, c.rom);
    }
  }

  // ----- one family

  ghost function Members(S: set<Rom>, f: Rom): set<Rom> {
    set d | d in S && |d| == ROM_BITS && Family(d) == f
  }

  /** After OWTargetSetup the next search finds the least device of the family; if the family is
      absent it finds a device of another family.  Either way the run can go on from there. */
  lemma TargetFindsFamily(S: set<Rom>, family: bv8)
    requires AllSound(S) && S != {}
    ensures var o := Search(S, Target(family), ROM_BITS);
            var f := ByteBits(family);
            o.found && Reached(S, o.cursor) && !Stale(S, o.cursor) &&
            (Members(S, f) != {} ==> IsLeast(Members(S, f), o.cursor.rom)) &&
            (Members(S, f) == {} ==> Family(o.cursor.rom) != f)
  {
    SoundIsUniform(S);
    var c := Target(family);
    var f := ByteBits(family);
    var leaf := Descend(S, c.rom, c.last, []);
    var o := Search(S, c, ROM_BITS);
    var d0 :| d0 in S;
    assert Below(S, []);
    LeafIsDevice(S, c.rom, c.last, []);
    NotStale(S, o.cursor);
    if Members(S, f) != {} {
      TargetWalk(S, family);
    } else {
      assert leaf !in Members(S, f);
    }
  }

  lemma {:induction false} TargetWalk(S: set<Rom>, family: bv8)
    requires AllSound(S) && Members(S, ByteBits(family)) != {}
    ensures IsLeast(Members(S, ByteBits(family)), Descend(S, Target(family).rom, ROM_BITS, []))
  {
    SoundIsUniform(S);
    var rom, f := Target(family).rom, ByteBits(family);
    var d :| d in Members(S, f);
    assert f <= d;
    WalkFollows(S, rom, ROM_BITS, [], f);
    LeafIsDevice(S, rom, ROM_BITS, f);
    var leaf := Descend(S, rom, ROM_BITS, f);
    assert Family(leaf) == f;
    forall p: Rom | |p| == ROM_BITS - 1 ensures !Conflict(S, p) { NoConflictAtLastBit(S, p); }
    forall e | e in Members(S, f) ensures leaf == e || Less(leaf, e) {
      assert f <= e;
      WalkIsLeast(S, rom, ROM_BITS, f, e);
    }
  }

  /** Families are contiguous in the order of the search. */
  lemma FamiliesContiguous(a: Rom, b: Rom, c: Rom)
    requires |a| == |b| == |c| == ROM_BITS
    requires Less(a, b) && Less(b, c) && Family(a) == Family(c)
    ensures Family(b) == Family(a)
  {
    if Family(a) != Family(b) {
      LessTotal(Family(a), Family(b));
      if Less(Family(a), Family(b)) {
        LessExtends(Family(c), Family(b), c, b);
        LessStrict(b, c);
      } else {
        LessExtends(Family(b), Family(a), b, a);
        LessStrict(a, b);
      }
    }
  }

  // ----- the next family

  /** `d` is the least device of any family after that of `rom`. */
  ghost predicate StartsNextFamily(S: set<Rom>, rom: Rom, d: Rom)
    requires Uniform(S, ROM_BITS) && |rom| == ROM_BITS
  {
    d in S && Less(Family(rom), Family(d)) &&
    forall e :: e in S && Less(Family(rom), Family(e)) ==> e == d || Less(d, e)
  }

  ghost predicate LastFamily(S: set<Rom>, rom: Rom)
    requires Uniform(S, ROM_BITS) && |rom| == ROM_BITS
  {
    forall e :: e in S ==> !Less(Family(rom), Family(e))
  }

  /** What the caller of OWFamilySkipSetup hopes for. */
  ghost predicate FindsNextFamily(S: set<Rom>, rom: Rom, o: Outcome)
    requires Uniform(S, ROM_BITS) && |rom| == ROM_BITS
  {
    if o.found then StartsNextFamily(S, rom, o.cursor.rom) else LastFamily(S, rom)
  }

  lemma FamilyBranch(S: set<Rom>, rom: Rom, e: Rom, k: nat)
    requires Uniform(S, ROM_BITS) && rom in S && e in S && LessAt(Family(rom), Family(e), k)
    ensures LessAt(rom, e, k) && k < LastZero(S, Family(rom))
  {
    var f := Family(rom);
    assert f[..k] == rom[..k] && Family(e)[..k] == e[..k];
    LaterDeviceBranches(S, rom, e, k);
    LastZeroMeaning(S, f);
  }

  lemma {:induction false} FamilyForkFindsNext(S: set<Rom>, rom: Rom)
    requires Uniform(S, ROM_BITS) && rom in S && LastZero(S, Family(rom)) > 0
    ensures StartsNextFamily(S, rom, Descend(S, rom, LastZero(S, Family(rom)), []))
  {
    var q := LastZero(S, Family(rom));
    var d := Descend(S, rom, q, []);
    FamilyFork(S, rom);
    assert LessAt(Family(rom), Family(d), q - 1);
    forall e | e in S && Less(Family(rom), Family(e)) ensures e == d || Less(d, e) {
      NotBeforeFamilyFork(S, rom, d, e);
    }
  }

  lemma FamilyFork(S: set<Rom>, rom: Rom)
    requires Uniform(S, ROM_BITS) && rom in S && LastZero(S, Family(rom)) > 0
    ensures var q := LastZero(S, Family(rom));
            var d := Descend(S, rom, q, []);
            var fork := rom[..q - 1] + [true];
            d in S && LessAt(rom, d, q - 1) && LessAt(Family(rom), Family(d), q - 1) &&
            forall e :: e in S && fork <= e ==> e == d || Less(d, e)
  {
    var q := LastZero(S, Family(rom));
    var d := Descend(S, rom, q, []);
    LastZeroMeaning(S, Family(rom));
    assert Family(rom)[..q - 1] == rom[..q - 1];
    ForkFindsLeast(S, rom, q);
    assert d[..q - 1] == rom[..q - 1] && d[q - 1];
    assert Family(d)[..q - 1] == d[..q - 1];
  }

  lemma NotBeforeFamilyFork(S: set<Rom>, rom: Rom, d: Rom, e: Rom)
    requires Uniform(S, ROM_BITS) && rom in S && e in S && LastZero(S, Family(rom)) > 0
    requires LessAt(rom, d, LastZero(S, Family(rom)) - 1) && Less(Family(rom), Family(e))
    requires rom[..LastZero(S, Family(rom)) - 1] + [true] <= e ==> e == d || Less(d, e)
    ensures e == d || Less(d, e)
  {
    var q := LastZero(S, Family(rom));
    var k: nat :| LessAt(Family(rom), Family(e), k);
    FamilyBranch(S, rom, e, k);
    if k < q - 1 {
      EarlierBranch(rom, d, e, q - 1, k);
    } else {
      assert rom[..q - 1] + [true] <= e;
    }
  }

  lemma NoFamilyFork(S: set<Rom>, rom: Rom)
    requires Uniform(S, ROM_BITS) && rom in S && LastZero(S, Family(rom)) == 0
    ensures LastFamily(S, rom)
  {
    forall e | e in S ensures !Less(Family(rom), Family(e)) {
      forall k: nat ensures !LessAt(Family(rom), Family(e), k) {
        if LessAt(Family(rom), Family(e), k) { FamilyBranch(S, rom, e, k); }
      }
    }
  }

  lemma LastDeviceLastFamily(S: set<Rom>, c: Cursor)
    requires Uniform(S, ROM_BITS) && Reached(S, c) && c.done
    ensures LastFamily(S, c.rom)
  {
    ReachedLastDevice(S, c);
    forall e | e in S ensures !Less(Family(c.rom), Family(e)) {
      if Less(Family(c.rom), Family(e)) { LessExtends(Family(c.rom), Family(e), c.rom, e); }
    }
  }

  lemma StaleForkGoesBack(S: set<Rom>, c: Cursor)
    requires Uniform(S, ROM_BITS) && Reached(S, c) && Stale(S, c)
    ensures var d := Descend(S, c.rom, c.family, []); d in S && (d == c.rom || Less(d, c.rom))
  {
    StaleConflict(S, c.rom, c.family);
    ForkFindsLeast(S, c.rom, c.family);
  }

  lemma StaleConflict(S: set<Rom>, rom: Rom, p: nat)
    requires rom in S && 1 <= p <= |rom| && rom[p - 1] && Below(S, rom[..p - 1] + [false])
    ensures Conflict(S, rom[..p - 1]) && rom[..p - 1] + [true] <= rom
  {
    assert rom[..p - 1] + [rom[p - 1]] <= rom;
  }

  /** A left-over family discrepancy sends the search back to the fork that it has already passed. */
  lemma StaleSkipGoesBack(S: set<Rom>, c: Cursor)
    requires AllSound(S) && Reached(S, c) && !c.done && Stale(S, c)
    ensures var o := Search(S, Skip(c), ROM_BITS);
            o.found && (o.cursor.rom == c.rom || Less(o.cursor.rom, c.rom))
  {
    SoundIsUniform(S);
    StaleForkGoesBack(S, c);
  }

  lemma StaleSkipFails(S: set<Rom>, c: Cursor)
    requires AllSound(S) && Uniform(S, ROM_BITS) && Reached(S, c) && !c.done && Stale(S, c)
    ensures !FindsNextFamily(S, c.rom, Search(S, Skip(c), ROM_BITS))
  {
    StaleSkipGoesBack(S, c);
    var d := Search(S, Skip(c), ROM_BITS).cursor.rom;
    if Less(Family(c.rom), Family(d)) {
      LessExtends(Family(c.rom), Family(d), c.rom, d);
      LessStrict(c.rom, d);
    }
  }

  lemma FreshSkipWorks(S: set<Rom>, c: Cursor)
    requires AllSound(S) && Uniform(S, ROM_BITS) && Reached(S, c) && !c.done
    requires c.family == LastZero(S, Family(c.rom))
    ensures FindsNextFamily(S, c.rom, Search(S, Skip(c), ROM_BITS))
  {
    if c.family == 0 {
      NoFamilyFork(S, c.rom);
    } else {
      FamilyForkFindsNext(S, c.rom);
    }
  }

  /** OWFamilySkipSetup does what it promises exactly when the family discrepancy is not left over
      from an earlier family, or the current device is the last one anyway. */
  lemma SkipFindsNextFamily(S: set<Rom>, c: Cursor)
    requires AllSound(S) && Uniform(S, ROM_BITS) && Reached(S, c)
    ensures FindsNextFamily(S, c.rom, Search(S, Skip(c), ROM_BITS))
            <==> c.done || c.family == 0 || !c.rom[c.family - 1]
  {
    LastZeroMeaning(S, Family(c.rom));
    if c.done {
      LastDeviceLastFamily(S, c);
    } else if c.family == LastZero(S, Family(c.rom)) {
      FreshSkipWorks(S, c);
    } else {
      StaleSkipFails(S, c);
    }
  }

  /** A successful search after a skip leaves no stale value behind, so that skips can follow skips. */
  lemma SkipKeepsInvariant(S: set<Rom>, c: Cursor)
    requires Uniform(S, ROM_BITS) && S != {} && |c.rom| == ROM_BITS
    ensures var o := Search(S, Skip(c), ROM_BITS);
            o.found ==> Reached(S, o.cursor) && !Stale(S, o.cursor)
  {
    var o := Search(S, Skip(c), ROM_BITS);
    if o.found {
      var d0 :| d0 in S;
      assert Below(S, []);
      LeafIsDevice(S, c.rom, c.family, []);
      NotStale(S, o.cursor);
    }
  }
}
