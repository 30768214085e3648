/**
  What sequences of searches find.

  The theorems are about `Search` and hold for every set of devices on a static bus.  Devices with
  a wrong CRC byte or family 0 are allowed where the code copes with them.
*/
module Discovery {
  import opened RomTrie
  import opened Crc8
  import opened OneWireBus
  import opened RomSearch

  ghost predicate AllSound(S: set<Rom>) {
    forall d :: d in S ==> Sound(d)
  }

  /** `list` contains exactly the elements of T, each once, in the order of the search. */
  ghost predicate Lists(list: seq<Rom>, T: set<Rom>) {
    && (forall i, j :: 0 <= i < j < |list| ==> Less(list[i], list[j]))
    && (forall d :: d in list <==> d in T)
  }

  lemma {:induction false} ListLength(list: seq<Rom>, T: set<Rom>)
    requires Lists(list, T)
    ensures |list| == |T|
  {
    if list != [] {
      var n := |list| - 1;
      var rest := T - {list[n]};
      forall d ensures d in list[..n] <==> d in rest {
        if d in list[..n] { LessStrict(d, list[n]); }
      }
      ListLength(list[..n], rest);
    } else {
      assert T == {};
    }
  }

  // ----- the state between two calls

  /** The value kept in LastFamilyDiscrepancy is left over from an earlier family: it marks a fork at
      which the current device took 1. */
  ghost predicate Stale(S: set<Rom>, c: Cursor)
    requires |c.rom| == ROM_BITS
  {
    1 <= c.family <= FAMILY_BITS && c.rom[c.family - 1] && Below(S, c.rom[..c.family - 1] + [false])
  }

  /** The invariant that every successful search establishes. */
  ghost predicate Reached(S: set<Rom>, c: Cursor) {
    && |c.rom| == ROM_BITS && c.rom in S
    && c.last == LastZero(S, c.rom) && c.done == (c.last == 0)
    && var q := LastZero(S, Family(c.rom));
       c.family == q || (q == 0 && Stale(S, c))
  }

  lemma ReachedLastDevice(S: set<Rom>, c: Cursor)
    requires Reached(S, c)
    ensures c.done <==> forall d :: d in S ==> !Less(c.rom, d)
  {
    LastZeroIsMaximum(S, c.rom);
  }

  lemma PrefixBelow(S: set<Rom>, rom: Rom, k: nat)
    requires rom in S && k < |rom|
    ensures Below(S, rom[..k] + [rom[k]])
  {
    assert rom[..k] + [rom[k]] <= rom;
  }

  /** A search from the initial state finds the least device, if that one is sound. */
  lemma FirstSearch(S: set<Rom>, rom: Rom)
    requires Uniform(S, ROM_BITS) && S != {} && |rom| == ROM_BITS
    ensures var o := Search(S, Restart(rom), ROM_BITS);
            var least := Descend(S, rom, 0, []);
            IsLeast(S, least) && o.found == Sound(least) &&
            (o.found ==> o.cursor.rom == least && Reached(S, o.cursor) && !Stale(S, o.cursor))
  {
    FreshSearchFindsLeast(S, rom);
    var o := Search(S, Restart(rom), ROM_BITS);
    if o.found { NotStale(S, o.cursor); }
  }

  lemma NotStale(S: set<Rom>, c: Cursor)
    requires |c.rom| == ROM_BITS && c.family == LastZero(S, Family(c.rom))
    ensures !Stale(S, c)
  {
    LastZeroMeaning(S, Family(c.rom));
  }

  lemma FamilyOfLast(S: set<Rom>, rom: Rom)
    requires |rom| == ROM_BITS && LastZero(S, rom) <= FAMILY_BITS
    ensures LastZero(S, Family(rom)) == LastZero(S, rom)
  {
    LastZeroMeaning(S, rom);
    var z := LastZero(S, rom);
    assert z > 0 ==> Family(rom)[..z - 1] == rom[..z - 1];
    forall k | z <= k < FAMILY_BITS && Conflict(S, Family(rom)[..k]) ensures Family(rom)[k] {
      assert Family(rom)[..k] == rom[..k];
    }
    LastZeroUnique(S, Family(rom), z);
  }

  /** From a device that is not the last, the next search finds exactly its successor and keeps the
      invariant; if the successor is unsound the search ends there. */
  lemma NextSearch(S: set<Rom>, c: Cursor)
    requires Uniform(S, ROM_BITS) && Reached(S, c) && !c.done
    ensures var o := Search(S, c, ROM_BITS);
            var next := Descend(S, c.rom, c.last, []);
            IsNext(S, c.rom, next) && o.found == Sound(next) &&
            (o.found ==> o.cursor.rom == next && Reached(S, o.cursor))
  {
    LastZeroFindsNext(S, c.rom);
    var o := Search(S, c, ROM_BITS);
    if o.found {
      FamilyKept(S, c, o.cursor);
    }
  }

  lemma FamilyKept(S: set<Rom>, c: Cursor, c': Cursor)
    requires Uniform(S, ROM_BITS) && Reached(S, c) && !c.done && |c'.rom| == ROM_BITS && c'.rom in S
    requires c'.rom == Descend(S, c.rom, c.last, [])
    requires c'.family == FamilyZero(S, c'.rom, c.family)
    ensures var q := LastZero(S, Family(c'.rom)); c'.family == q || (q == 0 && Stale(S, c'))
  {
    var z := c.last;
    LastZeroMeaning(S, c.rom);
    ForkFindsLeast(S, c.rom, z);
    assert c'.rom[..z - 1] == c.rom[..z - 1] && c'.rom[z - 1];
    if z > FAMILY_BITS {
      assert Family(c'.rom) == c.rom[..z - 1][..FAMILY_BITS] == Family(c.rom);
      if LastZero(S, Family(c.rom)) == 0 && c.family != 0 {
        assert Family(c.rom)[c.family - 1] && Family(c'.rom)[..c.family - 1] == c'.rom[..c.family - 1];
        assert c.rom[..c.family - 1] == Family(c.rom)[..c.family - 1];
      }
    } else {
      FamilyOfLast(S, c.rom);
      PrefixBelow(S, c.rom, z - 1);
    }
  }

  // ----- the whole run: OWFirst, then OWNext until FALSE

  ghost function Later(S: set<Rom>, rom: Rom): set<Rom> {
    set d | d in S && Less(rom, d)
  }

  lemma LaterShrinks(S: set<Rom>, rom: Rom, next: Rom)
    requires IsNext(S, rom, next)
    ensures Later(S, next) == Later(S, rom) - {next}
    ensures next in Later(S, rom)
  {
    forall d | d in S ensures Less(next, d) <==> Less(rom, d) && d != next {
      if Less(next, d) { LessTransitive(rom, next, d); LessStrict(next, d); }
    }
  }

  /** The device numbers that successive searches return, starting with the one just found. */
  ghost function Run(S: set<Rom>, c: Cursor): (list: seq<Rom>)
    requires Uniform(S, ROM_BITS) && Reached(S, c)
    decreases Later(S, c.rom)
  {
    var o := Search(S, c, ROM_BITS);
    if !o.found then [c.rom]
    else
      NextSearch(S, c);
      LaterShrinks(S, c.rom, o.cursor.rom);
      [c.rom] + Run(S, o.cursor)
  }

  /** The device numbers that OWFirst and then OWNext return until the first FALSE. */
  ghost function Listing(S: set<Rom>, rom: Rom): seq<Rom>
    requires Uniform(S, ROM_BITS) && |rom| == ROM_BITS
  {
    var o := Search(S, Restart(rom), ROM_BITS);
    if !o.found then [] else FirstSearch(S, rom); Run(S, o.cursor)
  }

  /** The devices with no unsound device at or before them. */
  ghost function SoundPart(S: set<Rom>): set<Rom> {
    set d | d in S && forall e :: e in S && (e == d || Less(e, d)) ==> Sound(e)
  }

  ghost function SoundAfter(S: set<Rom>, rom: Rom): set<Rom> {
    set d | d in Later(S, rom) && forall e :: e in Later(S, rom) && (e == d || Less(e, d)) ==> Sound(e)
  }

  lemma SoundAfterStep(S: set<Rom>, rom: Rom, next: Rom)
    requires IsNext(S, rom, next)
    ensures SoundAfter(S, rom) == if Sound(next) then {next} + SoundAfter(S, next) else {}
  {
    LaterShrinks(S, rom, next);
    if Sound(next) {
      forall d | d in Later(S, rom) ensures d in SoundAfter(S, rom) <==> d == next || d in SoundAfter(S, next) {
        forall e | e in Later(S, rom) && Less(e, next) ensures false { LessStrict(e, next); LessStrict(next, e); }
      }
    }
  }

  lemma {:induction false} RunLists(S: set<Rom>, c: Cursor)
    requires Uniform(S, ROM_BITS) && Reached(S, c)
    ensures Run(S, c) != [] && Run(S, c)[0] == c.rom
    ensures Lists(Run(S, c), {c.rom} + SoundAfter(S, c.rom))
    decreases Later(S, c.rom)
  {
    var o := Search(S, c, ROM_BITS);
    if c.done {
      ReachedLastDevice(S, c);
      assert Later(S, c.rom) == {};
    } else {
      NextSearch(S, c);
      var next := Descend(S, c.rom, c.last, []);
      SoundAfterStep(S, c.rom, next);
      if o.found {
        LaterShrinks(S, c.rom, next);
        RunLists(S, o.cursor);
        RunAscends(S, c.rom, Run(S, o.cursor), next);
      }
    }
  }

  lemma RunAscends(S: set<Rom>, rom: Rom, list: seq<Rom>, next: Rom)
    requires IsNext(S, rom, next) && Lists(list, {next} + SoundAfter(S, next))
    ensures forall i, j :: 0 <= i < j < |[rom] + list| ==> Less(([rom] + list)[i], ([rom] + list)[j])
  {
    LaterShrinks(S, rom, next);
    forall j | 0 <= j < |list| ensures Less(rom, list[j]) {
      assert list[j] in {next} + SoundAfter(S, next);
    }
  }

  lemma SoundPartFrom(S: set<Rom>, least: Rom)
    requires IsLeast(S, least)
    ensures SoundPart(S) == if Sound(least) then {least} + SoundAfter(S, least) else {}
  {
    forall e | e in S && Less(e, least) ensures false { LessStrict(e, least); }
    if Sound(least) {
      forall d | d in S ensures d in SoundPart(S) <==> d == least || d in SoundAfter(S, least) {}
    }
  }

  /** OWFirst followed by OWNext until FALSE lists every device exactly once, in ascending order, up
      to the first unsound one; so it lists the whole bus exactly when every device is sound. */
  lemma EnumerationIsComplete(S: set<Rom>, rom: Rom)
    requires Uniform(S, ROM_BITS) && |rom| == ROM_BITS
    ensures Lists(Listing(S, rom), SoundPart(S)) && |Listing(S, rom)| == |SoundPart(S)|
    ensures Lists(Listing(S, rom), S) <==> AllSound(S)
  {
    if S != {} {
      FirstSearch(S, rom);
      var least := Descend(S, rom, 0, []);
      SoundPartFrom(S, least);
      if Sound(least) {
        RunLists(S, Search(S, Restart(rom), ROM_BITS).cursor);
      }
    }
    ListLength(Listing(S, rom), SoundPart(S));
    WholeBusListed(S, Listing(S, rom));
  }

  lemma WholeBusListed(S: set<Rom>, list: seq<Rom>)
    requires Lists(list, SoundPart(S))
    ensures Lists(list, S) <==> AllSound(S)
  {
    if AllSound(S) { assert SoundPart(S) == S; }
    if Lists(list, S) {
      forall d | d in S ensures Sound(d) { assert d in list; }
    }
  }
}
