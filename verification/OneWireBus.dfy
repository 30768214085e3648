/**
  The 1-Wire bus as its master sees it, and the DS2482 bridge that drives it over I2C.

  Hardware timing is not modelled: a read slot returns the wired-AND of what the listening devices
  send, a write slot silences the devices that disagree, and a reset wakes all of them up.
*/
module OneWireBus {
  import opened RomTrie

  const ROM_BITS: nat := 64
  const SEARCH_ROM: bv8 := 0xF0

  datatype Slot = Idle | SendsBit | SendsComplement | AwaitsDirection

  class Bus {
    const devices: set<Rom>
    var listening: set<Rom>
    var position: nat
    var slot: Slot
    ghost var path: Rom  // the bits written since the last reset

    ghost predicate Valid()
      reads this
    {
      && Uniform(devices, ROM_BITS)
      && position == |path| <= ROM_BITS
      && listening == (set d | d in devices && path <= d)
    }

    constructor (population: set<Rom>)
      requires Uniform(population, ROM_BITS)
      ensures Valid() && devices == population
    {
      devices := population;
      listening := population;
      position := 0;
      slot := Idle;
      path := [];
    }

    /** Reset pulse; devices answer with a presence pulse. */
    method Reset() returns (presence: bool)
      requires Valid()
      modifies this
      ensures Valid() && path == [] && slot == Idle
      ensures presence <==> devices != {}
    {
      listening := devices;
      position := 0;
      slot := Idle;
      path := [];
      presence := devices != {};
    }

    method WriteByte(command: bv8)
      requires Valid() && path == []
      modifies this
      ensures Valid() && path == []
      ensures slot == if command == 0xF0 then SendsBit else Idle
    {
      slot := if command == SEARCH_ROM then SendsBit else Idle;
    }

    /** The first read slot of a position returns the AND of the bits, the second the AND of their complements. */
    method ReadBit() returns (bit: bool)
      requires Valid() && |path| < ROM_BITS && (slot == SendsBit || slot == SendsComplement)
      modifies this
      ensures Valid() && path == old(path)
      ensures old(slot) == SendsBit ==> slot == SendsComplement && bit == !Below(devices, path + [false])
      ensures old(slot) == SendsComplement ==> slot == AwaitsDirection && bit == !Below(devices, path + [true])
    {
      var sent := slot == SendsBit;
      bit := forall d :: d in listening ==> d[position] == sent;
      slot := if sent then SendsComplement else AwaitsDirection;
      forall d | d in devices && path + [!sent] <= d ensures d in listening && d[position] == !sent {
        assert path <= d;
      }
      forall d | d in listening && d[position] == !sent ensures path + [!sent] <= d {}
    }

    method WriteBit(direction: bool)
      requires Valid() && |path| < ROM_BITS && slot == AwaitsDirection
      modifies this
      ensures Valid() && path == old(path) + [direction] && slot == SendsBit
    {
      listening := set d | d in listening && d[position] == direction;
      position := position + 1;
      path := path + [direction];
      slot := SendsBit;
      forall d | d in devices ensures path <= d <==> old(path) <= d && d[|old(path)|] == direction {}
    }
  }

  // ----- the DS2482 bridge

  const POLL_LIMIT: nat := 200
  const STATUS_SBR: bv8 := 0x20
  const STATUS_TSB: bv8 := 0x40
  const STATUS_DIR: bv8 := 0x80
  const SYSERR: bv8 := 0xFF

  /** A status byte with the bit that says that the bridge is at work. */
  type BusyStatus = s: bv8 | s & 0x01 != 0 witness 0x01

  /** How one I2C read of the bridge's status register ends. */
  datatype Poll = Failed | Busy(status: BusyStatus) | Ready

  /** What the I2C side does during one triplet: whether the command block gets through, the status
      read chained to it, and the reads that follow. */
  datatype Attempt = Attempt(accepted: bool, chained: bv8, polls: nat -> Poll)

  /** Poll k is the first that does not find the bridge busy, and it comes within the limit. */
  ghost predicate SettlesAt(a: Attempt, k: nat) {
    k < POLL_LIMIT && !a.polls(k).Busy? && forall i :: 0 <= i < k ==> a.polls(i).Busy?
  }

  /** The driver reports an error exactly when the command was refused or the bridge stayed busy for
      the first 200 polls; that the poll after those succeeds does not help. */
  ghost predicate TripletFails(a: Attempt) {
    !a.accepted || forall i :: 0 <= i < POLL_LIMIT ==> a.polls(i).Busy?
  }

  /** The status register was read back after the bridge had finished. */
  ghost predicate StatusRead(a: Attempt) {
    a.accepted && exists k :: SettlesAt(a, k) && a.polls(k).Ready?
  }

  function StatusByte(idBit: bool, complement: bool, direction: bool): bv8 {
    (if idBit then STATUS_SBR else 0) | (if complement then STATUS_TSB else 0)
    | (if direction then STATUS_DIR else 0)
  }

  /** Bits 5, 6 and 7 of the status register are the two bits read and the one written; bit 0 is busy. */
  lemma StatusBits(idBit: bool, complement: bool, direction: bool)
    ensures var s := StatusByte(idBit, complement, direction);
            (s & 0x20 == 0x20) == idBit && (s & 0x40 == 0x40) == complement && (s & 0x80 == 0x80) == direction &&
            s & 0x01 == 0
  {
  }

  /** The direction the bridge writes: forced by the devices unless they disagree. */
  function Taken(idBit: bool, complement: bool, wanted: bool): bool {
    if idBit != complement then idBit else if idBit then true else wanted
  }

  /** What the driver returns for a triplet whose right answer is `right`: SYSERR, or that answer, or,
      if a read of the status fails, what the read before it found. */
  ghost predicate Returned(a: Attempt, right: bv8, status: bv8) {
    && (TripletFails(a) ==> status == SYSERR)
    && (StatusRead(a) ==> status == right)
    && forall k: nat :: SettlesAt(a, k) ==> a.accepted && a.polls(k).Failed? ==> status == LastRead(a, k)
  }

  /** The status byte that was read before poll k. */
  ghost function LastRead(a: Attempt, k: nat): bv8
    requires SettlesAt(a, k)
  {
    if k == 0 then a.chained else a.polls(k - 1).status
  }

  /** The driver's answer in numbers: 0xFF if the command is refused or 200 polls find the bridge busy;
      with the first poll before that which does not, bits 5, 6 and 7 say what was read and written. */
  lemma AnswerInNumbers(a: Attempt, idBit: bool, complement: bool, direction: bool, status: bv8, k: nat)
    requires Returned(a, StatusByte(idBit, complement, direction), status)
    ensures !a.accepted || (forall i :: 0 <= i < 200 ==> a.polls(i).Busy?) ==> status == 0xFF
    ensures a.accepted && k < 200 && a.polls(k).Ready? && (forall i :: 0 <= i < k ==> a.polls(i).Busy?) ==>
              (status & 0x20 != 0) == idBit && (status & 0x40 != 0) == complement && (status & 0x80 != 0) == direction
  {
    if a.accepted && k < 200 && a.polls(k).Ready? && (forall i :: 0 <= i < k ==> a.polls(i).Busy?) {
      assert SettlesAt(a, k);
      assert StatusRead(a);
    }
  }

  lemma OneSettles(a: Attempt, j: nat, k: nat)
    requires SettlesAt(a, j) && SettlesAt(a, k)
    ensures j == k
  {
  }

  lemma SettlesOrFails(a: Attempt)
    requires !TripletFails(a)
    ensures exists k: nat :: SettlesAt(a, k)
  {
    var n: nat :| n < POLL_LIMIT && !a.polls(n).Busy?;
    FirstSettles(a, n);
  }

  lemma {:induction false} FirstSettles(a: Attempt, n: nat)
    requires n < POLL_LIMIT && !a.polls(n).Busy?
    ensures exists k: nat :: SettlesAt(a, k)
  {
    if m: nat :| m < n && !a.polls(m).Busy? {
      FirstSettles(a, m);
    } else {
      assert SettlesAt(a, n);
    }
  }

  /** The driver's answer to a triplet that went out is right if and only if the status was read after
      the bridge had finished: by a poll, or, if the first poll fails, by the read that is chained to
      the command. */
  lemma RightStatusIff(a: Attempt, idBit: bool, complement: bool, direction: bool, status: bv8)
    requires !TripletFails(a) && Returned(a, StatusByte(idBit, complement, direction), status)
    ensures var right := StatusByte(idBit, complement, direction);
            status == right <==> StatusRead(a) || (a.polls(0).Failed? && a.chained == right)
  {
    StatusBits(idBit, complement, direction);
    SettlesOrFails(a);
    var k: nat :| SettlesAt(a, k);
    if a.polls(k).Failed? {
      forall j: nat | SettlesAt(a, j) ensures j == k { OneSettles(a, j, k); }
      assert status == LastRead(a, k);
      if k > 0 {
        assert a.polls(k - 1).Busy?;
        assert a.polls(0).Busy?;
      }
    } else {
      assert StatusRead(a);
    }
  }

  /** A triplet that succeeds on the bus, but whose first poll fails while the bridge is at work. */
  function StaleAttempt(chained: bv8): Attempt {
    Attempt(true, chained, k => Failed)
  }

  lemma StaleGoesOut(chained: bv8)
    ensures !TripletFails(StaleAttempt(chained))
  {
    assert !StaleAttempt(chained).polls(0).Busy?;
  }

  /** The driver then returns the chained byte, although the command did not fail. */
  lemma StaleStatus(chained: bv8, right: bv8, status: bv8)
    requires Returned(StaleAttempt(chained), right, status)
    ensures !TripletFails(StaleAttempt(chained)) && !StatusRead(StaleAttempt(chained)) && status == chained
  {
    var a := StaleAttempt(chained);
    StaleGoesOut(chained);
    assert SettlesAt(a, 0);
    assert a.accepted && SettlesAt(a, 0) && a.polls(0).Failed?;
    forall k: nat | SettlesAt(a, k) ensures k == 0 { OneSettles(a, 0, k); }
  }

  class Bridge {
    const bus: Bus

    constructor (b: Bus)
      ensures bus == b
    {
      bus := b;
    }

    /** Two read slots and a write slot, performed by the bridge. */
    method SearchTriplet(wanted: bool, a: Attempt) returns (status: bv8)
      requires bus.Valid() && |bus.path| < ROM_BITS && bus.slot == SendsBit
      modifies bus
      ensures bus.Valid()
      ensures var path := old(bus.path);
              var idBit, complement := !Below(bus.devices, path + [false]), !Below(bus.devices, path + [true]);
              var taken := Taken(idBit, complement, wanted);
              Returned(a, StatusByte(idBit, complement, taken), status) &&
              (!TripletFails(a) ==> bus.path == path + [taken] && bus.slot == SendsBit)
    {
      if !a.accepted {
        return SYSERR;
      }
      var idBit := bus.ReadBit();
      var complement := bus.ReadBit();
      var taken := Taken(idBit, complement, wanted);
      bus.WriteBit(taken);

      status := a.chained;
      var pollCount := 0;
      var polling := true;
      while polling
        invariant pollCount <= POLL_LIMIT + 1
        invariant polling ==> pollCount <= POLL_LIMIT
        invariant forall i :: 0 <= i < pollCount ==> i < POLL_LIMIT ==> a.polls(i).Busy?
        invariant polling ==> status == if pollCount == 0 then a.chained else a.polls(pollCount - 1).status
        invariant !polling && pollCount < POLL_LIMIT ==>
                    match a.polls(pollCount)
                    case Failed => status == if pollCount == 0 then a.chained else a.polls(pollCount - 1).status
                    case Ready => status == StatusByte(idBit, complement, taken)
                    case Busy(_) => false
        invariant bus.Valid() && bus.path == old(bus.path) + [taken] && bus.slot == SendsBit
        decreases polling, POLL_LIMIT + 1 - pollCount
      {
        match a.polls(pollCount)
        case Failed =>
          polling := false;
        case Ready =>
          status := StatusByte(idBit, complement, taken);
          polling := false;
        case Busy(s) =>
          status := s;
          polling := pollCount < POLL_LIMIT;
          pollCount := pollCount + 1;
      }
      if pollCount >= POLL_LIMIT {
        return SYSERR;
      }
      assert SettlesAt(a, pollCount);
    }
  }
}
