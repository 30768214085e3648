/**
  The two-wire (I2C) driver: an interrupt handler that works through a chain of command blocks.

  The bus side is a sequence of interrupts.  The hardware can only raise a status that fits what the
  handler told it to do last; within that, every sequence of statuses and received bytes is allowed.
  A chain is a sequence of blocks, each with a buffer of its own.
*/
module TwiChain {

  import opened ByteOps

  /** struct twi_Command. */
  datatype Block = Block(write: bool, address: byte, data: seq<byte>, dataLength: nat)

  predicate ValidBlock(b: Block) {
    b.dataLength < 256 && b.dataLength <= |b.data| && (!b.write ==> b.dataLength >= 1)
  }

  predicate ValidChain(chain: seq<Block>) {
    |chain| > 0 && forall k :: 0 <= k < |chain| ==> ValidBlock(chain[k])
  }

  datatype Status =
    | TW_START | TW_REP_START
    | TW_MT_SLA_ACK | TW_MT_SLA_NACK | TW_MT_DATA_ACK | TW_MT_DATA_NACK
    | TW_ARB_LOST
    | TW_MR_SLA_ACK | TW_MR_SLA_NACK | TW_MR_DATA_ACK | TW_MR_DATA_NACK
    | TW_BUS_ERROR | TW_OTHER

  /** What the last write to TWCR asked for. */
  datatype Control =
    | StartRequested
    | SlaSent
    | ByteSent
    | ReceiveAck
    | ReceiveNack
    | Disabled

  datatype Message = OK | SYSERR

  /** The statuses that can follow a request; after the interface is disabled there are none. */
  predicate CanFollow(control: Control, write: bool, status: Status) {
    match control
    case StartRequested => status == TW_START || status == TW_REP_START || status == TW_BUS_ERROR || status == TW_OTHER
    case SlaSent =>
      if write then status == TW_MT_SLA_ACK || status == TW_MT_SLA_NACK || Broken(status)
      else status == TW_MR_SLA_ACK || status == TW_MR_SLA_NACK || Broken(status)
    case ByteSent => status == TW_MT_DATA_ACK || status == TW_MT_DATA_NACK || Broken(status)
    case ReceiveAck => status == TW_MR_DATA_ACK || Broken(status)
    case ReceiveNack => status == TW_MR_DATA_NACK || Broken(status)
    case Disabled => false
  }

  predicate Broken(status: Status) {
    status == TW_ARB_LOST || status == TW_BUS_ERROR || status == TW_OTHER
  }

  /** One interrupt: the status, and the byte that the data register holds if one was received. */
  datatype Event = Event(status: Status, received: byte)

  // ----- the handler as a function

  /** The C variables: the chain with the current block's place in it, the two statics, the two
      registers, and the messages sent to the waiting process. */
  datatype Driver = Driver(
    blocks: seq<Block>, current: nat, bufNext: nat, bufCount: nat, twdr: byte, control: Control,
    messages: seq<Message>)

  /** A new command; the statics and the data register keep their values until the START. */
  function Start(idle: Driver, chain: seq<Block>): Driver {
    idle.(blocks := chain, current := 0, control := StartRequested, messages := [])
  }

  function NextBlock(d: Driver): Driver {
    if d.current + 1 < |d.blocks| then d.(current := d.current + 1, control := StartRequested)
    else d.(control := Disabled, messages := d.messages + [OK])
  }

  /** The received byte at the place where bufNext points. */
  function Store(d: Driver, c: byte): Driver
    requires d.current < |d.blocks|
  {
    var b := d.blocks[d.current];
    if d.bufNext < |b.data| then d.(blocks := d.blocks[d.current := b.(data := b.data[d.bufNext := c])]) else d
  }

  /** --bufCount > 0 on an unsigned char decides whether the next byte is acknowledged. */
  function AskForByte(d: Driver): Driver {
    var n := if d.bufCount == 0 then 255 else d.bufCount - 1;
    d.(bufCount := n, control := if n > 0 then ReceiveAck else ReceiveNack)
  }

  /** bufCount-- > 0 decides whether there is another byte to send. */
  function SendNext(d: Driver): Driver
    requires d.current < |d.blocks|
  {
    var b := d.blocks[d.current];
    if d.bufCount > 0 then
      var c := if d.bufNext < |b.data| then b.data[d.bufNext] else 0;
      d.(bufCount := d.bufCount - 1, twdr := c, bufNext := d.bufNext + 1, control := ByteSent)
    else NextBlock(d.(bufCount := 255))
  }

  /** One interrupt. */
  function Handle(d: Driver, e: Event): Driver
    requires d.current < |d.blocks|
  {
    var b := d.blocks[d.current];
    match e.status
    case TW_START | TW_REP_START =>
      d.(bufNext := 0, bufCount := b.dataLength, twdr := b.address, control := SlaSent)
    case TW_MT_SLA_ACK | TW_MT_DATA_ACK => SendNext(d)
    case TW_MR_DATA_ACK => AskForByte(Store(d, e.received).(bufNext := d.bufNext + 1))
    case TW_MR_SLA_ACK => AskForByte(d)
    case TW_MR_DATA_NACK => NextBlock(Store(d, e.received))
    case TW_ARB_LOST => d.(control := StartRequested)
    case _ => d.(control := Disabled, messages := d.messages + [SYSERR])
  }

  // ----- what crosses the bus

  /** The bytes of a block seen on the bus: a START begins anew, a byte that the slave acknowledged
      counts as sent, and a received byte counts whether or not it is acknowledged. */
  function OnWire(seen: seq<byte>, status: Status, twdr: byte, received: byte): seq<byte> {
    match status
    case TW_START | TW_REP_START => []
    case TW_MT_DATA_ACK => seen + [twdr]
    case TW_MR_DATA_ACK | TW_MR_DATA_NACK => seen + [received]
    case _ => seen
  }

  /** A block is over when the handler moves on to the next one or reports success. */
  function Completed(before: nat, after: nat, messages: seq<Message>, seen: seq<byte>): seq<seq<byte>> {
    if after > before || messages == [OK] then [seen] else []
  }

  /** The driver, the bytes on the bus since the current block's START, and those of each block that
      is over. */
  datatype Wire = Wire(driver: Driver, seen: seq<byte>, done: seq<seq<byte>>)

  predicate CanTick(w: Wire, e: Event) {
    w.driver.current < |w.driver.blocks| &&
    CanFollow(w.driver.control, w.driver.blocks[w.driver.current].write, e.status)
  }

  /** One event on the bus; an event that the hardware cannot raise then does not happen. */
  function Tick(w: Wire, e: Event): Wire {
    if !CanTick(w, e) then w
    else
      var next := Handle(w.driver, e);
      var seen := OnWire(w.seen, e.status, w.driver.twdr, e.received);
      Wire(next, seen, w.done + Completed(w.driver.current, next.current, next.messages, seen))
  }

  function PlayFrom(w: Wire, events: seq<Event>): Wire {
    if events == [] then w else Tick(PlayFrom(w, events[..|events| - 1]), events[|events| - 1])
  }

  /** A whole command. */
  function Play(idle: Driver, chain: seq<Block>, events: seq<Event>): Wire {
    PlayFrom(Wire(Start(idle, chain), [], []), events)
  }

  /** The first dataLength bytes of a block's buffer. */
  function Payload(b: Block): seq<byte> {
    if b.dataLength <= |b.data| then b.data[..b.dataLength] else b.data
  }

  /** Equal except for the bytes in the buffer; a block that is written is not changed at all. */
  predicate SameBlock(a: Block, b: Block) {
    && a.write == b.write && a.address == b.address && a.dataLength == b.dataLength && |a.data| == |b.data|
    && (b.write ==> a == b)
  }

  // ----- what every run keeps

  /** How far the current block has come. */
  predicate InBlock(d: Driver, b: Block, seen: seq<byte>) {
    && ValidBlock(b)
    && match d.control
       case StartRequested => true
       case SlaSent => d.bufNext == 0 && d.bufCount == b.dataLength && seen == []
       case ByteSent =>
         b.write && 1 <= d.bufNext <= b.dataLength && d.bufCount == b.dataLength - d.bufNext &&
         seen == b.data[..d.bufNext - 1] && d.twdr == b.data[d.bufNext - 1]
       case ReceiveAck =>
         !b.write && d.bufNext < b.dataLength && d.bufCount == b.dataLength - 1 - d.bufNext && d.bufCount > 0 &&
         seen == b.data[..d.bufNext]
       case ReceiveNack =>
         !b.write && d.bufNext == b.dataLength - 1 && d.bufCount == 0 && seen == b.data[..d.bufNext]
       case Disabled => false
  }

  /** The first n blocks went through: what crossed the bus for each is exactly what its buffer holds. */
  predicate Delivered(blocks: seq<Block>, done: seq<seq<byte>>, n: nat) {
    |done| == n <= |blocks| && forall k :: 0 <= k < n ==> done[k] == Payload(blocks[k])
  }

  predicate SameChain(blocks: seq<Block>, chain: seq<Block>) {
    |blocks| == |chain| && forall k :: 0 <= k < |chain| ==> SameBlock(blocks[k], chain[k])
  }

  /** While the command runs no message has been sent; when it is over there is exactly one, and an
      OK means that every block went through. */
  predicate Good(w: Wire, chain: seq<Block>) {
    var d := w.driver;
    && SameChain(d.blocks, chain) && d.current < |chain|
    && (forall k :: d.current < k < |chain| ==> d.blocks[k] == chain[k])
    && if d.control != Disabled
       then d.messages == [] && Delivered(d.blocks, w.done, d.current) && InBlock(d, d.blocks[d.current], w.seen)
       else d.messages == [SYSERR] || (d.messages == [OK] && Delivered(d.blocks, w.done, |chain|))
  }

  lemma BlockDone(w: Wire, chain: seq<Block>, d: Driver, seen: seq<byte>)
    requires ValidChain(chain) && Good(w, chain) && w.driver.control != Disabled
    requires d.current == w.driver.current && d.messages == [] && SameChain(d.blocks, chain)
    requires forall k :: 0 <= k < |chain| && k != d.current ==> d.blocks[k] == w.driver.blocks[k]
    requires seen == Payload(d.blocks[d.current])
    ensures var next := NextBlock(d);
            Good(Wire(next, seen, w.done + Completed(d.current, next.current, next.messages, seen)), chain)
  {
  }

  lemma TransmitKeepsGood(w: Wire, chain: seq<Block>, e: Event)
    requires ValidChain(chain) && Good(w, chain) && CanTick(w, e)
    requires e.status == TW_MT_SLA_ACK || e.status == TW_MT_DATA_ACK
    ensures Good(Tick(w, e), chain)
  {
    var d := w.driver;
    var b := d.blocks[d.current];
    var seen := OnWire(w.seen, e.status, d.twdr, e.received);
    if e.status == TW_MT_DATA_ACK {
      assert b.data[..d.bufNext] == b.data[..d.bufNext - 1] + [b.data[d.bufNext - 1]];
    }
    assert seen == b.data[..d.bufNext];
    if d.bufCount == 0 { BlockDone(w, chain, d.(bufCount := 255), seen); }
  }

  lemma StoreKeepsChain(d: Driver, chain: seq<Block>, c: byte)
    requires SameChain(d.blocks, chain) && d.current < |chain| && !chain[d.current].write
    ensures SameChain(Store(d, c).blocks, chain)
    ensures forall k :: 0 <= k < |chain| && k != d.current ==> Store(d, c).blocks[k] == d.blocks[k]
  {
  }

  lemma ReceiveKeepsGood(w: Wire, chain: seq<Block>, e: Event)
    requires ValidChain(chain) && Good(w, chain) && CanTick(w, e)
    requires e.status == TW_MR_DATA_ACK || e.status == TW_MR_DATA_NACK
    ensures Good(Tick(w, e), chain)
  {
    var d := w.driver;
    var s := Store(d, e.received);
    var b := s.blocks[d.current];
    StoreKeepsChain(d, chain, e.received);
    assert b.data[..d.bufNext + 1] == w.seen + [e.received];
    if e.status == TW_MR_DATA_NACK { BlockDone(w, chain, s, w.seen + [e.received]); }
  }

  lemma AddressKeepsGood(w: Wire, chain: seq<Block>, e: Event)
    requires ValidChain(chain) && Good(w, chain) && CanTick(w, e)
    requires e.status in {TW_START, TW_REP_START, TW_MR_SLA_ACK, TW_ARB_LOST}
    ensures Good(Tick(w, e), chain)
  {
  }

  lemma FailureKeepsGood(w: Wire, chain: seq<Block>, e: Event)
    requires ValidChain(chain) && Good(w, chain) && CanTick(w, e)
    requires e.status in {TW_MT_SLA_NACK, TW_MR_SLA_NACK, TW_MT_DATA_NACK, TW_BUS_ERROR, TW_OTHER}
    ensures Good(Tick(w, e), chain)
  {
  }

  /** Every event keeps the invariant. */
  lemma TickKeepsGood(w: Wire, chain: seq<Block>, e: Event)
    requires ValidChain(chain) && Good(w, chain)
    ensures Good(Tick(w, e), chain)
  {
    if CanTick(w, e) {
      match e.status
      case TW_MT_SLA_ACK | TW_MT_DATA_ACK => TransmitKeepsGood(w, chain, e);
      case TW_MR_DATA_ACK | TW_MR_DATA_NACK => ReceiveKeepsGood(w, chain, e);
      case TW_START | TW_REP_START | TW_MR_SLA_ACK | TW_ARB_LOST => AddressKeepsGood(w, chain, e);
      case _ => FailureKeepsGood(w, chain, e);
    }
  }

  lemma {:induction false} PlayGood(idle: Driver, chain: seq<Block>, events: seq<Event>)
    requires ValidChain(chain)
    ensures Good(Play(idle, chain, events), chain)
  {
    if events != [] {
      PlayGood(idle, chain, events[..|events| - 1]);
      TickKeepsGood(Play(idle, chain, events[..|events| - 1]), chain, events[|events| - 1]);
    }
  }

  /** Whatever the bus does: at most one message is sent, and none while the command runs. */
  lemma AtMostOneMessage(idle: Driver, chain: seq<Block>, events: seq<Event>)
    requires ValidChain(chain)
    ensures var d := Play(idle, chain, events).driver;
            |d.messages| <= 1 && (d.messages == [] <==> d.control != Disabled)
  {
    PlayGood(idle, chain, events);
  }

  /** An OK means that the bus carried each write block's bytes, all of them in order, and that each
      read block's buffer holds exactly the bytes that the bus delivered for it. */
  lemma OkMeansDelivered(idle: Driver, chain: seq<Block>, events: seq<Event>)
    requires ValidChain(chain) && Play(idle, chain, events).driver.messages == [OK]
    ensures var w := Play(idle, chain, events);
            |w.done| == |w.driver.blocks| == |chain| &&
            forall k :: 0 <= k < |chain| ==>
              w.done[k] == Payload(if chain[k].write then chain[k] else w.driver.blocks[k])
  {
    PlayGood(idle, chain, events);
  }

  lemma PlayNext(w: Wire, events: seq<Event>, e: Event)
    ensures PlayFrom(w, events + [e]) == Tick(PlayFrom(w, events), e)
  {
    assert (events + [e])[..|events|] == events;
  }

  // ----- failures

  /** An address or a byte that is not acknowledged, an error on the bus, or anything unforeseen. */
  predicate Failing(status: Status) {
    || status == TW_MT_SLA_NACK || status == TW_MR_SLA_NACK || status == TW_MT_DATA_NACK
    || status == TW_BUS_ERROR || status == TW_OTHER
  }

  /** Event k happens, and it is a failure. */
  predicate FailsAt(idle: Driver, chain: seq<Block>, events: seq<Event>, k: nat) {
    k < |events| && CanTick(Play(idle, chain, events[..k]), events[k]) && Failing(events[k].status)
  }

  /** A failure ends the command with the one message SYSERR, and nothing else sends that. */
  lemma TickFails(w: Wire, chain: seq<Block>, e: Event)
    requires ValidChain(chain) && Good(w, chain)
    ensures var next := Tick(w, e).driver;
            next.messages == [SYSERR] <==> w.driver.messages == [SYSERR] || (CanTick(w, e) && Failing(e.status))
  {
    var d := w.driver;
    if CanTick(w, e) {
      assert d.messages == [];
      assert Failing(e.status) ==> Handle(d, e).messages == [] + [SYSERR];
      assert !Failing(e.status) ==> Handle(d, e).messages == [] || Handle(d, e).messages == [] + [OK];
    }
  }

  lemma FailsEarlier(idle: Driver, chain: seq<Block>, events: seq<Event>, e: Event, k: nat)
    requires k < |events|
    ensures FailsAt(idle, chain, events + [e], k) <==> FailsAt(idle, chain, events, k)
  {
    assert (events + [e])[..k] == events[..k] && (events + [e])[k] == events[k];
  }

  lemma FailsLast(idle: Driver, chain: seq<Block>, events: seq<Event>, e: Event)
    ensures FailsAt(idle, chain, events + [e], |events|) <==>
            CanTick(Play(idle, chain, events), e) && Failing(e.status)
  {
    assert (events + [e])[..|events|] == events;
  }

  lemma FailsNext(idle: Driver, chain: seq<Block>, events: seq<Event>, e: Event)
    ensures (exists k :: FailsAt(idle, chain, events + [e], k)) <==>
            (exists k :: FailsAt(idle, chain, events, k)) ||
            (CanTick(Play(idle, chain, events), e) && Failing(e.status))
  {
    FailsLast(idle, chain, events, e);
    forall k: nat | k < |events|
      ensures FailsAt(idle, chain, events + [e], k) <==> FailsAt(idle, chain, events, k)
    {
      FailsEarlier(idle, chain, events, e, k);
    }
  }

  /** Over every run: the waiting process gets SYSERR if and only if some event that could happen was a
      failure. */
  lemma {:induction false} SyserrIffFailure(idle: Driver, chain: seq<Block>, events: seq<Event>)
    requires ValidChain(chain)
    ensures Play(idle, chain, events).driver.messages == [SYSERR] <==>
            exists k :: FailsAt(idle, chain, events, k)
  {
    if events != [] {
      var rest, e := events[..|events| - 1], events[|events| - 1];
      assert events == rest + [e];
      SyserrIffFailure(idle, chain, rest);
      PlayGood(idle, chain, rest);
      TickFails(Play(idle, chain, rest), chain, e);
      FailsNext(idle, chain, rest, e);
    }
  }

  /** When the interface is disabled, nothing happens any more. */
  lemma {:induction false} DisabledStays(w: Wire, events: seq<Event>)
    requires w.driver.control == Disabled
    ensures PlayFrom(w, events) == w
  {
    if events != [] { DisabledStays(w, events[..|events| - 1]); }
  }

  lemma FailureDisables(w: Wire, chain: seq<Block>, e: Event)
    requires ValidChain(chain) && Good(w, chain) && CanTick(w, e) && Failing(e.status)
    ensures Tick(w, e).driver == w.driver.(control := Disabled, messages := [SYSERR])
  {
    assert w.driver.messages == [] && [] + [SYSERR] == [SYSERR];
  }

  /** From the failure on the interface is disabled, and whatever follows changes nothing. */
  lemma FailureIsFinal(idle: Driver, chain: seq<Block>, events: seq<Event>, e: Event, rest: seq<Event>)
    requires ValidChain(chain) && CanTick(Play(idle, chain, events), e) && Failing(e.status)
    ensures var before, w := Play(idle, chain, events), Play(idle, chain, events + [e]);
            w.driver == before.driver.(control := Disabled, messages := [SYSERR]) &&
            Play(idle, chain, events + [e] + rest) == w
  {
    var w0 := Wire(Start(idle, chain), [], []);
    PlayNext(w0, events, e);
    PlayGood(idle, chain, events);
    FailureDisables(Play(idle, chain, events), chain, e);
    DisabledStays(Play(idle, chain, events + [e]), rest);
    PlayConcat(w0, events + [e], rest);
  }

  /** No slave at the address of the first block: START, and the address is not acknowledged. */
  lemma NobodyThere(idle: Driver, chain: seq<Block>, start: byte, nack: byte)
    requires ValidChain(chain)
    ensures var nak := if chain[0].write then TW_MT_SLA_NACK else TW_MR_SLA_NACK;
            var d := Play(idle, chain, [Event(TW_START, start), Event(nak, nack)]).driver;
            d.messages == [SYSERR] && d.control == Disabled
  {
    var w0 := Wire(Start(idle, chain), [], []);
    var e0, e1 := Event(TW_START, start), Event(if chain[0].write then TW_MT_SLA_NACK else TW_MR_SLA_NACK, nack);
    PlayNext(w0, [], e0);
    PlayNext(w0, [e0], e1);
    assert [] + [e0] == [e0] && [e0] + [e1] == [e0, e1];
  }

  /** Arbitration loss at any point of a block: its first byte is the next one on the bus. */
  lemma LossRestartsBlock(idle: Driver, chain: seq<Block>, events: seq<Event>, lost: Event, again: Event)
    requires ValidChain(chain) && lost.status == TW_ARB_LOST && CanTick(Play(idle, chain, events), lost)
    requires again.status == TW_START || again.status == TW_REP_START
    ensures var before := Play(idle, chain, events).driver;
            var w := Play(idle, chain, events + [lost] + [again]);
            w.driver == before.(bufNext := 0, bufCount := before.blocks[before.current].dataLength,
                                twdr := before.blocks[before.current].address, control := SlaSent) && w.seen == []
  {
    var w0 := Wire(Start(idle, chain), [], []);
    PlayNext(w0, events, lost);
    PlayNext(w0, events + [lost], again);
  }

  // ----- a bus without faults

  function Ack(): Event {
    Event(TW_MT_DATA_ACK, 0)
  }

  function Acks(n: nat): seq<Event> {
    if n == 0 then [] else [Ack()] + Acks(n - 1)
  }

  /** All bytes but the last are acknowledged. */
  function Delivery(bytes: seq<byte>): Event
    requires |bytes| >= 1
  {
    Event(if |bytes| > 1 then TW_MR_DATA_ACK else TW_MR_DATA_NACK, bytes[0])
  }

  function Deliveries(bytes: seq<byte>): seq<Event> {
    if bytes == [] then [] else [Delivery(bytes)] + Deliveries(bytes[1..])
  }

  /** The events of one block if nothing goes wrong and the slave sends `incoming`. */
  function BlockEvents(b: Block, incoming: seq<byte>): seq<Event> {
    [Event(TW_START, 0)] +
    if b.write then [Event(TW_MT_SLA_ACK, 0)] + Acks(b.dataLength)
    else [Event(TW_MR_SLA_ACK, 0)] + Deliveries(incoming)
  }

  /** A slave that sends as many bytes as are asked for; a write block takes none. */
  predicate Supplies(incoming: seq<seq<byte>>, chain: seq<Block>) {
    |incoming| == |chain| && forall k :: 0 <= k < |chain| && !chain[k].write ==> |incoming[k]| == chain[k].dataLength
  }

  function ChainEvents(chain: seq<Block>, incoming: seq<seq<byte>>): seq<Event>
    requires |incoming| == |chain|
  {
    if chain == [] then []
    else
      var n := |chain| - 1;
      ChainEvents(chain[..n], incoming[..n]) + BlockEvents(chain[n], incoming[n])
  }

  lemma {:induction false} PlayConcat(w: Wire, a: seq<Event>, b: seq<Event>)
    ensures PlayFrom(w, a + b) == PlayFrom(PlayFrom(w, a), b)
  {
    if b == [] {
      assert a + b == a;
    } else {
      var m := |b| - 1;
      assert (a + b)[..|a + b| - 1] == a + b[..m];
      PlayConcat(w, a, b[..m]);
    }
  }

  lemma PlayCons(w: Wire, e: Event, events: seq<Event>)
    ensures PlayFrom(w, [e] + events) == PlayFrom(Tick(w, e), events)
  {
    PlayConcat(w, [e], events);
    assert [e][..0] == [];
  }

  /** The block that was current in w is over in v, and `bytes` crossed the bus for it. */
  predicate Passed(w: Wire, v: Wire, bytes: seq<byte>) {
    && v.done == w.done + [bytes] && |v.driver.blocks| == |w.driver.blocks|
    && if w.driver.current + 1 < |w.driver.blocks|
       then v.driver.control == StartRequested && v.driver.current == w.driver.current + 1 && v.driver.messages == []
       else v.driver.messages == [OK]
  }

  /** A block is under way. */
  predicate Busy(w: Wire, write: bool) {
    var d := w.driver;
    d.current < |d.blocks| && d.blocks[d.current].write == write && d.messages == []
  }

  lemma WriteStep(w: Wire)
    requires Busy(w, true) && w.driver.control == ByteSent
    ensures var d, v := w.driver, Tick(w, Ack());
            if d.bufCount == 0 then Passed(w, v, v.seen)
            else Busy(v, true) && v.driver.control == ByteSent && v.driver.bufCount == d.bufCount - 1 &&
                 v.done == w.done && v.driver.blocks == d.blocks && v.driver.current == d.current
  {
  }

  lemma {:induction false} WriteRest(w: Wire, n: nat)
    requires Busy(w, true) && w.driver.control == ByteSent && w.driver.bufCount == n
    ensures var v := PlayFrom(w, Acks(n + 1)); Passed(w, v, v.seen)
    decreases n
  {
    WriteStep(w);
    PlayCons(w, Ack(), Acks(n));
    if n > 0 { WriteRest(Tick(w, Ack()), n - 1); }
  }

  /** The block is being read and these bytes are still to come. */
  predicate Expects(w: Wire, bytes: seq<byte>) {
    && Busy(w, false) && |bytes| >= 1 && w.driver.bufCount == |bytes| - 1
    && w.driver.control == if |bytes| > 1 then ReceiveAck else ReceiveNack
  }

  lemma ReadStep(w: Wire, bytes: seq<byte>)
    requires Expects(w, bytes)
    ensures var d, v := w.driver, Tick(w, Delivery(bytes));
            v.seen == w.seen + [bytes[0]] &&
            if |bytes| == 1 then Passed(w, v, v.seen)
            else Expects(v, bytes[1..]) && v.done == w.done &&
                 |v.driver.blocks| == |d.blocks| && v.driver.current == d.current
  {
  }

  lemma PassedLater(w: Wire, u: Wire, v: Wire, bytes: seq<byte>)
    requires u.done == w.done && |u.driver.blocks| == |w.driver.blocks| && u.driver.current == w.driver.current
    requires Passed(u, v, bytes)
    ensures Passed(w, v, bytes)
  {
  }

  lemma ReadLast(w: Wire, c: byte)
    requires Expects(w, [c])
    ensures Passed(w, PlayFrom(w, Deliveries([c])), w.seen + [c])
  {
    ReadStep(w, [c]);
    PlayCons(w, Delivery([c]), []);
    assert [c][1..] == [] && [Delivery([c])] + [] == Deliveries([c]);
  }

  lemma ReadMore(w: Wire, c: byte, rest: seq<byte>, v: Wire)
    requires Expects(w, [c] + rest) && |rest| >= 1
    requires var u := Tick(w, Delivery([c] + rest)); Expects(u, rest) ==> Passed(u, v, u.seen + rest)
    ensures Passed(w, v, w.seen + ([c] + rest))
  {
    ReadStep(w, [c] + rest);
    var u := Tick(w, Delivery([c] + rest));
    assert ([c] + rest)[1..] == rest;
    assert u.seen + rest == w.seen + ([c] + rest);
    PassedLater(w, u, v, u.seen + rest);
  }

  lemma ReadFirst(w: Wire, c: byte, rest: seq<byte>)
    requires Expects(w, [c] + rest) && |rest| >= 1
    ensures var e := Delivery([c] + rest);
            Expects(Tick(w, e), rest) && PlayFrom(w, Deliveries([c] + rest)) == PlayFrom(Tick(w, e), Deliveries(rest))
  {
    ReadStep(w, [c] + rest);
    assert ([c] + rest)[1..] == rest;
    PlayCons(w, Delivery([c] + rest), Deliveries(rest));
  }

  lemma {:induction false} ReadRest(w: Wire, bytes: seq<byte>, n: nat)
    requires Expects(w, bytes) && n == |bytes|
    ensures Passed(w, PlayFrom(w, Deliveries(bytes)), w.seen + bytes)
    decreases n
  {
    var c, rest := bytes[0], bytes[1..];
    assert bytes == [c] + rest;
    if n == 1 {
      assert bytes == [c];
      ReadLast(w, c);
    } else {
      ReadFirst(w, c, rest);
      ReadRest(Tick(w, Delivery([c] + rest)), rest, n - 1);
      ReadMore(w, c, rest, PlayFrom(w, Deliveries([c] + rest)));
    }
  }

  function Selected(w: Wire, write: bool): Wire {
    Tick(Tick(w, Event(TW_START, 0)), Event(if write then TW_MT_SLA_ACK else TW_MR_SLA_ACK, 0))
  }

  /** START and the address. */
  lemma Addressed(w: Wire, write: bool)
    requires Busy(w, write) && w.driver.control == StartRequested
    ensures var w2 := Selected(w, write);
            var n := w.driver.blocks[w.driver.current].dataLength;
            w2.seen == [] && if write && n == 0 then Passed(w, w2, [])
            else Busy(w2, write) && w2.done == w.done && w2.driver.blocks == w.driver.blocks &&
                 w2.driver.current == w.driver.current && (n >= 1 ==> w2.driver.bufCount == n - 1) &&
                 w2.driver.control == if write then ByteSent else if n > 1 || n == 0 then ReceiveAck else ReceiveNack
  {
  }

  lemma PlaySelected(w: Wire, b: Block, incoming: seq<byte>)
    ensures PlayFrom(w, BlockEvents(b, incoming)) ==
            PlayFrom(Selected(w, b.write), if b.write then Acks(b.dataLength) else Deliveries(incoming))
  {
    var start, sla := Event(TW_START, 0), Event(if b.write then TW_MT_SLA_ACK else TW_MR_SLA_ACK, 0);
    var rest := if b.write then Acks(b.dataLength) else Deliveries(incoming);
    assert BlockEvents(b, incoming) == [start] + ([sla] + rest);
    PlayCons(w, start, [sla] + rest);
    PlayCons(Tick(w, start), sla, rest);
  }

  /** A block whose events are those of a bus without faults is over after them. */
  lemma BlockPasses(w: Wire, b: Block, incoming: seq<byte>)
    requires Busy(w, b.write) && w.driver.control == StartRequested && ValidBlock(b)
    requires b.dataLength == w.driver.blocks[w.driver.current].dataLength
    requires b.write || |incoming| == b.dataLength
    ensures var v := PlayFrom(w, BlockEvents(b, incoming)); Passed(w, v, if b.write then v.seen else incoming)
  {
    PlaySelected(w, b, incoming);
    Addressed(w, b.write);
    var u := Selected(w, b.write);
    if !b.write {
      ReadRest(u, incoming, |incoming|);
      assert u.seen + incoming == incoming;
      PassedLater(w, u, PlayFrom(u, Deliveries(incoming)), incoming);
    } else if b.dataLength > 0 {
      WriteRest(u, b.dataLength - 1);
      var v := PlayFrom(u, Acks(b.dataLength));
      PassedLater(w, u, v, v.seen);
    }
  }

  /** The first n blocks have passed. */
  predicate PassedUpTo(w: Wire, chain: seq<Block>, incoming: seq<seq<byte>>, n: nat)
    requires Supplies(incoming, chain) && n <= |chain|
  {
    && |w.done| == n && |w.driver.blocks| == |chain|
    && (forall k :: 0 <= k < n && !chain[k].write ==> w.done[k] == incoming[k])
    && if n < |chain| then w.driver.control == StartRequested && w.driver.current == n && w.driver.messages == []
       else w.driver.messages == [OK]
  }

  lemma PassOne(w: Wire, v: Wire, chain: seq<Block>, incoming: seq<seq<byte>>, n: nat, bytes: seq<byte>)
    requires Supplies(incoming, chain) && n < |chain| && PassedUpTo(w, chain, incoming, n) && Passed(w, v, bytes)
    requires chain[n].write || bytes == incoming[n]
    ensures PassedUpTo(v, chain, incoming, n + 1)
  {
  }

  lemma GoodIsBusy(w: Wire, chain: seq<Block>)
    requires Good(w, chain) && w.driver.control == StartRequested
    ensures Busy(w, chain[w.driver.current].write)
    ensures w.driver.blocks[w.driver.current].dataLength == chain[w.driver.current].dataLength
  {
  }

  lemma PassBlock(idle: Driver, chain: seq<Block>, incoming: seq<seq<byte>>, n: nat, events: seq<Event>)
    requires ValidChain(chain) && Supplies(incoming, chain) && n < |chain|
    requires PassedUpTo(Play(idle, chain, events), chain, incoming, n)
    ensures PassedUpTo(Play(idle, chain, events + BlockEvents(chain[n], incoming[n])), chain, incoming, n + 1)
  {
    var w := Play(idle, chain, events);
    PlayGood(idle, chain, events);
    GoodIsBusy(w, chain);
    BlockPasses(w, chain[n], incoming[n]);
    var v := PlayFrom(w, BlockEvents(chain[n], incoming[n]));
    PassOne(w, v, chain, incoming, n, if chain[n].write then v.seen else incoming[n]);
    PlayConcat(Wire(Start(idle, chain), [], []), events, BlockEvents(chain[n], incoming[n]));
  }

  lemma ChainEventsNext(chain: seq<Block>, incoming: seq<seq<byte>>, n: nat)
    requires |incoming| == |chain| && n < |chain|
    ensures ChainEvents(chain[..n + 1], incoming[..n + 1]) ==
            ChainEvents(chain[..n], incoming[..n]) + BlockEvents(chain[n], incoming[n])
  {
    assert chain[..n + 1][..n] == chain[..n] && incoming[..n + 1][..n] == incoming[..n];
  }

  lemma {:induction false} PrefixPasses(idle: Driver, chain: seq<Block>, incoming: seq<seq<byte>>, n: nat)
    requires ValidChain(chain) && Supplies(incoming, chain) && n <= |chain|
    ensures PassedUpTo(Play(idle, chain, ChainEvents(chain[..n], incoming[..n])), chain, incoming, n)
  {
    if n > 0 {
      PrefixPasses(idle, chain, incoming, n - 1);
      ChainEventsNext(chain, incoming, n - 1);
      PassBlock(idle, chain, incoming, n - 1, ChainEvents(chain[..n - 1], incoming[..n - 1]));
    }
  }

  /** On a bus without faults every command ends in OK, and each read block's buffer holds what the
      slave sent for it. */
  lemma FaultFreeBusIsOk(idle: Driver, chain: seq<Block>, incoming: seq<seq<byte>>)
    requires ValidChain(chain) && Supplies(incoming, chain)
    ensures var d := Play(idle, chain, ChainEvents(chain, incoming)).driver;
            d.messages == [OK] && |d.blocks| == |chain| &&
            forall k :: 0 <= k < |chain| && !chain[k].write ==> Payload(d.blocks[k]) == incoming[k]
  {
    assert chain[..|chain|] == chain && incoming[..|chain|] == incoming;
    PrefixPasses(idle, chain, incoming, |chain|);
    OkMeansDelivered(idle, chain, ChainEvents(chain, incoming));
  }

  // ----- the driver on its variables

  /** bufNext stays inside the buffer as long as it is used. */
  predicate InBuffer(d: Driver) {
    && d.current < |d.blocks|
    && var n := |d.blocks[d.current].data|;
       match d.control
       case SlaSent => d.blocks[d.current].write && d.bufCount > 0 ==> d.bufNext < n
       case ByteSent => d.bufCount > 0 ==> d.bufNext < n
       case ReceiveAck | ReceiveNack => d.bufNext < n
       case _ => true
  }

  lemma GoodInBuffer(w: Wire, chain: seq<Block>)
    requires Good(w, chain)
    ensures InBuffer(w.driver)
  {
  }

  /** What receive() returns to the process that started the command, if a message has come. */
  datatype Reply = Waiting | Received(message: Message)

  class Twi {
    var blocks: seq<Block>       // the chain, the current block and those behind it included
    var current: nat
    var bufNext: nat
    var bufCount: nat
    var twdr: byte
    var control: Control
    var messages: seq<Message>

    ghost function State(): Driver
      reads this
    {
      Driver(blocks, current, bufNext, bufCount, twdr, control, messages)
    }

    constructor ()
    {
      blocks, current, bufNext, bufCount, twdr := [], 0, 0, 0, 0;
      control, messages := Disabled, [];
    }

    /** Next block of the chain, or stop and report success. */
    method StopOrChain()
      modifies this`current, this`control, this`messages
      ensures State() == NextBlock(old(State()))
    {
      if current + 1 < |blocks| {
        current := current + 1;
        control := StartRequested;
      } else {
        control := Disabled;
        messages := messages + [OK];
      }
    }

    method StoreByte(c: byte)
      requires current < |blocks| && bufNext < |blocks[current].data|
      modifies this`blocks
      ensures State() == Store(old(State()), c)
    {
      var b := blocks[current];
      blocks := blocks[current := b.(data := b.data[bufNext := c])];
    }

    method AckOrNack()
      modifies this`bufCount, this`control
      ensures State() == AskForByte(old(State()))
    {
      bufCount := if bufCount == 0 then 255 else bufCount - 1;
      control := if bufCount > 0 then ReceiveAck else ReceiveNack;
    }

    method TransmitNext()
      requires current < |blocks| && (bufCount > 0 ==> bufNext < |blocks[current].data|)
      modifies this`bufNext, this`bufCount, this`twdr, this`control, this`current, this`messages
      ensures State() == SendNext(old(State()))
    {
      if bufCount > 0 {
        bufCount := bufCount - 1;
        twdr := blocks[current].data[bufNext];
        bufNext := bufNext + 1;
        control := ByteSent;
      } else {
        bufCount := 255;
        StopOrChain();
      }
    }

    method ReceiveNext(received: byte)
      requires current < |blocks| && bufNext < |blocks[current].data|
      modifies this`blocks, this`bufNext, this`bufCount, this`control
      ensures State() == AskForByte(Store(old(State()), received).(bufNext := old(bufNext) + 1))
    {
      StoreByte(received);
      bufNext := bufNext + 1;
      AckOrNack();
    }

    /** The interrupt handler. */
    method Interrupt(status: Status, received: byte)
      requires InBuffer(State()) && CanFollow(control, blocks[current].write, status)
      modifies this
      ensures State() == Handle(old(State()), Event(status, received))
    {
      match status
      case TW_START | TW_REP_START =>
        bufNext := 0;
        bufCount := blocks[current].dataLength;
        twdr := blocks[current].address;
        control := SlaSent;
      case TW_MT_SLA_ACK | TW_MT_DATA_ACK => TransmitNext();
      case TW_MR_DATA_ACK => ReceiveNext(received);
      case TW_MR_SLA_ACK => AckOrNack();
      case TW_MR_DATA_NACK =>
        StoreByte(received);
        StopOrChain();
      case TW_ARB_LOST => control := StartRequested;
      case _ =>
        control := Disabled;
        messages := messages + [SYSERR];
    }

    /** A command: request a START, let the interrupts work, and return the message that arrives. */
    method DoCommand(chain: seq<Block>, events: seq<Event>) returns (rvalue: Reply)
      requires ValidChain(chain)
      modifies this
      ensures State() == Play(old(State()), chain, events).driver
      ensures rvalue ==
              if Play(old(State()), chain, events).driver.messages == [] then Waiting else Received(messages[0])
      ensures rvalue == Waiting <==> control != Disabled
      ensures rvalue == Received(SYSERR) <==> exists k :: FailsAt(old(State()), chain, events, k)
      ensures rvalue == Received(OK) ==>
                |blocks| == |chain| == |Play(old(State()), chain, events).done| &&
                forall k :: 0 <= k < |chain| ==>
                  Payload(if chain[k].write then chain[k] else blocks[k]) == Play(old(State()), chain, events).done[k]
    {
      ghost var idle := State();
      blocks, current, messages := chain, 0, [];
      control := StartRequested;
      for i := 0 to |events|
        invariant State() == Play(idle, chain, events[..i]).driver
      {
        PlayGood(idle, chain, events[..i]);
        GoodInBuffer(Play(idle, chain, events[..i]), chain);
        PlayNext(Wire(Start(idle, chain), [], []), events[..i], events[i]);
        assert events[..i + 1] == events[..i] + [events[i]];
        if CanFollow(control, blocks[current].write, events[i].status) {
          Interrupt(events[i].status, events[i].received);
        }
      }
      assert events[..|events|] == events;
      AtMostOneMessage(idle, chain, events);
      SyserrIffFailure(idle, chain, events);
      rvalue := Waiting;
      if messages != [] {
        if messages == [OK] { OkMeansDelivered(idle, chain, events); }
        rvalue := Received(messages[0]);
      }
    }
  }
}
