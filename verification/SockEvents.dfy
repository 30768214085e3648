/**
  What a socket's callbacks may rely on: the poll's tests for one socket, in isolation and over the
  whole life of the socket.
*/
module SockEvents {
  import opened SockModel

  /** A failing status request counts as a failed socket. */
  function Reported(avail: int, state: State): State {
    if avail < 0 then Failed else state
  }

  /** The guards of the poll's five cases. */
  predicate Responds(e: Entry, avail: int, state: State) {
    var s := Reported(avail, state);
    || (s == Connected && !e.connected && e.conn)
    || (s == Failed && !e.error && e.conn)
    || (s == Accepting && e.listen)
    || (avail > 0 && e.rx)
    || (s == Disconnected && e.connected && e.rx)
  }

  /** A callback runs exactly if one of the guards holds, marked or not; if none does, nothing changes. */
  lemma CalledIff(e: Entry, avail: int, state: State)
    ensures var (call, f) := Dispatch(e, avail, state);
            (call != NoCall <==> Responds(e, avail, state)) && (call == NoCall ==> f == e) &&
            f == e.(connected := f.connected, error := f.error)
  {
  }

  /** The end of a connection is signalled exactly when no data is pending. */
  lemma EndSignalIff(e: Entry, avail: int, state: State)
    ensures Dispatch(e, avail, state).0 == ReceivedEnd <==>
            avail == 0 && state == Disconnected && e.connected && e.rx
  {
  }

  /** Pending data is passed on before the end: the socket stays connected as far as the application
      has been told, and the signal is still to come. */
  lemma DataBeforeEnd(e: Entry, avail: int)
    requires avail > 0 && e.rx
    ensures Dispatch(e, avail, Disconnected) == (Received, e)
    ensures e.connected ==> Dispatch(e, 0, Disconnected).0 == ReceivedEnd
  {
  }

  // ----- which callback, and what the calls of the application change about that

  /** When each of the five callbacks is invoked, and what becomes of the entry, from what the entry, the
      pending byte count and the reported state say alone. */
  predicate CallbackRules(e: Entry, avail: int, state: State, call: Call, f: Entry) {
    var up := avail >= 0 && state == Connected && !e.connected && e.conn;
    var down := (avail < 0 || state == Failed) && !e.error && e.conn;
    var incoming := avail >= 0 && state == Accepting && e.listen;
    && (call == ConnUp <==> up) && (call == ConnDown <==> down) && (call == ListenCall <==> incoming)
    && (call == Received <==> avail > 0 && e.rx && !up && !down && !incoming)
    && (call == ReceivedEnd <==> avail == 0 && state == Disconnected && e.connected && e.rx)
    && f.connected == (if up then true else if down || call == ReceivedEnd then false else e.connected)
    && f.error == (if up then false else if down then true else e.error)
    && f == e.(connected := f.connected, error := f.error)
  }

  lemma WhichCallback(e: Entry, avail: int, state: State)
    ensures var (call, f) := Dispatch(e, avail, state); CallbackRules(e, avail, state, call, f)
  {
  }

  /** What a callback that is set is for: the next poll with the event invokes it if it was given, and
      does not if it was taken away. */
  lemma SettingsTakeEffect(e: Entry, id: int, cb: bool, avail: int)
    requires avail >= 0
    ensures Dispatch(Changed(e, Listen(id, cb)), avail, Accepting).0 == ListenCall <==> cb
    ensures Dispatch(Changed(e, SetConn(id, cb)), avail, Connected).0 == ConnUp <==> cb && !e.connected
    ensures Dispatch(Changed(e, SetConn(id, cb)), -1, Connected).0 == ConnDown <==> cb && !e.error
    ensures avail > 0 ==> (Dispatch(Changed(e, SetRecv(id, cb)), avail, OtherState).0 == Received <==> cb)
    ensures Dispatch(Changed(e, SetRecv(id, cb)), 0, Disconnected).0 == ReceivedEnd <==> cb && e.connected
  {
  }

  /** After a listen or a connect the outcome is signalled anew, whatever was signalled before: the flags
      are clear, and all callbacks but the one that was given are as they were. */
  lemma ClearingStartsAnew(e: Entry, op: Op)
    requires Clears(op)
    ensures var f := Changed(e, op);
            !f.deleted && f.conn == e.conn && f.rx == e.rx && f.id == e.id &&
            f.listen == (if op.Listen? then op.cb else e.listen) &&
            (Dispatch(f, 0, Connected).0 == ConnUp <==> e.conn) &&
            (Dispatch(f, 0, Failed).0 == ConnDown <==> e.conn) && Dispatch(f, 0, Disconnected).0 == NoCall
  {
  }

  /** If the device refuses, nothing changes.  A new socket has no callback; one from accept is connected,
      so a receiver hears of its end, and one from socket is not. */
  lemma NewSockets(v: seq<Entry>, res: int, polling: bool)
    ensures res < 0 ==> Apply(v, Socket(res), polling) == Apply(v, Accept(res), polling) == v
    ensures res >= 0 ==>
            var u, w := Apply(v, Socket(res), polling), Apply(v, Accept(res), polling);
            |u| == |w| == |v| + 1 && u[..|v|] == w[..|v|] == v &&
            forall e, avail, state :: e in {u[|v|], w[|v|]} ==>
              e.id == res && !e.deleted && Dispatch(e, avail, state) == (NoCall, e)
    ensures res >= 0 ==>
            var u, w := Apply(v, Socket(res), polling)[|v|], Apply(v, Accept(res), polling)[|v|];
            Dispatch(Changed(u, SetRecv(res, true)), 0, Disconnected).0 == NoCall &&
            Dispatch(Changed(w, SetRecv(res, true)), 0, Disconnected).0 == ReceivedEnd
  {
  }

  // ----- the life of one socket

  /** What happens to one entry: a poll visits it, or a call changes it. */
  datatype Step = Polled(avail: int, state: State) | Called(op: Op)

  function TakeStep(e: Entry, s: Step): (Call, Entry) {
    match s
    case Polled(avail, state) => Dispatch(e, avail, state)
    case Called(op) => (NoCall, Changed(e, op))
  }

  /** The entry before and after each step, and the callback that each step invokes. */
  datatype Life = Life(entries: seq<Entry>, calls: seq<Call>)

  predicate Lived(life: Life, steps: seq<Step>) {
    && |life.entries| == |steps| + 1 && |life.calls| == |steps|
    && forall i :: 0 <= i < |steps| ==>
         TakeStep(life.entries[i], steps[i]) == (life.calls[i], life.entries[i + 1])
  }

  /** The application's own listen or connect. */
  predicate ClearsFlags(s: Step) {
    s.Called? && (s.op.Listen? || s.op.Connect?)
  }

  /** A step that takes CONNECTED away. */
  predicate EndsConnection(call: Call, s: Step) {
    call == ConnDown || call == ReceivedEnd || ClearsFlags(s)
  }

  /** What one step does to the two flags, and when it signals. */
  predicate FlagRules(e: Entry, s: Step, call: Call, f: Entry) {
    && (call == ConnUp ==> !e.connected && f.connected)
    && (call == ConnDown ==> !e.error && f.error)
    && (call == ReceivedEnd ==> e.connected && !f.connected)
    && (e.connected && !EndsConnection(call, s) ==> f.connected)
    && (e.error && call != ConnUp && !ClearsFlags(s) ==> f.error)
    && (!e.connected && call != ConnUp ==> !f.connected)
    && (!(e.connected && e.error) ==> !(f.connected && f.error))
  }

  lemma StepFlags(e: Entry, s: Step)
    ensures var (call, f) := TakeStep(e, s); FlagRules(e, s, call, f)
  {
  }

  /** The rules hold throughout. */
  predicate Ruled(life: Life, steps: seq<Step>) {
    && |life.entries| == |steps| + 1 && |life.calls| == |steps|
    && forall i :: 0 <= i < |steps| ==> FlagRules(life.entries[i], steps[i], life.calls[i], life.entries[i + 1])
  }

  lemma LifeIsRuled(life: Life, steps: seq<Step>)
    requires Lived(life, steps)
    ensures Ruled(life, steps)
  {
    forall i | 0 <= i < |steps|
      ensures FlagRules(life.entries[i], steps[i], life.calls[i], life.entries[i + 1])
    {
      StepFlags(life.entries[i], steps[i]);
    }
  }

  /** CONNECTED and ERROR are never set together. */
  lemma {:induction false} FlagsExclude(life: Life, steps: seq<Step>, n: nat)
    requires Lived(life, steps) && n <= |steps| && !(life.entries[0].connected && life.entries[0].error)
    ensures !(life.entries[n].connected && life.entries[n].error)
  {
    if n > 0 {
      FlagsExclude(life, steps, n - 1);
      StepFlags(life.entries[n - 1], steps[n - 1]);
    }
  }

  lemma {:induction false} StaysConnected(life: Life, steps: seq<Step>, i: nat, j: nat)
    requires Ruled(life, steps) && i < j <= |steps| && life.calls[i] == ConnUp
    requires forall k :: i < k < j ==> !EndsConnection(life.calls[k], steps[k])
    ensures life.entries[j].connected
    decreases j
  {
    assert FlagRules(life.entries[j - 1], steps[j - 1], life.calls[j - 1], life.entries[j - 1 + 1]);
    if j - 1 > i { StaysConnected(life, steps, i, j - 1); }
  }

  /** Between two signals that a connection is up there is its end, as signalled to the application
      or as caused by it. */
  lemma ConnUpAlternates(life: Life, steps: seq<Step>, i: nat, j: nat)
    requires Lived(life, steps) && i < j < |steps| && life.calls[i] == ConnUp && life.calls[j] == ConnUp
    ensures exists k :: i < k < j && EndsConnection(life.calls[k], steps[k])
  {
    LifeIsRuled(life, steps);
    assert FlagRules(life.entries[j], steps[j], life.calls[j], life.entries[j + 1]);
    if forall k :: i < k < j ==> !EndsConnection(life.calls[k], steps[k]) {
      StaysConnected(life, steps, i, j);
    }
  }

  lemma {:induction false} StaysFailed(life: Life, steps: seq<Step>, i: nat, j: nat)
    requires Ruled(life, steps) && i < j <= |steps| && life.calls[i] == ConnDown
    requires forall k :: i < k < j ==> life.calls[k] != ConnUp && !ClearsFlags(steps[k])
    ensures life.entries[j].error
    decreases j
  {
    assert FlagRules(life.entries[j - 1], steps[j - 1], life.calls[j - 1], life.entries[j - 1 + 1]);
    if j - 1 > i { StaysFailed(life, steps, i, j - 1); }
  }

  /** A failure is signalled once, until the socket is connected or used again. */
  lemma ConnDownOnce(life: Life, steps: seq<Step>, i: nat, j: nat)
    requires Lived(life, steps) && i < j < |steps| && life.calls[i] == ConnDown && life.calls[j] == ConnDown
    ensures exists k :: i < k < j && (life.calls[k] == ConnUp || ClearsFlags(steps[k]))
  {
    LifeIsRuled(life, steps);
    assert FlagRules(life.entries[j], steps[j], life.calls[j], life.entries[j + 1]);
    if forall k :: i < k < j ==> life.calls[k] != ConnUp && !ClearsFlags(steps[k]) {
      StaysFailed(life, steps, i, j);
    }
  }

  lemma {:induction false} StaysEnded(life: Life, steps: seq<Step>, i: nat, j: nat)
    requires Ruled(life, steps) && i < j <= |steps| && life.calls[i] == ReceivedEnd
    requires forall k :: i < k < j ==> life.calls[k] != ConnUp
    ensures !life.entries[j].connected
    decreases j
  {
    assert FlagRules(life.entries[j - 1], steps[j - 1], life.calls[j - 1], life.entries[j - 1 + 1]);
    if j - 1 > i { StaysEnded(life, steps, i, j - 1); }
  }

  /** The end of a connection is signalled once for each time that it was up. */
  lemma EndSignalledOnce(life: Life, steps: seq<Step>, i: nat, j: nat)
    requires Lived(life, steps) && i < j < |steps| && life.calls[i] == ReceivedEnd && life.calls[j] == ReceivedEnd
    ensures exists k :: i < k < j && life.calls[k] == ConnUp
  {
    LifeIsRuled(life, steps);
    assert FlagRules(life.entries[j], steps[j], life.calls[j], life.entries[j + 1]);
    if forall k :: i < k < j ==> life.calls[k] != ConnUp {
      StaysEnded(life, steps, i, j);
    }
  }

  /** From step i up to step j the poll finds the connection gone but data still pending. */
  predicate Draining(steps: seq<Step>, i: nat, j: nat)
    requires j <= |steps|
  {
    forall k :: i <= k < j ==> steps[k].Polled? && steps[k].avail > 0 && steps[k].state == Disconnected
  }

  /** The receiver gets all the data first, one piece a poll, and the end with the first poll that finds
      none left. */
  lemma {:induction false} DataThenEnd(life: Life, steps: seq<Step>, i: nat, j: nat)
    requires Lived(life, steps) && i <= j < |steps| && life.entries[i].connected && life.entries[i].rx
    requires Draining(steps, i, j) && steps[j] == Polled(0, Disconnected)
    ensures (forall k :: i <= k < j ==> life.calls[k] == Received) && life.calls[j] == ReceivedEnd
    decreases j - i
  {
    assert TakeStep(life.entries[i], steps[i]) == (life.calls[i], life.entries[i + 1]);
    if i < j {
      DataBeforeEnd(life.entries[i], steps[i].avail);
      DataThenEnd(life, steps, i + 1, j);
    } else {
      EndSignalIff(life.entries[i], 0, Disconnected);
    }
  }
}
