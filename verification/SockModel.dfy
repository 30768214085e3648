/**
  The socket list of the wlp API as a value: what the calls do to it, how a poll walks over it while
  callbacks change it, and when postponing a close to the end of the poll makes no difference.
*/
module SockModel {

  /** One struct wlp_sock_t: the id, the three flags, and which callbacks are registered. */
  datatype Entry = Entry(id: int, connected: bool, error: bool, deleted: bool, listen: bool, conn: bool, rx: bool)

  /** A call into the API; `res` is what the device answers, `cb` whether a callback is given or null. */
  datatype Op =
    | Socket(res: int)
    | Accept(res: int)
    | Close(id: int)
    | Listen(id: int, cb: bool)
    | Connect(id: int)
    | SetConn(id: int, cb: bool)
    | SetRecv(id: int, cb: bool)

  function NewEntry(id: int, connected: bool): Entry {
    Entry(id, connected, false, false, false, false, false)
  }

  /** The first entry with the id, marked or not: sock_find. */
  function FirstWith(v: seq<Entry>, id: int): (k: nat)
    ensures k <= |v| && (k < |v| ==> v[k].id == id)
    ensures forall i :: 0 <= i < k ==> v[i].id != id
  {
    if v == [] then 0 else if v[0].id == id then 0 else 1 + FirstWith(v[1..], id)
  }

  predicate IsLive(e: Entry, id: int) {
    e.id == id && !e.deleted
  }

  /** The first entry with the id that is not marked yet: what wlp_close looks for. */
  function FirstLive(v: seq<Entry>, id: int): (k: nat)
    ensures k <= |v| && (k < |v| ==> IsLive(v[k], id))
    ensures forall i :: 0 <= i < k ==> !IsLive(v[i], id)
  {
    if v == [] then 0 else if IsLive(v[0], id) then 0 else 1 + FirstLive(v[1..], id)
  }

  function Fresh(e: Entry): Entry {
    e.(connected := false, error := false, deleted := false)
  }

  /** The change that a call with an id makes to the entry it finds. */
  function Changed(e: Entry, op: Op): Entry {
    match op
    case Listen(_, cb) => Fresh(e).(listen := cb)
    case Connect(_) => Fresh(e)
    case SetConn(_, cb) => e.(conn := cb)
    case SetRecv(_, cb) => e.(rx := cb)
    case _ => e
  }

  /** One call; `polling` says whether a poll is under way. */
  function Apply(v: seq<Entry>, op: Op, polling: bool): seq<Entry> {
    match op
    case Socket(res) => if res < 0 then v else v + [NewEntry(res, false)]
    case Accept(res) => if res < 0 then v else v + [NewEntry(res, true)]
    case Close(id) =>
      var k := FirstLive(v, id);
      if k == |v| then v
      else if polling then v[k := v[k].(deleted := true)]
      else v[..k] + v[k + 1..]
    case Listen(_, _) | Connect(_) | SetConn(_, _) | SetRecv(_, _) =>
      var k := FirstWith(v, op.id);
      if k == |v| then v else v[k := Changed(v[k], op)]
  }

  function ApplyAll(v: seq<Entry>, ops: seq<Op>, polling: bool): seq<Entry>
    decreases ops
  {
    if ops == [] then v else ApplyAll(Apply(v, ops[0], polling), ops[1..], polling)
  }

  /** What the end of a poll does: unlink the marked entries. */
  function Sweep(v: seq<Entry>): (r: seq<Entry>)
    ensures |r| <= |v|
  {
    if v == [] then [] else (if v[0].deleted then [] else [v[0]]) + Sweep(v[1..])
  }

  // ----- one poll

  datatype State = Connected | Failed | Accepting | Disconnected | OtherState

  /** What the poll finds at one socket, and what the callback it invokes (if any) does. */
  datatype Visit = Visit(avail: int, state: State, ops: seq<Op>)

  datatype Call = NoCall | ConnUp | ConnDown | ListenCall | Received | ReceivedEnd

  function Dispatch(e: Entry, avail: int, reported: State): (Call, Entry) {
    var state := if avail < 0 then Failed else reported;
    if state == Connected && !e.connected && e.conn then (ConnUp, e.(connected := true, error := false))
    else if state == Failed && !e.error && e.conn then (ConnDown, e.(connected := false, error := true))
    else if state == Accepting && e.listen then (ListenCall, e)
    else if avail > 0 && e.rx then (Received, e)
    else if state == Disconnected && e.connected && e.rx then (ReceivedEnd, e.(connected := false))
    else (NoCall, e)
  }

  const QUIET := Visit(0, OtherState, [])

  function VisitAt(visits: seq<Visit>, i: nat): Visit {
    if i < |visits| then visits[i] else QUIET
  }

  function VisitEntry(v: seq<Entry>, i: nat, visit: Visit): (r: seq<Entry>)
    requires i < |v|
  {
    var (call, e) := Dispatch(v[i], visit.avail, visit.state);
    if call == NoCall then v[i := e] else ApplyAll(v[i := e], visit.ops, true)
  }

  lemma CallOnlyGrows(v: seq<Entry>, op: Op)
    ensures |v| <= |Apply(v, op, true)|
    ensures forall i :: 0 <= i < |v| ==> Apply(v, op, true)[i].id == v[i].id
  {
  }

  lemma {:induction false} PollingOnlyGrows(v: seq<Entry>, ops: seq<Op>)
    ensures |v| <= |ApplyAll(v, ops, true)|
    ensures forall i :: 0 <= i < |v| ==> ApplyAll(v, ops, true)[i].id == v[i].id
    decreases ops
  {
    if ops != [] {
      CallOnlyGrows(v, ops[0]);
      PollingOnlyGrows(Apply(v, ops[0], true), ops[1..]);
    }
  }

  lemma QuietVisit(v: seq<Entry>, i: nat)
    requires i < |v|
    ensures VisitEntry(v, i, QUIET) == v
  {
  }

  /** The list after entries i, i+1, ... have been visited, including those added on the way. */
  function Traverse(v: seq<Entry>, visits: seq<Visit>, i: nat): seq<Entry>
    decreases if i < |visits| then |visits| - i else 0, if i < |v| then |v| - i else 0
  {
    if i >= |v| then v
    else
      var next := VisitEntry(v, i, VisitAt(visits, i));
      QuietVisit(v, i);
      Traverse(next, visits, i + 1)
  }

  lemma {:induction false} TraverseStep(v: seq<Entry>, visits: seq<Visit>, i: nat)
    requires i < |v|
    ensures Traverse(v, visits, i) == Traverse(VisitEntry(v, i, VisitAt(visits, i)), visits, i + 1)
    ensures i >= |visits| ==> VisitEntry(v, i, VisitAt(visits, i)) == v
  {
    QuietVisit(v, i);
  }

  /** The traversal never removes or reorders an entry: the list only grows at its tail. */
  lemma {:induction false} TraverseOnlyGrows(v: seq<Entry>, visits: seq<Visit>, i: nat)
    ensures var w := Traverse(v, visits, i);
            |v| <= |w| && forall k :: 0 <= k < |v| ==> w[k].id == v[k].id
    decreases if i < |visits| then |visits| - i else 0, if i < |v| then |v| - i else 0
  {
    if i < |v| {
      var visit := VisitAt(visits, i);
      QuietVisit(v, i);
      var (call, e) := Dispatch(v[i], visit.avail, visit.state);
      PollingOnlyGrows(v[i := e], visit.ops);
      TraverseOnlyGrows(VisitEntry(v, i, visit), visits, i + 1);
    }
  }

  // ----- marks

  predicate Clears(op: Op) {
    op.Listen? || op.Connect?
  }

  lemma MarksPersistOnce(v: seq<Entry>, op: Op)
    requires !Clears(op)
    ensures |v| <= |Apply(v, op, true)|
    ensures forall k :: 0 <= k < |v| && v[k].deleted ==> Apply(v, op, true)[k].deleted
  {
  }

  lemma {:induction false} MarksPersistInCallback(v: seq<Entry>, ops: seq<Op>)
    requires forall op :: op in ops ==> !Clears(op)
    ensures |v| <= |ApplyAll(v, ops, true)|
    ensures forall k :: 0 <= k < |v| && v[k].deleted ==> ApplyAll(v, ops, true)[k].deleted
    decreases ops
  {
    if ops != [] {
      MarksPersistOnce(v, ops[0]);
      MarksPersistInCallback(Apply(v, ops[0], true), ops[1..]);
    }
  }

  /** As long as no callback listens or connects, a marked entry stays marked until the sweep. */
  lemma {:induction false} MarksPersist(v: seq<Entry>, visits: seq<Visit>, i: nat)
    requires forall k, op :: 0 <= k < |visits| && op in visits[k].ops ==> !Clears(op)
    ensures var w := Traverse(v, visits, i);
            |v| <= |w| && forall k :: 0 <= k < |v| && v[k].deleted ==> w[k].deleted
    decreases if i < |visits| then |visits| - i else 0, if i < |v| then |v| - i else 0
  {
    if i < |v| {
      var visit := VisitAt(visits, i);
      QuietVisit(v, i);
      var (call, e) := Dispatch(v[i], visit.avail, visit.state);
      MarksPersistInCallback(v[i := e], visit.ops);
      MarksPersist(VisitEntry(v, i, visit), visits, i + 1);
    }
  }

  // ----- sweeping

  lemma {:induction false} SweepConcat(a: seq<Entry>, b: seq<Entry>)
    ensures Sweep(a + b) == Sweep(a) + Sweep(b)
  {
    if a == [] {
      assert a + b == b;
    } else {
      assert (a + b)[1..] == a[1..] + b;
      SweepConcat(a[1..], b);
    }
  }

  /** Exactly the unmarked entries remain. */
  lemma {:induction false} SweepKeeps(v: seq<Entry>, e: Entry)
    ensures e in Sweep(v) <==> e in v && !e.deleted
  {
    if v != [] { SweepKeeps(v[1..], e); }
  }

  lemma {:induction false} SweepId(v: seq<Entry>)
    ensures Sweep(v) == v <==> forall e :: e in v ==> !e.deleted
  {
    if v != [] {
      SweepId(v[1..]);
      SweepLength(v[1..]);
    }
  }

  lemma {:induction false} SweepLength(v: seq<Entry>)
    ensures |Sweep(v)| == |v| ==> Sweep(v) == v
  {
    if v != [] { SweepLength(v[1..]); }
  }

  /** The part of the list around one entry, swept. */
  lemma SweepAround(v: seq<Entry>, k: nat, e: Entry)
    requires k < |v|
    ensures Sweep(v[k := e]) == Sweep(v[..k]) + (if e.deleted then [] else [e]) + Sweep(v[k + 1..])
  {
    assert v[k := e] == v[..k] + ([e] + v[k + 1..]);
    SweepConcat(v[..k], [e] + v[k + 1..]);
    SweepConcat([e], v[k + 1..]);
    assert [e][1..] == [];
  }

  // ----- calls made during a poll, against the same calls made at once

  lemma {:induction false} NoLiveSwept(v: seq<Entry>, id: int)
    requires forall e :: e in v ==> !IsLive(e, id)
    ensures forall e :: e in Sweep(v) ==> e.id != id
  {
    forall e | e in Sweep(v) ensures e.id != id { SweepKeeps(v, e); }
  }

  lemma FirstUnique(v: seq<Entry>, id: int, k: nat)
    requires k <= |v| && (k < |v| ==> IsLive(v[k], id)) && forall i :: 0 <= i < k ==> !IsLive(v[i], id)
    ensures FirstLive(v, id) == k
  {
  }

  /** Closing at once the only candidate between a and b. */
  lemma CloseBetween(a: seq<Entry>, e: Entry, b: seq<Entry>, id: int)
    requires IsLive(e, id) && forall x :: x in a ==> !IsLive(x, id)
    ensures Apply(a + [e] + b, Close(id), false) == a + b
  {
    var w := a + [e] + b;
    FirstUnique(w, id, |a|);
    assert w[..|a|] == a && w[|a| + 1..] == b;
  }

  lemma CloseNothing(a: seq<Entry>, id: int)
    requires forall x :: x in a ==> !IsLive(x, id)
    ensures Apply(a, Close(id), false) == a
  {
    FirstUnique(a, id, |a|);
  }

  lemma MarkThenSweep(v: seq<Entry>, k: nat)
    requires k < |v| && !v[k].deleted
    ensures Sweep(v[k := v[k].(deleted := true)]) == Sweep(v[..k]) + Sweep(v[k + 1..])
    ensures Sweep(v) == Sweep(v[..k]) + [v[k]] + Sweep(v[k + 1..])
  {
    SweepAround(v, k, v[k].(deleted := true));
    SweepAround(v, k, v[k]);
    assert v[k := v[k]] == v;
  }

  /** Marking the first live entry now and sweeping later is closing it at once. */
  lemma CloseDeferred(v: seq<Entry>, id: int)
    ensures Sweep(Apply(v, Close(id), true)) == Apply(Sweep(v), Close(id), false)
  {
    var k := FirstLive(v, id);
    NoLiveSwept(v[..k], id);
    if k < |v| {
      MarkThenSweep(v, k);
      CloseBetween(Sweep(v[..k]), v[k], Sweep(v[k + 1..]), id);
    } else {
      assert v[..k] == v;
      CloseNothing(Sweep(v), id);
    }
  }

  /** Calls that take an id find the entry with sock_find, which does not skip marked entries. */
  predicate FindsMarked(v: seq<Entry>, op: Op) {
    && LooksUp(op)
    && var k := FirstWith(v, op.id); k < |v| && v[k].deleted
  }

  lemma FirstWithUnique(v: seq<Entry>, id: int, k: nat)
    requires k <= |v| && (k < |v| ==> v[k].id == id) && forall i :: 0 <= i < k ==> v[i].id != id
    ensures FirstWith(v, id) == k
  {
  }

  predicate LooksUp(op: Op) {
    op.Listen? || op.Connect? || op.SetConn? || op.SetRecv?
  }

  lemma ApplyLookUp(v: seq<Entry>, op: Op, polling: bool)
    requires LooksUp(op)
    ensures var k := FirstWith(v, op.id);
            Apply(v, op, polling) == if k == |v| then v else v[k := Changed(v[k], op)]
  {
  }

  lemma ChangeBetween(a: seq<Entry>, e: Entry, b: seq<Entry>, op: Op)
    requires LooksUp(op) && e.id == op.id && forall x :: x in a ==> x.id != op.id
    ensures Apply(a + [e] + b, op, false) == a + [Changed(e, op)] + b
  {
    var w := a + [e] + b;
    FirstWithUnique(w, op.id, |a|);
    ApplyLookUp(w, op, false);
    assert w[|a| := Changed(e, op)] == a + [Changed(e, op)] + b;
  }

  lemma ChangeNothing(a: seq<Entry>, op: Op)
    requires LooksUp(op) && forall x :: x in a ==> x.id != op.id
    ensures Apply(a, op, false) == a
  {
    FirstWithUnique(a, op.id, |a|);
    ApplyLookUp(a, op, false);
  }

  lemma LookUpDeferred(v: seq<Entry>, op: Op)
    requires LooksUp(op) && !FindsMarked(v, op)
    ensures Sweep(Apply(v, op, true)) == Apply(Sweep(v), op, false)
  {
    var k := FirstWith(v, op.id);
    ApplyLookUp(v, op, true);
    NoLiveSwept(v[..k], op.id);
    if k < |v| {
      SweepAround(v, k, Changed(v[k], op));
      SweepAround(v, k, v[k]);
      assert v[k := v[k]] == v;
      ChangeBetween(Sweep(v[..k]), v[k], Sweep(v[k + 1..]), op);
    } else {
      assert v[..k] == v;
      ChangeNothing(Sweep(v), op);
    }
  }

  lemma AddDeferred(v: seq<Entry>, e: Entry)
    requires !e.deleted
    ensures Sweep(v + [e]) == Sweep(v) + [e]
  {
    SweepConcat(v, [e]);
    assert [e][1..] == [];
  }

  /** A call made during a poll does, once the poll has swept, what it would have done on the live
      list at once, unless it picks out an entry that is already marked. */
  lemma CallDeferred(v: seq<Entry>, op: Op)
    requires !FindsMarked(v, op)
    ensures Sweep(Apply(v, op, true)) == Apply(Sweep(v), op, false)
  {
    match op
    case Socket(res) => AddDeferred(v, NewEntry(res, false));
    case Accept(res) => AddDeferred(v, NewEntry(res, true));
    case Close(id) => CloseDeferred(v, id);
    case _ => LookUpDeferred(v, op);
  }

  /** For listen and connect the condition is exact: on a marked entry they cancel the close. */
  lemma ClearingIsExact(v: seq<Entry>, op: Op)
    requires Clears(op)
    ensures Sweep(Apply(v, op, true)) == Apply(Sweep(v), op, false) <==> !FindsMarked(v, op)
  {
    if FindsMarked(v, op) {
      var k := FirstWith(v, op.id);
      SweepAround(v, k, Apply(v, op, true)[k]);
      SweepAround(v, k, v[k]);
      assert v[k := v[k]] == v;
    } else {
      CallDeferred(v, op);
    }
  }

  /** The callback that SetConn or SetRecv would set is set, or taken away, already. */
  predicate HasSetting(e: Entry, op: Op)
    requires op.SetConn? || op.SetRecv?
  {
    if op.SetConn? then e.conn == op.cb else e.rx == op.cb
  }

  /** A call during a poll makes no difference to what the same call would do at once. */
  predicate Harmless(v: seq<Entry>, op: Op) {
    FindsMarked(v, op) ==>
      (op.SetConn? || op.SetRecv?) && var j := FirstLive(v, op.id); j == |v| || HasSetting(v[j], op)
  }

  /** A setting on a marked entry does not survive the sweep. */
  lemma SettingIsLost(v: seq<Entry>, op: Op)
    requires (op.SetConn? || op.SetRecv?) && FindsMarked(v, op)
    ensures Sweep(Apply(v, op, true)) == Sweep(v)
  {
    var k := FirstWith(v, op.id);
    ApplyLookUp(v, op, true);
    SweepAround(v, k, Changed(v[k], op));
    SweepAround(v, k, v[k]);
    assert v[k := v[k]] == v;
  }

  /** On the live list it goes to the live entry. */
  lemma {:induction false} SettingAtOnce(v: seq<Entry>, op: Op)
    requires op.SetConn? || op.SetRecv?
    ensures var j := FirstLive(v, op.id);
            Apply(Sweep(v), op, false) == Sweep(v) <==> j == |v| || HasSetting(v[j], op)
  {
    var j := FirstLive(v, op.id);
    NoLiveSwept(v[..j], op.id);
    if j == |v| {
      assert v[..j] == v;
      ChangeNothing(Sweep(v), op);
    } else {
      SweepAround(v, j, v[j]);
      assert v[j := v[j]] == v;
      ChangeBetween(Sweep(v[..j]), v[j], Sweep(v[j + 1..]), op);
      OneEntryDiffers(Sweep(v[..j]), v[j], Changed(v[j], op), Sweep(v[j + 1..]));
      SettingChanges(v[j], op);
    }
  }

  lemma SettingChanges(e: Entry, op: Op)
    requires op.SetConn? || op.SetRecv?
    ensures Changed(e, op) == e <==> HasSetting(e, op)
  {
  }

  /** A callback that is set on a marked entry is lost, and the live entry with the id keeps its own. */
  lemma SettingIsExact(v: seq<Entry>, op: Op)
    requires (op.SetConn? || op.SetRecv?) && FindsMarked(v, op)
    ensures Sweep(Apply(v, op, true)) == Apply(Sweep(v), op, false) <==> Harmless(v, op)
  {
    SettingIsLost(v, op);
    SettingAtOnce(v, op);
  }

  lemma OneEntryDiffers(a: seq<Entry>, e: Entry, f: Entry, b: seq<Entry>)
    ensures a + [e] + b == a + [f] + b <==> e == f
  {
    assert (a + [e] + b)[|a|] == e && (a + [f] + b)[|a|] == f;
  }

  /** The exact condition, for every call: deferred closing and closing at once lead to the same list
      if and only if the call is harmless. */
  lemma CallIsExact(v: seq<Entry>, op: Op)
    ensures Sweep(Apply(v, op, true)) == Apply(Sweep(v), op, false) <==> Harmless(v, op)
  {
    if !FindsMarked(v, op) {
      CallDeferred(v, op);
    } else if Clears(op) {
      ClearingIsExact(v, op);
    } else {
      SettingIsExact(v, op);
    }
  }

  // ----- runs of calls

  /** A run of calls each of which is harmless when its turn comes. */
  predicate Undisturbed(v: seq<Entry>, ops: seq<Op>)
    decreases ops
  {
    ops == [] || (Harmless(v, ops[0]) && Undisturbed(Apply(v, ops[0], true), ops[1..]))
  }

  /** Deferred closing refines immediate closing, over whole runs of calls. */
  lemma {:induction false} CallbackDeferred(v: seq<Entry>, ops: seq<Op>)
    requires Undisturbed(v, ops)
    ensures Sweep(ApplyAll(v, ops, true)) == ApplyAll(Sweep(v), ops, false)
    decreases ops
  {
    if ops != [] {
      CallIsExact(v, ops[0]);
      CallbackDeferred(Apply(v, ops[0], true), ops[1..]);
    }
  }

  predicate OpensOrCloses(op: Op) {
    op.Socket? || op.Accept? || op.Close?
  }

  /** Calls that only open, accept and close are never disturbed. */
  lemma {:induction false} OpenAcceptCloseUndisturbed(v: seq<Entry>, ops: seq<Op>)
    requires forall op :: op in ops ==> OpensOrCloses(op)
    ensures Undisturbed(v, ops)
    decreases ops
  {
    if ops != [] {
      assert OpensOrCloses(ops[0]);
      OpenAcceptCloseUndisturbed(Apply(v, ops[0], true), ops[1..]);
    }
  }

  // ----- inputs on which a call makes a difference

  lemma ThreeCalls(v: seq<Entry>, a: Op, b: Op, c: Op, polling: bool)
    ensures ApplyAll(v, [a, b, c], polling) == Apply(Apply(Apply(v, a, polling), b, polling), c, polling)
  {
    var x := Apply(v, a, polling);
    var y := Apply(x, b, polling);
    assert [a, b, c][1..] == [b, c] && [b, c][1..] == [c] && [c][1..] == [];
    assert ApplyAll(y, [c], polling) == Apply(y, c, polling);
    assert ApplyAll(x, [b, c], polling) == ApplyAll(y, [c], polling);
  }

  /** A close that is undone: the application closes socket 7 and connects socket 7 again before the
      poll is over. */
  lemma CloseThenConnect()
    ensures var v := [NewEntry(7, true)];
            var ops := [Close(7), Connect(7)];
            Sweep(ApplyAll(v, ops, true)) == [NewEntry(7, false)] && ApplyAll(Sweep(v), ops, false) == []
  {
    var v := [NewEntry(7, true)];
    assert FirstLive(v, 7) == 0 && FirstWith(v, 7) == 0;
    var m := Apply(v, Close(7), true);
    assert FirstWith(m, 7) == 0;
    var w := Apply(m, Connect(7), true);
    assert w == [NewEntry(7, false)];
    var ops := [Close(7), Connect(7)];
    assert ops[1..] == [Connect(7)] && ops[1..][1..] == [];
    assert w[1..] == [] && v[1..] == [];
  }

  /** The device gives a new connection the id of the socket that was just closed; the callback that
      the application sets for it goes to the old entry and is lost. */
  lemma ReuseLosesCallback()
    ensures var v := [NewEntry(7, true)];
            Sweep(ApplyAll(v, [Close(7), Accept(7), SetRecv(7, true)], true)) == [NewEntry(7, true)] &&
            ApplyAll(Sweep(v), [Close(7), Accept(7), SetRecv(7, true)], false) == [NewEntry(7, true).(rx := true)]
  {
    var e := NewEntry(7, true);
    var m := e.(deleted := true);
    ThreeCalls([e], Close(7), Accept(7), SetRecv(7, true), true);
    ThreeCalls([e], Close(7), Accept(7), SetRecv(7, true), false);
    FirstUnique([e], 7, 0);
    FirstWithUnique([m, e], 7, 0);
    FirstWithUnique([e], 7, 0);
    assert Apply([e], Close(7), true) == [m];
    assert Apply([m], Accept(7), true) == [m, e];
    assert Apply([m, e], SetRecv(7, true), true) == [m.(rx := true), e];
    assert [m.(rx := true), e][1..] == [e] && [e][1..] == [];
    assert Apply([e], Close(7), false) == [];
    assert Apply([], Accept(7), false) == [e];
    assert Sweep([e]) == [e];
  }

  /** Here the old entry comes back to life beside the new one. */
  lemma ReuseRevivesSocket()
    ensures var v := [NewEntry(7, true)];
            Sweep(ApplyAll(v, [Close(7), Socket(7), Connect(7)], true)) == [NewEntry(7, false), NewEntry(7, false)] &&
            ApplyAll(Sweep(v), [Close(7), Socket(7), Connect(7)], false) == [NewEntry(7, false)]
  {
    var e, n := NewEntry(7, true), NewEntry(7, false);
    var m := e.(deleted := true);
    ThreeCalls([e], Close(7), Socket(7), Connect(7), true);
    ThreeCalls([e], Close(7), Socket(7), Connect(7), false);
    FirstUnique([e], 7, 0);
    FirstWithUnique([m, n], 7, 0);
    FirstWithUnique([n], 7, 0);
    assert Apply([e], Close(7), true) == [m];
    assert Apply([m], Socket(7), true) == [m, n];
    assert Apply([m, n], Connect(7), true) == [n, n];
    assert [n, n][1..] == [n] && [n][1..] == [] && [e][1..] == [];
    assert Apply([e], Close(7), false) == [];
    assert Apply([], Socket(7), false) == [n];
  }
}
