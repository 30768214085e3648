/**
  When a whole poll is the same as one in which a close takes effect at once: exactly if no closed
  socket is called back, as long as callbacks only open, accept and close.
*/
module SockExact {
  import opened SockModel
  import SockEvents
  import opened SockPoll

  // ----- entries without callbacks, which new ones are

  predicate Silent(e: Entry) {
    !e.conn && !e.rx && !e.listen
  }

  /** No two sockets with callbacks have one id. */
  predicate Apart(v: seq<Entry>) {
    forall a, b :: 0 <= a < b < |v| && v[a].id == v[b].id ==> Silent(v[a]) || Silent(v[b])
  }

  lemma ApartCall(v: seq<Entry>, op: Op)
    requires Apart(v) && OpensOrCloses(op)
    ensures Apart(Apply(v, op, true))
  {
  }

  lemma {:induction false} ApartRun(v: seq<Entry>, ops: seq<Op>)
    requires Apart(v) && forall op :: op in ops ==> OpensOrCloses(op)
    ensures Apart(ApplyAll(v, ops, true))
    decreases ops
  {
    if ops != [] {
      ApartCall(v, ops[0]);
      ApartRun(Apply(v, ops[0], true), ops[1..]);
    }
  }

  lemma ApartFlags(v: seq<Entry>, i: nat, avail: int, state: State)
    requires Apart(v) && i < |v|
    ensures Apart(v[i := Dispatch(v[i], avail, state).1])
  {
  }

  lemma ApartVisit(v: seq<Entry>, i: nat, visit: Visit)
    requires Apart(v) && i < |v| && forall op :: op in visit.ops ==> OpensOrCloses(op)
    ensures Apart(VisitEntry(v, i, visit))
  {
    ApartFlags(v, i, visit.avail, visit.state);
    ApartRun(v[i := Dispatch(v[i], visit.avail, visit.state).1], visit.ops);
  }

  // ----- a closed socket is not in the log of a poll that closes at once

  predicate SilentAs(v: seq<Entry>, id: int) {
    forall e :: e in v && e.id == id ==> Silent(e)
  }

  predicate Unlogged(log: seq<(int, Call)>, id: int) {
    forall x :: x in log ==> x.0 != id
  }

  lemma SilentAfterCall(u: seq<Entry>, op: Op, id: int)
    requires SilentAs(u, id) && OpensOrCloses(op)
    ensures SilentAs(Apply(u, op, false), id)
  {
  }

  lemma {:induction false} SilentAfterRun(u: seq<Entry>, ops: seq<Op>, id: int)
    requires SilentAs(u, id) && forall op :: op in ops ==> OpensOrCloses(op)
    ensures SilentAs(ApplyAll(u, ops, false), id)
    decreases ops
  {
    if ops != [] {
      SilentAfterCall(u, ops[0], id);
      SilentAfterRun(Apply(u, ops[0], false), ops[1..], id);
    }
  }

  lemma SilentAfterFlags(u: seq<Entry>, c: nat, id: int, avail: int, state: State)
    requires c < |u| && SilentAs(u, id)
    ensures SilentAs(u[c := Dispatch(u[c], avail, state).1], id)
    ensures u[c].id == id ==> Dispatch(u[c], avail, state).0 == NoCall
  {
    var e := Dispatch(u[c], avail, state).1;
    forall x | x in u[c := e] && x.id == id ensures Silent(x) {
      assert x == e || x in u;
    }
  }

  lemma LoggedOthers(call: Call, rest: Poll, other: int, id: int)
    requires Unlogged(rest.log, id) && (other == id ==> call == NoCall)
    ensures Unlogged(Logged(other, call, rest).log, id)
  {
  }

  lemma {:induction false} NeverLogged(u: seq<Entry>, visits: seq<Visit>, c: nat, id: int)
    requires c <= |u| && SilentAs(u, id) && OpensAndCloses(visits)
    ensures Unlogged(AtOnce(u, visits, c).log, id)
    decreases visits
  {
    if c < |u| && visits != [] {
      var visit := visits[0];
      var (call, e) := Dispatch(u[c], visit.avail, visit.state);
      var w, ops := u[c := e], if call == NoCall then [] else visit.ops;
      SilentAfterFlags(u, c, id, visit.avail, visit.state);
      SilentAfterRun(w, ops, id);
      CursorAllInside(w, ops, c + 1);
      NeverLogged(ApplyAll(w, ops, false), visits[1..], CursorAll(w, ops, c + 1), id);
      LoggedOthers(call, AtOnce(ApplyAll(w, ops, false), visits[1..], CursorAll(w, ops, c + 1)), u[c].id, id);
    }
  }

  lemma OpensAndClosesMore(visit: Visit, rest: seq<Visit>)
    requires OpensAndCloses(rest) && forall op :: op in visit.ops ==> OpensOrCloses(op)
    ensures OpensAndCloses([visit] + rest)
  {
  }

  lemma {:induction false} LiveVisitsOpenAndClose(v: seq<Entry>, visits: seq<Visit>, i: nat)
    requires OpensAndCloses(visits)
    ensures OpensAndCloses(LiveVisits(v, visits, i))
    decreases if i < |visits| then |visits| - i else 0
  {
    if i < |v| && i < |visits| {
      var next := VisitEntry(v, i, visits[i]);
      LiveVisitsOpenAndClose(next, visits, i + 1);
      OpensAndClosesMore(visits[i], LiveVisits(next, visits, i + 1));
      assert [] + LiveVisits(next, visits, i + 1) == LiveVisits(next, visits, i + 1);
    }
  }

  /** If a closed socket is called back, no live one with its id has a callback. */
  lemma ClosedIdSilent(v: seq<Entry>, visit: Visit, i: nat)
    requires i < |v| && v[i].deleted && Called(v[i], visit) && Apart(v)
    ensures SilentAs(Sweep(v), v[i].id)
  {
    forall e | e in Sweep(v) && e.id == v[i].id ensures Silent(e) {
      SweepKeeps(v, e);
      var m :| 0 <= m < |v| && v[m] == e;
      assert if m < i then v[m].id == v[i].id else v[i].id == v[m].id;
    }
  }

  // ----- the exact condition

  predicate SameLog(v: seq<Entry>, visits: seq<Visit>, i: nat)
    requires i <= |v|
  {
    LiveBefore(v, i) <= |Sweep(v)| &&
    Deferred(v, visits, i).log == AtOnce(Sweep(v), LiveVisits(v, visits, i), LiveBefore(v, i)).log
  }

  /** Calling back a closed socket shows. */
  lemma {:induction false} ClosedCallShows(v: seq<Entry>, visits: seq<Visit>, i: nat)
    requires i < |v| && i < |visits| && v[i].deleted && Called(v[i], visits[i]) && OpensAndCloses(visits) && Apart(v)
    ensures !SameLog(v, visits, i)
  {
    ClosedIdSilent(v, visits[i], i);
    LiveVisitsOpenAndClose(v, visits, i);
    LiveBeforeInside(v, i);
    NeverLogged(Sweep(v), LiveVisits(v, visits, i), LiveBefore(v, i), v[i].id);
    var log := Deferred(v, visits, i).log;
    assert log[0] in log && log[0].0 == v[i].id;
  }

  lemma LoggedInjective(id: int, call: Call, p: Poll, q: Poll)
    ensures Logged(id, call, p).log == Logged(id, call, q).log <==> p.log == q.log
  {
    if call != NoCall {
      assert ([(id, call)] + p.log)[1..] == p.log && ([(id, call)] + q.log)[1..] == q.log;
    }
  }

  lemma {:induction false} LiveStepKeeps(v: seq<Entry>, visits: seq<Visit>, i: nat)
    requires i < |v| && i < |visits| && !v[i].deleted && SmoothVisit(v, i, visits[i])
    ensures var next := VisitEntry(v, i, visits[i]);
            i + 1 <= |next| && (SameLog(v, visits, i) ==> SameLog(next, visits, i + 1))
  {
    var next, call := VisitEntry(v, i, visits[i]), Dispatch(v[i], visits[i].avail, visits[i].state).0;
    AtOnceLive(v, visits, i);
    LoggedInjective(v[i].id, call, Deferred(next, visits, i + 1),
                    AtOnce(Sweep(next), LiveVisits(next, visits, i + 1), LiveBefore(next, i + 1)));
  }

  lemma {:induction false} ClosedStepKeeps(v: seq<Entry>, visits: seq<Visit>, i: nat)
    requires i < |v| && i < |visits| && v[i].deleted && !Called(v[i], visits[i])
    ensures VisitEntry(v, i, visits[i]) == v
    ensures SameLog(v, visits, i) ==> SameLog(v, visits, i + 1)
  {
    SockEvents.CalledIff(v[i], visits[i].avail, visits[i].state);
    assert v[i := v[i]] == v;
    LiveBeforeNext(v, i);
    assert LiveVisits(v, visits, i) == LiveVisits(v, visits, i + 1);
  }

  lemma {:induction false} SameLogStep(v: seq<Entry>, visits: seq<Visit>, i: nat)
    requires i < |v| && i < |visits| && OpensAndCloses(visits) && Apart(v)
    requires SameLog(v, visits, i)
    ensures SmoothVisit(v, i, visits[i])
    ensures i + 1 <= |VisitEntry(v, i, visits[i])| && SameLog(VisitEntry(v, i, visits[i]), visits, i + 1)
  {
    OpenAcceptCloseUndisturbed(v[i := Dispatch(v[i], visits[i].avail, visits[i].state).1], visits[i].ops);
    if !v[i].deleted {
      LiveStepKeeps(v, visits, i);
    } else if Called(v[i], visits[i]) {
      ClosedCallShows(v, visits, i);
      assert false;
    } else {
      ClosedStepKeeps(v, visits, i);
    }
  }

  lemma {:induction false} SameLogIsSmooth(v: seq<Entry>, visits: seq<Visit>, i: nat)
    requires i <= |v| && OpensAndCloses(visits) && Apart(v) && SameLog(v, visits, i)
    ensures Smooth(v, visits, i)
    decreases if i < |visits| then |visits| - i else 0
  {
    if i < |v| && i < |visits| {
      SameLogStep(v, visits, i);
      ApartVisit(v, i, visits[i]);
      SameLogIsSmooth(VisitEntry(v, i, visits[i]), visits, i + 1);
    }
  }

  predicate Unmarked(v: seq<Entry>) {
    forall e :: e in v ==> !e.deleted
  }

  /** The two polls invoke the same callbacks in the same order. */
  predicate SameCalls(v: seq<Entry>, visits: seq<Visit>) {
    Deferred(v, visits, 0).log == AtOnce(v, LiveVisits(v, visits, 0), 0).log
  }

  /** They leave the same list. */
  predicate SameList(v: seq<Entry>, visits: seq<Visit>) {
    Sweep(Traverse(v, visits, 0)) == AtOnce(v, LiveVisits(v, visits, 0), 0).list
  }

  /** If callbacks only open, accept and close, and no two sockets with callbacks have one id: the two
      polls invoke the same callbacks if and only if no closed socket is called back, and then they leave
      the same list too.  The device may use ids again. */
  lemma {:induction false} PollIsExact(v: seq<Entry>, visits: seq<Visit>)
    requires Unmarked(v) && OpensAndCloses(visits) && Apart(v)
    ensures SameCalls(v, visits) <==> NoClosedCalled(v, visits, 0)
    ensures SameCalls(v, visits) && SameList(v, visits) <==> NoClosedCalled(v, visits, 0)
  {
    SmoothIff(v, visits, 0);
    if NoClosedCalled(v, visits, 0) {
      PollRefinesAtOnce(v, visits);
    } else if SameCalls(v, visits) {
      SweepId(v);
      assert v[..0] == [];
      SameLogIsSmooth(v, visits, 0);
      assert false;
    }
  }

  // ----- callbacks that close only their own socket

  predicate ClosesOnly(ops: seq<Op>, id: int) {
    forall op :: op in ops && op.Close? ==> op.id == id
  }

  /** Every callback that the poll invokes closes no other socket than the one it is invoked for. */
  predicate OwnCloses(v: seq<Entry>, visits: seq<Visit>, i: nat)
    decreases if i < |visits| then |visits| - i else 0
  {
    i >= |v| || i >= |visits| ||
    ((Called(v[i], visits[i]) ==> ClosesOnly(visits[i].ops, v[i].id)) &&
     OwnCloses(VisitEntry(v, i, visits[i]), visits, i + 1))
  }

  /** From position i on, only entries without callbacks are marked. */
  predicate MarkedSilent(v: seq<Entry>, i: nat) {
    forall k :: i <= k < |v| && v[k].deleted ==> Silent(v[k])
  }

  /** The entry at position i, and what lies behind it. */
  predicate AtOwn(v: seq<Entry>, i: nat, id: int) {
    i < |v| && v[i].id == id && !Silent(v[i]) && Apart(v) && MarkedSilent(v, i + 1)
  }

  lemma OwnCall(v: seq<Entry>, op: Op, i: nat, id: int)
    requires AtOwn(v, i, id) && OpensOrCloses(op) && (op.Close? ==> op.id == id)
    ensures AtOwn(Apply(v, op, true), i, id)
  {
    ApartCall(v, op);
  }

  lemma {:induction false} OwnRun(v: seq<Entry>, ops: seq<Op>, i: nat, id: int)
    requires AtOwn(v, i, id) && ClosesOnly(ops, id) && forall op :: op in ops ==> OpensOrCloses(op)
    ensures AtOwn(ApplyAll(v, ops, true), i, id)
    decreases ops
  {
    if ops != [] {
      OwnCall(v, ops[0], i, id);
      OwnRun(Apply(v, ops[0], true), ops[1..], i, id);
    }
  }

  lemma OwnVisit(v: seq<Entry>, visit: Visit, i: nat)
    requires i < |v| && MarkedSilent(v, i) && Apart(v) && forall op :: op in visit.ops ==> OpensOrCloses(op)
    requires Called(v[i], visit) ==> ClosesOnly(visit.ops, v[i].id)
    ensures MarkedSilent(VisitEntry(v, i, visit), i + 1)
  {
    var (call, e) := Dispatch(v[i], visit.avail, visit.state);
    if call != NoCall {
      ApartFlags(v, i, visit.avail, visit.state);
      OwnRun(v[i := e], visit.ops, i, v[i].id);
    }
  }

  lemma {:induction false} OwnClosesSmooth(v: seq<Entry>, visits: seq<Visit>, i: nat)
    requires OpensAndCloses(visits) && Apart(v) && MarkedSilent(v, i) && OwnCloses(v, visits, i)
    ensures Smooth(v, visits, i)
    decreases if i < |visits| then |visits| - i else 0
  {
    if i < |v| && i < |visits| {
      OpenAcceptCloseUndisturbed(v[i := Dispatch(v[i], visits[i].avail, visits[i].state).1], visits[i].ops);
      OwnVisit(v, visits[i], i);
      ApartVisit(v, i, visits[i]);
      OwnClosesSmooth(VisitEntry(v, i, visits[i]), visits, i + 1);
    }
  }

  /** What an application can see to: if its callbacks only open, accept, and close their own socket, no
      closed socket is called back, and a close might as well take effect at once. */
  lemma {:induction false} OwnClosesSuffice(v: seq<Entry>, visits: seq<Visit>)
    requires Unmarked(v) && OpensAndCloses(visits) && Apart(v) && OwnCloses(v, visits, 0)
    ensures NoClosedCalled(v, visits, 0) && SameCalls(v, visits) && SameList(v, visits)
  {
    OwnClosesSmooth(v, visits, 0);
    SmoothIff(v, visits, 0);
    PollRefinesAtOnce(v, visits);
  }
}
