/**
  A whole poll against one in which a close takes effect at once.

  The traversal does not test the mark, so a socket that an earlier callback closed is still polled,
  and its own callback may still run.  Apart from that, and from calls that find a marked entry
  and are not harmless, postponing the closes makes no difference.
*/
module SockPoll {
  import opened SockModel
  import opened SockEvents

  // ----- which sockets are called back

  predicate Called(e: Entry, visit: Visit) {
    Dispatch(e, visit.avail, visit.state).0 != NoCall
  }

  /** The positions of the entries whose callback runs, from position i on. */
  function Calls(v: seq<Entry>, visits: seq<Visit>, i: nat): seq<nat>
    decreases if i < |visits| then |visits| - i else 0, if i < |v| then |v| - i else 0
  {
    if i >= |v| then []
    else
      QuietVisit(v, i);
      (if Called(v[i], VisitAt(visits, i)) then [i] else []) +
      Calls(VisitEntry(v, i, VisitAt(visits, i)), visits, i + 1)
  }

  /** The list at the time when the poll that is at position i comes to position k. */
  function ListAt(v: seq<Entry>, visits: seq<Visit>, i: nat, k: nat): seq<Entry>
    requires i <= k
    decreases k - i
  {
    if i == k || i >= |v| then v else ListAt(VisitEntry(v, i, VisitAt(visits, i)), visits, i + 1, k)
  }

  /** Each entry is called back once at most, in the order of the list. */
  lemma {:induction false} CallsAscend(v: seq<Entry>, visits: seq<Visit>, i: nat)
    ensures forall a :: 0 <= a < |Calls(v, visits, i)| ==> Calls(v, visits, i)[a] >= i
    ensures forall a, b :: 0 <= a < b < |Calls(v, visits, i)| ==> Calls(v, visits, i)[a] < Calls(v, visits, i)[b]
    decreases if i < |visits| then |visits| - i else 0, if i < |v| then |v| - i else 0
  {
    if i < |v| {
      QuietVisit(v, i);
      CallsAscend(VisitEntry(v, i, VisitAt(visits, i)), visits, i + 1);
    }
  }

  lemma {:induction false} NotBefore(v: seq<Entry>, visits: seq<Visit>, i: nat, k: nat)
    requires k < i
    ensures k !in Calls(v, visits, i)
  {
    CallsAscend(v, visits, i);
  }

  lemma {:induction false} CallsStep(v: seq<Entry>, visits: seq<Visit>, i: nat, k: nat)
    requires i < |v| && i <= k
    ensures var next := VisitEntry(v, i, VisitAt(visits, i));
            (k in Calls(v, visits, i) <==>
              if k == i then Called(v[i], VisitAt(visits, i)) else k in Calls(next, visits, i + 1)) &&
            ListAt(v, visits, i, k) == if k == i then v else ListAt(next, visits, i + 1, k)
  {
    NotBefore(VisitEntry(v, i, VisitAt(visits, i)), visits, i + 1, i);
  }

  /** The poll comes to position k, and one of the guards holds for what it finds there. */
  predicate RespondsAt(v: seq<Entry>, visits: seq<Visit>, i: nat, k: nat)
    requires i <= k
  {
    var w, visit := ListAt(v, visits, i, k), VisitAt(visits, k);
    k < |w| && Responds(w[k], visit.avail, visit.state)
  }

  /** Exactly the entries for which one of the guards holds when the poll comes to them are called
      back, whether they are closed by then or not; entries that the poll has passed never are. */
  lemma {:induction false} CallsMeaning(v: seq<Entry>, visits: seq<Visit>, i: nat, k: nat)
    ensures k in Calls(v, visits, i) <==> i <= k && RespondsAt(v, visits, i, k)
    decreases k - i
  {
    if k < i {
      NotBefore(v, visits, i, k);
    } else if i < |v| {
      CallsStep(v, visits, i, k);
      if k == i {
        CalledIff(v[i], VisitAt(visits, i).avail, VisitAt(visits, i).state);
      } else {
        CallsMeaning(VisitEntry(v, i, VisitAt(visits, i)), visits, i + 1, k);
      }
    }
  }

  /** Socket 1 is connected and its callback closes socket 2.  The poll still comes to socket 2, finds
      that it has failed, and invokes its callback, which opens socket 9. */
  lemma ClosedSocketCalledBack()
    ensures var one := Entry(1, false, false, false, false, true, false);
            var two := Entry(2, true, false, false, false, true, false);
            var visits := [Visit(0, Connected, [Close(2)]), Visit(-1, OtherState, [Socket(9)])];
            1 in Calls([one, two], visits, 0) && ListAt([one, two], visits, 0, 1)[1].deleted &&
            Sweep(Traverse([one, two], visits, 0)) == [one.(connected := true), NewEntry(9, false)]
  {
    var one := Entry(1, false, false, false, false, true, false);
    var two := Entry(2, true, false, false, false, true, false);
    var up, gone := one.(connected := true), two.(deleted := true);
    var lost := gone.(connected := false, error := true);
    var new_ := NewEntry(9, false);
    var v0, v1, v2 := [one, two], [up, gone], [up, lost, new_];
    var visits := [Visit(0, Connected, [Close(2)]), Visit(-1, OtherState, [Socket(9)])];
    OneCall([up, two], Close(2));
    FirstUnique([up, two], 2, 1);
    assert VisitEntry(v0, 0, visits[0]) == v1;
    OneCall([up, lost], Socket(9));
    assert VisitEntry(v1, 1, visits[1]) == v2;
    assert ListAt(v0, visits, 0, 1) == v1;
    CallsMeaning(v0, visits, 0, 1);
    TraverseStep(v0, visits, 0);
    TraverseStep(v1, visits, 1);
    TraverseStep(v2, visits, 2);
    assert VisitEntry(v2, 2, VisitAt(visits, 2)) == v2;
    assert v2[1..] == [lost, new_] && v2[1..][1..] == [new_] && [new_][1..] == [];
    assert Sweep([new_]) == [new_];
    assert Sweep([lost, new_]) == [new_];
    assert Traverse(v0, visits, 0) == v2;
  }

  lemma OneCall(v: seq<Entry>, op: Op)
    ensures ApplyAll(v, [op], true) == Apply(v, op, true)
  {
    assert [op][1..] == [];
  }

  /** A visit to a closed socket leaves no trace, whatever its callback would do, if and only if no
      guard holds for it. */
  lemma {:induction false} ClosedVisitIsExact(v: seq<Entry>, i: nat, avail: int, state: State)
    requires i < |v| && v[i].deleted
    ensures (forall ops :: Sweep(VisitEntry(v, i, Visit(avail, state, ops))) == Sweep(v)) <==>
            !Responds(v[i], avail, state)
  {
    CalledIff(v[i], avail, state);
    var (call, e) := Dispatch(v[i], avail, state);
    SweepAround(v, i, e);
    SweepAround(v, i, v[i]);
    assert v[i := v[i]] == v;
    if Responds(v[i], avail, state) {
      OneCall(v[i := e], Socket(0));
      AddDeferred(v[i := e], NewEntry(0, false));
      var visit := Visit(avail, state, [Socket(0)]);
      assert Sweep(VisitEntry(v, i, visit)) == Sweep(v) + [NewEntry(0, false)];
    }
  }

  // ----- a poll in which a close takes effect at once

  /** How many of the first c entries are left after a call. */
  function Cursor(u: seq<Entry>, op: Op, c: nat): nat
    requires c <= |u|
  {
    if op.Close? && FirstLive(u, op.id) < c then c - 1 else c
  }

  lemma CursorInside(u: seq<Entry>, op: Op, c: nat)
    requires c <= |u|
    ensures Cursor(u, op, c) <= |Apply(u, op, false)|
  {
  }

  function CursorAll(u: seq<Entry>, ops: seq<Op>, c: nat): nat
    requires c <= |u|
    decreases ops
  {
    if ops == [] then c
    else
      CursorInside(u, ops[0], c);
      CursorAll(Apply(u, ops[0], false), ops[1..], Cursor(u, ops[0], c))
  }

  lemma {:induction false} CursorAllInside(u: seq<Entry>, ops: seq<Op>, c: nat)
    requires c <= |u|
    ensures CursorAll(u, ops, c) <= |ApplyAll(u, ops, false)|
    decreases ops
  {
    if ops != [] {
      CursorInside(u, ops[0], c);
      CursorAllInside(Apply(u, ops[0], false), ops[1..], Cursor(u, ops[0], c));
    }
  }

  /** The callbacks that a poll invokes, and the list that it leaves. */
  datatype Poll = Poll(log: seq<(int, Call)>, list: seq<Entry>)

  function Logged(id: int, call: Call, rest: Poll): Poll {
    if call == NoCall then rest else Poll([(id, call)] + rest.log, rest.list)
  }

  /** The poll of the C code, without the sweep. */
  function Deferred(v: seq<Entry>, visits: seq<Visit>, i: nat): Poll
    decreases if i < |visits| then |visits| - i else 0
  {
    if i >= |v| || i >= |visits| then Poll([], v)
    else
      Logged(v[i].id, Dispatch(v[i], visits[i].avail, visits[i].state).0,
             Deferred(VisitEntry(v, i, visits[i]), visits, i + 1))
  }

  /** A poll that unlinks a closed socket at once and goes on with the socket behind the current one. */
  function AtOnce(u: seq<Entry>, visits: seq<Visit>, c: nat): Poll
    requires c <= |u|
    decreases visits
  {
    if c == |u| || visits == [] then Poll([], u)
    else
      var (call, e) := Dispatch(u[c], visits[0].avail, visits[0].state);
      var w := u[c := e];
      var ops := if call == NoCall then [] else visits[0].ops;
      CursorAllInside(w, ops, c + 1);
      Logged(u[c].id, call, AtOnce(ApplyAll(w, ops, false), visits[1..], CursorAll(w, ops, c + 1)))
  }

  lemma {:induction false} DeferredIsTraverse(v: seq<Entry>, visits: seq<Visit>, i: nat)
    ensures Deferred(v, visits, i).list == Traverse(v, visits, i)
    decreases if i < |visits| then |visits| - i else 0, if i < |v| then |v| - i else 0
  {
    if i < |v| {
      TraverseStep(v, visits, i);
      if i < |visits| {
        DeferredIsTraverse(VisitEntry(v, i, visits[i]), visits, i + 1);
      } else {
        DeferredIsTraverse(v, visits, i + 1);
      }
    }
  }

  /** The visits to sockets that are not closed when the poll comes to them. */
  function LiveVisits(v: seq<Entry>, visits: seq<Visit>, i: nat): seq<Visit>
    decreases if i < |visits| then |visits| - i else 0
  {
    if i >= |v| || i >= |visits| then []
    else (if v[i].deleted then [] else [visits[i]]) + LiveVisits(VisitEntry(v, i, visits[i]), visits, i + 1)
  }

  /** No socket is called back after it was closed, and every call of a callback is harmless. */
  predicate Smooth(v: seq<Entry>, visits: seq<Visit>, i: nat)
    decreases if i < |visits| then |visits| - i else 0
  {
    i >= |v| || i >= |visits| ||
    (SmoothVisit(v, i, visits[i]) && Smooth(VisitEntry(v, i, visits[i]), visits, i + 1))
  }

  predicate SmoothVisit(v: seq<Entry>, i: nat, visit: Visit)
    requires i < |v|
  {
    var (call, e) := Dispatch(v[i], visit.avail, visit.state);
    call == NoCall || (!v[i].deleted && Undisturbed(v[i := e], visit.ops))
  }

  /** The number of live entries among the first n. */
  function LiveBefore(v: seq<Entry>, n: nat): nat
    requires n <= |v|
  {
    |Sweep(v[..n])|
  }

  lemma LiveBeforeNext(v: seq<Entry>, i: nat)
    requires i < |v|
    ensures LiveBefore(v, i + 1) == LiveBefore(v, i) + if v[i].deleted then 0 else 1
    ensures LiveBefore(v, i) <= LiveBefore(v, i + 1) <= |Sweep(v)|
    ensures !v[i].deleted ==> Sweep(v)[LiveBefore(v, i)] == v[i]
  {
    assert v[..i + 1] == v[..i] + [v[i]];
    SweepConcat(v[..i], [v[i]]);
    assert [v[i]][1..] == [];
    SweepAround(v, i, v[i]);
    assert v[i := v[i]] == v;
  }

  lemma LiveBeforeInside(v: seq<Entry>, n: nat)
    requires n <= |v|
    ensures LiveBefore(v, n) <= |Sweep(v)|
  {
    SweepConcat(v[..n], v[n..]);
    assert v == v[..n] + v[n..];
  }

  lemma {:induction false} LiveBeforeMonotone(v: seq<Entry>, a: nat, b: nat)
    requires a < b <= |v|
    ensures LiveBefore(v, a) + (if v[a].deleted then 0 else 1) <= LiveBefore(v, b)
    decreases b - a
  {
    LiveBeforeNext(v, a);
    if a + 1 < b { LiveBeforeMonotone(v, a + 1, b); }
  }

  lemma FirstLiveSwept(v: seq<Entry>, id: int)
    ensures FirstLive(Sweep(v), id) == LiveBefore(v, FirstLive(v, id))
  {
    var k := FirstLive(v, id);
    NoLiveSwept(v[..k], id);
    LiveBeforeInside(v, k);
    assert Sweep(v)[..LiveBefore(v, k)] == Sweep(v[..k]) by {
      SweepConcat(v[..k], v[k..]);
      assert v == v[..k] + v[k..];
    }
    forall i | 0 <= i < LiveBefore(v, k) ensures !IsLive(Sweep(v)[i], id) {
      assert Sweep(v)[i] == Sweep(v[..k])[i];
      assert Sweep(v[..k])[i] in Sweep(v[..k]);
    }
    if k < |v| { LiveBeforeNext(v, k); } else { assert v[..k] == v; }
    FirstUnique(Sweep(v), id, LiveBefore(v, k));
  }

  /** One call moves the place that the poll has reached in the live list. */
  lemma CursorStep(v: seq<Entry>, op: Op, n: nat)
    requires n <= |v| && Harmless(v, op)
    ensures n <= |Apply(v, op, true)| && LiveBefore(v, n) <= |Sweep(v)|
    ensures LiveBefore(Apply(v, op, true), n) == Cursor(Sweep(v), op, LiveBefore(v, n))
  {
    LiveBeforeInside(v, n);
    match op
    case Close(id) => CursorClose(v, id, n);
    case Socket(_) | Accept(_) => assert Apply(v, op, true)[..n] == v[..n];
    case _ =>
      ApplyLookUp(v, op, true);
      var k := FirstWith(v, op.id);
      if k < n {
        PrefixUpdated(v, n, k, Changed(v[k], op));
      } else if k < |v| {
        assert v[k := Changed(v[k], op)][..n] == v[..n];
      }
  }

  lemma PrefixUpdated(v: seq<Entry>, n: nat, k: nat, e: Entry)
    requires k < n <= |v|
    ensures LiveBefore(v[k := e], n) + (if v[k].deleted then 0 else 1) ==
            LiveBefore(v, n) + (if e.deleted then 0 else 1)
  {
    assert v[k := e][..n] == v[..n][k := e];
    SweepAround(v[..n], k, e);
    SweepAround(v[..n], k, v[k]);
    assert v[..n][k := v[k]] == v[..n];
  }

  lemma {:induction false} CursorClose(v: seq<Entry>, id: int, n: nat)
    requires n <= |v| && LiveBefore(v, n) <= |Sweep(v)|
    ensures LiveBefore(Apply(v, Close(id), true), n) == Cursor(Sweep(v), Close(id), LiveBefore(v, n))
  {
    var k := FirstLive(v, id);
    FirstLiveSwept(v, id);
    if k < n {
      PrefixUpdated(v, n, k, v[k].(deleted := true));
      LiveBeforeMonotone(v, k, n);
    } else {
      NotPassed(v, id, n);
    }
  }

  lemma NotPassed(v: seq<Entry>, id: int, n: nat)
    requires n <= FirstLive(v, id)
    ensures LiveBefore(Apply(v, Close(id), true), n) == LiveBefore(v, n) <= LiveBefore(v, FirstLive(v, id))
  {
    var k := FirstLive(v, id);
    if n < k { LiveBeforeMonotone(v, n, k); }
    assert Apply(v, Close(id), true)[..n] == v[..n];
  }

  lemma {:induction false} CursorRun(v: seq<Entry>, ops: seq<Op>, n: nat)
    requires n <= |v| && Undisturbed(v, ops)
    ensures n <= |ApplyAll(v, ops, true)| && LiveBefore(v, n) <= |Sweep(v)|
    ensures LiveBefore(ApplyAll(v, ops, true), n) == CursorAll(Sweep(v), ops, LiveBefore(v, n))
    decreases ops
  {
    LiveBeforeInside(v, n);
    if ops != [] {
      CursorStep(v, ops[0], n);
      CallIsExact(v, ops[0]);
      CursorRun(Apply(v, ops[0], true), ops[1..], n);
    }
  }

  /** A live entry after the flags have been written: in the live part of the list ... */
  lemma FlaggedSwept(v: seq<Entry>, i: nat, e: Entry)
    requires i < |v| && !v[i].deleted && !e.deleted
    ensures var u, c := Sweep(v), LiveBefore(v, i);
            c < |u| && u[c] == v[i] && Sweep(v[i := e]) == u[c := e]
  {
    SweepAround(v, i, e);
    SweepAround(v, i, v[i]);
    assert v[i := v[i]] == v;
    Replaced(Sweep(v[..i]), v[i], e, Sweep(v[i + 1..]));
  }

  /** ... and before the poll's place in it. */
  lemma FlaggedCursor(v: seq<Entry>, i: nat, e: Entry)
    requires i < |v| && !v[i].deleted && !e.deleted
    ensures LiveBefore(v[i := e], i + 1) == LiveBefore(v, i) + 1
  {
    LiveBeforeNext(v, i);
    PrefixUpdated(v, i + 1, i, e);
  }

  lemma Replaced(a: seq<Entry>, e: Entry, f: Entry, b: seq<Entry>)
    ensures (a + [e] + b)[|a|] == e && (a + [e] + b)[|a| := f] == a + [f] + b
  {
  }

  /** A visit to a live socket in the two polls. */
  lemma {:induction false} LiveVisit(v: seq<Entry>, i: nat, visit: Visit, call: Call, e: Entry)
    requires i < |v| && !v[i].deleted && SmoothVisit(v, i, visit)
    requires (call, e) == Dispatch(v[i], visit.avail, visit.state)
    ensures var u, c := Sweep(v), LiveBefore(v, i);
            var ops := if call == NoCall then [] else visit.ops;
            var next := VisitEntry(v, i, visit);
            c < |u| && u[c] == v[i] && i + 1 <= |next| && Sweep(next) == ApplyAll(u[c := e], ops, false) &&
            LiveBefore(next, i + 1) == CursorAll(u[c := e], ops, c + 1)
  {
    var ops := if call == NoCall then [] else visit.ops;
    CalledIff(v[i], visit.avail, visit.state);
    FlaggedSwept(v, i, e);
    FlaggedCursor(v, i, e);
    CallbackDeferred(v[i := e], ops);
    CursorRun(v[i := e], ops, i + 1);
  }

  lemma {:induction false} AtOnceStep(u: seq<Entry>, visit: Visit, rest: seq<Visit>, c: nat)
    requires c < |u|
    ensures var (call, e) := Dispatch(u[c], visit.avail, visit.state);
            var w := u[c := e];
            var ops := if call == NoCall then [] else visit.ops;
            CursorAll(w, ops, c + 1) <= |ApplyAll(w, ops, false)| &&
            AtOnce(u, [visit] + rest, c) ==
              Logged(u[c].id, call, AtOnce(ApplyAll(w, ops, false), rest, CursorAll(w, ops, c + 1)))
  {
    var (call, e) := Dispatch(u[c], visit.avail, visit.state);
    CursorAllInside(u[c := e], if call == NoCall then [] else visit.ops, c + 1);
    assert ([visit] + rest)[1..] == rest;
  }

  /** From position i on, the two polls invoke the same callbacks in the same order, and lead to the
      same list. */
  predicate Agree(v: seq<Entry>, visits: seq<Visit>, i: nat)
    requires i <= |v|
  {
    var d := Deferred(v, visits, i);
    LiveBefore(v, i) <= |Sweep(v)| &&
    AtOnce(Sweep(v), LiveVisits(v, visits, i), LiveBefore(v, i)) == Poll(d.log, Sweep(d.list))
  }

  lemma {:induction false} AgreeAtEnd(v: seq<Entry>, visits: seq<Visit>, i: nat)
    requires i <= |v| && (i == |v| || i >= |visits|)
    ensures Agree(v, visits, i)
  {
    LiveBeforeInside(v, i);
    if i == |v| { assert v[..i] == v; }
  }

  lemma {:induction false} AgreeClosed(v: seq<Entry>, visits: seq<Visit>, i: nat)
    requires i < |v| && i < |visits| && v[i].deleted && SmoothVisit(v, i, visits[i])
    ensures VisitEntry(v, i, visits[i]) == v
    ensures Agree(v, visits, i + 1) ==> Agree(v, visits, i)
  {
    CalledIff(v[i], visits[i].avail, visits[i].state);
    assert v[i := v[i]] == v;
    LiveBeforeNext(v, i);
    assert LiveVisits(v, visits, i) == LiveVisits(v, visits, i + 1);
  }

  /** The poll that closes at once, at a live socket. */
  lemma {:induction false} AtOnceLive(v: seq<Entry>, visits: seq<Visit>, i: nat)
    requires i < |v| && i < |visits| && !v[i].deleted && SmoothVisit(v, i, visits[i])
    ensures var next, call := VisitEntry(v, i, visits[i]), Dispatch(v[i], visits[i].avail, visits[i].state).0;
            i + 1 <= |next| && LiveBefore(v, i) <= |Sweep(v)| && LiveBefore(next, i + 1) <= |Sweep(next)| &&
            AtOnce(Sweep(v), LiveVisits(v, visits, i), LiveBefore(v, i)) ==
              Logged(v[i].id, call, AtOnce(Sweep(next), LiveVisits(next, visits, i + 1), LiveBefore(next, i + 1)))
  {
    var next := VisitEntry(v, i, visits[i]);
    var (call, e) := Dispatch(v[i], visits[i].avail, visits[i].state);
    LiveBeforeInside(v, i);
    LiveVisit(v, i, visits[i], call, e);
    LiveBeforeInside(next, i + 1);
    assert LiveVisits(v, visits, i) == [visits[i]] + LiveVisits(next, visits, i + 1);
    AtOnceStep(Sweep(v), visits[i], LiveVisits(next, visits, i + 1), LiveBefore(v, i));
  }

  lemma {:induction false} AgreeLive(v: seq<Entry>, visits: seq<Visit>, i: nat)
    requires i < |v| && i < |visits| && !v[i].deleted && SmoothVisit(v, i, visits[i])
    ensures var next := VisitEntry(v, i, visits[i]);
            i + 1 <= |next| && (Agree(next, visits, i + 1) ==> Agree(v, visits, i))
  {
    AtOnceLive(v, visits, i);
  }

  lemma {:induction false} PollsAgree(v: seq<Entry>, visits: seq<Visit>, i: nat)
    requires i <= |v| && Smooth(v, visits, i)
    ensures Agree(v, visits, i)
    decreases if i < |visits| then |visits| - i else 0
  {
    if i == |v| || i >= |visits| {
      AgreeAtEnd(v, visits, i);
    } else if v[i].deleted {
      AgreeClosed(v, visits, i);
      PollsAgree(v, visits, i + 1);
    } else {
      AgreeLive(v, visits, i);
      PollsAgree(VisitEntry(v, i, visits[i]), visits, i + 1);
    }
  }

  /** wlp_poll on a list without marks, which is how every poll leaves it. */
  lemma {:induction false} PollRefinesAtOnce(v: seq<Entry>, visits: seq<Visit>)
    requires (forall e :: e in v ==> !e.deleted) && Smooth(v, visits, 0)
    ensures var once := AtOnce(v, LiveVisits(v, visits, 0), 0);
            Deferred(v, visits, 0).log == once.log && Sweep(Traverse(v, visits, 0)) == once.list
  {
    SweepId(v);
    assert v[..0] == [];
    PollsAgree(v, visits, 0);
    DeferredIsTraverse(v, visits, 0);
  }

  lemma {:induction false} NoCallsLeft(v: seq<Entry>, visits: seq<Visit>, i: nat)
    requires i >= |visits| || i >= |v|
    ensures Calls(v, visits, i) == []
    decreases if i < |v| then |v| - i else 0
  {
    if i < |v| {
      QuietVisit(v, i);
      NoCallsLeft(v, visits, i + 1);
    }
  }

  predicate OpensAndCloses(visits: seq<Visit>) {
    forall k, op :: 0 <= k < |visits| && op in visits[k].ops ==> OpensOrCloses(op)
  }

  /** The entry at position k is called back although it is closed by then. */
  predicate ClosedCalledAt(v: seq<Entry>, visits: seq<Visit>, i: nat, k: nat)
    requires i <= k
  {
    k in Calls(v, visits, i) && (k < |ListAt(v, visits, i, k)| ==> ListAt(v, visits, i, k)[k].deleted)
  }

  /** No socket is called back after it was closed. */
  ghost predicate NoClosedCalled(v: seq<Entry>, visits: seq<Visit>, i: nat) {
    forall k: nat :: i <= k ==> !ClosedCalledAt(v, visits, i, k)
  }

  lemma {:induction false} ClosedCalledStep(v: seq<Entry>, visits: seq<Visit>, i: nat, k: nat)
    requires i < |v| && i < |visits| && i <= k
    ensures ClosedCalledAt(v, visits, i, k) <==>
            if k == i then Called(v[i], visits[i]) && v[i].deleted
            else ClosedCalledAt(VisitEntry(v, i, visits[i]), visits, i + 1, k)
  {
    CallsStep(v, visits, i, k);
  }

  lemma {:induction false} NoClosedStep(v: seq<Entry>, visits: seq<Visit>, i: nat)
    requires i < |v| && i < |visits|
    ensures NoClosedCalled(v, visits, i) <==>
            (Called(v[i], visits[i]) ==> !v[i].deleted) && NoClosedCalled(VisitEntry(v, i, visits[i]), visits, i + 1)
  {
    var next, j := VisitEntry(v, i, visits[i]), i + 1;
    ClosedCalledStep(v, visits, i, i);
    if NoClosedCalled(v, visits, i) {
      forall k: nat | j <= k ensures !ClosedCalledAt(next, visits, j, k) { ClosedCalledStep(v, visits, i, k); }
    }
    if (Called(v[i], visits[i]) ==> !v[i].deleted) && NoClosedCalled(next, visits, j) {
      forall k: nat | i <= k ensures !ClosedCalledAt(v, visits, i, k) { ClosedCalledStep(v, visits, i, k); }
    }
  }

  /** If callbacks only open, accept and close, the condition says exactly that no closed socket is
      called back. */
  lemma {:induction false} SmoothIff(v: seq<Entry>, visits: seq<Visit>, i: nat)
    requires OpensAndCloses(visits)
    ensures Smooth(v, visits, i) <==> NoClosedCalled(v, visits, i)
    decreases if i < |visits| then |visits| - i else 0
  {
    if i < |v| && i < |visits| {
      SmoothIff(VisitEntry(v, i, visits[i]), visits, i + 1);
      NoClosedStep(v, visits, i);
      OpenAcceptCloseUndisturbed(v[i := Dispatch(v[i], visits[i].avail, visits[i].state).1], visits[i].ops);
    } else {
      NoCallsLeft(v, visits, i);
    }
  }
}
