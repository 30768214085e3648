/**
  The socket list of the wlp API on the heap: a singly linked list of nodes, proved against the
  list as a value (SockModel).
*/
module SockList {
  import opened SockModel
  import opened SockPoll
  import SockEvents

  class Sock {
    var id: int
    var connected: bool
    var error: bool
    var deleted: bool
    var listen: bool
    var conn: bool
    var rx: bool
    var next: Sock?

    constructor (sockid: int, isConnected: bool)
      ensures Value() == NewEntry(sockid, isConnected) && next == null
    {
      id, connected, error, deleted := sockid, isConnected, false, false;
      listen, conn, rx, next := false, false, false, null;
    }

    function Value(): Entry
      reads this
    {
      Entry(id, connected, error, deleted, listen, conn, rx)
    }

    method MarkDeleted()
      modifies this`deleted
      ensures Value() == old(Value()).(deleted := true)
    {
      deleted := true;
    }

    /** What the poll writes into the flags before it invokes a callback, and which callback that is. */
    method Poll(avail: int, reported: State) returns (call: Call)
      modifies this`connected, this`error
      ensures (call, Value()) == Dispatch(old(Value()), avail, reported)
      ensures SockEvents.CallbackRules(old(Value()), avail, reported, call, Value())
    {
      var state := if avail < 0 then State.Failed else reported;
      call := NoCall;
      if state == State.Connected && !connected && conn {
        connected, error := true, false;
        call := ConnUp;
      } else if state == State.Failed && !error && conn {
        connected, error := false, true;
        call := ConnDown;
      } else if state == Accepting && listen {
        call := ListenCall;
      } else if avail > 0 && rx {
        call := Received;
      } else if state == Disconnected && connected && rx {
        connected := false;
        call := ReceivedEnd;
      }
    }

    /** The assignment to the entry in each of the calls that look a socket up. */
    method Change(op: Op)
      modifies this
      ensures Value() == Changed(old(Value()), op) && next == old(next)
    {
      match op
      case Listen(_, cb) =>
        listen := cb;
        connected, error, deleted := false, false, false;
      case Connect(_) =>
        connected, error, deleted := false, false, false;
      case SetConn(_, cb) =>
        conn := cb;
      case SetRecv(_, cb) =>
        rx := cb;
      case _ =>
    }
  }

  /** The values of a chain of nodes. */
  ghost function Values(nodes: seq<Sock>): (v: seq<Entry>)
    reads nodes
    ensures |v| == |nodes| && forall i :: 0 <= i < |v| ==> v[i] == nodes[i].Value()
  {
    seq(|nodes|, i requires 0 <= i < |nodes| reads nodes => nodes[i].Value())
  }

  lemma ValuesWithout(nodes: seq<Sock>, k: nat)
    requires k < |nodes|
    ensures Values(nodes[..k] + nodes[k + 1..]) == Values(nodes)[..k] + Values(nodes)[k + 1..]
  {
  }

  ghost predicate Distinct(nodes: seq<Sock>) {
    forall i, j :: 0 <= i < j < |nodes| ==> nodes[i] != nodes[j]
  }

  ghost predicate LinkedAt(nodes: seq<Sock>, i: nat)
    reads nodes
  {
    i < |nodes| && nodes[i].next == if i + 1 < |nodes| then nodes[i + 1] else null
  }

  /** `first` is the head of a null-terminated chain of exactly these nodes. */
  ghost predicate Chain(first: Sock?, nodes: seq<Sock>)
    reads nodes
  {
    && Distinct(nodes)
    && first == (if nodes == [] then null else nodes[0])
    && forall i :: 0 <= i < |nodes| ==> LinkedAt(nodes, i)
  }

  /** The nodes whose entry is marked (or is not). */
  ghost function Pick(nodes: seq<Sock>, v: seq<Entry>, marked: bool): seq<Sock>
    requires |nodes| == |v|
  {
    if nodes == [] then []
    else
      var n := |nodes| - 1;
      Pick(nodes[..n], v[..n], marked) + if v[n].deleted == marked then [nodes[n]] else []
  }

  lemma SweepLast(v: seq<Entry>, e: Entry)
    ensures Sweep(v + [e]) == Sweep(v) + if e.deleted then [] else [e]
  {
    SweepConcat(v, [e]);
    assert [e][1..] == [];
  }

  function LastOf(nodes: seq<Sock>): Sock? {
    if nodes == [] then null else nodes[|nodes| - 1]
  }

  class SockTable {
    var sockHead: Sock?
    var polling: bool
    var freed: seq<Sock>         // every node passed to free(), in order
    ghost var nodes: seq<Sock>

    ghost predicate Valid()
      reads this, nodes
    {
      && Chain(sockHead, nodes)
      && Distinct(freed) && forall s :: s in freed ==> s !in nodes
    }

    ghost function View(): seq<Entry>
      reads this, nodes
    {
      Values(nodes)
    }

    ghost function NodeSet(): set<Sock>
      reads this
    {
      set s | s in nodes
    }

    constructor ()
      ensures Valid() && View() == [] && !polling && freed == []
    {
      sockHead, polling, freed, nodes := null, false, [], [];
    }

    /** Append a node behind the last one. */
    method Append(sock: Sock)
      requires Valid() && sock !in nodes && sock !in freed && sock.next == null
      modifies this`sockHead, this`nodes, nodes
      ensures Valid() && nodes == old(nodes) + [sock]
      ensures View() == old(View()) + [sock.Value()]
    {
      if sockHead == null {
        sockHead := sock;
      } else {
        var iter := sockHead;
        ghost var k := 0;
        while iter.next != null
          invariant 0 <= k < |nodes| && iter == nodes[k]
          decreases |nodes| - k
        {
          assert LinkedAt(nodes, k);
          iter := iter.next;
          k := k + 1;
        }
        assert LinkedAt(nodes, k);
        iter.next := sock;
      }
      ghost var before := nodes;
      nodes := nodes + [sock];
      forall i | 0 <= i < |nodes| ensures LinkedAt(nodes, i) {
        if i + 1 < |before| { assert old(LinkedAt(nodes, i)); }
      }
    }

    method Socket(res: int) returns (id: int)
      requires Valid()
      modifies this`sockHead, this`nodes, nodes
      ensures Valid() && id == res
      ensures View() == Apply(old(View()), Op.Socket(res), polling)
      ensures old(nodes) <= nodes && forall s :: s in nodes ==> s in old(nodes) || fresh(s)
    {
      if res >= 0 {
        var sock := new Sock(res, false);
        Append(sock);
      }
      id := res;
    }

    /** The caller of wlp_accept has a listening socket; on an empty list the C loop would follow the
        null head. */
    method Accept(res: int) returns (id: int)
      requires Valid() && nodes != []
      modifies this`sockHead, this`nodes, nodes
      ensures Valid() && id == res
      ensures View() == Apply(old(View()), Op.Accept(res), polling)
      ensures old(nodes) <= nodes && forall s :: s in nodes ==> s in old(nodes) || fresh(s)
    {
      if res >= 0 {
        var sock := new Sock(res, true);
        Append(sock);
      }
      id := res;
    }

    /** sock_find. */
    method Find(id: int, ghost v: seq<Entry>) returns (sock: Sock?, ghost k: nat)
      requires Valid() && v == View()
      ensures k == FirstWith(v, id) && sock == if k == |v| then null else nodes[k]
      ensures if sock == null then forall e :: e in v ==> e.id != id else sock in nodes && sock.id == id
    {
      sock := sockHead;
      k := 0;
      while sock != null
        invariant k <= |nodes| && sock == if k == |nodes| then null else nodes[k]
        invariant forall i :: 0 <= i < k ==> v[i].id != id
        decreases |nodes| - k
      {
        assert sock.Value() == v[k];
        if sock.id == id {
          FirstWithUnique(v, id, k);
          return;
        }
        assert LinkedAt(nodes, k);
        sock := sock.next;
        k := k + 1;
      }
      FirstWithUnique(v, id, k);
    }

    /** The calls that look a socket up and change its entry; a null callback takes a callback away.
        If there is no such socket the C functions return WLP_ERR_PARAM. */
    method LookUp(op: Op) returns (known: bool)
      requires Valid() && LooksUp(op)
      modifies nodes
      ensures Valid() && View() == Apply(old(View()), op, polling)
      ensures known <==> exists e :: e in old(View()) && e.id == op.id
    {
      ghost var v := View();
      var sock, k := Find(op.id, v);
      ApplyLookUp(v, op, polling);
      known := sock != null;
      assert k < |v| ==> v[k] in v;
      if sock != null {
        sock.Change(op);
        OnlyNode(nodes, k);
        forall i | 0 <= i < |nodes| ensures LinkedAt(nodes, i) { assert old(LinkedAt(nodes, i)); }
        assert View() == v[k := nodes[k].Value()];
      }
    }

    /** Take a node out of the list and free it. */
    method Unlink(prev: Sock?, iter: Sock, ghost k: nat, ghost all: seq<Sock>)
      requires Valid() && k < |nodes| && iter == nodes[k]
      requires prev == if k == 0 then null else nodes[k - 1]
      modifies this`sockHead, this`nodes, this`freed, prev
      ensures Valid() && nodes == old(nodes)[..k] + old(nodes)[k + 1..]
      ensures freed == old(freed) + [iter] && iter.next == old(iter.next)
      ensures Values(all) == old(Values(all))
    {
      ghost var before := nodes;
      OnlyNode(nodes, k);
      assert iter in nodes;
      assert LinkedAt(nodes, k) && (k > 0 ==> LinkedAt(nodes, k - 1));
      if prev == null {
        sockHead := sockHead.next;
      } else {
        prev.next := iter.next;
      }
      freed := freed + [iter];
      nodes := before[..k] + before[k + 1..];
      forall i | 0 <= i < |nodes| ensures LinkedAt(nodes, i) {
        var j := if i < k then i else i + 1;
        assert old(LinkedAt(nodes, j));
        if k > 0 { OnlyNode(before, k - 1); }
      }
    }

    static lemma OnlyNode(nodes: seq<Sock>, k: nat)
      requires Distinct(nodes) && k < |nodes|
      ensures forall i :: 0 <= i < |nodes| && i != k ==> nodes[i] != nodes[k]
    {
    }

    /** The loop of wlp_close: the first node with the id that is not marked, and the node before it. */
    method FindLive(id: int, ghost v: seq<Entry>) returns (prev: Sock?, iter: Sock?, ghost k: nat)
      requires Valid() && v == View()
      ensures k == FirstLive(v, id) && iter == if k == |v| then null else nodes[k]
      ensures prev == if k == 0 then null else nodes[k - 1]
      ensures if iter == null then forall e :: e in v ==> !IsLive(e, id) else iter in nodes && IsLive(iter.Value(), id)
    {
      prev := null;
      iter := sockHead;
      k := 0;
      while iter != null
        invariant k <= |nodes| && iter == if k == |nodes| then null else nodes[k]
        invariant prev == if k == 0 then null else nodes[k - 1]
        invariant forall i :: 0 <= i < k ==> !IsLive(v[i], id)
        decreases |nodes| - k
      {
        assert iter.Value() == v[k];
        if iter.id == id && !iter.deleted {
          FirstUnique(v, id, k);
          return;
        }
        assert LinkedAt(nodes, k);
        prev := iter;
        iter := iter.next;
        k := k + 1;
      }
      FirstUnique(v, id, k);
    }

    method Close(id: int)
      requires Valid()
      modifies this`sockHead, this`nodes, this`freed, nodes
      ensures Valid() && View() == Apply(old(View()), Op.Close(id), polling)
      ensures polling ==> nodes == old(nodes) && freed == old(freed)
      ensures !polling ==>
                var k := FirstLive(old(View()), id);
                if k == |old(nodes)| then nodes == old(nodes) && freed == old(freed)
                else nodes == old(nodes)[..k] + old(nodes)[k + 1..] && freed == old(freed) + [old(nodes)[k]]
    {
      ghost var v := View();
      var prev, iter, k := FindLive(id, v);
      if iter == null {
        return;
      }
      if polling {
        Mark(iter, k);
      } else {
        ghost var before := nodes;
        Unlink(prev, iter, k, before);
        ValuesWithout(before, k);
      }
    }

    /** Mark a node as deleted and leave it in the list. */
    method Mark(iter: Sock, ghost k: nat)
      requires Valid() && k < |nodes| && iter == nodes[k]
      modifies nodes
      ensures Valid() && View() == old(View())[k := old(View())[k].(deleted := true)]
    {
      ghost var v := View();
      iter.MarkDeleted();
      OnlyNode(nodes, k);
      forall i | 0 <= i < |nodes| ensures LinkedAt(nodes, i) { assert old(LinkedAt(nodes, i)); }
      assert View() == v[k := nodes[k].Value()];
    }

    method Call(op: Op)
      requires Valid() && polling && nodes != []
      modifies this`sockHead, this`nodes, this`freed, nodes
      ensures Valid() && polling && View() == Apply(old(View()), op, true)
      ensures old(nodes) <= nodes && freed == old(freed)
      ensures forall s :: s in nodes ==> s in old(nodes) || fresh(s)
    {
      match op
      case Socket(res) => var _ := Socket(res);
      case Accept(res) => var _ := Accept(res);
      case Close(id) => Close(id);
      case _ => var _ := LookUp(op);
    }

    /** A callback: any sequence of calls; its own socket is still in the list. */
    method Callback(ops: seq<Op>)
      requires Valid() && polling && nodes != []
      modifies this`sockHead, this`nodes, this`freed, nodes
      ensures Valid() && polling && View() == ApplyAll(old(View()), ops, true)
      ensures old(nodes) <= nodes && freed == old(freed)
      ensures forall s :: s in nodes ==> s in old(nodes) || fresh(s)
    {
      assert ops[0..] == ops;
      for i := 0 to |ops|
        invariant Valid() && polling && freed == old(freed) && old(nodes) <= nodes
        invariant ApplyAll(View(), ops[i..], true) == ApplyAll(old(View()), ops, true)
        invariant forall s :: s in nodes ==> s in old(nodes) || fresh(s)
      {
        assert forall k :: 0 <= k < |nodes| ==> nodes[k] in nodes;
        Call(ops[i]);
        assert ops[i..][1..] == ops[i + 1..];
      }
    }

    /** The body of the poll's traversal. */
    method VisitSock(iter: Sock, visit: Visit, ghost i: nat)
      requires Valid() && polling && i < |nodes| && iter == nodes[i]
      modifies this`sockHead, this`nodes, this`freed, nodes
      ensures Valid() && polling && View() == VisitEntry(old(View()), i, visit)
      ensures old(nodes) <= nodes && freed == old(freed)
      ensures forall s :: s in nodes ==> s in old(nodes) || fresh(s)
    {
      ghost var v := View();
      var call := iter.Poll(visit.avail, visit.state);
      OnlyNode(nodes, i);
      forall k | 0 <= k < |nodes| ensures LinkedAt(nodes, k) { assert old(LinkedAt(nodes, k)); }
      assert View() == v[i := nodes[i].Value()];
      if call != NoCall {
        Callback(visit.ops);
      }
    }

    /** The traversal has visited the first i nodes. */
    ghost predicate Traversing(v0: seq<Entry>, visits: seq<Visit>, i: nat, iter: Sock?)
      reads this, nodes
    {
      && Valid() && polling && i <= |nodes| && iter == (if i == |nodes| then null else nodes[i])
      && Traverse(View(), visits, i) == Traverse(v0, visits, 0)
    }

    method VisitNext(iter: Sock, visits: seq<Visit>, i: nat, ghost v0: seq<Entry>) returns (next: Sock?)
      requires i < |nodes| && Traversing(v0, visits, i, iter)
      modifies this`sockHead, this`nodes, this`freed, nodes
      ensures Traversing(v0, visits, i + 1, next)
      ensures old(nodes) <= nodes && freed == old(freed) && (i >= |visits| ==> |nodes| == |old(nodes)|)
      ensures forall s :: s in nodes ==> s in old(nodes) || fresh(s)
    {
      ghost var v := View();
      TraverseStep(v, visits, i);
      VisitSock(iter, if i < |visits| then visits[i] else QUIET, i);
      assert LinkedAt(nodes, i);
      next := iter.next;
    }

    /** The traversal: every node is visited once, the ones added on the way included. */
    method TraverseAll(visits: seq<Visit>)
      requires Valid() && polling
      modifies this`sockHead, this`nodes, this`freed, nodes
      ensures Valid() && View() == Traverse(old(View()), visits, 0)
      ensures old(nodes) <= nodes && freed == old(freed)
      ensures forall s :: s in nodes ==> s in old(nodes) || fresh(s)
    {
      var iter := sockHead;
      var i := 0;
      while iter != null
        invariant Traversing(old(View()), visits, i, iter)
        invariant old(nodes) <= nodes && freed == old(freed)
        invariant forall s :: s in nodes ==> s in old(nodes) || fresh(s)
        decreases if i < |visits| then |visits| - i else 0, |nodes| - i
      {
        assert forall k :: 0 <= k < |nodes| ==> nodes[k] in nodes;
        iter := VisitNext(iter, visits, i, old(View()));
        i := i + 1;
      }
    }

    /** The clean-up has sorted the nodes before `rest` into kept and removed ones. */
    ghost predicate Sweeping(all: seq<Sock>, v: seq<Entry>, freed0: seq<Sock>, kept: seq<Sock>, removed: seq<Sock>,
                             rest: seq<Sock>, prev: Sock?, iter: Sock?)
      reads this, nodes, all
    {
      && Valid() && nodes == kept + rest && freed == freed0 + removed
      && Sorted(all, v, kept, removed, rest) && Values(all) == v
      && prev == LastOf(kept) && iter == (if rest == [] then null else rest[0])
    }

    /** One step of the clean-up: keep a node or take it out. */
    method SweepOne(prev: Sock?, sock: Sock, ghost all: seq<Sock>, ghost v: seq<Entry>, ghost freed0: seq<Sock>,
                    ghost kept: seq<Sock>, ghost removed: seq<Sock>, ghost rest: seq<Sock>)
        returns (prev': Sock?, iter: Sock?, ghost kept': seq<Sock>, ghost removed': seq<Sock>)
      requires rest != [] && Sweeping(all, v, freed0, kept, removed, rest, prev, sock)
      modifies this`sockHead, this`nodes, this`freed, prev
      ensures Sweeping(all, v, freed0, kept', removed', rest[1..], prev', iter)
      ensures prev' == prev || prev' == sock
    {
      Regroup(kept, rest);
      SortStep(all, v, kept, removed, rest, sock.deleted);
      assert nodes[|kept|] == sock && LinkedAt(nodes, |kept|);
      iter := sock.next;
      prev', kept', removed' := prev, kept, removed;
      if !sock.deleted {
        prev' := sock;
        kept' := kept + [sock];
      } else {
        assert nodes[..|kept|] + nodes[|kept| + 1..] == kept + rest[1..];
        Unlink(prev, sock, |kept|, all);
        Associate(freed0, removed, sock);
        removed' := removed + [sock];
      }
    }

    /** The clean-up at the end of a poll. */
    method SweepMarked()
      requires Valid()
      modifies this`sockHead, this`nodes, this`freed, NodeSet()
      ensures Valid() && View() == Sweep(old(View()))
      ensures nodes == Pick(old(nodes), old(View()), false)
      ensures freed == old(freed) + Pick(old(nodes), old(View()), true)
    {
      ghost var all, v, freed0 := nodes, View(), freed;
      ghost var kept: seq<Sock>, removed: seq<Sock>, rest := [], [], nodes;
      var prev: Sock? := null;
      var iter := sockHead;
      assert all[0..] == all;
      while iter != null
        invariant Sweeping(all, v, freed0, kept, removed, rest, prev, iter)
        invariant prev == null || prev in old(NodeSet())
        decreases |rest|
      {
        assert iter in all;
        prev, iter, kept, removed := SweepOne(prev, iter, all, v, freed0, kept, removed, rest);
        rest := rest[1..];
      }
      Swept(all, v, freed0, kept, removed, rest, prev);
    }

    /** The clean-up has come to the end of the list. */
    lemma Swept(all: seq<Sock>, v: seq<Entry>, freed0: seq<Sock>, kept: seq<Sock>, removed: seq<Sock>,
                rest: seq<Sock>, prev: Sock?)
      requires Sweeping(all, v, freed0, kept, removed, rest, prev, null)
      ensures Valid() && View() == Sweep(v)
      ensures nodes == Pick(all, v, false) && freed == freed0 + Pick(all, v, true)
    {
      assert rest == [];
      SortedEnd(all, v, kept, removed, rest);
      PickedValues(all, v);
    }

    /** `rest` is still to be looked at, the nodes before it have been sorted out. */
    static ghost predicate Sorted(all: seq<Sock>, v: seq<Entry>, kept: seq<Sock>, removed: seq<Sock>, rest: seq<Sock>) {
      && |all| == |v| && |rest| <= |all|
      && var j := |all| - |rest|;
         rest == all[j..] && kept == Pick(all[..j], v[..j], false) && removed == Pick(all[..j], v[..j], true)
    }

    static lemma SortedEnd(all: seq<Sock>, v: seq<Entry>, kept: seq<Sock>, removed: seq<Sock>, rest: seq<Sock>)
      requires Sorted(all, v, kept, removed, rest) && rest == []
      ensures kept + rest == kept == Pick(all, v, false) && removed == Pick(all, v, true)
    {
      assert all[..|all|] == all && v[..|all|] == v;
    }

    static lemma SortStep(all: seq<Sock>, v: seq<Entry>, kept: seq<Sock>, removed: seq<Sock>, rest: seq<Sock>,
                          marked: bool)
      requires Sorted(all, v, kept, removed, rest) && rest != [] && Values(all) == v
      requires marked == rest[0].deleted
      ensures rest[0] in all
      ensures if marked then Sorted(all, v, kept, removed + [rest[0]], rest[1..])
              else Sorted(all, v, kept + [rest[0]], removed, rest[1..])
    {
      var j := |all| - |rest|;
      PickStep(all, v, j);
      assert all[j].Value() == v[j];
    }

    static lemma Regroup(kept: seq<Sock>, rest: seq<Sock>)
      requires rest != []
      ensures kept + rest == kept + [rest[0]] + rest[1..]
      ensures LastOf(kept + [rest[0]]) == rest[0]
    {
    }

    static lemma Associate(a: seq<Sock>, b: seq<Sock>, s: Sock)
      ensures a + b + [s] == a + (b + [s])
    {
    }

    static lemma PickStep(all: seq<Sock>, v: seq<Entry>, j: nat)
      requires j < |all| == |v|
      ensures forall m :: Pick(all[..j + 1], v[..j + 1], m) ==
                          Pick(all[..j], v[..j], m) + if v[j].deleted == m then [all[j]] else []
    {
      assert all[..j + 1][..j] == all[..j] && v[..j + 1][..j] == v[..j];
    }

    /** The nodes that remain hold the swept list. */
    static lemma {:induction false} PickedValues(all: seq<Sock>, v: seq<Entry>)
      requires Values(all) == v
      ensures Values(Pick(all, v, false)) == Sweep(v)
    {
      if all != [] {
        var n := |all| - 1;
        PickedValues(all[..n], v[..n]);
        assert v == v[..n] + [v[n]];
        SweepLast(v[..n], v[n]);
      }
    }

    /** The socket part of wlp_poll: `visited` are the nodes that the traversal saw, `w` their entries
        at its end.  If it is smooth, closing at once would have led to the same list. */
    method PollSockets(visits: seq<Visit>) returns (ghost visited: seq<Sock>, ghost w: seq<Entry>)
      requires Valid()
      modifies this, nodes
      ensures Valid() && !polling && old(nodes) <= visited
      ensures |visited| == |w| && View() == Sweep(w)
      ensures w == Traverse(old(View()), visits, 0)
      ensures nodes == Pick(visited, w, false) && freed == old(freed) + Pick(visited, w, true)
      ensures (forall e :: e in View() ==> !e.deleted)
      ensures (forall e :: e in old(View()) ==> !e.deleted) && Smooth(old(View()), visits, 0) ==>
                View() == AtOnce(old(View()), LiveVisits(old(View()), visits, 0), 0).list
    {
      ghost var v := View();
      visited, w := PollAndSweep(visits);
      Unmarked(w);
      if (forall e :: e in v ==> !e.deleted) && Smooth(v, visits, 0) { PollRefinesAtOnce(v, visits); }
    }

    static lemma Unmarked(w: seq<Entry>)
      ensures forall e :: e in Sweep(w) ==> !e.deleted
    {
      forall e | e in Sweep(w) ensures !e.deleted { SweepKeeps(w, e); }
    }

    method PollAndSweep(visits: seq<Visit>) returns (ghost visited: seq<Sock>, ghost w: seq<Entry>)
      requires Valid()
      modifies this, nodes
      ensures Valid() && !polling && old(nodes) <= visited
      ensures |visited| == |w| && View() == Sweep(w)
      ensures w == Traverse(old(View()), visits, 0)
      ensures nodes == Pick(visited, w, false) && freed == old(freed) + Pick(visited, w, true)
    {
      ghost var v := View();
      polling := true;
      assert View() == v;
      TraverseAll(visits);
      polling := false;
      visited, w := nodes, View();
      assert w == Traverse(v, visits, 0);
      assert forall k :: 0 <= k < |nodes| ==> nodes[k] in nodes;
      SweepMarked();
    }
  }
}
