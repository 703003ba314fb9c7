/** What every run of the acknowledgment protocol keeps. */
module AckProof {
  import opened Bytes
  import opened Acks

  lemma Int32Minus(x: int)
    ensures Int32(Int32(x) - 1) == Int32(x - 1)
  {
  }

  lemma MarkedMore(r: Request, c: Client)
    ensures Marked(Mark(r, c)) == Marked(r) + {c}
    ensures c !in Marked(r) ==> |Marked(Mark(r, c))| == |Marked(r)| + 1
  {
    hide Int32;
    assert Marked(Mark(r, c)) == Marked(r) + {c};
  }

  lemma MarkBalanced(r: Request, c: Client)
    requires Balanced(r)
    ensures Balanced(Mark(r, c)) && Marked(Mark(r, c)) == Marked(r) + {c}
  {
    MarkedMore(r, c);
    Int32Minus(r.Count() - |Marked(r)|);
    hide Int32;
    assert c in Marked(r) <==> c in r.received && r.received[c];
    hide Marked;
  }

  lemma NoneMarked(names: set<Client>)
    ensures MarkedIn(Unreceived(names)) == {}
    ensures Unreceived(names).Keys == names
  {
  }

  lemma CreatedBalanced(clients: set<Client>, internals: set<nat>)
    ensures Balanced(Created(clients, internals)) && Marked(Created(clients, internals)) == {}
  {
    hide Int32, InternalNames, MarkedIn, Unreceived;
    NoneMarked(clients + InternalNames(internals));
  }

  /** Nothing is unmarked and nothing forgotten. */
  ghost predicate Grows(s: State, s': State) {
    && |s.requests| <= |s'.requests| && s.handled <= s'.handled
    && forall id :: 0 <= id < |s.requests| ==> Marked(s.requests[id]) <= Marked(s'.requests[id])
  }

  lemma GenuineStays(s: State, s': State, id: AckId, resp: Response)
    requires Grows(s, s') && Genuine(s, id, resp)
    ensures Genuine(s', id, resp)
  {
  }

  lemma HandlerStays(s: State, s': State, x: Handler)
    requires Grows(s, s') && HandlerOk(s, x)
    ensures HandlerOk(s', x)
  {
  }

  lemma WaiterStays(s: State, s': State, x: Waiter)
    requires Grows(s, s') && WaiterOk(s, x)
    ensures WaiterOk(s', x)
  {
    hide Genuine;
    if !x.Away? {
      forall c | c in x.responses
        ensures Genuine(s', x.id, x.responses[c])
      {
        GenuineStays(s, s', x.id, x.responses[c]);
      }
    }
  }

  /** A request that has changed in nothing but its marks, and possibly lost the front of its channel. */
  lemma RequestStays(s: State, s': State, id: AckId)
    requires Grows(s, s') && id < |s.requests| && RequestOk(s, id)
    requires Balanced(s'.requests[id]) && (s'.requests[id].closed <==> id !in s'.table)
    requires s'.requests[id].channel == s.requests[id].channel
    ensures RequestOk(s', id)
  {
    hide Genuine, Balanced;
    var r := s.requests[id];
    forall i | 0 <= i < |r.channel|
      ensures Genuine(s', id, r.channel[i])
    {
      assert Genuine(s, id, r.channel[i]);
      GenuineStays(s, s', id, r.channel[i]);
    }
  }

  /** The invariant holds again if it holds for the one request, handler or waiter that a step is about. */
  lemma Kept(s: State, s': State, id: int, h: int, w: int)
    requires Inv(s) && Grows(s, s')
    requires forall i :: i in s'.table ==> i < |s'.requests|
    requires forall i :: 0 <= i < |s.requests| && i != id ==>
               s'.requests[i].channel == s.requests[i].channel && Balanced(s'.requests[i]) && (s'.requests[i].closed <==> i !in s'.table)
    requires |s'.requests| == |s.requests| || (|s'.requests| == |s.requests| + 1 && id == |s.requests|)
    requires 0 <= id < |s'.requests| ==> RequestOk(s', id)
    requires |s'.handlers| == |s.handlers| && forall i :: 0 <= i < |s.handlers| && i != h ==> s'.handlers[i] == s.handlers[i]
    requires 0 <= h < |s.handlers| ==> HandlerOk(s', s'.handlers[h])
    requires |s'.waiters| == |s.waiters| && forall i :: 0 <= i < |s.waiters| && i != w ==> s'.waiters[i] == s.waiters[i]
    requires 0 <= w < |s.waiters| ==> WaiterOk(s', s'.waiters[w])
    ensures Inv(s')
  {
    hide Grows, HandlerOk, WaiterOk, RequestOk, Balanced;
    forall i | 0 <= i < |s'.requests|
      ensures RequestOk(s', i)
    {
      if i != id {
        assert RequestOk(s, i);
        RequestStays(s, s', i);
      }
    }
    forall i | 0 <= i < |s'.handlers|
      ensures HandlerOk(s', s'.handlers[i])
    {
      if i != h {
        HandlerStays(s, s', s.handlers[i]);
      }
    }
    forall i | 0 <= i < |s'.waiters|
      ensures WaiterOk(s', s'.waiters[i])
    {
      if i != w {
        WaiterStays(s, s', s.waiters[i]);
      }
    }
  }

  lemma Known(s: State, id: AckId)
    requires Inv(s) && id < |s.requests|
    ensures RequestOk(s, id)
  {
  }

  lemma AllBalanced(s: State)
    requires Inv(s)
    ensures forall i :: 0 <= i < |s.requests| ==> Balanced(s.requests[i]) && (s.requests[i].closed <==> i !in s.table)
  {
    hide Balanced, Genuine, HandlerOk, WaiterOk;
    forall i | 0 <= i < |s.requests|
      ensures Balanced(s.requests[i]) && (s.requests[i].closed <==> i !in s.table)
    {
      assert RequestOk(s, i);
    }
  }

  lemma PublishKeeps(s: State, clients: set<Client>, internals: set<nat>)
    requires Inv(s)
    ensures Inv(After(s, Publish(clients, internals)))
  {
    hide Inv, Balanced;
    CreatedBalanced(clients, internals);
    AllBalanced(s);
    TableKnown(s);
    Kept(s, After(s, Publish(clients, internals)), |s.requests|, -1, -1);
  }

  lemma TableKnown(s: State)
    requires Inv(s)
    ensures forall id :: id in s.table ==> id < |s.requests|
  {
  }

  lemma LookupKeeps(s: State, h: nat, resp: Response)
    requires Inv(s) && Enabled(s, Lookup(h, resp))
    ensures Inv(After(s, Lookup(h, resp)))
  {
    hide Inv, Balanced;
    AllBalanced(s);
    TableKnown(s);
    if resp.ackId in s.table {
      Kept(s, After(s, Lookup(h, resp)), -1, h, -1);
    }
  }

  lemma MarkKeeps(s: State, h: nat)
    requires Inv(s) && Enabled(s, MarkReceived(h))
    ensures Inv(After(s, MarkReceived(h)))
  {
    hide Inv, Balanced;
    AllBalanced(s);
    TableKnown(s);
    var resp := s.handlers[h].resp;
    HandlerKnown(s, h);
    MarkBalanced(s.requests[resp.ackId], resp.client);
    var s' := After(s, MarkReceived(h));
    Known(s, resp.ackId);
    RequestStays(s, s', resp.ackId);
    Kept(s, s', resp.ackId, h, -1);
  }

  lemma HandlerKnown(s: State, h: nat)
    requires Inv(s) && h < |s.handlers|
    ensures HandlerOk(s, s.handlers[h])
  {
  }

  lemma WaiterKnown(s: State, w: nat)
    requires Inv(s) && w < |s.waiters|
    ensures WaiterOk(s, s.waiters[w])
  {
  }

  lemma SendKeeps(s: State, h: nat)
    requires Inv(s) && Enabled(s, Send(h))
    ensures Inv(After(s, Send(h)))
  {
    hide Inv;
    AllBalanced(s);
    TableKnown(s);
    HandlerKnown(s, h);
    var resp := s.handlers[h].resp;
    Known(s, resp.ackId);
    var s' := After(s, Send(h));
    assert Grows(s, s');
    SentOk(s, s', resp);
    Kept(s, s', resp.ackId, h, -1);
  }

  lemma SentOk(s: State, s': State, resp: Response)
    requires Grows(s, s') && resp.ackId < |s.requests| && RequestOk(s, resp.ackId) && Genuine(s, resp.ackId, resp)
    requires resp.ackId < |s'.requests| && s'.requests[resp.ackId] == Push(s.requests[resp.ackId], resp) && s'.table == s.table
    ensures RequestOk(s', resp.ackId)
  {
    hide Genuine, Grows, Balanced;
    SameBalance(s.requests[resp.ackId], s'.requests[resp.ackId]);
    GenuineStays(s, s', resp.ackId, resp);
    var r, r' := s.requests[resp.ackId], s'.requests[resp.ackId];
    forall i | 0 <= i < |r'.channel|
      ensures Genuine(s', resp.ackId, r'.channel[i])
    {
      if i < |r.channel| {
        GenuineStays(s, s', resp.ackId, r.channel[i]);
      }
    }
  }

  lemma CloseKeeps(s: State, ids: set<AckId>)
    requires Inv(s)
    ensures Inv(CloseAll(s, ids))
  {
    hide Inv, Balanced;
    AllBalanced(s);
    TableKnown(s);
    var s' := CloseAll(s, ids);
    forall i | 0 <= i < |s.requests|
      ensures s'.requests[i].channel == s.requests[i].channel && Balanced(s'.requests[i])
      ensures s'.requests[i].closed <==> i !in s'.table
    {
      SameBalance(s.requests[i], s'.requests[i]);
    }
    Kept(s, s', -1, -1, -1);
  }

  lemma SameBalance(r: Request, r': Request)
    requires Balanced(r) && r'.clients == r.clients && r'.internals == r.internals
    requires r'.received == r.received && r'.remaining == r.remaining
    ensures Balanced(r') && Marked(r') == Marked(r)
  {
    hide Int32, InternalNames, MarkedIn;
  }

  lemma WaitKeeps(s: State, a: Step, w: nat)
    requires Inv(s) && Enabled(s, a)
    requires (a.WaitBegin? || a.Check? || a.TimeOut?) && a.w == w
    ensures Inv(After(s, a))
  {
    hide Inv, Balanced;
    AllBalanced(s);
    TableKnown(s);
    WaiterKnown(s, w);
    Kept(s, After(s, a), -1, -1, w);
  }

  lemma ReleaseKeeps(s: State, w: nat)
    requires Inv(s) && Enabled(s, Release(w))
    ensures Inv(After(s, Release(w)))
  {
    hide Inv, CloseAll, Balanced;
    AllBalanced(s);
    TableKnown(s);
    WaiterKnown(s, w);
    var x := s.waiters[w];
    var s1 := SetWaiter(s, w, Done(x.id, x.responses));
    Kept(s, s1, -1, -1, w);
    CloseKeeps(s1, {x.id});
  }

  lemma ReceiveKeeps(s: State, w: nat)
    requires Inv(s) && Enabled(s, Receive(w))
    ensures Inv(After(s, Receive(w)))
  {
    hide Inv, Balanced;
    AllBalanced(s);
    TableKnown(s);
    WaiterKnown(s, w);
    var x := s.waiters[w];
    var r := s.requests[x.id];
    var s' := After(s, Receive(w));
    if r.channel == [] {
      Kept(s, s', -1, -1, w);
    } else {
      Known(s, x.id);
      SameBalance(r, r.(channel := r.channel[1..]));
      assert Genuine(s, x.id, r.channel[0]);
      Received(s, s', x.id, x.responses);
      Kept(s, s', x.id, -1, w);
    }
  }

  lemma Received(s: State, s': State, id: AckId, responses: map<Client, Response>)
    requires id < |s.requests| && RequestOk(s, id) && s.requests[id].channel != [] && Grows(s, s')
    requires WaiterOk(s, Collecting(id, responses))
    requires var r := s.requests[id]; Balanced(r.(channel := r.channel[1..])) && s'.requests[id] == r.(channel := r.channel[1..])
    requires s'.table == s.table
    ensures RequestOk(s', id)
    ensures var resp := s.requests[id].channel[0]; WaiterOk(s', Checking(id, responses[resp.client := resp]))
  {
    hide Genuine, Grows, Balanced;
    var r := s.requests[id];
    forall i | 0 <= i < |r.channel|
      ensures Genuine(s', id, r.channel[i])
    {
      GenuineStays(s, s', id, r.channel[i]);
    }
    assert Genuine(s', id, r.channel[0]);
    ItsOwn(s', id, r.channel[0]);
    WaiterStays(s, s', Collecting(id, responses));
  }

  lemma ItsOwn(s: State, id: AckId, resp: Response)
    requires Genuine(s, id, resp)
    ensures id < |s.requests| && resp.ackId == id
  {
  }

  lemma Keeps(s: State, a: Step)
    requires Inv(s) && Enabled(s, a)
    ensures Inv(After(s, a))
  {
    hide Inv;
    match a
    case Publish(clients, internals) => PublishKeeps(s, clients, internals);
    case Lookup(h, resp) => LookupKeeps(s, h, resp);
    case MarkReceived(h) => MarkKeeps(s, h);
    case Send(h) => SendKeeps(s, h);
    case Cancel(id) => CloseKeeps(s, {id});
    case Tick(expired) => CloseKeeps(s, expired);
    case WaitBegin(w, _) => WaitKeeps(s, a, w);
    case Receive(w) => ReceiveKeeps(s, w);
    case Check(w) => WaitKeeps(s, a, w);
    case Release(w) => ReleaseKeeps(s, w);
    case TimeOut(w) => WaitKeeps(s, a, w);
  }

  lemma {:induction false} RunKeeps(s: State, steps: seq<Step>)
    requires Inv(s) && IsRun(s, steps)
    ensures Inv(Final(s, steps))
    decreases |steps|
  {
    hide Inv, Enabled, After;
    if steps != [] {
      Keeps(s, steps[0]);
      RunKeeps(After(s, steps[0]), steps[1..]);
    }
  }
}
