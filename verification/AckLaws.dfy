/** The acknowledgment protocol in all its runs, and when the counter tells whether everybody has answered. */
module AckLaws {
  import opened Decimals
  import opened Bytes
  import opened Acks
  import opened AckProof

  lemma InitInv(handlers: nat, waiters: nat)
    ensures Inv(Init(handlers, waiters))
  {
  }

  /**
   In every run: a request's counter is its initial count less the clients marked
   (as an int32), its channel is closed exactly when it is out of the table, and
   whatever lies in the channel was handled, for this request, from a marked client.
   */
  lemma CountersBalance(handlers: nat, waiters: nat, steps: seq<Step>, id: AckId)
    requires IsRun(Init(handlers, waiters), steps)
    requires id < |Final(Init(handlers, waiters), steps).requests|
    ensures var s := Final(Init(handlers, waiters), steps);
            var r := s.requests[id];
            && r.remaining == Int32(r.Count() - |Marked(r)|)
            && (r.closed <==> id !in s.table)
            && forall i :: 0 <= i < |r.channel| ==>
                 r.channel[i].ackId == id && r.channel[i] in s.handled && r.channel[i].client in Marked(r)
  {
    InitInv(handlers, waiters);
    RunKeeps(Init(handlers, waiters), steps);
    var s := Final(Init(handlers, waiters), steps);
    assert RequestOk(s, id);
    forall i | 0 <= i < |s.requests[id].channel|
      ensures Genuine(s, id, s.requests[id].channel[i])
    {
    }
  }

  /** In every run, whatever Wait has gathered or returned for a client is a handled acknowledgment of that client with that id. */
  lemma WaitIsSound(handlers: nat, waiters: nat, steps: seq<Step>, w: nat, c: Client)
    requires IsRun(Init(handlers, waiters), steps)
    requires w < waiters && var s := Final(Init(handlers, waiters), steps);
             w < |s.waiters| && !s.waiters[w].Away? && c in s.waiters[w].responses
    ensures var s := Final(Init(handlers, waiters), steps);
            var id, resp := s.waiters[w].id, s.waiters[w].responses[c];
            && resp.client == c && resp.ackId == id && resp in s.handled
            && id < |s.requests| && c in Marked(s.requests[id])
  {
    InitInv(handlers, waiters);
    RunKeeps(Init(handlers, waiters), steps);
    WaiterKnown(Final(Init(handlers, waiters), steps), w);
  }

  /** The channels a step closes. */
  ghost function Closed(s: State, a: Step): set<AckId>
    requires Enabled(s, a)
  {
    match a
    case Cancel(id) => {id} * s.table
    case Tick(expired) => expired * s.table
    case Release(w) => {s.waiters[w].id} * s.table
    case _ => {}
  }

  /** No channel is closed twice, and none is closed but by the step that takes its request out of the table. */
  lemma ClosedOnce(handlers: nat, waiters: nat, steps: seq<Step>, a: Step, id: AckId)
    requires IsRun(Init(handlers, waiters), steps)
    requires Enabled(Final(Init(handlers, waiters), steps), a)
    ensures var s := Final(Init(handlers, waiters), steps);
            var s' := After(s, a);
            && (id in Closed(s, a) ==> id < |s.requests| && !s.requests[id].closed)
            && (id < |s.requests| ==>
                  && |s'.requests| >= |s.requests|
                  && (s'.requests[id].closed <==> s.requests[id].closed || id in Closed(s, a))
                  && (id in Closed(s, a) <==> id in s.table && id !in s'.table))
  {
    InitInv(handlers, waiters);
    RunKeeps(Init(handlers, waiters), steps);
    var s := Final(Init(handlers, waiters), steps);
    hide Mark, Push, Created, Int32, Genuine;
    TableKnown(s);
    AllBalanced(s);
    hide Inv, Balanced, IsRun, Final;
    ClosedNow(s, a, id);
  }

  lemma ClosedNow(s: State, a: Step, id: AckId)
    requires Enabled(s, a)
    ensures id < |s.requests| ==>
              && |After(s, a).requests| >= |s.requests|
              && (After(s, a).requests[id].closed <==> s.requests[id].closed || id in Closed(s, a))
              && (id in s.table && id !in After(s, a).table <==> id in Closed(s, a))
  {
    hide Created, Int32;
  }

  /** What a step does to the request id: it may mark one client, and what the request was made for stays. */
  lemma RequestMoves(s: State, a: Step, id: AckId)
    requires Enabled(s, a) && id < |s.requests|
    ensures id < |After(s, a).requests|
    ensures var r, r' := s.requests[id], After(s, a).requests[id];
            && r'.clients == r.clients && r'.internals == r.internals
            && Marked(r') == Marked(r)
                 + if a.MarkReceived? && s.handlers[a.h].resp.ackId == id then {s.handlers[a.h].resp.client} else {}
  {
    hide Int32, Created, MarkedIn;
    if a.MarkReceived? {
      MarkedMore(s.requests[s.handlers[a.h].resp.ackId], s.handlers[a.h].resp.client);
    }
  }

  /** Marks are never taken back. */
  lemma {:induction false} MarksStay(s: State, steps: seq<Step>, id: AckId)
    requires IsRun(s, steps) && id < |s.requests|
    ensures id < |Final(s, steps).requests| && Marked(s.requests[id]) <= Marked(Final(s, steps).requests[id])
    ensures Final(s, steps).requests[id].clients == s.requests[id].clients
    ensures Final(s, steps).requests[id].internals == s.requests[id].internals
    decreases |steps|
  {
    hide Enabled, After, Marked;
    if steps != [] {
      RequestMoves(s, steps[0], id);
      MarksStay(After(s, steps[0]), steps[1..], id);
    }
  }

  /**
   Once a client was marked for a request, it stays marked, whatever steps follow,
   and every later acknowledgment of it leaves counter, marks and all else of every
   request as they were.
   */
  lemma RepeatedAck(s: State, steps: seq<Step>, id: AckId, c: Client, h: nat)
    requires id < |s.requests| && c in Marked(s.requests[id])
    requires IsRun(s, steps) && Enabled(Final(s, steps), MarkReceived(h))
    ensures id < |Final(s, steps).requests| && c in Marked(Final(s, steps).requests[id])
    ensures Final(s, steps).handlers[h].resp.ackId == id && Final(s, steps).handlers[h].resp.client == c ==>
              After(Final(s, steps), MarkReceived(h)).requests == Final(s, steps).requests
  {
    hide Final, IsRun;
    MarksStay(s, steps, id);
  }
}
