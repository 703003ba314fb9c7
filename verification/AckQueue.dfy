/** What becomes of an acknowledgment that was handled: the channel of a request is a queue, and Wait keeps the last of each client. */
module AckQueue {
  import opened Acks

  /** The response this step puts into the channel of id: it meets it open, with fewer than a hundred in it. */
  ghost function SentBy(s: State, a: Step, id: AckId): seq<Response>
    requires Enabled(s, a)
  {
    match a
    case Send(h) =>
      var resp := s.handlers[h].resp;
      if resp.ackId == id && !s.requests[id].closed && |s.requests[id].channel| < 100 then [resp] else []
    case _ => []
  }

  /** The response this step takes out of the channel of id. */
  ghost function TakenBy(s: State, a: Step, id: AckId): seq<Response>
    requires Enabled(s, a)
  {
    match a
    case Receive(w) =>
      if s.waiters[w].id == id && s.requests[id].channel != [] then [s.requests[id].channel[0]] else []
    case _ => []
  }

  /** The response waiter w gets in this step. */
  ghost function GotBy(s: State, a: Step, w: nat): seq<Response>
    requires Enabled(s, a)
  {
    if a == Receive(w) then TakenBy(s, a, s.waiters[w].id) else []
  }

  ghost function Sent(s: State, steps: seq<Step>, id: AckId): seq<Response>
    requires IsRun(s, steps)
    decreases |steps|
  {
    if steps == [] then [] else SentBy(s, steps[0], id) + Sent(After(s, steps[0]), steps[1..], id)
  }

  ghost function Taken(s: State, steps: seq<Step>, id: AckId): seq<Response>
    requires IsRun(s, steps)
    decreases |steps|
  {
    if steps == [] then [] else TakenBy(s, steps[0], id) + Taken(After(s, steps[0]), steps[1..], id)
  }

  ghost function Got(s: State, steps: seq<Step>, w: nat): seq<Response>
    requires IsRun(s, steps)
    decreases |steps|
  {
    if steps == [] then [] else GotBy(s, steps[0], w) + Got(After(s, steps[0]), steps[1..], w)
  }

  function ChannelOf(s: State, id: AckId): seq<Response> {
    if id < |s.requests| then s.requests[id].channel else []
  }

  /** All steps but a send and a receipt leave every channel alone. */
  lemma QuietStep(s: State, a: Step, id: AckId)
    requires Enabled(s, a) && !a.Send? && !a.Receive?
    ensures SentBy(s, a, id) == [] && TakenBy(s, a, id) == [] && ChannelOf(After(s, a), id) == ChannelOf(s, id)
  {
  }

  lemma SendStep(s: State, a: Step, id: AckId)
    requires Enabled(s, a) && a.Send?
    ensures TakenBy(s, a, id) == [] && ChannelOf(After(s, a), id) == ChannelOf(s, id) + SentBy(s, a, id)
  {
    assert ChannelOf(s, id) + [] == ChannelOf(s, id);
  }

  lemma ReceiveStep(s: State, a: Step, id: AckId)
    requires Enabled(s, a) && a.Receive?
    ensures SentBy(s, a, id) == [] && ChannelOf(s, id) == TakenBy(s, a, id) + ChannelOf(After(s, a), id)
  {
    var channel := ChannelOf(s, id);
    if channel != [] {
      assert channel == [channel[0]] + channel[1..];
    }
    assert channel == [] + channel;
  }

  lemma StepQueue(s: State, a: Step, id: AckId)
    requires Enabled(s, a)
    ensures ChannelOf(s, id) + SentBy(s, a, id) == TakenBy(s, a, id) + ChannelOf(After(s, a), id)
  {
    hide *;
    if a.Send? {
      SendStep(s, a, id);
    } else if a.Receive? {
      ReceiveStep(s, a, id);
    } else {
      QuietStep(s, a, id);
    }
  }

  lemma {:induction false} RunQueue(s: State, steps: seq<Step>, id: AckId)
    requires IsRun(s, steps)
    ensures ChannelOf(s, id) + Sent(s, steps, id) == Taken(s, steps, id) + ChannelOf(Final(s, steps), id)
    decreases |steps|
  {
    hide Enabled, After, SentBy, TakenBy, ChannelOf;
    if steps == [] {
      assert ChannelOf(s, id) + [] == [] + ChannelOf(s, id);
    } else {
      var s1 := After(s, steps[0]);
      StepQueue(s, steps[0], id);
      RunQueue(s1, steps[1..], id);
      Exchange(ChannelOf(s, id), SentBy(s, steps[0], id), TakenBy(s, steps[0], id), ChannelOf(s1, id),
               Sent(s1, steps[1..], id), Taken(s1, steps[1..], id), ChannelOf(Final(s1, steps[1..]), id));
    }
  }

  lemma Exchange<T>(c: seq<T>, sent: seq<T>, taken: seq<T>, c1: seq<T>, sent1: seq<T>, taken1: seq<T>, c2: seq<T>)
    requires c + sent == taken + c1 && c1 + sent1 == taken1 + c2
    ensures c + (sent + sent1) == taken + taken1 + c2
  {
    assert c + (sent + sent1) == c + sent + sent1 == taken + c1 + sent1 == taken + (c1 + sent1);
  }

  /**
   In every run, for every request: what waiters have taken, followed by what lies in
   the channel, is in order exactly what handlers sent while it was open and below
   its capacity. No acknowledgment is lost on the way, doubled or overtaken.
   */
  lemma QueueIsExact(handlers: nat, waiters: nat, steps: seq<Step>, id: AckId)
    requires IsRun(Init(handlers, waiters), steps)
    ensures var s := Init(handlers, waiters);
            Taken(s, steps, id) + ChannelOf(Final(s, steps), id) == Sent(s, steps, id)
  {
    RunQueue(Init(handlers, waiters), steps, id);
    assert [] + Sent(Init(handlers, waiters), steps, id) == Sent(Init(handlers, waiters), steps, id);
  }

  // ----- What Wait returns -----

  /** Response after response is entered under its client. */
  function Absorbed(m: map<Client, Response>, responses: seq<Response>): map<Client, Response>
    decreases |responses|
  {
    if responses == [] then m else Absorbed(m[responses[0].client := responses[0]], responses[1..])
  }

  function Responses(x: Waiter): map<Client, Response> {
    if x.Away? then map[] else x.responses
  }

  lemma StepGot(s: State, a: Step, w: nat)
    requires Enabled(s, a) && w < |s.waiters|
    ensures |After(s, a).waiters| == |s.waiters|
    ensures Responses(After(s, a).waiters[w]) == Absorbed(Responses(s.waiters[w]), GotBy(s, a, w))
  {
  }

  lemma {:induction false} AbsorbedBoth(m: map<Client, Response>, a: seq<Response>, b: seq<Response>)
    ensures Absorbed(m, a + b) == Absorbed(Absorbed(m, a), b)
    decreases |a|
  {
    if a == [] {
      assert a + b == b;
    } else {
      assert (a + b)[1..] == a[1..] + b;
      AbsorbedBoth(m[a[0].client := a[0]], a[1..], b);
    }
  }

  lemma {:induction false} RunGot(s: State, steps: seq<Step>, w: nat)
    requires IsRun(s, steps) && w < |s.waiters|
    ensures |Final(s, steps).waiters| == |s.waiters|
    ensures Responses(Final(s, steps).waiters[w]) == Absorbed(Responses(s.waiters[w]), Got(s, steps, w))
    decreases |steps|
  {
    hide Enabled, After, GotBy, Responses;
    if steps != [] {
      StepGot(s, steps[0], w);
      RunGot(After(s, steps[0]), steps[1..], w);
      AbsorbedBoth(Responses(s.waiters[w]), GotBy(s, steps[0], w), Got(After(s, steps[0]), steps[1..], w));
    }
  }

  /** i is the last place of a response of c. */
  ghost predicate IsLast(responses: seq<Response>, i: nat, c: Client)
    requires i < |responses|
  {
    responses[i].client == c && forall j :: i < j < |responses| ==> responses[j].client != c
  }

  lemma {:induction false} AbsorbedLast(m: map<Client, Response>, responses: seq<Response>, c: Client)
    ensures c in Absorbed(m, responses) <==> c in m || exists i :: 0 <= i < |responses| && responses[i].client == c
    ensures forall i :: 0 <= i < |responses| && IsLast(responses, i, c) ==> Absorbed(m, responses)[c] == responses[i]
    ensures (forall i :: 0 <= i < |responses| ==> responses[i].client != c) && c in m ==> Absorbed(m, responses)[c] == m[c]
    decreases |responses|
  {
    if responses != [] {
      var r := responses[0];
      var rest := responses[1..];
      AbsorbedLast(m[r.client := r], rest, c);
      assert responses == [r] + rest;
      if i :| 0 <= i < |rest| && rest[i].client == c {
        assert responses[i + 1].client == c;
      }
      forall i | 0 <= i < |responses| && IsLast(responses, i, c)
        ensures Absorbed(m, responses)[c] == responses[i]
      {
        if i > 0 {
          assert IsLast(rest, i - 1, c);
        }
      }
    }
  }

  /** In every run a waiter holds, for each client, the last response of that client that it took from the channel. */
  lemma WaitHoldsLast(handlers: nat, waiters: nat, steps: seq<Step>, w: nat, c: Client)
    requires IsRun(Init(handlers, waiters), steps) && w < waiters
    ensures var s := Init(handlers, waiters);
            var got := Got(s, steps, w);
            && w < |Final(s, steps).waiters|
            && var held := Responses(Final(s, steps).waiters[w]);
               && (c in held <==> exists i :: 0 <= i < |got| && got[i].client == c)
               && forall i :: 0 <= i < |got| && IsLast(got, i, c) ==> held[c] == got[i]
  {
    hide IsRun, Got, Final;
    var s := Init(handlers, waiters);
    RunGot(s, steps, w);
    AbsorbedLast(map[], Got(s, steps, w), c);
  }

  // ----- When Wait returns -----

  /** The clients are all counted, or the request is gone and nothing more can come. */
  ghost predicate MayReturn(s: State, id: AckId) {
    id < |s.requests| && (s.requests[id].remaining <= 0 || (s.requests[id].closed && s.requests[id].channel == []))
  }

  /** Some state of the run is one in which a Wait for id may return. */
  ghost predicate CouldReturn(s: State, steps: seq<Step>, id: AckId)
    requires IsRun(s, steps)
    decreases |steps|
  {
    MayReturn(s, id) || (steps != [] && CouldReturn(After(s, steps[0]), steps[1..], id))
  }

  /** A waiter that is done, or about to be. */
  predicate Leaving(x: Waiter) {
    x.Cancelling? || x.Done?
  }

  lemma StepReturns(s: State, a: Step, w: nat)
    requires Enabled(s, a) && a != TimeOut(w) && w < |s.waiters|
    ensures |After(s, a).waiters| == |s.waiters|
    ensures var x, x' := s.waiters[w], After(s, a).waiters[w];
            && (Leaving(x') ==> (Leaving(x) && x.id == x'.id) || MayReturn(s, x'.id))
            && (Leaving(x) ==> Leaving(x') && x'.id == x.id)
  {
  }

  /**
   In every run: a Wait whose timer has not fired is over only if at some moment the
   counter of its request was down to zero, or the request was gone and its channel
   empty.
   */
  lemma {:induction false} RunReturns(s: State, steps: seq<Step>, w: nat)
    requires IsRun(s, steps) && w < |s.waiters| && !Leaving(s.waiters[w])
    requires forall i :: 0 <= i < |steps| ==> steps[i] != TimeOut(w)
    ensures |Final(s, steps).waiters| == |s.waiters|
    ensures var x := Final(s, steps).waiters[w]; Leaving(x) ==> CouldReturn(s, steps, x.id)
    decreases |steps|
  {
    hide Enabled, After, MayReturn;
    if steps != [] {
      var s1 := After(s, steps[0]);
      StepReturns(s, steps[0], w);
      if Leaving(s1.waiters[w]) {
        StaysLeaving(s1, steps[1..], w);
      } else {
        RunReturns(s1, steps[1..], w);
      }
    }
  }

  lemma {:induction false} StaysLeaving(s: State, steps: seq<Step>, w: nat)
    requires IsRun(s, steps) && w < |s.waiters| && Leaving(s.waiters[w])
    requires forall i :: 0 <= i < |steps| ==> steps[i] != TimeOut(w)
    ensures |Final(s, steps).waiters| == |s.waiters|
    ensures var x := Final(s, steps).waiters[w]; Leaving(x) && x.id == s.waiters[w].id
    decreases |steps|
  {
    hide Enabled, After, MayReturn;
    if steps != [] {
      StepReturns(s, steps[0], w);
      StaysLeaving(After(s, steps[0]), steps[1..], w);
    }
  }

  /** After this step of its own the waiter is here. */
  ghost predicate Goes(s: State, a: Step, s': State, w: nat, x: Waiter) {
    Enabled(s, a) && s' == After(s, a) && w < |s'.waiters| && s'.waiters[w] == x
  }

  /**
   A Wait that has a response to take goes on by itself: it takes the response, looks
   at the counter, and either waits for the next one or, the counter being down to
   zero, takes the request out of the table and returns what it holds.
   */
  lemma TakesAndReturns(s: State, w: nat)
    requires w < |s.waiters| && s.waiters[w].Collecting?
    requires s.waiters[w].id < |s.requests| && s.requests[s.waiters[w].id].channel != []
    ensures var id := s.waiters[w].id;
            var resp := s.requests[id].channel[0];
            var held := s.waiters[w].responses[resp.client := resp];
            exists s1, s2 ::
              && Goes(s, Receive(w), s1, w, Checking(id, held))
              && if s.requests[id].remaining > 0 then Goes(s1, Check(w), s2, w, Collecting(id, held))
                 else
                   && Goes(s1, Check(w), s2, w, Cancelling(id, held))
                   && exists s3 :: Goes(s2, Release(w), s3, w, Done(id, held)) && id !in s3.table
  {
    var id := s.waiters[w].id;
    var resp := s.requests[id].channel[0];
    var held := s.waiters[w].responses[resp.client := resp];
    var s1 := After(s, Receive(w));
    assert Goes(s, Receive(w), s1, w, Checking(id, held));
    var s2 := After(s1, Check(w));
    if s.requests[id].remaining > 0 {
      assert Goes(s1, Check(w), s2, w, Collecting(id, held));
    } else {
      assert Goes(s1, Check(w), s2, w, Cancelling(id, held));
      var s3 := After(s2, Release(w));
      assert Goes(s2, Release(w), s3, w, Done(id, held)) && id !in s3.table;
    }
  }

  /**
   An acknowledgment that finds its request in the table is marked and put into the
   channel by the next two steps of its handler, which is then free again; one that
   does not is dropped.
   */
  lemma AckIsTakenUp(s: State, h: nat, resp: Response)
    requires Enabled(s, Lookup(h, resp)) && forall id :: id in s.table ==> id < |s.requests|
    ensures resp.ackId !in s.table ==> After(s, Lookup(h, resp)) == s
    ensures resp.ackId in s.table ==>
      exists s1, s2, s3 ::
        && Moves(s, Lookup(h, resp), s1) && Moves(s1, MarkReceived(h), s2) && Moves(s2, Send(h), s3)
        && h < |s3.handlers| && s3.handlers[h] == Idle
        && TakenUp(s.requests[resp.ackId], s3.requests, resp)
  {
    if resp.ackId in s.table {
      var s1 := After(s, Lookup(h, resp));
      assert Moves(s, Lookup(h, resp), s1);
      var s2 := After(s1, MarkReceived(h));
      assert Moves(s1, MarkReceived(h), s2);
      var s3 := After(s2, Send(h));
      assert Moves(s2, Send(h), s3);
      assert TakenUp(s.requests[resp.ackId], s3.requests, resp);
    }
  }

  ghost predicate Moves(s: State, a: Step, s': State) {
    Enabled(s, a) && s' == After(s, a)
  }

  /** The client is marked, and the response is queued if there is room and the channel is open. */
  predicate TakenUp(r: Request, requests: seq<Request>, resp: Response) {
    && resp.ackId < |requests|
    && resp.client in requests[resp.ackId].received && requests[resp.ackId].received[resp.client]
    && requests[resp.ackId].channel == r.channel + (if !r.closed && |r.channel| < 100 then [resp] else [])
  }
}
