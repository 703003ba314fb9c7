/**
 The acknowledgment protocol of ksps/bus.go. A step is what one goroutine does
 under one lock, or one operation on a channel; steps of any number of handlers
 and waiters come in any order.
 */
module Acks {
  import opened Bytes
  import opened Decimals

  type Client = string

  /** Acknowledgments are numbered: generateAckID never gives an id twice. */
  type AckId = nat

  const CHANNEL_CAPACITY: nat := 100
  datatype Response = Response(ackId: AckId, client: Client, success: bool, error: string)

  /** An ackRequest; clients and internals are those for whom it was made. */
  datatype Request = Request(clients: set<Client>, internals: set<nat>, received: map<Client, bool>, remaining: int,
                             channel: seq<Response>, closed: bool)
  {
    /** What the counter started from. */
    function Count(): nat {
      |clients| + |internals|
    }

    /** The names that were listed. */
    function Listed(): set<Client> {
      clients + InternalNames(internals)
    }

    predicate IsComplete() {
      forall c :: c in received ==> received[c]
    }
  }

  /** The name under which an internal subscriber answers. */
  function InternalName(id: nat): Client {
    "internal_" + Decimal(id)
  }

  function InternalNames(ids: set<nat>): set<Client> {
    set i | i in ids :: InternalName(i)
  }

  function Unreceived(names: set<Client>): map<Client, bool> {
    map c | c in names :: false
  }

  /** The request for a message to these WebSocket clients and these internal subscribers. */
  function Created(clients: set<Client>, internals: set<nat>): Request {
    Request(clients, internals, Unreceived(clients + InternalNames(internals)), Int32(|clients| + |internals|), [], false)
  }

  function MarkedIn(received: map<Client, bool>): set<Client> {
    set c | c in received && received[c]
  }

  function Marked(r: Request): set<Client> {
    MarkedIn(r.received)
  }

  /** The section of handleAck under the lock of the request; an unknown client counts as not received. */
  function Mark(r: Request, c: Client): Request {
    if c in r.received && r.received[c] then r
    else r.(received := r.received[c := true], remaining := Int32(r.remaining - 1))
  }

  /** The send of handleAck: dropped when the channel is closed or full. */
  function Push(r: Request, resp: Response): Request {
    if r.closed || |r.channel| >= CHANNEL_CAPACITY then r else r.(channel := r.channel + [resp])
  }

  // ----- Steps -----

  datatype Handler = Idle | Found(resp: Response) | Counted(resp: Response)

  datatype Waiter =
    | Away
    | Collecting(id: AckId, responses: map<Client, Response>)
    | Checking(id: AckId, responses: map<Client, Response>)
    | Cancelling(id: AckId, responses: map<Client, Response>)
    | Done(id: AckId, responses: map<Client, Response>)

  /** handled: every response that found its request. */
  datatype State = State(requests: seq<Request>, table: set<AckId>, handlers: seq<Handler>, waiters: seq<Waiter>,
                         handled: set<Response>)

  datatype Step =
    | Publish(clients: set<Client>, internals: set<nat>)
    | Lookup(h: nat, resp: Response)
    | MarkReceived(h: nat)
    | Send(h: nat)
    | Cancel(id: AckId)
    | Tick(expired: set<AckId>)
    | WaitBegin(w: nat, id: AckId)
    | Receive(w: nat)
    | Check(w: nat)
    | Release(w: nat)
    | TimeOut(w: nat)

  ghost predicate Enabled(s: State, a: Step) {
    match a
    case Publish(_, _) => true
    case Lookup(h, _) => h < |s.handlers| && s.handlers[h].Idle?
    case MarkReceived(h) => h < |s.handlers| && s.handlers[h].Found? && s.handlers[h].resp.ackId < |s.requests|
    case Send(h) => h < |s.handlers| && s.handlers[h].Counted? && s.handlers[h].resp.ackId < |s.requests|
    case Cancel(_) => true
    case Tick(expired) => true
    case WaitBegin(w, id) => w < |s.waiters| && s.waiters[w].Away? && id < |s.requests|
    case Receive(w) =>
      w < |s.waiters| && s.waiters[w].Collecting? && s.waiters[w].id < |s.requests|
      && (s.requests[s.waiters[w].id].channel != [] || s.requests[s.waiters[w].id].closed)
    case Check(w) => w < |s.waiters| && s.waiters[w].Checking? && s.waiters[w].id < |s.requests|
    case Release(w) => w < |s.waiters| && s.waiters[w].Cancelling?
    case TimeOut(w) => w < |s.waiters| && s.waiters[w].Collecting?
  }

  ghost function SetHandler(s: State, h: nat, x: Handler): State
    requires h < |s.handlers|
  {
    s.(handlers := s.handlers[h := x])
  }

  ghost function SetWaiter(s: State, w: nat, x: Waiter): State
    requires w < |s.waiters|
  {
    s.(waiters := s.waiters[w := x])
  }

  ghost function SetRequest(s: State, id: AckId, r: Request): State
    requires id < |s.requests|
  {
    s.(requests := s.requests[id := r])
  }

  /** The entries that are taken out of the table are closed. */
  ghost function CloseAll(s: State, ids: set<AckId>): State {
    var gone := ids * s.table;
    s.(requests := seq(|s.requests|, i requires 0 <= i < |s.requests| =>
                     if i in gone then s.requests[i].(closed := true) else s.requests[i]),
       table := s.table - gone)
  }

  ghost function After(s: State, a: Step): State
    requires Enabled(s, a)
  {
    match a
    case Publish(clients, internals) =>
      s.(requests := s.requests + [Created(clients, internals)], table := s.table + {|s.requests|})
    case Lookup(h, resp) =>
      if resp.ackId in s.table then SetHandler(s, h, Found(resp)).(handled := s.handled + {resp}) else s
    case MarkReceived(h) =>
      var resp := s.handlers[h].resp;
      SetRequest(SetHandler(s, h, Counted(resp)), resp.ackId, Mark(s.requests[resp.ackId], resp.client))
    case Send(h) =>
      var resp := s.handlers[h].resp;
      SetRequest(SetHandler(s, h, Idle), resp.ackId, Push(s.requests[resp.ackId], resp))
    case Cancel(id) => CloseAll(s, {id})
    case Tick(expired) => CloseAll(s, expired)
    case WaitBegin(w, id) =>
      SetWaiter(s, w, if s.requests[id].remaining <= 0 then Done(id, map[]) else Collecting(id, map[]))
    case Receive(w) =>
      var x := s.waiters[w];
      var r := s.requests[x.id];
      if r.channel == [] then SetWaiter(s, w, Done(x.id, x.responses))
      else
        var resp := r.channel[0];
        SetRequest(SetWaiter(s, w, Checking(x.id, x.responses[resp.client := resp])),
                   x.id, r.(channel := r.channel[1..]))
    case Check(w) =>
      var x := s.waiters[w];
      SetWaiter(s, w, if s.requests[x.id].remaining <= 0 then Cancelling(x.id, x.responses) else Collecting(x.id, x.responses))
    case Release(w) =>
      var x := s.waiters[w];
      CloseAll(SetWaiter(s, w, Done(x.id, x.responses)), {x.id})
    case TimeOut(w) => SetWaiter(s, w, Done(s.waiters[w].id, s.waiters[w].responses))
  }

  function Init(handlers: nat, waiters: nat): State {
    State([], {}, seq(handlers, _ => Idle), seq(waiters, _ => Away), {})
  }

  ghost predicate IsRun(s: State, steps: seq<Step>)
    decreases |steps|
  {
    steps == [] || (Enabled(s, steps[0]) && IsRun(After(s, steps[0]), steps[1..]))
  }

  ghost function Final(s: State, steps: seq<Step>): State
    requires IsRun(s, steps)
    decreases |steps|
  {
    if steps == [] then s else Final(After(s, steps[0]), steps[1..])
  }

  // ----- What every step keeps -----

  /** The counter and the received map agree; beyond the listed clients only those that answered are in it. */
  ghost predicate Balanced(r: Request) {
    && r.remaining == Int32(r.Count() - |Marked(r)|)
    && r.received.Keys == r.Listed() + Marked(r)
  }

  /** A response of a client that has been marked, to the request id, that was handled. */
  ghost predicate Genuine(s: State, id: AckId, resp: Response) {
    && id < |s.requests|
    && resp.ackId == id && resp in s.handled && resp.client in Marked(s.requests[id])
  }

  ghost predicate RequestOk(s: State, id: AckId)
    requires id < |s.requests|
  {
    var r := s.requests[id];
    && Balanced(r)
    && (r.closed <==> id !in s.table)
    && |r.channel| <= CHANNEL_CAPACITY
    && forall i :: 0 <= i < |r.channel| ==> Genuine(s, id, r.channel[i])
  }

  ghost predicate HandlerOk(s: State, x: Handler) {
    match x
    case Idle => true
    case Found(resp) => resp.ackId < |s.requests| && resp in s.handled
    case Counted(resp) => Genuine(s, resp.ackId, resp)
  }

  ghost predicate WaiterOk(s: State, x: Waiter) {
    x.Away? || (x.id < |s.requests| && forall c :: c in x.responses ==> x.responses[c].client == c && Genuine(s, x.id, x.responses[c]))
  }

  ghost predicate Inv(s: State) {
    && (forall id :: id in s.table ==> id < |s.requests|)
    && (forall id {:trigger RequestOk(s, id)} :: 0 <= id < |s.requests| ==> RequestOk(s, id))
    && (forall h {:trigger s.handlers[h]} :: 0 <= h < |s.handlers| ==> HandlerOk(s, s.handlers[h]))
    && (forall w {:trigger s.waiters[w]} :: 0 <= w < |s.waiters| ==> WaiterOk(s, s.waiters[w]))
  }
}
