/** The acknowledgment requests of ksps/bus.go as objects updated in place, one call at a time. */
module AckTable {
  import opened Bytes
  import opened Acks
  import opened Decimals

  lemma OneMore(names: set<Client>, c: Client)
    ensures Unreceived(names)[c := false] == Unreceived(names + {c})
  {
  }

  lemma NoNames()
    ensures InternalNames({}) == {} && Unreceived({}) == map[]
  {
  }

  lemma OneMoreName(clients: set<Client>, ids: set<nat>, i: nat)
    ensures clients + InternalNames(ids) + {InternalName(i)} == clients + InternalNames(ids + {i})
  {
    hide InternalName;
  }

  /** The collection loops of publishWithAck: everybody who will get the message, not yet received. */
  method Collect(clients: set<Client>, internals: set<nat>) returns (received: map<Client, bool>)
    ensures received == Unreceived(clients + InternalNames(internals))
  {
    hide Unreceived, InternalNames, InternalName;
    received := map[];
    NoNames();
    var left := clients;
    assert clients - left == {};
    while left != {}
      invariant left <= clients
      invariant received == Unreceived(clients - left)
      decreases left
    {
      var c :| c in left;
      OneMore(clients - left, c);
      assert clients - left + {c} == clients - (left - {c});
      received, left := received[c := false], left - {c};
    }
    assert clients - {} == clients && clients + {} == clients;
    var ids := internals;
    assert internals - ids == {};
    while ids != {}
      invariant ids <= internals
      invariant received == Unreceived(clients + InternalNames(internals - ids))
      decreases ids
    {
      var i :| i in ids;
      OneMoreName(clients, internals - ids, i);
      OneMore(clients + InternalNames(internals - ids), InternalName(i));
      assert internals - ids + {i} == internals - (ids - {i});
      received, ids := received[InternalName(i) := false], ids - {i};
    }
    assert internals - {} == internals;
  }

  /** A new request lists everybody, nobody has answered, and its channel is empty and open. */
  lemma CreatedIs(clients: set<Client>, internals: set<nat>)
    ensures var r := Created(clients, internals);
            && r.received.Keys == clients + (set i | i in internals :: "internal_" + Decimal(i))
            && (forall c :: c in r.received ==> !r.received[c])
            && r.remaining == Int32(|clients| + |internals|) && r.channel == [] && !r.closed
  {
  }

  class AckRequest {
    const id: AckId
    ghost const clients: set<Client>
    ghost const internals: set<nat>
    const timestamp: int
    const timeout: int
    var received: map<Client, bool>
    var remaining: int
    var channel: seq<Response>
    var closed: bool

    ghost function Look(): Request
      reads this
    {
      Request(clients, internals, received, remaining, channel, closed)
    }

    constructor (id: AckId, clients: set<Client>, internals: set<nat>, received: map<Client, bool>, timestamp: int, timeout: int)
      requires received == Unreceived(clients + InternalNames(internals))
      ensures Look() == Created(clients, internals) && this.id == id
      ensures this.timestamp == timestamp && this.timeout == timeout
    {
      this.id, this.timestamp, this.timeout := id, timestamp, timeout;
      this.clients, this.internals := clients, internals;
      this.received, channel, closed := received, [], false;
      remaining := Int32(|clients| + |internals|);
    }

    method MarkReceived(c: Client)
      modifies this`received, this`remaining
      ensures Look() == Mark(old(Look()), c)
      ensures received == old(received)[c := true]
      ensures remaining == if c in old(received) && old(received)[c] then old(remaining) else Int32(old(remaining) - 1)
    {
      if !(c in received && received[c]) {
        received, remaining := received[c := true], Int32(remaining - 1);
      }
    }

    method Send(resp: Response)
      modifies this`channel
      ensures Look() == Push(old(Look()), resp)
      ensures channel == old(channel) + if !closed && |old(channel)| < 100 then [resp] else []
    {
      if !closed && |channel| < CHANNEL_CAPACITY {
        channel := channel + [resp];
      }
    }

    /** IsComplete: a loop over the received map. */
    method IsComplete() returns (complete: bool)
      ensures complete <==> Look().IsComplete()
      ensures complete <==> forall c :: c in received ==> received[c]
    {
      var left := received.Keys;
      while left != {}
        invariant left <= received.Keys
        invariant forall c :: c in received && c !in left ==> received[c]
        decreases left
      {
        var c :| c in left;
        if !received[c] {
          return false;
        }
        left := left - {c};
      }
      return true;
    }
  }

  class Table {
    var ackRequests: map<AckId, AckRequest>
    var nextId: AckId
    /** Every request ever made, also those that are out of the table. */
    ghost var all: seq<AckRequest>

    ghost predicate Valid()
      reads this
    {
      && |all| == nextId
      && (forall i :: 0 <= i < |all| ==> all[i].id == i)
      && forall id {:trigger ackRequests[id]} :: id in ackRequests ==> id < |all| && ackRequests[id] == all[id]
    }

    ghost function Requests(): (rs: seq<Request>)
      reads this, all
      ensures |rs| == |all|
    {
      seq(|all|, i requires 0 <= i < |all| reads this, all => all[i].Look())
    }

    constructor ()
      ensures Valid() && all == [] && ackRequests == map[]
    {
      ackRequests, nextId, all := map[], 0, [];
    }

    /** publishWithAck, up to the registration of the request. */
    method Publish(clients: set<Client>, internals: set<nat>, now: int, timeout: int) returns (id: AckId)
      requires Valid()
      modifies this
      ensures Valid() && id == old(nextId)
      ensures ackRequests.Keys == old(ackRequests).Keys + {id}
      ensures Requests() == old(Requests()) + [Created(clients, internals)]
      ensures id < |Requests()| &&
        var r := Requests()[id];
        && r.received.Keys == clients + (set i | i in internals :: "internal_" + Decimal(i))
        && (forall c :: c in r.received ==> !r.received[c])
        && r.remaining == Int32(|clients| + |internals|) && r.channel == [] && !r.closed
    {
      hide Created, Unreceived, InternalNames, InternalName;
      id := nextId;
      var received := Collect(clients, internals);
      var request := new AckRequest(id, clients, internals, received, now, timeout);
      ackRequests, nextId, all := ackRequests[id := request], nextId + 1, all + [request];
      CreatedIs(clients, internals);
    }

    /** handleAck: the look-up, the mark and the send, one after the other. */
    method HandleAck(resp: Response)
      requires Valid()
      modifies all
      ensures Valid() && ackRequests == old(ackRequests) && all == old(all)
      ensures Requests() == if resp.ackId in ackRequests
                            then old(Requests())[resp.ackId := Push(Mark(old(Requests())[resp.ackId], resp.client), resp)]
                            else old(Requests())
      ensures resp.ackId in ackRequests ==>
        var r, r' := old(Requests())[resp.ackId], Requests()[resp.ackId];
        && r'.channel == r.channel + (if !r.closed && |r.channel| < 100 then [resp] else [])
        && r'.received == r.received[resp.client := true]
        && r'.remaining == (if resp.client in r.received && r.received[resp.client] then r.remaining else Int32(r.remaining - 1))
        && r'.closed == r.closed
      ensures forall id :: 0 <= id < |all| && (id != resp.ackId || id !in ackRequests) ==>
        Requests()[id] == old(Requests())[id]
    {
      if resp.ackId in ackRequests {
        var request := ackRequests[resp.ackId];
        request.MarkReceived(resp.client);
        request.Send(resp);
      }
    }

    /** cancelAck */
    method CancelAck(id: AckId)
      requires Valid()
      modifies this`ackRequests, all
      ensures Valid() && all == old(all) && ackRequests == old(ackRequests) - {id}
      ensures Requests() == if id in old(ackRequests) then old(Requests())[id := old(Requests())[id].(closed := true)] else old(Requests())
    {
      if id in ackRequests {
        ackRequests[id].closed := true;
        ackRequests := ackRequests - {id};
      }
    }

    /** The request is too old at this time. */
    predicate Expired(id: AckId, now: int)
      requires id in ackRequests
      reads this
    {
      now - ackRequests[id].timestamp > ackRequests[id].timeout
    }

    /** One tick of ackCleanupWorker: requests that are too old go, and their channels are closed. */
    method Expire(now: int)
      requires Valid()
      modifies this`ackRequests, all
      ensures Valid() && all == old(all)
      ensures ackRequests
           == old(map id | id in ackRequests && now - ackRequests[id].timestamp <= ackRequests[id].timeout :: ackRequests[id])
      ensures Requests() == CloseSome(old(Requests()), old(ackRequests).Keys - ackRequests.Keys)
    {
      hide CloseSome, Requests;
      var left := ackRequests.Keys;
      CloseNone(Requests());
      assert old(ackRequests).Keys - ackRequests.Keys == {};
      while left != {}
        invariant Valid() && all == old(all) && left <= ackRequests.Keys
        invariant ackRequests == old(map id | id in ackRequests && (id in left || !Expired(id, now)) :: ackRequests[id])
        invariant Requests() == CloseSome(old(Requests()), old(ackRequests).Keys - ackRequests.Keys)
        decreases left
      {
        var id :| id in left;
        if now - ackRequests[id].timestamp > ackRequests[id].timeout {
          CloseMore(old(Requests()), old(ackRequests).Keys - ackRequests.Keys, id);
          assert old(ackRequests).Keys - (ackRequests - {id}).Keys == old(ackRequests).Keys - ackRequests.Keys + {id};
          CancelAck(id);
        }
        left := left - {id};
      }
    }
  }

  ghost function CloseSome(rs: seq<Request>, ids: set<AckId>): (rs': seq<Request>)
    ensures |rs'| == |rs|
  {
    seq(|rs|, i requires 0 <= i < |rs| => if i in ids then rs[i].(closed := true) else rs[i])
  }

  lemma CloseNone(rs: seq<Request>)
    ensures CloseSome(rs, {}) == rs
  {
  }

  lemma CloseMore(rs: seq<Request>, ids: set<AckId>, id: AckId)
    requires id < |rs|
    ensures CloseSome(rs, ids + {id}) == CloseSome(rs, ids)[id := CloseSome(rs, ids)[id].(closed := true)]
  {
  }
}
