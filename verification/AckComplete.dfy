/** When the counter of a request tells whether everybody has answered. */
module AckComplete {
  import opened Bytes
  import opened Decimals
  import opened Acks
  import opened AckProof
  import opened AckLaws

  // ----- Names -----

  lemma NamesDiffer(i: nat, j: nat)
    ensures InternalName(i) == InternalName(j) ==> i == j
  {
    if InternalName(i) == InternalName(j) {
      assert Decimal(i) == InternalName(i)[9..] && Decimal(j) == InternalName(j)[9..];
      NumberDecimal(i);
      NumberDecimal(j);
    }
  }

  lemma {:induction false} NamesCount(ids: set<nat>)
    ensures |InternalNames(ids)| == |ids|
    decreases ids
  {
    hide InternalName;
    if ids == {} {
      assert InternalNames(ids) == {};
    } else {
      var i :| i in ids;
      NamesCount(ids - {i});
      assert InternalNames(ids) == InternalNames(ids - {i}) + {InternalName(i)};
      if InternalName(i) in InternalNames(ids - {i}) {
        var j :| j in ids - {i} && InternalName(j) == InternalName(i);
        NamesDiffer(i, j);
      }
    }
  }

  /** No WebSocket client has the name of an internal subscriber. */
  predicate NoClash(clients: set<Client>, internals: set<nat>) {
    forall i :: i in internals ==> InternalName(i) !in clients
  }

  lemma ListedCount(r: Request)
    ensures |r.Listed()| <= r.Count()
    ensures |r.Listed()| == r.Count() <==> NoClash(r.clients, r.internals)
  {
    hide InternalName;
    NamesCount(r.internals);
    var names := InternalNames(r.internals);
    assert |r.clients + names| == |r.clients| + |names| - |r.clients * names|;
    if !NoClash(r.clients, r.internals) {
      var i :| i in r.internals && InternalName(i) in r.clients;
      assert InternalName(i) in r.clients * names;
    } else {
      assert r.clients * names == {};
    }
  }

  // ----- One request -----

  lemma Int32Zero(x: int)
    requires -1 <= x < INT32_RANGE - 1
    ensures Int32(x) == 0 <==> x == 0
  {
  }

  lemma CompleteMeans(r: Request)
    requires Balanced(r)
    ensures r.IsComplete() <==> r.Listed() <= Marked(r)
  {
    hide Int32, InternalNames;
    if !r.IsComplete() {
      var c :| c in r.received && !r.received[c];
      assert c !in Marked(r) && c in r.received.Keys;
    }
  }

  lemma SubsetCount(a: set<Client>, b: set<Client>)
    requires a <= b
    ensures |a| <= |b| && (|a| == |b| ==> a == b)
  {
    assert b == a + (b - a);
  }

  /** The counter is 0 exactly when IsComplete. */
  ghost predicate Tells(r: Request) {
    r.remaining == 0 <==> r.IsComplete()
  }

  lemma ListedTell(r: Request)
    requires Balanced(r) && r.Count() < INT32_RANGE
    requires Marked(r) <= r.Listed() && NoClash(r.clients, r.internals)
    ensures Tells(r)
  {
    hide NoClash, Request.Count, Request.Listed, Request.IsComplete, Marked;
    ListedCount(r);
    CompleteMeans(r);
    SubsetCount(Marked(r), r.Listed());
    CounterZero(r);
    assert r.Listed() <= Marked(r) ==> Marked(r) == r.Listed();
  }

  lemma CounterZero(r: Request)
    requires Balanced(r) && |Marked(r)| <= r.Count() + 1 <= INT32_RANGE
    ensures r.remaining == 0 <==> |Marked(r)| == r.Count()
  {
    hide Int32, Marked, Request.Count;
    if r.Count() - |Marked(r)| < INT32_RANGE - 1 {
      Int32Zero(r.Count() - |Marked(r)|);
    } else {
      LastValue();
    }
  }

  lemma LastValue()
    ensures Int32(INT32_RANGE - 1) == -1
  {
  }

  /**
   In every run, for every request to which only listed clients have answered so
   far: the counter is 0 exactly when IsComplete, if no WebSocket client has the
   name of an internal subscriber.
   */
  lemma ZeroMeansComplete(handlers: nat, waiters: nat, steps: seq<Step>, id: AckId)
    requires IsRun(Init(handlers, waiters), steps)
    requires var s := Final(Init(handlers, waiters), steps);
             id < |s.requests|
             && var r := s.requests[id];
                && r.Count() < INT32_RANGE && Marked(r) <= r.Listed() && NoClash(r.clients, r.internals)
    ensures Tells(Final(Init(handlers, waiters), steps).requests[id])
  {
    InitInv(handlers, waiters);
    RunKeeps(Init(handlers, waiters), steps);
    var s := Final(Init(handlers, waiters), steps);
    hide Inv, Final, IsRun, Init, Tells;
    BalancedRequest(s, id);
    ListedTell(s.requests[id]);
  }

  lemma BalancedRequest(s: State, id: AckId)
    requires Inv(s) && id < |s.requests|
    ensures Balanced(s.requests[id]) && (id in s.table <==> !s.requests[id].closed)
  {
    assert RequestOk(s, id);
  }

  // ----- Who answers -----

  /** All acknowledgments of id that come in are from these clients. */
  ghost predicate AnswersFrom(steps: seq<Step>, id: AckId, allowed: set<Client>) {
    forall i :: 0 <= i < |steps| && steps[i].Lookup? && steps[i].resp.ackId == id ==> steps[i].resp.client in allowed
  }

  /** So far only these clients have answered, or are about to be marked. */
  ghost predicate Only(s: State, id: AckId, allowed: set<Client>) {
    && id < |s.requests| && Marked(s.requests[id]) <= allowed
    && forall h :: 0 <= h < |s.handlers| && !s.handlers[h].Idle? && s.handlers[h].resp.ackId == id ==>
         s.handlers[h].resp.client in allowed
  }

  lemma OnlyStep(s: State, a: Step, id: AckId, allowed: set<Client>)
    requires Only(s, id, allowed) && Enabled(s, a)
    requires a.Lookup? && a.resp.ackId == id ==> a.resp.client in allowed
    ensures Only(After(s, a), id, allowed)
  {
    hide Marked, Mark, Push, Created;
    RequestMoves(s, a, id);
  }

  lemma {:induction false} OnlyRun(s: State, steps: seq<Step>, id: AckId, allowed: set<Client>)
    requires Only(s, id, allowed) && IsRun(s, steps) && AnswersFrom(steps, id, allowed)
    ensures Only(Final(s, steps), id, allowed)
    decreases |steps|
  {
    hide Only, Enabled, After;
    if steps != [] {
      OnlyStep(s, steps[0], id, allowed);
      OnlyRun(After(s, steps[0]), steps[1..], id, allowed);
    }
  }

  // ----- Runs in which given clients answer -----

  lemma {:induction false} RunAppend(s: State, steps: seq<Step>, steps': seq<Step>)
    requires IsRun(s, steps) && IsRun(Final(s, steps), steps')
    ensures IsRun(s, steps + steps') && Final(s, steps + steps') == Final(Final(s, steps), steps')
    decreases |steps|
  {
    hide Enabled, After;
    if steps == [] {
      assert steps + steps' == steps';
    } else {
      assert (steps + steps')[1..] == steps[1..] + steps';
      RunAppend(After(s, steps[0]), steps[1..], steps');
    }
  }

  /** Handler h is free and the request is in the table. */
  ghost predicate Open(s: State, h: nat, id: AckId) {
    Inv(s) && h < |s.handlers| && s.handlers[h].Idle? && id in s.table && id < |s.requests|
  }

  lemma OneAnswer(s: State, h: nat, id: AckId, c: Client) returns (steps: seq<Step>)
    requires Open(s, h, id)
    ensures IsRun(s, steps) && AnswersFrom(steps, id, {c}) && Open(Final(s, steps), h, id)
    ensures Marked(Final(s, steps).requests[id]) == Marked(s.requests[id]) + {c}
  {
    hide Inv, Marked, Mark, Push;
    var a, b, d := Lookup(h, Response(id, c, true, "")), MarkReceived(h), Send(h);
    var s1 := After(s, a);
    var s2 := After(s1, b);
    var s3 := After(s2, d);
    Keeps(s, a);
    Keeps(s1, b);
    Keeps(s2, d);
    RequestMoves(s, a, id);
    RequestMoves(s1, b, id);
    RequestMoves(s2, d, id);
    steps := [a, b, d];
    ThreeSteps(s, a, b, d);
  }

  lemma ThreeSteps(s: State, a: Step, b: Step, d: Step)
    requires Enabled(s, a) && Enabled(After(s, a), b) && Enabled(After(After(s, a), b), d)
    ensures IsRun(s, [a, b, d]) && Final(s, [a, b, d]) == After(After(After(s, a), b), d)
  {
    hide Enabled, After;
    assert [a, b, d][1..] == [b, d] && [b, d][1..] == [d] && [d][1..] == [];
    var s1 := After(s, a);
    var s2 := After(s1, b);
    assert IsRun(After(s2, d), []) && Final(After(s2, d), []) == After(s2, d);
    assert IsRun(s2, [d]) && Final(s2, [d]) == After(s2, d);
    assert IsRun(s1, [b, d]) && Final(s1, [b, d]) == After(s2, d);
  }

  lemma {:induction false} Answers(s: State, h: nat, id: AckId, names: set<Client>) returns (steps: seq<Step>)
    requires Open(s, h, id)
    ensures IsRun(s, steps) && AnswersFrom(steps, id, names) && Open(Final(s, steps), h, id)
    ensures Marked(Final(s, steps).requests[id]) == Marked(s.requests[id]) + names
    decreases names
  {
    hide Inv, Marked, Enabled, After;
    if names == {} {
      steps := [];
    } else {
      var c :| c in names;
      var first := OneAnswer(s, h, id, c);
      var s1 := Final(s, first);
      var more := Answers(s1, h, id, names - {c});
      RunAppend(s, first, more);
      steps := first + more;
      assert {c} + (names - {c}) == names;
    }
  }

  /** Whatever the run, the counter of request id tells whether everybody has answered. */
  ghost predicate AlwaysTells(s: State, id: AckId, allowed: set<Client>) {
    forall steps :: IsRun(s, steps) && AnswersFrom(steps, id, allowed) ==>
      id < |Final(s, steps).requests| && Tells(Final(s, steps).requests[id])
  }

  lemma AllowedTell(s: State, id: AckId, allowed: set<Client>)
    requires Inv(s) && Only(s, id, allowed)
    requires var r := s.requests[id];
             allowed <= r.Listed() && NoClash(r.clients, r.internals) && r.Count() < INT32_RANGE
    ensures AlwaysTells(s, id, allowed)
  {
    hide Inv, NoClash, Tells, Marked, IsRun, Final, AnswersFrom;
    forall steps | IsRun(s, steps) && AnswersFrom(steps, id, allowed)
      ensures id < |Final(s, steps).requests| && Tells(Final(s, steps).requests[id])
    {
      OnlyRun(s, steps, id, allowed);
      RunKeeps(s, steps);
      MarksStay(s, steps, id);
      BalancedRequest(Final(s, steps), id);
      ListedTell(Final(s, steps).requests[id]);
    }
  }

  /** A set of clients after whose answers the counter is wrong. */
  lemma Misleading(r: Request, allowed: set<Client>) returns (names: set<Client>)
    requires r.Listed() <= allowed && r.Count() < INT32_RANGE
    requires !(NoClash(r.clients, r.internals) && allowed <= r.Listed())
    ensures names <= allowed && |names| <= r.Count() + 1
    ensures !(|names| == r.Count() <==> r.Listed() <= names)
  {
    hide NoClash, Request.Count, Request.Listed;
    ListedCount(r);
    var listed := r.Listed();
    if !NoClash(r.clients, r.internals) {
      names := listed;
    } else {
      assert exists o :: o in allowed && o !in listed;
      var o :| o in allowed && o !in listed;
      if listed == {} {
        names := {o};
      } else {
        var l :| l in listed;
        names := listed - {l} + {o};
        assert l !in names;
      }
    }
  }

  lemma WrongAfter(s: State, h: nat, id: AckId, allowed: set<Client>)
    requires Open(s, h, id) && Marked(s.requests[id]) == {}
    requires var r := s.requests[id];
             && r.Listed() <= allowed && r.Count() < INT32_RANGE
             && !(NoClash(r.clients, r.internals) && allowed <= r.Listed())
    ensures !AlwaysTells(s, id, allowed)
  {
    hide Inv, NoClash, Marked, Request.Count, Request.Listed, Request.IsComplete, IsRun, Final;
    var r := s.requests[id];
    var names := Misleading(r, allowed);
    var steps := Answers(s, h, id, names);
    MarksStay(s, steps, id);
    var r' := Final(s, steps).requests[id];
    SameNames(r, r');
    BalancedRequest(Final(s, steps), id);
    assert {} + names == names;
    CounterZero(r');
    CompleteMeans(r');
    assert AnswersFrom(steps, id, allowed);
    assert !Tells(r');
  }

  lemma SameNames(r: Request, r': Request)
    requires r'.clients == r.clients && r'.internals == r.internals
    ensures r'.Listed() == r.Listed() && r'.Count() == r.Count()
  {
  }

  /**
   A request is published, at any moment of any run, and from then on it is
   acknowledged by the clients it lists and by `others`. Its counter is 0 exactly
   when IsComplete, in every state of every run that can follow, if and only if no
   WebSocket client has the name of an internal subscriber and all others are listed.
   */
  lemma ZeroTellsExactly(s: State, h: nat, clients: set<Client>, internals: set<nat>, others: set<Client>)
    requires Inv(s) && h < |s.handlers| && s.handlers[h].Idle?
    requires |clients| + |internals| < INT32_RANGE
    ensures var id, listed := |s.requests|, clients + InternalNames(internals);
            (AlwaysTells(After(s, Publish(clients, internals)), id, listed + others)
             <==> NoClash(clients, internals) && others <= listed)
  {
    var id, listed := |s.requests|, clients + InternalNames(internals);
    var a := Publish(clients, internals);
    var s1 := After(s, a);
    var r := s1.requests[id];
    CreatedBalanced(clients, internals);
    Keeps(s, a);
    FreshRequest(s, clients, internals, listed + others);
    hide Inv, NoClash, InternalNames, Marked, AlwaysTells, Created, Enabled, After;
    if NoClash(clients, internals) && others <= listed {
      assert listed + others == listed;
      AllowedTell(s1, id, listed + others);
    } else {
      WrongAfter(s1, h, id, listed + others);
    }
  }

  lemma FreshRequest(s: State, clients: set<Client>, internals: set<nat>, allowed: set<Client>)
    requires Inv(s)
    ensures var s1 := After(s, Publish(clients, internals));
            && Only(s1, |s.requests|, allowed) && |s.requests| in s1.table
            && s1.requests[|s.requests|] == Created(clients, internals) && s1.handlers == s.handlers
  {
    CreatedBalanced(clients, internals);
    hide Created;
    forall h | 0 <= h < |s.handlers| && !s.handlers[h].Idle?
      ensures s.handlers[h].resp.ackId < |s.requests|
    {
      assert HandlerOk(s, s.handlers[h]);
    }
  }
}
