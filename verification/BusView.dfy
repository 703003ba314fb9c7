/**
 Who is connected and who is subscribed to what, as plain values: the meaning of
 the two WebSocket indices of ksps/bus.go, and what runs of their operations do.
 */
module BusView {
  import opened Options

  type Client = string
  type Topic = string

  /** A socket is known by a number. */
  type Socket = nat

  datatype View = View(sockets: map<Client, Socket>, subs: set<(Client, Topic)>)

  datatype Call =
    | Register(c: Client, s: Socket)
    | Subscribe(c: Client, t: Topic, s: Socket)
    | Unsubscribe(c: Client, t: Topic)
    | UnsubscribeTopic(t: Topic)
    | Cleanup(c: Client, failed: Option<Socket>)

  /** A cleanup is for the socket that failed; None stands for whatever the client has. */
  predicate Current(v: View, c: Client, failed: Option<Socket>) {
    c in v.sockets && (failed.None? || failed.value == v.sockets[c])
  }

  function After(v: View, call: Call): View {
    match call
    case Register(c, s) => v.(sockets := v.sockets[c := s])
    case Subscribe(c, t, s) => View(v.sockets[c := s], v.subs + {(c, t)})
    case Unsubscribe(c, t) => v.(subs := v.subs - {(c, t)})
    case UnsubscribeTopic(t) => v.(subs := set p | p in v.subs && p.1 != t)
    case Cleanup(c, failed) =>
      if Current(v, c, failed) then View(v.sockets - {c}, set p | p in v.subs && p.0 != c) else v
  }

  const EMPTY: View := View(map[], {})

  function Run(calls: seq<Call>): View {
    if calls == [] then EMPTY else After(Run(calls[..|calls| - 1]), calls[|calls| - 1])
  }

  // ----- Runs -----

  /** Only connected clients are subscribed. */
  lemma {:induction false} SubscribedAreConnected(calls: seq<Call>)
    ensures forall p :: p in Run(calls).subs ==> p.0 in Run(calls).sockets
  {
    if calls != [] {
      SubscribedAreConnected(calls[..|calls| - 1]);
    }
  }

  /** This call connects c, through socket s. */
  predicate Connects(call: Call, c: Client, s: Socket) {
    (call.Register? || call.Subscribe?) && call.c == c && call.s == s
  }

  /** This call leaves c connected through s, if it is: it does not connect it anew, and is no cleanup of it for s or for any socket. */
  predicate Leaves(call: Call, c: Client, s: Socket) {
    match call
    case Register(c', _) => c' != c
    case Subscribe(c', _, _) => c' != c
    case Cleanup(c', failed) => c' != c || (failed.Some? && failed.value != s)
    case _ => true
  }

  /** The i-th call connected c through s, and every later one leaves it so. */
  ghost predicate Has(calls: seq<Call>, i: nat, c: Client, s: Socket)
    requires i < |calls|
  {
    Connects(calls[i], c, s) && forall j :: i < j < |calls| ==> Leaves(calls[j], c, s)
  }

  lemma HasLonger(calls: seq<Call>, i: nat, c: Client, s: Socket)
    requires i < |calls| - 1
    ensures Has(calls, i, c, s) <==> Has(calls[..|calls| - 1], i, c, s) && Leaves(calls[|calls| - 1], c, s)
  {
  }

  /** In every run: a client has a socket exactly if some call connected it so and none since has changed that. */
  lemma {:induction false} ConnectedExactly(calls: seq<Call>, c: Client, s: Socket)
    ensures c in Run(calls).sockets && Run(calls).sockets[c] == s <==> exists i :: 0 <= i < |calls| && Has(calls, i, c, s)
  {
    if calls != [] {
      var n := |calls| - 1;
      var front, last := calls[..n], calls[n];
      ConnectedExactly(front, c, s);
      forall i | 0 <= i < n
        ensures Has(calls, i, c, s) <==> Has(front, i, c, s) && Leaves(last, c, s)
      {
        HasLonger(calls, i, c, s);
      }
      if Connects(last, c, s) {
        assert Has(calls, n, c, s);
      } else if c in Run(calls).sockets && Run(calls).sockets[c] == s {
        var i :| 0 <= i < |front| && Has(front, i, c, s);
        assert Has(calls, i, c, s);
      }
    }
  }

  /**
   A cleanup for the socket s of c disconnects c and ends all its subscriptions, and
   no others, exactly if c was connected through s last and nothing has ended that
   since; otherwise it changes nothing.
   */
  lemma CleanupExactly(calls: seq<Call>, c: Client, s: Socket)
    ensures var v, v' := Run(calls), Run(calls + [Cleanup(c, Some(s))]);
            && (if exists i :: 0 <= i < |calls| && Has(calls, i, c, s) then
                  && c !in v'.sockets && v'.sockets == v.sockets - {c}
                  && (forall t :: (c, t) !in v'.subs)
                  && (forall c', t :: c' != c ==> ((c', t) in v'.subs <==> (c', t) in v.subs))
                else v' == v)
  {
    ConnectedExactly(calls, c, s);
    assert (calls + [Cleanup(c, Some(s))])[..|calls|] == calls;
  }

  /** A cleanup for whatever socket c has disconnects c and ends its subscriptions. */
  lemma CleanupOfAny(calls: seq<Call>, c: Client)
    ensures var v, v' := Run(calls), Run(calls + [Cleanup(c, None)]);
            && v'.sockets == v.sockets - {c}
            && (forall c', t :: (c', t) in v'.subs <==> c' != c && (c', t) in v.subs)
  {
    SubscribedAreConnected(calls);
    assert (calls + [Cleanup(c, None)])[..|calls|] == calls;
    forall t
      ensures c !in Run(calls).sockets ==> (c, t) !in Run(calls).subs
    {
      assert (c, t) in Run(calls).subs ==> (c, t).0 in Run(calls).sockets;
    }
  }

  /** This call, after those before it, ends the subscription of c to t. */
  ghost predicate Ends(before: seq<Call>, call: Call, c: Client, t: Topic) {
    match call
    case Unsubscribe(c', t') => c' == c && t' == t
    case UnsubscribeTopic(t') => t' == t
    case Cleanup(c', failed) => c' == c && (failed.None? || exists i :: 0 <= i < |before| && Has(before, i, c, failed.value))
    case _ => false
  }

  /** The i-th call subscribes c to t, and no later call ends that. */
  ghost predicate Lasts(calls: seq<Call>, i: nat, c: Client, t: Topic)
    requires i < |calls|
  {
    && calls[i].Subscribe? && calls[i].c == c && calls[i].t == t
    && forall j :: i < j < |calls| ==> !Ends(calls[..j], calls[j], c, t)
  }

  /** In every run: a client is subscribed exactly if some call subscribed it and none since has ended that. */
  lemma {:induction false} SubscribedExactly(calls: seq<Call>, c: Client, t: Topic)
    ensures (c, t) in Run(calls).subs <==> exists i :: 0 <= i < |calls| && Lasts(calls, i, c, t)
  {
    if calls != [] {
      var n := |calls| - 1;
      var front, last := calls[..n], calls[n];
      SubscribedExactly(front, c, t);
      SubscribedAreConnected(front);
      if last.Cleanup? && last.failed.Some? {
        ConnectedExactly(front, c, last.failed.value);
      }
      forall i | 0 <= i < n
        ensures Lasts(calls, i, c, t) <==> Lasts(front, i, c, t) && !Ends(front, last, c, t)
      {
        LastsLonger(calls, i, c, t);
      }
      if last.Subscribe? && last.c == c && last.t == t {
        assert Lasts(calls, n, c, t);
      } else if (c, t) in Run(calls).subs {
        var i :| 0 <= i < |front| && Lasts(front, i, c, t);
        assert Lasts(calls, i, c, t);
      }
    }
  }

  lemma LastsLonger(calls: seq<Call>, i: nat, c: Client, t: Topic)
    requires i < |calls| - 1
    ensures Lasts(calls, i, c, t) <==>
            Lasts(calls[..|calls| - 1], i, c, t) && !Ends(calls[..|calls| - 1], calls[|calls| - 1], c, t)
  {
    hide Ends;
    var front := calls[..|calls| - 1];
    forall j | i < j < |front|
      ensures front[..j] == calls[..j] && front[j] == calls[j]
    {
    }
  }

  /** Once c was connected through another socket, it never has this one again, unless a call connects it so. */
  lemma {:induction false} LeftSocket(calls: seq<Call>, i: nat, c: Client, former: Socket)
    requires i < |calls| && (calls[i].Register? || calls[i].Subscribe?) && calls[i].c == c
    requires forall j :: i <= j < |calls| ==> !Connects(calls[j], c, former)
    ensures c in Run(calls).sockets ==> Run(calls).sockets[c] != former
  {
    if i < |calls| - 1 {
      LeftSocket(calls[..|calls| - 1], i, c, former);
    }
  }

  /**
   After a reconnect the cleanup for the former socket changes nothing: whatever
   was called before, and whatever comes in between, other cleanups of the client
   and further reconnects included, as long as none goes back to that socket.
   */
  lemma StaleCleanup(calls: seq<Call>, i: nat, c: Client, former: Socket)
    requires i < |calls| && (calls[i].Register? || calls[i].Subscribe?) && calls[i].c == c
    requires forall j :: i <= j < |calls| ==> !Connects(calls[j], c, former)
    ensures Run(calls + [Cleanup(c, Some(former))]) == Run(calls)
  {
    LeftSocket(calls, i, c, former);
    assert (calls + [Cleanup(c, Some(former))])[..|calls|] == calls;
  }
}
