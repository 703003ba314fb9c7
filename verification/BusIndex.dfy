/**
 The two WebSocket indices of ksps/bus.go: topics to connections and clients to
 topics, updated in place. Each operation of the bus is one atomic step; the
 methods it is made of are the sections it runs under one lock.
 */
module BusIndex {
  import opened Options
  import opened BusView

  /** The fields of a wsConnection, and the object they belong to. */
  datatype ConnLook = ConnLook(self: Connection, id: Client, socket: Socket, topics: set<Topic>, active: bool)

  /** The fields of a wsTopicData; name is the topic it was made for. */
  datatype TopicLook = TopicLook(name: Topic, connections: map<Client, Connection>, active: bool)

  class Connection {
    const id: Client
    var socket: Socket
    var topics: set<Topic>
    var active: bool

    constructor (id: Client, socket: Socket)
      ensures Look() == ConnLook(this, id, socket, {}, true)
    {
      this.id, this.socket, topics, active := id, socket, {}, true;
    }

    ghost function Look(): ConnLook
      reads this
    {
      ConnLook(this, id, socket, topics, active)
    }
  }

  class TopicData {
    ghost const name: Topic
    var connections: map<Client, Connection>
    var active: bool

    constructor (ghost name: Topic)
      ensures Look() == TopicLook(name, map[], true)
    {
      this.name, connections, active := name, map[], true;
    }

    ghost function Look(): TopicLook
      reads this
    {
      TopicLook(name, connections, active)
    }
  }

  type Conns = map<Client, ConnLook>
  type Topics = map<Topic, TopicLook>

  /** A client's topics are the topics that have the client, as the same connection; nobody is inactive. */
  ghost predicate ClientFits(conns: Conns, topics: Topics, c: Client)
    requires c in conns
  {
    conns[c].active && forall t :: t in conns[c].topics ==> t in topics && c in topics[t].connections
  }

  ghost predicate TopicFits(conns: Conns, topics: Topics, t: Topic)
    requires t in topics
  {
    && topics[t].active
    && forall c :: c in topics[t].connections ==>
         c in conns && topics[t].connections[c] == conns[c].self && t in conns[c].topics
  }

  ghost predicate Inverse(conns: Conns, topics: Topics) {
    && (forall c {:trigger ClientFits(conns, topics, c)} :: c in conns ==> ClientFits(conns, topics, c))
    && (forall t {:trigger TopicFits(conns, topics, t)} :: t in topics ==> TopicFits(conns, topics, t))
  }

  ghost predicate NoneEmpty(topics: Topics) {
    forall t :: t in topics ==> topics[t].connections != map[]
  }

  /** As NoneEmpty, but t may be empty. */
  ghost predicate NoneEmptyBut(topics: Topics, t: Topic) {
    forall t' :: t' in topics && t' != t ==> topics[t'].connections != map[]
  }

  ghost function Subscriptions(conns: Conns): set<(Client, Topic)> {
    set c, t | c in conns && t in conns[c].topics :: (c, t)
  }

  ghost function ViewOf(conns: Conns): View {
    View(map c | c in conns :: conns[c].socket, Subscriptions(conns))
  }

  // ----- Why the indices stay inverse -----

  /** The connections c has changed, but not which topics it is in. */
  lemma SocketSet(conns: Conns, topics: Topics, c: Client, look: ConnLook)
    requires Inverse(conns, topics) && look.active && look.id == c
    requires if c in conns then look.self == conns[c].self && look.topics == conns[c].topics else look.topics == {}
    ensures Inverse(conns[c := look], topics)
    ensures ViewOf(conns[c := look]) == After(ViewOf(conns), Call.Register(c, look.socket))
  {
    var conns' := conns[c := look];
    forall c' | c' in conns'
      ensures ClientFits(conns', topics, c')
    {
      assert c' in conns ==> ClientFits(conns, topics, c');
    }
    forall t | t in topics
      ensures TopicFits(conns', topics, t)
    {
      assert TopicFits(conns, topics, t);
    }
    assert Subscriptions(conns') == Subscriptions(conns);
  }

  lemma ActiveClient(conns: Conns, topics: Topics, c: Client)
    requires Inverse(conns, topics) && c in conns
    ensures conns[c].active
  {
    assert ClientFits(conns, topics, c);
  }

  lemma TopicAdded(conns: Conns, topics: Topics, t: Topic)
    requires Inverse(conns, topics)
    ensures t in topics || Inverse(conns, topics[t := TopicLook(t, map[], true)])
    ensures NoneEmpty(topics) ==> NoneEmptyBut(topics, t) && NoneEmptyBut(topics[t := TopicLook(t, map[], true)], t)
  {
    var topics' := topics[t := TopicLook(t, map[], true)];
    forall c | c in conns && t !in topics
      ensures ClientFits(conns, topics', c)
    {
      assert ClientFits(conns, topics, c);
    }
    forall t' | t' in topics' && t !in topics
      ensures TopicFits(conns, topics', t')
    {
      assert t' != t ==> TopicFits(conns, topics, t');
    }
  }

  /** The client gets the topic and the topic the client. */
  lemma Link(conns: Conns, topics: Topics, c: Client, t: Topic)
    requires Inverse(conns, topics) && c in conns && t in topics
    ensures var conns' := conns[c := conns[c].(topics := conns[c].topics + {t})];
            var topics' := topics[t := topics[t].(connections := topics[t].connections[c := conns[c].self])];
            && Inverse(conns', topics')
            && (NoneEmptyBut(topics, t) ==> NoneEmpty(topics'))
            && ViewOf(conns') == ViewOf(conns).(subs := ViewOf(conns).subs + {(c, t)})
  {
    var conns' := conns[c := conns[c].(topics := conns[c].topics + {t})];
    var topics' := topics[t := topics[t].(connections := topics[t].connections[c := conns[c].self])];
    assert c in topics'[t].connections;
    forall c' | c' in conns'
      ensures ClientFits(conns', topics', c')
    {
      assert ClientFits(conns, topics, c');
    }
    forall t' | t' in topics'
      ensures TopicFits(conns', topics', t')
    {
      assert TopicFits(conns, topics, t');
    }
    assert Subscriptions(conns') == Subscriptions(conns) + {(c, t)};
  }

  /** What is left of a topic without some of its clients; an emptied topic goes. */
  ghost function Without(topics: Topics, c: Client, ts: set<Topic>): Topics {
    map t | t in topics && !(t in ts && topics[t].connections - {c} == map[])
      :: if t in ts then topics[t].(connections := topics[t].connections - {c}) else topics[t]
  }

  /** The client loses the topic and the topic the client. */
  lemma Unlink(conns: Conns, topics: Topics, c: Client, t: Topic)
    requires Inverse(conns, topics) && NoneEmpty(topics)
    ensures var conns' := if c in conns then conns[c := conns[c].(topics := conns[c].topics - {t})] else conns;
            && Inverse(conns', Without(topics, c, {t})) && NoneEmpty(Without(topics, c, {t}))
            && ViewOf(conns') == After(ViewOf(conns), Call.Unsubscribe(c, t))
  {
    var conns' := if c in conns then conns[c := conns[c].(topics := conns[c].topics - {t})] else conns;
    var topics' := Without(topics, c, {t});
    forall c' | c' in conns'
      ensures ClientFits(conns', topics', c')
    {
      assert ClientFits(conns, topics, c');
      if t in topics && c' in topics[t].connections && c' != c {
        assert c' in topics[t].connections - {c};
      }
    }
    forall t' | t' in topics'
      ensures TopicFits(conns', topics', t')
    {
      assert TopicFits(conns, topics, t');
    }
    assert Subscriptions(conns') == Subscriptions(conns) - {(c, t)};
  }

  /** A topic unknown to the bus has no subscribers. */
  lemma NoTopic(conns: Conns, topics: Topics, t: Topic)
    requires Inverse(conns, topics) && t !in topics
    ensures forall c :: (c, t) !in Subscriptions(conns)
  {
    forall c | c in conns
      ensures t !in conns[c].topics
    {
      assert ClientFits(conns, topics, c);
    }
  }

  lemma NothingToEnd(conns: Conns, topics: Topics, c: Client, t: Topic)
    requires Inverse(conns, topics) && t !in topics
    ensures After(ViewOf(conns), Call.Unsubscribe(c, t)) == ViewOf(conns)
    ensures After(ViewOf(conns), Call.UnsubscribeTopic(t)) == ViewOf(conns)
  {
    NoTopic(conns, topics, t);
  }

  /** The clients cs without the topic. */
  ghost function Freed(conns: Conns, t: Topic, cs: set<Client>): Conns {
    map c | c in conns :: if c in cs then conns[c].(topics := conns[c].topics - {t}) else conns[c]
  }

  lemma FreedMore(conns: Conns, t: Topic, cs: set<Client>, c: Client)
    requires c in conns && c !in cs
    ensures var conns' := Freed(conns, t, cs);
            && c in conns' && conns'[c].self == conns[c].self
            && conns'[c := conns'[c].(topics := conns'[c].topics - {t})] == Freed(conns, t, cs + {c})
  {
  }

  lemma FreedNone(conns: Conns, t: Topic)
    ensures Freed(conns, t, {}) == conns
  {
  }

  lemma TopicMembers(conns: Conns, topics: Topics, t: Topic)
    requires Inverse(conns, topics) && t in topics
    ensures forall c {:trigger topics[t].connections[c]} :: c in topics[t].connections ==>
              c in conns && topics[t].connections[c] == conns[c].self
  {
    assert TopicFits(conns, topics, t);
  }

  lemma FreeAll(conns: Conns, topics: Topics, t: Topic)
    requires Inverse(conns, topics) && NoneEmpty(topics) && t in topics
    ensures var conns' := Freed(conns, t, topics[t].connections.Keys);
            && Inverse(conns', topics - {t}) && NoneEmpty(topics - {t})
            && ViewOf(conns') == After(ViewOf(conns), Call.UnsubscribeTopic(t))
  {
    var conns' := Freed(conns, t, topics[t].connections.Keys);
    forall c | c in conns'
      ensures ClientFits(conns', topics - {t}, c) && t !in conns'[c].topics
    {
      assert ClientFits(conns, topics, c);
    }
    forall t' | t' in topics - {t}
      ensures TopicFits(conns', topics - {t}, t')
    {
      assert TopicFits(conns, topics, t');
    }
    assert Subscriptions(conns') == After(ViewOf(conns), Call.UnsubscribeTopic(t)).subs;
  }

  lemma WithoutMore(topics: Topics, c: Client, ts: set<Topic>, t: Topic)
    requires t !in ts
    ensures Without(Without(topics, c, ts), c, {t}) == Without(topics, c, ts + {t})
  {
  }

  lemma WithoutNone(topics: Topics, c: Client)
    ensures Without(topics, c, {}) == topics
  {
  }

  lemma LeaveAll(conns: Conns, topics: Topics, c: Client)
    requires Inverse(conns, topics) && NoneEmpty(topics) && c in conns
    ensures var topics' := Without(topics, c, conns[c].topics);
            && Inverse(conns - {c}, topics') && NoneEmpty(topics')
            && ViewOf(conns - {c}) == After(ViewOf(conns), Call.Cleanup(c, None))
  {
    var topics' := Without(topics, c, conns[c].topics);
    forall c' | c' in conns - {c}
      ensures ClientFits(conns - {c}, topics', c')
    {
      assert ClientFits(conns, topics, c');
      forall t | t in conns[c'].topics
        ensures t in topics' && c' in topics'[t].connections
      {
        assert c' in topics[t].connections - {c};
      }
    }
    forall t | t in topics'
      ensures TopicFits(conns - {c}, topics', t)
    {
      assert TopicFits(conns, topics, t);
    }
    assert Subscriptions(conns - {c}) == After(ViewOf(conns), Call.Cleanup(c, None)).subs;
    assert ViewOf(conns - {c}).sockets == ViewOf(conns).sockets - {c};
  }

  class Bus {
    var wsSubscribers: map<Topic, TopicData>
    var wsConns: map<Client, Connection>
    /** What the two maps hold. */
    ghost var conns: Conns
    ghost var topics: Topics
    ghost var connObjects: set<Connection>
    ghost var topicObjects: set<TopicData>

    ghost predicate HoldsConns()
      reads this`wsConns, this`conns, this`connObjects, connObjects
    {
      && wsConns.Keys == conns.Keys
      && forall c {:trigger wsConns[c]} :: c in wsConns ==>
           wsConns[c] in connObjects && wsConns[c].Look() == conns[c] && conns[c].id == c
    }

    ghost predicate HoldsTopics()
      reads this`wsSubscribers, this`topics, this`topicObjects, topicObjects
    {
      && wsSubscribers.Keys == topics.Keys
      && forall t {:trigger wsSubscribers[t]} :: t in wsSubscribers ==>
           wsSubscribers[t] in topicObjects && wsSubscribers[t].Look() == topics[t] && topics[t].name == t
    }

    ghost predicate Holds()
      reads this, connObjects, topicObjects
    {
      HoldsConns() && HoldsTopics()
    }

    /** The indices are inverse to each other, and no topic entry is empty. */
    ghost predicate Valid()
      reads this, connObjects, topicObjects
    {
      Holds() && Inverse(conns, topics) && NoneEmpty(topics)
    }

    ghost function Look(): View
      reads this
    {
      ViewOf(conns)
    }

    constructor ()
      ensures Valid() && Look() == EMPTY
      ensures fresh(connObjects) && fresh(topicObjects)
    {
      wsSubscribers, wsConns, conns, topics, connObjects, topicObjects := map[], map[], map[], map[], {}, {};
    }

    lemma ConnHeld(c: Client)
      requires HoldsConns()
      ensures c in wsConns <==> c in conns
      ensures c in wsConns ==> wsConns[c] in connObjects && wsConns[c].Look() == conns[c] && conns[c].id == c
    {
      assert c in wsConns.Keys <==> c in conns.Keys;
    }

    lemma TopicHeld(t: Topic)
      requires HoldsTopics()
      ensures t in wsSubscribers <==> t in topics
      ensures t in wsSubscribers ==> wsSubscribers[t] in topicObjects && wsSubscribers[t].Look() == topics[t]
    {
      assert t in wsSubscribers.Keys <==> t in topics.Keys;
    }

    // ----- Sections under one lock -----

    method EnsureTopic(t: Topic) returns (d: TopicData)
      requires Holds()
      modifies this`wsSubscribers, this`topics, this`topicObjects
      ensures Holds() && t in wsSubscribers && wsSubscribers[t] == d && d in topicObjects
      ensures topics == if t in old(topics) then old(topics) else old(topics)[t := TopicLook(t, map[], true)]
      ensures old(topicObjects) <= topicObjects && fresh(topicObjects - old(topicObjects))
    {
      hide HoldsConns;
      if t in wsSubscribers {
        return wsSubscribers[t];
      }
      d := new TopicData(t);
      wsSubscribers := wsSubscribers[t := d];
      topics, topicObjects := topics[t := TopicLook(t, map[], true)], topicObjects + {d};
    }

    method SetConnections(d: TopicData, ghost t: Topic, connections: map<Client, Connection>)
      requires Holds() && t in wsSubscribers && wsSubscribers[t] == d
      modifies d, this`topics
      ensures Holds()
      ensures topics == old(topics)[t := old(topics)[t].(connections := connections)]
    {
      hide HoldsConns;
      d.connections := connections;
      topics := topics[t := topics[t].(connections := connections)];
    }

    method SetTopics(conn: Connection, ghost c: Client, ts: set<Topic>)
      requires Holds() && c in wsConns && wsConns[c] == conn
      modifies conn, this`conns
      ensures Holds()
      ensures conns == old(conns)[c := old(conns)[c].(topics := ts)]
    {
      hide HoldsTopics;
      conn.topics := ts;
      conns := conns[c := conns[c].(topics := ts)];
    }

    method DropIfEmpty(t: Topic)
      requires Holds()
      modifies this`wsSubscribers, this`topics, topicObjects
      ensures Holds()
      ensures topics == if t in old(topics) && old(topics)[t].connections == map[] then old(topics) - {t} else old(topics)
    {
      hide HoldsConns;
      if t in wsSubscribers && wsSubscribers[t].connections == map[] {
        wsSubscribers[t].active := false;
        wsSubscribers, topics := wsSubscribers - {t}, topics - {t};
      }
    }

    method AddClient(c: Client, s: Socket) returns (conn: Connection)
      requires Holds() && c !in wsConns
      modifies this`wsConns, this`conns, this`connObjects
      ensures Holds() && c in wsConns && wsConns[c] == conn && conn in connObjects
      ensures conns == old(conns)[c := ConnLook(conn, c, s, {}, true)]
      ensures old(connObjects) <= connObjects && fresh(connObjects - old(connObjects))
    {
      hide HoldsTopics;
      conn := new Connection(c, s);
      wsConns := wsConns[c := conn];
      conns, connObjects := conns[c := ConnLook(conn, c, s, {}, true)], connObjects + {conn};
    }

    method Reconnect(c: Client, s: Socket)
      requires Holds() && c in wsConns
      modifies wsConns[c], this`conns
      ensures Holds()
      ensures conns == old(conns)[c := old(conns)[c].(socket := s, active := true)]
    {
      hide HoldsTopics;
      var conn := wsConns[c];
      conn.socket := s;
      if !conn.active {
        conn.active := true;
      }
      conns := conns[c := conns[c].(socket := s, active := true)];
    }

    // ----- The operations -----

    /** registerWebSocket; a topic that is being subscribed to may be empty still. */
    method Register(c: Client, s: Socket) returns (conn: Connection)
      requires Holds() && Inverse(conns, topics)
      modifies this`wsConns, this`conns, this`connObjects, connObjects
      ensures Holds() && Inverse(conns, topics)
      ensures c in wsConns && wsConns[c] == conn && (c in old(wsConns) ==> conn == old(wsConns[c])) && conn in connObjects
      ensures Look() == After(old(Look()), Call.Register(c, s))
      ensures old(connObjects) <= connObjects && fresh(connObjects - old(connObjects))
    {
      hide HoldsTopics, Inverse, ViewOf, After;
      if c !in wsConns {
        conn := AddClient(c, s);
        SocketSet(old(conns), topics, c, conns[c]);
      } else {
        conn := wsConns[c];
        ActiveClient(conns, topics, c);
        if conn.socket != s {
          Reconnect(c, s);
        }
        SocketSet(old(conns), topics, c, conns[c]);
        assert conns == old(conns)[c := conns[c]];
      }
    }

    /** subscribeWebSocket */
    method Subscribe(c: Client, t: Topic, s: Socket)
      requires Valid()
      modifies this, connObjects, topicObjects
      ensures Valid() && Look() == After(old(Look()), Call.Subscribe(c, t, s))
      ensures c in old(wsConns) ==> wsConns[c] == old(wsConns[c])
      ensures old(connObjects) <= connObjects && fresh(connObjects - old(connObjects))
      ensures old(topicObjects) <= topicObjects && fresh(topicObjects - old(topicObjects))
    {
      hide HoldsConns, HoldsTopics, Inverse, NoneEmpty, NoneEmptyBut, ViewOf;
      var d := EnsureTopic(t);
      TopicAdded(conns, old(topics), t);
      var conn := Register(c, s);
      Join(conn, d, c, t);
    }

    /** The client is entered into the topic, and the topic into the client. */
    method Join(conn: Connection, d: TopicData, c: Client, t: Topic)
      requires Holds() && Inverse(conns, topics) && NoneEmptyBut(topics, t)
      requires c in wsConns && wsConns[c] == conn && t in wsSubscribers && wsSubscribers[t] == d
      modifies this`conns, this`topics, conn, d
      ensures Valid() && Look() == old(Look()).(subs := old(Look()).subs + {(c, t)})
    {
      hide Inverse, NoneEmpty, NoneEmptyBut, ViewOf, HoldsConns, HoldsTopics;
      ghost var conns1, topics1 := conns, topics;
      ConnHeld(c);
      TopicHeld(t);
      SetConnections(d, t, d.connections[c := conn]);
      SetTopics(conn, c, conn.topics + {t});
      Link(conns1, topics1, c, t);
    }

    method DropTopic(t: Topic) returns (connections: map<Client, Connection>)
      requires Holds() && t in wsSubscribers
      modifies this`wsSubscribers, this`topics, topicObjects
      ensures Holds() && topics == old(topics) - {t} && connections == old(topics)[t].connections
    {
      hide HoldsConns;
      var d := wsSubscribers[t];
      connections := d.connections;
      d.active := false;
      wsSubscribers, topics := wsSubscribers - {t}, topics - {t};
    }

    method FreeTopic(connections: map<Client, Connection>, t: Topic)
      requires Holds()
      requires forall c {:trigger connections[c]} :: c in connections ==> c in conns && connections[c] == conns[c].self
      modifies this`conns, connObjects
      ensures Holds() && conns == Freed(old(conns), t, connections.Keys)
    {
      hide HoldsTopics, HoldsConns, Freed;
      var left := connections.Keys;
      FreedNone(conns, t);
      assert connections.Keys - left == {};
      while left != {}
        invariant Holds() && left <= connections.Keys
        invariant conns == Freed(old(conns), t, connections.Keys - left)
        decreases left
      {
        var c :| c in left;
        var conn := connections[c];
        FreedMore(old(conns), t, connections.Keys - left, c);
        ConnHeld(c);
        SetTopics(conn, c, conn.topics - {t});
        assert connections.Keys - left + {c} == connections.Keys - (left - {c});
        left := left - {c};
      }
      assert connections.Keys - {} == connections.Keys;
    }

    /** A client leaves a topic, and the topic goes if it was the last. */
    method LeaveTopic(c: Client, t: Topic)
      requires Holds()
      modifies this`wsSubscribers, this`topics, topicObjects
      ensures Holds() && topics == Without(old(topics), c, {t})
    {
      hide HoldsConns, HoldsTopics;
      TopicHeld(t);
      if t in wsSubscribers {
        var d := wsSubscribers[t];
        SetConnections(d, t, d.connections - {c});
        TopicHeld(t);
        var isEmpty := d.connections == map[];
        if isEmpty {
          DropIfEmpty(t);
        }
      }
    }

    /** unsubscribeWebSocket */
    method Unsubscribe(c: Client, t: Topic)
      requires Valid()
      modifies this, connObjects, topicObjects
      ensures Valid() && Look() == After(old(Look()), Call.Unsubscribe(c, t))
      ensures wsConns == old(wsConns) && connObjects == old(connObjects) && topicObjects == old(topicObjects)
    {
      hide Inverse, NoneEmpty, ViewOf, After, Without, HoldsConns, HoldsTopics;
      TopicHeld(t);
      ConnHeld(c);
      if t !in wsSubscribers {
        NothingToEnd(conns, topics, c, t);
        return;
      }
      Unlink(conns, topics, c, t);
      if c in wsConns {
        var conn := wsConns[c];
        SetTopics(conn, c, conn.topics - {t});
      }
      LeaveTopic(c, t);
    }

    /** Unsubscribe: the topic goes at once, then its clients lose it one by one. */
    method UnsubscribeTopic(t: Topic)
      requires Valid()
      modifies this, connObjects, topicObjects
      ensures Valid() && Look() == After(old(Look()), Call.UnsubscribeTopic(t))
      ensures wsConns == old(wsConns) && connObjects == old(connObjects) && topicObjects == old(topicObjects)
    {
      hide Inverse, NoneEmpty, ViewOf, After, Freed, HoldsConns, HoldsTopics;
      TopicHeld(t);
      if t !in wsSubscribers {
        NothingToEnd(conns, topics, "", t);
        return;
      }
      FreeAll(conns, topics, t);
      TopicMembers(conns, topics, t);
      var connections := DropTopic(t);
      FreeTopic(connections, t);
    }
  
    method DropClient(c: Client)
      requires Holds() && c in wsConns
      modifies this`wsConns, this`conns, connObjects
      ensures Holds() && conns == old(conns) - {c}
      ensures wsConns == old(wsConns) - {c}
    {
      hide HoldsTopics;
      wsConns[c].active := false;
      wsConns, conns := wsConns - {c}, conns - {c};
    }

    method LeaveTopics(c: Client, ts: set<Topic>)
      requires Holds()
      modifies this`wsSubscribers, this`topics, topicObjects
      ensures Holds() && topics == Without(old(topics), c, ts)
    {
      hide HoldsTopics, HoldsConns, Without;
      var left := ts;
      WithoutNone(topics, c);
      assert ts - left == {};
      while left != {}
        invariant Holds() && left <= ts
        invariant topics == Without(old(topics), c, ts - left)
        decreases left
      {
        var t :| t in left;
        WithoutMore(old(topics), c, ts - left, t);
        LeaveTopic(c, t);
        assert ts - left + {t} == ts - (left - {t});
        left := left - {t};
      }
      assert ts - {} == ts;
    }

    /** cleanupWebSocketClient: a cleanup for a socket that the client no longer has changes nothing. */
    method Cleanup(c: Client, socket: Option<Socket>)
      requires Valid()
      modifies this, connObjects, topicObjects
      ensures Valid() && Look() == After(old(Look()), Call.Cleanup(c, socket))
      ensures if old(c in wsConns && (socket.None? || wsConns[c].socket == socket.value))
              then wsConns == old(wsConns) - {c} && c !in Look().sockets && forall t :: (c, t) !in Look().subs
              else wsConns == old(wsConns) && conns == old(conns) && topics == old(topics)
      ensures connObjects == old(connObjects) && topicObjects == old(topicObjects)
    {
      hide Inverse, NoneEmpty, Without, HoldsConns, HoldsTopics, Subscriptions;
      ConnHeld(c);
      var known := c in wsConns;
      var isSameSocket := false;
      if known {
        var conn := wsConns[c];
        isSameSocket := socket.None? || conn.socket == socket.value;
      }
      if known && isSameSocket {
        LeaveAll(conns, topics, c);
        var clientTopics := wsConns[c].topics;
        DropClient(c);
        LeaveTopics(c, clientTopics);
      }
    }

    /** CountSubscribers, for the WebSocket subscribers of a topic. */
    method CountSubscribers(t: Topic) returns (n: nat)
      requires Valid()
      ensures n == |set p | p in Look().subs && p.1 == t|
    {
      hide Inverse, NoneEmpty, HoldsConns, HoldsTopics, ViewOf;
      TopicHeld(t);
      TopicActive(conns, topics, t);
      if t in wsSubscribers && wsSubscribers[t].active {
        ghost var members := topics[t].connections.Keys;
        MembersCount(conns, topics, t);
        n := 0;
        var left := wsSubscribers[t].connections.Keys;
        while left != {}
          invariant left <= members && n + |left| == |members|
          decreases left
        {
          var c :| c in left;
          ActiveMember(c, t);
          if wsSubscribers[t].connections[c].active {
            n := n + 1;
          }
          left := left - {c};
        }
      } else {
        n := 0;
        NoMembers(conns, topics, t);
      }
    }

    lemma ActiveMember(c: Client, t: Topic)
      requires Valid() && t in wsSubscribers && t in topics && c in topics[t].connections
      ensures wsSubscribers[t].Look() == topics[t] && topics[t].connections[c].active
    {
      TopicHeld(t);
      TopicMembers(conns, topics, t);
      ConnHeld(c);
      ActiveClient(conns, topics, c);
    }
  }

  lemma TopicActive(conns: Conns, topics: Topics, t: Topic)
    requires Inverse(conns, topics)
    ensures t in topics ==> topics[t].active
  {
    assert t in topics ==> TopicFits(conns, topics, t);
  }

  lemma NoMembers(conns: Conns, topics: Topics, t: Topic)
    requires Inverse(conns, topics) && t !in topics
    ensures (set p | p in ViewOf(conns).subs && p.1 == t) == {}
  {
    NoTopic(conns, topics, t);
  }

  /** A topic has as many connections as there are subscriptions to it. */
  lemma MembersCount(conns: Conns, topics: Topics, t: Topic)
    requires Inverse(conns, topics) && t in topics
    ensures |topics[t].connections.Keys| == |set p | p in ViewOf(conns).subs && p.1 == t|
  {
    var pairs := set p | p in ViewOf(conns).subs && p.1 == t;
    assert TopicFits(conns, topics, t);
    forall c
      ensures c in topics[t].connections.Keys <==> (c, t) in pairs
    {
      if c in conns {
        assert ClientFits(conns, topics, c);
      }
    }
    PairsCount(topics[t].connections.Keys, pairs, t);
  }

  lemma {:induction false} PairsCount(cs: set<Client>, pairs: set<(Client, Topic)>, t: Topic)
    requires forall c :: c in cs <==> (c, t) in pairs
    requires forall p :: p in pairs ==> p.1 == t
    ensures |cs| == |pairs|
    decreases cs
  {
    forall p | p in pairs
      ensures p.0 in cs
    {
      assert p == (p.0, t);
    }
    if cs == {} {
      assert pairs == {};
    } else {
      var c :| c in cs;
      PairsCount(cs - {c}, pairs - {(c, t)}, t);
    }
  }
}
