/**
 The sections that subscribeWebSocket, unsubscribeWebSocket, Unsubscribe and
 cleanupWebSocketClient of ksps/bus.go run under one lock each, as steps of goroutines
 that interleave: when a subscription gets lost between them.
 */
module BusSteps {
  import opened BusView
  import opened Options

  /** A wsTopicData and a wsConnection, each known by the number under which it was made. */
  datatype TopicObject = TopicObject(name: Topic, members: map<Client, nat>, active: bool)
  datatype ConnObject = ConnObject(id: Client, topics: set<Topic>)

  datatype Op = Subscribing(c: Client, t: Topic) | Unsubscribing(c: Client, t: Topic) | Removing(t: Topic) | Cleaning(c: Client)

  /** Where a goroutine is: what its next section is about, with what it has read so far. */
  datatype Task =
    | Idle
    | ToRegister(c: Client, t: Topic, d: nat)
    | ToLook(c: Client, t: Topic, d: nat)
    | ToEnter(c: Client, t: Topic, d: nat, k: nat)
    | ToNote(c: Client, t: Topic, d: nat, k: nat)
    | ToFind(c: Client, t: Topic, d: nat)
    | ToForget(c: Client, t: Topic, d: nat, k: nat)
    | ToLeave(c: Client, t: Topic, d: nat)
    | ToDrop(t: Topic)
    | ToClear(t: Topic, d: nat)
    | ToRead(c: Client, k: nat)
    | ToSweep(c: Client, todo: set<Topic>)
    | ToSweepOut(c: Client, t: Topic, d: nat, todo: set<Topic>)
    | ToSweepDrop(c: Client, t: Topic, todo: set<Topic>)

  datatype State = State(objects: seq<TopicObject>, index: map<Topic, nat>, conns: seq<ConnObject>, clients: map<Client, nat>,
                         tasks: seq<Task>)

  /** A goroutine begins an operation, or goes on; t: the topic a cleanup takes next. */
  datatype Step = Begin(p: nat, op: Op) | GoOn(p: nat, t: Topic)

  function At(s: State, p: nat, task: Task): State
    requires p < |s.tasks|
  {
    s.(tasks := s.tasks[p := task])
  }

  function WithMembers(s: State, d: nat, members: map<Client, nat>): State
    requires d < |s.objects|
  {
    s.(objects := s.objects[d := s.objects[d].(members := members)])
  }

  function WithTopics(s: State, k: nat, topics: set<Topic>): State
    requires k < |s.conns|
  {
    s.(conns := s.conns[k := s.conns[k].(topics := topics)])
  }

  function WithObject(s: State, t: Topic): State {
    s.(objects := s.objects + [TopicObject(t, map[], true)], index := s.index[t := |s.objects|])
  }

  function WithClient(s: State, c: Client): State {
    s.(conns := s.conns + [ConnObject(c, {})], clients := s.clients[c := |s.conns|])
  }

  /** The topic goes, its object becomes inactive. */
  function Dropped(s: State, t: Topic): State
    requires t in s.index && s.index[t] < |s.objects|
  {
    s.(index := s.index - {t}, objects := s.objects[s.index[t] := s.objects[s.index[t]].(active := false)])
  }

  /** Under ps.mu: the topic goes, if the object it now has is empty. */
  function DropIfEmpty(s: State, t: Topic): State
    requires t in s.index ==> s.index[t] < |s.objects|
  {
    if t in s.index && s.objects[s.index[t]].members == map[] then Dropped(s, t) else s
  }

  /** Numbers of objects are in range, and the topic of an object is the one it is used for. */
  predicate Fits(s: State, t: Topic, d: nat) {
    d < |s.objects| && s.objects[d].name == t
  }

  predicate TaskFits(s: State, task: Task) {
    match task
    case ToRegister(_, t, d) => Fits(s, t, d)
    case ToLook(_, t, d) => Fits(s, t, d)
    case ToEnter(_, t, d, k) => Fits(s, t, d) && k < |s.conns|
    case ToNote(_, t, d, k) => Fits(s, t, d) && k < |s.conns|
    case ToFind(_, t, d) => Fits(s, t, d)
    case ToForget(_, t, d, k) => Fits(s, t, d) && k < |s.conns|
    case ToRead(_, k) => k < |s.conns|
    case ToLeave(_, t, d) => Fits(s, t, d)
    case ToClear(t, d) => Fits(s, t, d)
    case ToSweepOut(_, t, d, _) => Fits(s, t, d)
    case _ => true
  }

  ghost predicate InRange(s: State) {
    && (forall t :: t in s.index ==> s.index[t] < |s.objects| && s.objects[s.index[t]].name == t)
    && (forall c :: c in s.clients ==> s.clients[c] < |s.conns|)
  }

  ghost predicate Fine(s: State) {
    && InRange(s)
    && (forall p :: 0 <= p < |s.tasks| ==> TaskFits(s, s.tasks[p]))
    && (forall d, c :: 0 <= d < |s.objects| && c in s.objects[d].members ==> s.objects[d].members[c] < |s.conns|)
  }

  ghost predicate Enabled(s: State, a: Step) {
    && a.p < |s.tasks|
    && match a
       case Begin(p, _) => s.tasks[p].Idle?
       case GoOn(p, t) => !s.tasks[p].Idle? && (s.tasks[p].ToSweep? ==> s.tasks[p].todo == {} || t in s.tasks[p].todo)
  }

  ghost function Begun(s: State, p: nat, op: Op): State
    requires p < |s.tasks|
    requires InRange(s)
  {
    match op
    case Subscribing(c, t) =>
      if t in s.index then At(s, p, ToRegister(c, t, s.index[t]))
      else At(WithObject(s, t), p, ToRegister(c, t, |s.objects|))
    case Unsubscribing(c, t) => if t in s.index then At(s, p, ToFind(c, t, s.index[t])) else s
    case Removing(t) => if t in s.index then At(Dropped(s, t), p, ToClear(t, s.index[t])) else s
    case Cleaning(c) => if c in s.clients then At(s.(clients := s.clients - {c}), p, ToRead(c, s.clients[c])) else s
  }

  /** Every connection of these members forgets the topic. */
  function Cleared(conns: seq<ConnObject>, members: map<Client, nat>, t: Topic): (r: seq<ConnObject>)
    ensures |r| == |conns|
  {
    seq(|conns|, k requires 0 <= k < |conns| =>
      if k in members.Values then conns[k].(topics := conns[k].topics - {t}) else conns[k])
  }

  /** One more section of an operation, up to the task it is then at. */
  ghost function Section(s: State, task: Task, chosen: Topic): (State, Task)
    requires TaskFits(s, task)
    requires InRange(s)
  {
    match task
    case Idle => (s, Idle)
    case ToRegister(c, t, d) => (if c in s.clients then s else WithClient(s, c), ToLook(c, t, d))
    case ToLook(c, t, d) => (s, if c in s.clients then ToEnter(c, t, d, s.clients[c]) else Idle)
    case ToEnter(c, t, d, k) => (WithMembers(s, d, s.objects[d].members[c := k]), ToNote(c, t, d, k))
    case ToNote(c, t, d, k) => (WithTopics(s, k, s.conns[k].topics + {t}), Idle)
    case ToFind(c, t, d) => (s, if c in s.clients then ToForget(c, t, d, s.clients[c]) else ToLeave(c, t, d))
    case ToForget(c, t, d, k) => (WithTopics(s, k, s.conns[k].topics - {t}), ToLeave(c, t, d))
    case ToLeave(c, t, d) =>
      var members := s.objects[d].members - {c};
      (WithMembers(s, d, members), if members == map[] then ToDrop(t) else Idle)
    case ToDrop(t) => (if t in s.index then DropIfEmpty(s, t) else s, Idle)
    case ToClear(t, d) => (s.(conns := Cleared(s.conns, s.objects[d].members, t)), Idle)
    case ToRead(c, k) => (s, ToSweep(c, s.conns[k].topics))
    case ToSweep(c, todo) =>
      (s, if todo == {} then Idle
          else if chosen in s.index then ToSweepOut(c, chosen, s.index[chosen], todo - {chosen})
          else ToSweep(c, todo - {chosen}))
    case ToSweepOut(c, t, d, todo) =>
      var members := s.objects[d].members - {c};
      (WithMembers(s, d, members), if members == map[] then ToSweepDrop(c, t, todo) else ToSweep(c, todo))
    case ToSweepDrop(c, t, todo) => (if t in s.index then DropIfEmpty(s, t) else s, ToSweep(c, todo))
  }

  ghost function Next(s: State, a: Step): State
    requires Fine(s) && Enabled(s, a)
  {
    match a
    case Begin(p, op) => Begun(s, p, op)
    case GoOn(p, t) =>
      var (s', task) := Section(s, s.tasks[p], t);
      At(s', p, task)
  }

  /** Objects keep their topic, and numbers in range stay in range. */
  ghost predicate Grows(s: State, s': State) {
    && |s.objects| <= |s'.objects| && |s.conns| <= |s'.conns| && |s.tasks| == |s'.tasks|
    && forall d :: 0 <= d < |s.objects| ==> s'.objects[d].name == s.objects[d].name
  }

  lemma FitsStays(s: State, s': State, task: Task)
    requires Grows(s, s') && TaskFits(s, task)
    ensures TaskFits(s', task)
  {
  }

  /** A change that keeps objects, with index and clients in range, keeps all the rest. */
  lemma FineStays(s: State, s': State)
    requires Fine(s) && Grows(s, s') && s'.tasks == s.tasks
    requires InRange(s')
    requires forall d, c :: 0 <= d < |s'.objects| && c in s'.objects[d].members ==> s'.objects[d].members[c] < |s'.conns|
    ensures Fine(s')
  {
    forall p | 0 <= p < |s'.tasks|
      ensures TaskFits(s', s'.tasks[p])
    {
      FitsStays(s, s', s.tasks[p]);
    }
  }

  lemma AtFine(s: State, p: nat, task: Task)
    requires Fine(s) && p < |s.tasks| && TaskFits(s, task)
    ensures Fine(At(s, p, task))
  {
    var s' := At(s, p, task);
    forall q | 0 <= q < |s'.tasks|
      ensures TaskFits(s', s'.tasks[q])
    {
      FitsStays(s, s', if q == p then task else s.tasks[q]);
    }
  }

  lemma BeginFine(s: State, p: nat, op: Op)
    requires Fine(s) && p < |s.tasks|
    ensures Fine(Begun(s, p, op)) && Grows(s, Begun(s, p, op))
  {
    match op
    case Subscribing(c, t) =>
      var s' := if t in s.index then s else WithObject(s, t);
      FineStays(s, s');
      AtFine(s', p, ToRegister(c, t, s'.index[t]));
    case Unsubscribing(c, t) =>
      if t in s.index {
        AtFine(s, p, ToFind(c, t, s.index[t]));
      }
    case Removing(t) =>
      if t in s.index {
        FineStays(s, Dropped(s, t));
        AtFine(Dropped(s, t), p, ToClear(t, s.index[t]));
      }
    case Cleaning(c) =>
      if c in s.clients {
        var s' := s.(clients := s.clients - {c});
        FineStays(s, s');
        AtFine(s', p, ToRead(c, s.clients[c]));
      }
  }

  lemma SectionFine(s: State, task: Task, chosen: Topic)
    requires Fine(s) && TaskFits(s, task)
    ensures var (s', task') := Section(s, task, chosen);
            Fine(s') && Grows(s, s') && TaskFits(s', task') && s'.tasks == s.tasks
  {
    var (s', task') := Section(s, task, chosen);
    assert Grows(s, s');
    FineStays(s, s');
  }

  lemma StepFine(s: State, a: Step)
    requires Fine(s) && Enabled(s, a)
    ensures Fine(Next(s, a)) && Grows(s, Next(s, a))
  {
    hide Fine;
    match a
    case Begin(p, op) => BeginFine(s, p, op);
    case GoOn(p, t) =>
      TaskIsFine(s, p);
      SectionFine(s, s.tasks[p], t);
      var (s', task) := Section(s, s.tasks[p], t);
      AtFine(s', p, task);
  }

  lemma TaskIsFine(s: State, p: nat)
    requires Fine(s) && p < |s.tasks|
    ensures TaskFits(s, s.tasks[p]) && InRange(s)
  {
  }
}
