/**
 A subscription among the steps of others: it comes into force exactly if its topic is
 not dropped meanwhile, and it is lost, though the client lists it, if that happens.
 */
module BusRaces {
  import opened BusSteps
  import opened BusView

  ghost predicate IsRun(s: State, steps: seq<Step>)
    requires Fine(s)
    decreases |steps|
  {
    steps != [] ==> Enabled(s, steps[0]) && (StepFine(s, steps[0]); IsRun(Next(s, steps[0]), steps[1..]))
  }

  ghost function Final(s: State, steps: seq<Step>): (f: State)
    requires Fine(s) && IsRun(s, steps)
    ensures Fine(f) && |f.tasks| == |s.tasks|
    decreases |steps|
  {
    if steps == [] then s
    else
      StepFine(s, steps[0]);
      Final(Next(s, steps[0]), steps[1..])
  }

  /** Whoever publishes to t finds c. */
  predicate Delivered(s: State, c: Client, t: Topic)
    requires t in s.index ==> s.index[t] < |s.objects|
  {
    t in s.index && c in s.objects[s.index[t]].members
  }

  /** This operation, at this task, is about the subscription of c to t, or removes c. */
  predicate OpAbout(op: Op, c: Client, t: Topic) {
    op == Subscribing(c, t) || op == Unsubscribing(c, t) || op == Cleaning(c)
  }

  predicate TaskAbout(task: Task, c: Client, t: Topic) {
    match task
    case ToRegister(c', t', _) => c' == c && t' == t
    case ToLook(c', t', _) => c' == c && t' == t
    case ToEnter(c', t', _, _) => c' == c && t' == t
    case ToNote(c', t', _, _) => c' == c && t' == t
    case ToFind(c', t', _) => c' == c && t' == t
    case ToForget(c', t', _, _) => c' == c && t' == t
    case ToLeave(c', t', _) => c' == c && t' == t
    case ToRead(c', _) => c' == c
    case ToSweep(c', _) => c' == c
    case ToSweepOut(c', _, _, _) => c' == c
    case ToSweepDrop(c', _, _) => c' == c
    case _ => false
  }

  /** Goroutine p goes on with its operation, or another one does something that is not about c and t. */
  ghost predicate Elsewhere(s: State, a: Step, p: nat, c: Client, t: Topic)
    requires Fine(s) && Enabled(s, a)
  {
    if a.p == p then a.GoOn?
    else
      match a
      case Begin(_, op) => !OpAbout(op, c, t)
      case GoOn(q, _) => !TaskAbout(s.tasks[q], c, t)
  }

  ghost predicate AllElsewhere(s: State, steps: seq<Step>, p: nat, c: Client, t: Topic)
    requires Fine(s) && IsRun(s, steps)
    decreases |steps|
  {
    steps != [] ==>
      Elsewhere(s, steps[0], p, c, t) && (StepFine(s, steps[0]); AllElsewhere(Next(s, steps[0]), steps[1..], p, c, t))
  }

  /** This step takes t off the index. */
  ghost predicate Drops(s: State, a: Step, t: Topic)
    requires Fine(s) && Enabled(s, a)
  {
    t in s.index && t !in Next(s, a).index
  }

  ghost predicate SomeDrop(s: State, steps: seq<Step>, t: Topic)
    requires Fine(s) && IsRun(s, steps)
    decreases |steps|
  {
    steps != [] && (Drops(s, steps[0], t) || (StepFine(s, steps[0]); SomeDrop(Next(s, steps[0]), steps[1..], t)))
  }

  // ----- What a section does to members and index -----

  lemma SectionMembers(s: State, task: Task, chosen: Topic, o: nat, c: Client)
    requires Fine(s) && TaskFits(s, task) && o < |s.objects|
    ensures var s' := Section(s, task, chosen).0;
            o < |s'.objects| &&
            (c in s'.objects[o].members <==>
             match task
             case ToEnter(c', _, d, _) => c in s.objects[o].members || (d == o && c' == c)
             case ToLeave(c', _, d) => c in s.objects[o].members && !(d == o && c' == c)
             case ToSweepOut(c', _, d, _) => c in s.objects[o].members && !(d == o && c' == c)
             case _ => c in s.objects[o].members)
  {
  }

  lemma SectionIndex(s: State, task: Task, chosen: Topic, t: Topic)
    requires Fine(s) && TaskFits(s, task)
    ensures var s' := Section(s, task, chosen).0;
            && |s'.objects| == |s.objects|
            && (t in s'.index ==> t in s.index && s'.index[t] == s.index[t])
            && (forall c :: c in s.clients ==> c in s'.clients)
  {
  }

  lemma BeginEffect(s: State, p: nat, op: Op, t: Topic, c: Client)
    requires Fine(s) && p < |s.tasks|
    ensures var s' := Begun(s, p, op);
            && |s.objects| <= |s'.objects|
            && (forall o :: 0 <= o < |s.objects| ==> s'.objects[o].members == s.objects[o].members)
            && (forall o :: |s.objects| <= o < |s'.objects| ==> s'.objects[o].members == map[])
            && (t in s'.index ==> (t in s.index && s'.index[t] == s.index[t]) || s'.index[t] >= |s.objects|)
            && (t in s.index && t in s'.index ==> s'.index[t] == s.index[t])
            && (c in s.clients && op != Cleaning(c) ==> c in s'.clients)
            && (forall q :: 0 <= q < |s.tasks| && q != p ==> s'.tasks[q] == s.tasks[q])
  {
  }

  // ----- A subscription among others -----

  /** Goroutine p is somewhere in Subscribing(c, t) behind its first section, which got the object d; or through. */
  predicate Under(task: Task, c: Client, t: Topic, d: nat) {
    match task
    case ToRegister(c', t', d') => c' == c && t' == t && d' == d
    case ToLook(c', t', d') => c' == c && t' == t && d' == d
    case ToEnter(c', t', d', _) => c' == c && t' == t && d' == d
    case ToNote(c', t', d', _) => c' == c && t' == t && d' == d
    case Idle => true
    case _ => false
  }

  /** n: the number of objects when p began. Objects of t that are made later never have c. */
  ghost predicate Going(s: State, p: nat, c: Client, t: Topic, d: nat, n: nat) {
    && Fine(s) && p < |s.tasks| && d < n <= |s.objects| && s.objects[d].name == t
    && Under(s.tasks[p], c, t, d)
    && (s.tasks[p].ToLook? ==> c in s.clients)
    && (s.tasks[p].ToNote? || s.tasks[p].Idle? ==> c in s.objects[d].members)
    && (forall o :: n <= o < |s.objects| && s.objects[o].name == t ==> c !in s.objects[o].members)
    && (t in s.index ==> s.index[t] == d || s.index[t] >= n)
  }

  /** A step of p itself. */
  lemma OwnStep(s: State, p: nat, chosen: Topic, c: Client, t: Topic, d: nat, n: nat)
    requires Going(s, p, c, t, d, n) && !s.tasks[p].Idle?
    ensures var s' := Next(s, GoOn(p, chosen)); Going(s', p, c, t, d, n) && s'.index == s.index
  {
    StepFine(s, GoOn(p, chosen));
    var (s1, task) := Section(s, s.tasks[p], chosen);
    forall o | 0 <= o < |s.objects|
      ensures o != d ==> (c in s1.objects[o].members <==> c in s.objects[o].members)
      ensures s.tasks[p].ToEnter? || c in s.objects[o].members ==> o == d ==> c in s1.objects[o].members
    {
      SectionMembers(s, s.tasks[p], chosen, o, c);
    }
  }

  /** A section of another operation. */
  lemma OtherSection(s: State, q: nat, chosen: Topic, p: nat, c: Client, t: Topic, d: nat, n: nat)
    requires Going(s, p, c, t, d, n) && q < |s.tasks| && q != p && !TaskAbout(s.tasks[q], c, t)
    requires Enabled(s, GoOn(q, chosen))
    ensures Going(Next(s, GoOn(q, chosen)), p, c, t, d, n)
  {
    var a := GoOn(q, chosen);
    StepFine(s, a);
    TaskIsFine(s, q);
    var (s1, task) := Section(s, s.tasks[q], chosen);
    SectionFine(s, s.tasks[q], chosen);
    SectionIndex(s, s.tasks[q], chosen, t);
    SectionMembers(s, s.tasks[q], chosen, d, c);
    forall o | n <= o < |s1.objects| && s1.objects[o].name == t
      ensures c !in s1.objects[o].members
    {
      SectionMembers(s, s.tasks[q], chosen, o, c);
    }
  }

  /** The first section of another operation. */
  lemma OtherBegins(s: State, q: nat, op: Op, p: nat, c: Client, t: Topic, d: nat, n: nat)
    requires Going(s, p, c, t, d, n) && q < |s.tasks| && q != p && !OpAbout(op, c, t) && Enabled(s, Begin(q, op))
    ensures Going(Next(s, Begin(q, op)), p, c, t, d, n)
  {
    var a := Begin(q, op);
    StepFine(s, a);
    BeginEffect(s, q, op, t, c);
  }

  lemma StepGoing(s: State, a: Step, p: nat, c: Client, t: Topic, d: nat, n: nat)
    requires Going(s, p, c, t, d, n) && Enabled(s, a) && Elsewhere(s, a, p, c, t)
    ensures Going(Next(s, a), p, c, t, d, n)
  {
    hide Going, Fine, Next, TaskAbout, OpAbout;
    match a
    case Begin(q, op) => OtherBegins(s, q, op, p, c, t, d, n);
    case GoOn(q, chosen) =>
      if q == p {
        OwnStep(s, p, chosen, c, t, d, n);
      } else {
        OtherSection(s, q, chosen, p, c, t, d, n);
      }
  }

  /** The topic keeps its object, unless the step drops it; an object that was given up does not come back. */
  lemma StepIndex(s: State, a: Step, p: nat, c: Client, t: Topic, d: nat, n: nat)
    requires Going(s, p, c, t, d, n) && Enabled(s, a)
    ensures var s' := Next(s, a);
            (t in s'.index && s'.index[t] == d) <==> (t in s.index && s.index[t] == d && !Drops(s, a, t))
  {
    match a
    case Begin(q, op) => BeginEffect(s, q, op, t, c);
    case GoOn(q, chosen) =>
      TaskIsFine(s, q);
      SectionIndex(s, s.tasks[q], chosen, t);
  }

  lemma {:induction false} RunGoing(s: State, steps: seq<Step>, p: nat, c: Client, t: Topic, d: nat, n: nat)
    requires Going(s, p, c, t, d, n) && IsRun(s, steps) && AllElsewhere(s, steps, p, c, t)
    ensures var f := Final(s, steps);
            && Going(f, p, c, t, d, n)
            && ((t in f.index && f.index[t] == d) <==> (t in s.index && s.index[t] == d && !SomeDrop(s, steps, t)))
    decreases |steps|
  {
    hide Going, Next, Elsewhere, Enabled, Drops;
    GoingFine(s, p, c, t, d, n);
    if steps != [] {
      StepFine(s, steps[0]);
      StepGoing(s, steps[0], p, c, t, d, n);
      StepIndex(s, steps[0], p, c, t, d, n);
      RunGoing(Next(s, steps[0]), steps[1..], p, c, t, d, n);
    }
  }

  lemma GoingFine(s: State, p: nat, c: Client, t: Topic, d: nat, n: nat)
    requires Going(s, p, c, t, d, n)
    ensures Fine(s)
  {
  }

  /**
   From the first section of a subscription to its end, among any steps of others
   that are not about this client and topic: whoever publishes finds the client
   exactly if no step in between took the topic off the index.
   */
  lemma SubscribedUnlessDropped(s: State, steps: seq<Step>, p: nat, c: Client, t: Topic, d: nat)
    requires Fine(s) && p < |s.tasks| && s.tasks[p] == ToRegister(c, t, d) && t in s.index && s.index[t] == d
    requires IsRun(s, steps) && AllElsewhere(s, steps, p, c, t)
    requires Final(s, steps).tasks[p].Idle?
    ensures Delivered(Final(s, steps), c, t) <==> !SomeDrop(s, steps, t)
  {
    hide IsRun, Final, AllElsewhere, SomeDrop;
    RunGoing(s, steps, p, c, t, d, |s.objects|);
  }

  // ----- A lost subscription -----

  lemma RunFirst(s: State, a: Step, steps: seq<Step>, s1: State, f: State)
    requires Fine(s) && Enabled(s, a) && Next(s, a) == s1 && Fine(s1) && IsRun(s1, steps) && Final(s1, steps) == f
    ensures IsRun(s, [a] + steps) && Final(s, [a] + steps) == f
  {
    hide Fine, Next, Enabled;
    StepFine(s, a);
    assert ([a] + steps)[1..] == steps;
  }

  /** The states of a run in which c subscribes to t and, behind its first section, the only client unsubscribes. */
  function Losing(c: Client, other: Client, t: Topic, i: nat): State {
    var full, empty := TopicObject(t, map[other := 0], true), TopicObject(t, map[], true);
    var gone, held := TopicObject(t, map[], false), TopicObject(t, map[c := 1], false);
    var index, one, two := map[t := 0], map[other := 0], map[other := 0, c := 1];
    var listing, out, joined, listed := ConnObject(other, {t}), ConnObject(other, {}), ConnObject(c, {}), ConnObject(c, {t});
    var first := ToRegister(c, t, 0);
    match i
    case 0 => State([full], index, [listing], one, [Idle, Idle])
    case 1 => State([full], index, [listing], one, [first, Idle])
    case 2 => State([full], index, [listing], one, [first, ToFind(other, t, 0)])
    case 3 => State([full], index, [listing], one, [first, ToForget(other, t, 0, 0)])
    case 4 => State([full], index, [out], one, [first, ToLeave(other, t, 0)])
    case 5 => State([empty], index, [out], one, [first, ToDrop(t)])
    case 6 => State([gone], map[], [out], one, [first, Idle])
    case 7 => State([gone], map[], [out, joined], two, [ToLook(c, t, 0), Idle])
    case 8 => State([gone], map[], [out, joined], two, [ToEnter(c, t, 0, 1), Idle])
    case 9 => State([held], map[], [out, joined], two, [ToNote(c, t, 0, 1), Idle])
    case _ => State([held], map[], [out, listed], two, [Idle, Idle])
  }

  function LosingStep(c: Client, other: Client, t: Topic, i: nat): Step {
    if i == 0 then Begin(0, Subscribing(c, t))
    else if i == 1 then Begin(1, Unsubscribing(other, t))
    else if i < 6 then GoOn(1, t)
    else GoOn(0, t)
  }

  function LosingSteps(c: Client, other: Client, t: Topic, i: nat): seq<Step>
    requires i <= 10
    decreases 10 - i
  {
    if i == 10 then [] else [LosingStep(c, other, t, i)] + LosingSteps(c, other, t, i + 1)
  }

  lemma LosingFine(c: Client, other: Client, t: Topic, i: nat)
    requires c != other && i <= 10
    ensures Fine(Losing(c, other, t, i))
  {
  }

  lemma LosingNext(c: Client, other: Client, t: Topic, i: nat)
    requires c != other && i < 10 && Fine(Losing(c, other, t, i))
    ensures Enabled(Losing(c, other, t, i), LosingStep(c, other, t, i))
    ensures Next(Losing(c, other, t, i), LosingStep(c, other, t, i)) == Losing(c, other, t, i + 1)
  {
    hide Fine;
    assert {t} - {t} == {} && {} + {t} == {t};
    assert map[other := 0] - {other} == map[] && map[t := 0] - {t} == map[];
    var none: map<Client, nat> := map[];
    assert none[c := 1] == map[c := 1];
  }

  lemma {:induction false} LosingRun(c: Client, other: Client, t: Topic, i: nat)
    requires c != other && i <= 10
    ensures var s, steps := Losing(c, other, t, i), LosingSteps(c, other, t, i);
            Fine(s) && IsRun(s, steps) && Final(s, steps) == Losing(c, other, t, 10)
    decreases 10 - i
  {
    hide Fine, Losing, Next, Enabled, LosingStep;
    LosingFine(c, other, t, i);
    if i < 10 {
      LosingNext(c, other, t, i);
      LosingFine(c, other, t, i + 1);
      LosingRun(c, other, t, i + 1);
      RunFirst(Losing(c, other, t, i), LosingStep(c, other, t, i), LosingSteps(c, other, t, i + 1),
               Losing(c, other, t, i + 1), Losing(c, other, t, 10));
    }
  }

  /**
   For all clients and topics: with both calls returned, c is connected and lists the
   topic, and nobody who publishes to the topic finds it.
   */
  lemma SubscriptionLost(c: Client, other: Client, t: Topic)
    requires c != other
    ensures var s, steps := Losing(c, other, t, 0), LosingSteps(c, other, t, 0);
            && Fine(s) && IsRun(s, steps)
            && var f := Final(s, steps);
               && f.tasks == [Idle, Idle]
               && c in f.clients && f.clients[c] < |f.conns| && f.conns[f.clients[c]].id == c && t in f.conns[f.clients[c]].topics
               && !Delivered(f, c, t)
  {
    hide IsRun, Final, LosingSteps;
    LosingRun(c, other, t, 0);
  }
}
