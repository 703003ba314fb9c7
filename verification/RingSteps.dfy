/**
 The ring of ksps/batch.go under concurrency: every load, store and
 compare-and-swap of a producer or of the consumer is a step of its own.
 Indices go round as RingArithmetic shows the masked ones to.
 */
module RingSteps {
  import opened Bytes
  import opened Options
  import opened RingArithmetic

  /** A message is known by a number. */
  type Msg = nat

  /** Where a producer is in Send. */
  datatype Producer =
    | Idle
    | Trying(m: Msg)
    | LoadedHead(m: Msg, h: nat)
    | Ready(m: Msg, h: nat)
    | Claimed(m: Msg, h: nat)

  /** Where the consumer is in collectBatch; Clearing: slot i has been loaded but not yet stored nil to. */
  datatype Consumer =
    | Waiting
    | HasTail(t: nat)
    | Looking(t: nat, available: nat, i: nat, batch: seq<Msg>)
    | Clearing(t: nat, available: nat, i: nat, batch: seq<Msg>)

  datatype State = State(batchSize: nat, head: nat, tail: nat, slots: seq<Option<Msg>>,
                         producers: seq<Producer>, consumer: Consumer)
  {
    ghost predicate Ok() {
      var size := |slots|;
      && batchSize > 0 && head < size && tail < size
      && (forall p :: 0 <= p < |producers| ==>
            (producers[p].LoadedHead? || producers[p].Ready? || producers[p].Claimed? ==> producers[p].h < size))
      && (consumer.Waiting? || consumer.t < size)
      && (consumer.Looking? ==> consumer.i <= consumer.available < size && |consumer.batch| <= consumer.i)
      && (consumer.Clearing? ==> consumer.i < consumer.available < size && |consumer.batch| <= consumer.i + 1)
    }
  }

  function Init(size: nat, batchSize: nat, producers: nat): (s: State)
    requires size > 0 && batchSize > 0
    ensures s.Ok()
  {
    State(batchSize, 0, 0, seq(size, _ => None), seq(producers, _ => Idle), Waiting)
  }

  /** again: whether a producer that finds the ring full or loses the race tries again or gives up. */
  datatype Step =
    | Begin(p: nat, m: Msg)
    | LoadHead(p: nat)
    | LoadTail(p: nat, again: bool)
    | Swap(p: nat, again: bool)
    | Publish(p: nat)
    | TakeTail
    | TakeHead
    | Look
    | Clear
    | Finish

  ghost predicate Enabled(s: State, a: Step) {
    match a
    case Begin(p, _) => p < |s.producers| && s.producers[p].Idle?
    case LoadHead(p) => p < |s.producers| && s.producers[p].Trying?
    case LoadTail(p, _) => p < |s.producers| && s.producers[p].LoadedHead?
    case Swap(p, _) => p < |s.producers| && s.producers[p].Ready?
    case Publish(p) => p < |s.producers| && s.producers[p].Claimed?
    case TakeTail => s.consumer.Waiting?
    case TakeHead => s.consumer.HasTail?
    case Look => s.consumer.Looking? && s.consumer.i < s.consumer.available
    case Clear => s.consumer.Clearing?
    case Finish => s.consumer.Looking? && s.consumer.i == s.consumer.available
  }

  ghost function Set(s: State, p: nat, x: Producer): State
    requires p < |s.producers|
  {
    s.(producers := s.producers[p := x])
  }

  ghost function After(s: State, a: Step): (s': State)
    requires s.Ok() && Enabled(s, a)
    ensures s'.Ok() && |s'.slots| == |s.slots| && |s'.producers| == |s.producers| && s'.batchSize == s.batchSize
  {
    var size := |s.slots|;
    match a
    case Begin(p, m) => Set(s, p, Trying(m))
    case LoadHead(p) => Set(s, p, LoadedHead(s.producers[p].m, s.head))
    case LoadTail(p, again) =>
      var x := s.producers[p];
      if Place(x.h, 1, size) != s.tail then Set(s, p, Ready(x.m, x.h))
      else Set(s, p, if again then Trying(x.m) else Idle)
    case Swap(p, again) =>
      var x := s.producers[p];
      if s.head == x.h then Set(s, p, Claimed(x.m, x.h)).(head := Place(x.h, 1, size))
      else Set(s, p, if again then Trying(x.m) else Idle)
    case Publish(p) =>
      var x := s.producers[p];
      Set(s, p, Idle).(slots := s.slots[x.h := Some(x.m)])
    case TakeTail => s.(consumer := HasTail(s.tail))
    case TakeHead =>
      var available := Min(Distance(s.head, s.consumer.t, size), s.batchSize);
      s.(consumer := if available == 0 then Waiting else Looking(s.consumer.t, available, 0, []))
    case Look =>
      var c := s.consumer;
      var slot := s.slots[Place(c.t, c.i, size)];
      if slot.Some? then s.(consumer := Clearing(c.t, c.available, c.i, c.batch + [slot.value]))
      else s.(consumer := Looking(c.t, c.available, c.i + 1, c.batch))
    case Clear =>
      var c := s.consumer;
      s.(slots := s.slots[Place(c.t, c.i, size) := None], consumer := Looking(c.t, c.available, c.i + 1, c.batch))
    case Finish =>
      var c := s.consumer;
      s.(tail := if c.batch == [] then s.tail else Place(c.t, |c.batch|, size), consumer := Waiting)
  }

  // ----- The queue it should be -----

  datatype Event = Quiet | Enqueued(m: Msg) | Full | Dequeued(batch: seq<Msg>)

  /** What a step shows: a message is in the ring once it is published, and out of it when collectBatch returns. */
  ghost function EventOf(s: State, a: Step): Event
    requires s.Ok() && Enabled(s, a)
  {
    match a
    case Publish(p) => Enqueued(s.producers[p].m)
    case LoadTail(p, _) => if Place(s.producers[p].h, 1, |s.slots|) == s.tail then Full else Quiet
    case Finish => if s.consumer.batch == [] then Quiet else Dequeued(s.consumer.batch)
    case _ => Quiet
  }

  /** A first-in first-out queue of bounded capacity. */
  ghost predicate Accepts(capacity: nat, q: seq<Msg>, e: Event) {
    match e
    case Quiet => true
    case Enqueued(_) => |q| < capacity
    case Full => |q| == capacity
    case Dequeued(batch) => batch <= q
  }

  ghost function Behaves(q: seq<Msg>, e: Event): seq<Msg> {
    match e
    case Enqueued(m) => q + [m]
    case Dequeued(batch) => if batch <= q then q[|batch|..] else q
    case _ => q
  }

  /** A message is stored over one that nobody has collected. */
  ghost predicate Overwrites(s: State, a: Step)
    requires s.Ok() && Enabled(s, a)
  {
    a.Publish? && s.slots[s.producers[a.p].h].Some?
  }

  ghost predicate IsRun(s: State, steps: seq<Step>)
    requires s.Ok()
    decreases |steps|
  {
    steps == [] || (Enabled(s, steps[0]) && IsRun(After(s, steps[0]), steps[1..]))
  }

  /** From s on, the steps are those of a bounded queue that holds q, and no message is lost in its slot. */
  ghost predicate IsFifo(s: State, q: seq<Msg>, steps: seq<Step>)
    requires s.Ok() && IsRun(s, steps)
    decreases |steps|
  {
    steps == [] ||
    (var e := EventOf(s, steps[0]);
     && Accepts(|s.slots| - 1, q, e)
     && !Overwrites(s, steps[0])
     && IsFifo(After(s, steps[0]), Behaves(q, e), steps[1..]))
  }

  /** No Send begins while another is under way. */
  ghost predicate IsSerial(s: State, steps: seq<Step>)
    requires s.Ok() && IsRun(s, steps)
    decreases |steps|
  {
    steps == [] ||
    (&& (steps[0].Begin? ==> forall p :: 0 <= p < |s.producers| ==> s.producers[p].Idle?)
     && IsSerial(After(s, steps[0]), steps[1..]))
  }

  // ----- The invariant -----

  /** How many messages of the batch are out of their slots. */
  function Cleared(c: Consumer): nat {
    match c
    case Looking(_, _, _, batch) => |batch|
    case Clearing(_, _, i, _) => i
    case _ => 0
  }

  ghost predicate Slots(s: State, q: seq<Msg>)
    requires s.Ok()
  {
    forall j :: 0 <= j < |s.slots| ==>
      s.slots[Place(s.tail, j, |s.slots|)] == if Cleared(s.consumer) <= j < |q| then Some(q[j]) else None
  }

  /** The producer w, if any, is the only one in Send. */
  ghost predicate Alone(s: State, w: int) {
    forall p :: 0 <= p < |s.producers| && p != w ==> s.producers[p].Idle?
  }

  ghost function Of(s: State, w: int): Producer {
    if 0 <= w < |s.producers| then s.producers[w] else Idle
  }

  ghost predicate ProducerFits(s: State, q: seq<Msg>, x: Producer)
    requires s.Ok()
  {
    var n := Distance(s.head, s.tail, |s.slots|);
    match x
    case Idle => |q| == n
    case Trying(_) => |q| == n
    case LoadedHead(_, h) => |q| == n && h == s.head
    case Ready(_, h) => |q| == n && h == s.head && n + 1 < |s.slots|
    case Claimed(_, h) => |q| + 1 == n && h == Place(s.tail, |q|, |s.slots|)
  }

  ghost predicate ConsumerFits(s: State, q: seq<Msg>)
    requires s.Ok()
  {
    var c := s.consumer;
    match c
    case Waiting => true
    case HasTail(t) => t == s.tail
    case Looking(t, available, i, batch) =>
      && t == s.tail && batch <= q && available <= Distance(s.head, s.tail, |s.slots|)
      && (i == |batch| || (i == available && |batch| + 1 == available))
    case Clearing(t, available, i, batch) =>
      && t == s.tail && batch <= q && available <= Distance(s.head, s.tail, |s.slots|) && i + 1 == |batch|
  }

  ghost predicate Inv(s: State, q: seq<Msg>, w: int) {
    && s.Ok() && Alone(s, w) && Slots(s, q) && ProducerFits(s, q, Of(s, w)) && ConsumerFits(s, q)
  }
}
