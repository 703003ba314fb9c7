/** Sends that do not overlap make the ring a bounded first-in first-out queue, whatever the consumer does meanwhile. */
module RingProof {
  import opened Options
  import opened RingArithmetic
  import opened RingSteps
  import opened Sequences

  /** What one step has to keep: the queue accepts it, nothing is overwritten, and the invariant holds again. */
  ghost predicate Kept(s: State, q: seq<Msg>, a: Step, w: int)
    requires s.Ok() && Enabled(s, a)
  {
    && Accepts(|s.slots| - 1, q, EventOf(s, a))
    && !Overwrites(s, a)
    && Inv(After(s, a), Behaves(q, EventOf(s, a)), w)
  }

  lemma BeginKeeps(s: State, q: seq<Msg>, w: int, p: nat, m: Msg)
    requires Inv(s, q, w) && Enabled(s, Begin(p, m))
    requires forall r :: 0 <= r < |s.producers| ==> s.producers[r].Idle?
    ensures Kept(s, q, Begin(p, m), p)
  {
    hide Place, Distance;
  }

  lemma ProducerKeeps(s: State, q: seq<Msg>, w: int, a: Step)
    requires Inv(s, q, w) && Enabled(s, a)
    requires a.LoadHead? || a.LoadTail? || a.Swap?
    ensures Kept(s, q, a, w)
  {
    assert a.p == w;
  }

  lemma PublishKeeps(s: State, q: seq<Msg>, w: int, p: nat)
    requires Inv(s, q, w) && Enabled(s, Publish(p))
    ensures Kept(s, q, Publish(p), w)
  {
    assert p == w;
  }

  lemma TakeKeeps(s: State, q: seq<Msg>, w: int, a: Step)
    requires Inv(s, q, w) && Enabled(s, a)
    requires a.TakeTail? || a.TakeHead?
    ensures Kept(s, q, a, w)
  {
    hide Place;
  }

  lemma LookKeeps(s: State, q: seq<Msg>, w: int)
    requires Inv(s, q, w) && Enabled(s, Look)
    ensures Kept(s, q, Look, w)
  {
  }

  lemma ClearKeeps(s: State, q: seq<Msg>, w: int)
    requires Inv(s, q, w) && Enabled(s, Clear)
    ensures Kept(s, q, Clear, w)
  {
  }

  lemma PlaceTwice(x: nat, n: nat, j: nat, size: nat)
    requires x < size && n < size && j <= size
    ensures n + j <= size ==> Place(Place(x, n, size), j, size) == Place(x, n + j, size)
    ensures n + j > size ==> Place(Place(x, n, size), j, size) == Place(x, n + j - size, size)
  {
  }

  lemma FinishSlots(s: State, q: seq<Msg>, n: nat)
    requires s.Ok() && Slots(s, q) && Cleared(s.consumer) == n && n <= |q| < |s.slots|
    ensures Slots(s.(tail := Place(s.tail, n, |s.slots|), consumer := Waiting), q[n..])
  {
    var size := |s.slots|;
    var tail' := Place(s.tail, n, size);
    forall j | 0 <= j < size
      ensures s.slots[Place(tail', j, size)] == if 0 <= j < |q[n..]| then Some(q[n..][j]) else None
    {
      PlaceTwice(s.tail, n, j, size);
      hide Place;
      if n + j >= size {
        assert Place(tail', j, size) == Place(s.tail, n + j - size, size) by {
          PlaceWhole(s.tail, n, j, size);
        }
      }
    }
  }

  lemma PlaceWhole(x: nat, n: nat, j: nat, size: nat)
    requires x < size && n < size && j <= size && n + j >= size
    ensures Place(Place(x, n, size), j, size) == Place(x, n + j - size, size)
  {
  }

  lemma EmptyFinish(s: State, q: seq<Msg>)
    requires s.Ok() && Slots(s, q) && Cleared(s.consumer) == 0
    ensures Slots(s.(consumer := Waiting), q)
  {
  }

  lemma FinishKeeps(s: State, q: seq<Msg>, w: int)
    requires Inv(s, q, w) && Enabled(s, Finish)
    ensures Kept(s, q, Finish, w)
  {
    hide Slots;
    var n := |s.consumer.batch|;
    if n > 0 {
      FinishSlots(s, q, n);
      PlaceTwice(s.tail, n, |q| - n, |s.slots|);
    } else {
      EmptyFinish(s, q);
    }
  }

  lemma Keeps(s: State, q: seq<Msg>, w: int, a: Step) returns (w': int)
    requires Inv(s, q, w) && Enabled(s, a)
    requires a.Begin? ==> forall r :: 0 <= r < |s.producers| ==> s.producers[r].Idle?
    ensures Kept(s, q, a, w')
  {
    hide Inv, Kept;
    w' := w;
    match a
    case Begin(p, m) =>
      BeginKeeps(s, q, w, p, m);
      w' := p;
    case LoadHead(_) => ProducerKeeps(s, q, w, a);
    case LoadTail(_, _) => ProducerKeeps(s, q, w, a);
    case Swap(_, _) => ProducerKeeps(s, q, w, a);
    case Publish(p) => PublishKeeps(s, q, w, p);
    case TakeTail => TakeKeeps(s, q, w, a);
    case TakeHead => TakeKeeps(s, q, w, a);
    case Look => LookKeeps(s, q, w);
    case Clear => ClearKeeps(s, q, w);
    case Finish => FinishKeeps(s, q, w);
  }

  lemma {:induction false} RunFifo(s: State, q: seq<Msg>, w: int, steps: seq<Step>)
    requires Inv(s, q, w) && IsRun(s, steps) && IsSerial(s, steps)
    ensures IsFifo(s, q, steps)
    decreases |steps|
  {
    hide Accepts, Overwrites, Behaves, Slots, ProducerFits, ConsumerFits, Alone, Enabled, After, EventOf;
    if steps != [] {
      var w' := Keeps(s, q, w, steps[0]);
      RunFifo(After(s, steps[0]), Behaves(q, EventOf(s, steps[0])), w', steps[1..]);
    }
  }

  lemma InitInv(size: nat, batchSize: nat, producers: nat)
    requires size > 0 && batchSize > 0
    ensures Inv(Init(size, batchSize, producers), [], 0)
  {
  }

  /**
   In every run in which no Send begins before the one before it is done, from
   an empty ring of any size and with any number of producers, whatever steps of
   the consumer come in between: the ring is a queue of capacity size - 1.
   */
  lemma SerialSendsAreFifo(size: nat, batchSize: nat, producers: nat, steps: seq<Step>)
    requires size > 0 && batchSize > 0
    requires IsRun(Init(size, batchSize, producers), steps) && IsSerial(Init(size, batchSize, producers), steps)
    ensures IsFifo(Init(size, batchSize, producers), [], steps)
  {
    InitInv(size, batchSize, producers);
    RunFifo(Init(size, batchSize, producers), [], 0, steps);
  }

  // ----- What a queue means for the messages -----

  ghost function Sent(s: State, steps: seq<Step>): seq<Msg>
    requires s.Ok() && IsRun(s, steps)
    decreases |steps|
  {
    if steps == [] then []
    else
      var e := EventOf(s, steps[0]);
      (if e.Enqueued? then [e.m] else []) + Sent(After(s, steps[0]), steps[1..])
  }

  ghost function Collected(s: State, steps: seq<Step>): seq<Msg>
    requires s.Ok() && IsRun(s, steps)
    decreases |steps|
  {
    if steps == [] then []
    else
      var e := EventOf(s, steps[0]);
      (if e.Dequeued? then e.batch else []) + Collected(After(s, steps[0]), steps[1..])
  }

  /** Every message is collected at most once, in the order in which they were sent; at most `capacity` are on the way. */
  lemma {:induction false} CollectedInOrder(s: State, q: seq<Msg>, steps: seq<Step>) returns (left: seq<Msg>)
    requires s.Ok() && IsRun(s, steps) && IsFifo(s, q, steps) && |q| < |s.slots|
    ensures q + Sent(s, steps) == Collected(s, steps) + left
    ensures |left| < |s.slots|
    decreases |steps|
  {
    hide Enabled, After, EventOf, Accepts, Behaves;
    if steps == [] {
      left := q;
    } else {
      var e, s' := EventOf(s, steps[0]), After(s, steps[0]);
      BehavesBounded(q, e, |s.slots| - 1);
      left := CollectedInOrder(s', Behaves(q, e), steps[1..]);
      OneEvent(q, e, |s.slots| - 1, Sent(s', steps[1..]), Collected(s', steps[1..]), left);
    }
  }

  lemma BehavesBounded(q: seq<Msg>, e: Event, capacity: nat)
    requires Accepts(capacity, q, e) && |q| <= capacity
    ensures |Behaves(q, e)| <= capacity
  {
  }

  lemma OneEvent(q: seq<Msg>, e: Event, capacity: nat, sent: seq<Msg>, collected: seq<Msg>, left: seq<Msg>)
    requires Accepts(capacity, q, e) && Behaves(q, e) + sent == collected + left
    ensures q + ((if e.Enqueued? then [e.m] else []) + sent)
         == ((if e.Dequeued? then e.batch else []) + collected) + left
  {
    match e
    case Enqueued(m) =>
      Assoc(q, [m], sent);
      assert [] + collected == collected;
    case Dequeued(batch) =>
      assert q == batch + q[|batch|..] && [] + sent == sent;
      Assoc(batch, q[|batch|..], sent);
      Assoc(batch, collected, left);
    case _ =>
      assert [] + collected == collected && [] + sent == sent;
  }
}
