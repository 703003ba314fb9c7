/** Sends that overlap: the ring is a queue in all its runs exactly when there is one producer, or no room at all. */
module RingRaces {
  import opened Options
  import opened RingArithmetic
  import opened RingSteps
  import opened RingProof

  lemma {:induction false} OneProducerIsSerial(s: State, steps: seq<Step>)
    requires s.Ok() && |s.producers| <= 1 && IsRun(s, steps)
    ensures IsSerial(s, steps)
    decreases |steps|
  {
    if steps != [] {
      OneProducerIsSerial(After(s, steps[0]), steps[1..]);
    }
  }

  /** A ring of one slot has no room. */
  ghost predicate NoRoom(s: State) {
    && s.Ok() && |s.slots| == 1
    && (forall p :: 0 <= p < |s.producers| ==> !s.producers[p].Ready? && !s.producers[p].Claimed?)
    && (s.consumer.Waiting? || s.consumer.HasTail?)
  }

  lemma {:induction false} OneSlotIsFifo(s: State, steps: seq<Step>)
    requires NoRoom(s) && IsRun(s, steps)
    ensures IsFifo(s, [], steps)
    decreases |steps|
  {
    if steps != [] {
      assert NoRoom(After(s, steps[0]));
      OneSlotIsFifo(After(s, steps[0]), steps[1..]);
    }
  }

  // ----- The race -----

  /** A run from s that is not that of a queue holding q. */
  ghost predicate Breaks(s: State, q: seq<Msg>, steps: seq<Step>)
    requires s.Ok()
  {
    IsRun(s, steps) && !IsFifo(s, q, steps)
  }

  lemma Before(s: State, q: seq<Msg>, a: Step, steps: seq<Step>)
    requires s.Ok() && Enabled(s, a) && Breaks(After(s, a), Behaves(q, EventOf(s, a)), steps)
    ensures Breaks(s, q, [a] + steps)
  {
    hide Enabled, After, EventOf, Behaves, Accepts, Overwrites;
    assert ([a] + steps)[1..] == steps;
  }

  /**
   Producer 0 has loaded head and tail of the empty ring and is about to swap;
   meanwhile one message went through the ring and i more were sent.
   */
  ghost function Filling(size: nat, batchSize: nat, producers: nat, i: nat): (s: State)
    requires size >= 2 && batchSize > 0 && producers >= 2 && i < size
    ensures s.Ok()
  {
    State(batchSize, Place(1, i, size), 1, seq(size, j => if 1 <= j <= i then Some(1) else None),
          seq(producers, p => if p == 0 then Ready(0, 0) else Idle), Waiting)
  }

  function Ones(i: nat): (q: seq<Msg>)
    ensures |q| == i && forall j :: 0 <= j < i ==> q[j] == 1
  {
    seq(i, _ => 1)
  }

  /** The stale swap succeeds, and one message too many is in the ring. */
  lemma StaleSwap(size: nat, batchSize: nat, producers: nat) returns (steps: seq<Step>)
    requires size >= 2 && batchSize > 0 && producers >= 2
    ensures Breaks(Filling(size, batchSize, producers, size - 1), Ones(size - 1), steps)
  {
    var s, q := Filling(size, batchSize, producers, size - 1), Ones(size - 1);
    var s1 := After(s, Swap(0, true));
    assert s1.producers[0] == Claimed(0, 0);
    steps := [Publish(0)];
    assert Breaks(s1, q, steps) by {
      assert Enabled(s1, Publish(0));
      assert steps[1..] == [];
      assert EventOf(s1, steps[0]) == Enqueued(0);
    }
    Before(s, q, Swap(0, true), steps);
    steps := [Swap(0, true)] + steps;
  }

  /** One more message of producer 1. */
  lemma FillOne(size: nat, batchSize: nat, producers: nat, i: nat, steps: seq<Step>) returns (steps': seq<Step>)
    requires size >= 2 && batchSize > 0 && producers >= 2 && i + 1 < size
    requires Breaks(Filling(size, batchSize, producers, i + 1), Ones(i + 1), steps)
    ensures Breaks(Filling(size, batchSize, producers, i), Ones(i), steps')
  {
    hide Breaks;
    var s, q := Filling(size, batchSize, producers, i), Ones(i);
    var s1 := After(s, Begin(1, 1));
    var s2 := After(s1, LoadHead(1));
    var s3 := After(s2, LoadTail(1, true));
    var s4 := After(s3, Swap(1, true));
    var s5 := After(s4, Publish(1));
    assert s5 == Filling(size, batchSize, producers, i + 1);
    assert q + [1] == Ones(i + 1);
    Before(s4, q, Publish(1), steps);
    Before(s3, q, Swap(1, true), [Publish(1)] + steps);
    Before(s2, q, LoadTail(1, true), [Swap(1, true)] + ([Publish(1)] + steps));
    Before(s1, q, LoadHead(1), [LoadTail(1, true)] + ([Swap(1, true)] + ([Publish(1)] + steps)));
    steps' := [LoadHead(1)] + ([LoadTail(1, true)] + ([Swap(1, true)] + ([Publish(1)] + steps)));
    Before(s, q, Begin(1, 1), steps');
    steps' := [Begin(1, 1)] + steps';
  }

  lemma {:induction false} FillAll(size: nat, batchSize: nat, producers: nat, i: nat) returns (steps: seq<Step>)
    requires size >= 2 && batchSize > 0 && producers >= 2 && i < size
    ensures Breaks(Filling(size, batchSize, producers, i), Ones(i), steps)
    decreases size - i
  {
    if i == size - 1 {
      steps := StaleSwap(size, batchSize, producers);
    } else {
      steps := FillAll(size, batchSize, producers, i + 1);
      steps := FillOne(size, batchSize, producers, i, steps);
    }
  }

  /** One message of producer 1 is in the ring, in slot 0. */
  ghost function Started(size: nat, batchSize: nat, producers: nat, full: bool): (s: State)
    requires size >= 2 && batchSize > 0 && producers >= 2
    ensures s.Ok()
  {
    State(batchSize, if full then 1 else 0, 0, seq(size, j => if full && j == 0 then Some(1) else None),
          seq(producers, p => if p == 0 then Ready(0, 0) else Idle), Waiting)
  }

  lemma CollectFirst(size: nat, batchSize: nat, producers: nat, steps: seq<Step>) returns (steps': seq<Step>)
    requires size >= 2 && batchSize > 0 && producers >= 2
    requires Breaks(Filling(size, batchSize, producers, 0), [], steps)
    ensures Breaks(Started(size, batchSize, producers, true), [1], steps')
  {
    hide Breaks;
    var s := Started(size, batchSize, producers, true);
    var s1 := After(s, TakeTail);
    var s2 := After(s1, TakeHead);
    assert s2.consumer == Looking(0, 1, 0, []);
    var s3 := After(s2, Look);
    var s4 := After(s3, Clear);
    var s5 := After(s4, Finish);
    assert s5 == Filling(size, batchSize, producers, 0);
    assert Behaves([1], Dequeued([1])) == [];
    Before(s4, [1], Finish, steps);
    Before(s3, [1], Clear, [Finish] + steps);
    Before(s2, [1], Look, [Clear] + ([Finish] + steps));
    Before(s1, [1], TakeHead, [Look] + ([Clear] + ([Finish] + steps)));
    steps' := [TakeHead] + ([Look] + ([Clear] + ([Finish] + steps)));
    Before(s, [1], TakeTail, steps');
    steps' := [TakeTail] + steps';
  }

  lemma SendFirst(size: nat, batchSize: nat, producers: nat, steps: seq<Step>) returns (steps': seq<Step>)
    requires size >= 2 && batchSize > 0 && producers >= 2
    requires Breaks(Started(size, batchSize, producers, true), [1], steps)
    ensures Breaks(Started(size, batchSize, producers, false), [], steps')
  {
    hide Breaks;
    var s := Started(size, batchSize, producers, false);
    var s1 := After(s, Begin(1, 1));
    var s2 := After(s1, LoadHead(1));
    var s3 := After(s2, LoadTail(1, true));
    var s4 := After(s3, Swap(1, true));
    assert After(s4, Publish(1)) == Started(size, batchSize, producers, true);
    assert [] + [1] == [1];
    Before(s4, [], Publish(1), steps);
    Before(s3, [], Swap(1, true), [Publish(1)] + steps);
    Before(s2, [], LoadTail(1, true), [Swap(1, true)] + ([Publish(1)] + steps));
    Before(s1, [], LoadHead(1), [LoadTail(1, true)] + ([Swap(1, true)] + ([Publish(1)] + steps)));
    steps' := [LoadHead(1)] + ([LoadTail(1, true)] + ([Swap(1, true)] + ([Publish(1)] + steps)));
    Before(s, [], Begin(1, 1), steps');
    steps' := [Begin(1, 1)] + steps';
  }

  lemma LoadFirst(size: nat, batchSize: nat, producers: nat, steps: seq<Step>) returns (steps': seq<Step>)
    requires size >= 2 && batchSize > 0 && producers >= 2
    requires Breaks(Started(size, batchSize, producers, false), [], steps)
    ensures Breaks(Init(size, batchSize, producers), [], steps')
  {
    hide Breaks;
    var s := Init(size, batchSize, producers);
    var s1 := After(s, Begin(0, 0));
    var s2 := After(s1, LoadHead(0));
    assert After(s2, LoadTail(0, true)) == Started(size, batchSize, producers, false);
    Before(s2, [], LoadTail(0, true), steps);
    Before(s1, [], LoadHead(0), [LoadTail(0, true)] + steps);
    steps' := [LoadHead(0)] + ([LoadTail(0, true)] + steps);
    Before(s, [], Begin(0, 0), steps');
    steps' := [Begin(0, 0)] + steps';
  }

  /** With two producers and room for a message some run is not that of a queue. */
  lemma OverlappingSendsBreak(size: nat, batchSize: nat, producers: nat) returns (steps: seq<Step>)
    requires size >= 2 && batchSize > 0 && producers >= 2
    ensures Breaks(Init(size, batchSize, producers), [], steps)
  {
    hide Breaks;
    steps := FillAll(size, batchSize, producers, 0);
    assert Ones(0) == [];
    steps := CollectFirst(size, batchSize, producers, steps);
    steps := SendFirst(size, batchSize, producers, steps);
    steps := LoadFirst(size, batchSize, producers, steps);
  }

  /** All runs of a ring are those of a queue exactly when it has at most one producer or a single slot. */
  lemma FifoExactly(size: nat, batchSize: nat, producers: nat)
    requires size > 0 && batchSize > 0
    ensures (forall steps :: IsRun(Init(size, batchSize, producers), steps)
               ==> IsFifo(Init(size, batchSize, producers), [], steps))
       <==> producers <= 1 || size == 1
  {
    hide IsRun, IsFifo, IsSerial;
    var s := Init(size, batchSize, producers);
    if producers <= 1 || size == 1 {
      forall steps | IsRun(s, steps)
        ensures IsFifo(s, [], steps)
      {
        if producers <= 1 {
          OneProducerIsSerial(s, steps);
          SerialSendsAreFifo(size, batchSize, producers, steps);
        } else {
          OneSlotIsFifo(s, steps);
        }
      }
    } else {
      var steps := OverlappingSendsBreak(size, batchSize, producers);
      assert IsRun(s, steps) && !IsFifo(s, [], steps);
    }
  }
}
