/**
 A second way for overlapping sends to break the order, without any stale swap:
 the consumer steps over a slot that is claimed but not yet published, takes the
 message behind it, and moves tail by one.
 */
module RingSkips {
  import opened Options
  import opened RingSteps

  /** A run in which head never goes round, so that no swap is stale, and which is not that of a queue holding q. */
  ghost predicate Overtakes(s: State, q: seq<Msg>, steps: seq<Step>)
    requires s.Ok()
  {
    IsRun(s, steps) && !IsFifo(s, q, steps) && NeverRound(s, steps)
  }

  ghost predicate NeverRound(s: State, steps: seq<Step>)
    requires s.Ok() && IsRun(s, steps)
    decreases |steps|
  {
    steps == [] || (s.head <= After(s, steps[0]).head && NeverRound(After(s, steps[0]), steps[1..]))
  }

  lemma Ahead(s: State, q: seq<Msg>, a: Step, steps: seq<Step>)
    requires s.Ok() && Enabled(s, a) && Overtakes(After(s, a), Behaves(q, EventOf(s, a)), steps)
    requires s.head <= After(s, a).head
    ensures Overtakes(s, q, [a] + steps)
  {
    hide Enabled, After, EventOf, Behaves, Accepts, Overwrites;
    assert ([a] + steps)[1..] == steps;
  }

  /** Producer 0 is at x, the others are idle; the first three slots hold a, b and c. */
  ghost function Scene(size: nat, producers: nat, x: Producer, head: nat, tail: nat,
                       a: Option<Msg>, b: Option<Msg>, c: Option<Msg>): (s: State)
    requires size >= 4 && producers >= 2 && head < size && tail < size
    requires x.Idle? || (x.Claimed? && x.h == 0)
    ensures s.Ok()
  {
    State(2, head, tail, seq(size, j => if j == 0 then a else if j == 1 then b else if j == 2 then c else None),
          seq(producers, p => if p == 0 then x else Idle), Waiting)
  }

  /** The message 9 overtakes the message 7, which was sent before it. */
  lemma Overtaken(size: nat, producers: nat) returns (steps: seq<Step>)
    requires size >= 4 && producers >= 2
    ensures Overtakes(Scene(size, producers, Idle, 3, 1, Some(7), None, Some(9)), [7, 9], steps)
  {
    hide Overtakes;
    var s := Scene(size, producers, Idle, 3, 1, Some(7), None, Some(9));
    var s1 := After(s, TakeTail);
    var s2 := After(s1, TakeHead);
    var s3 := After(s2, Look);
    var s4 := After(s3, Look);
    var s5 := After(s4, Clear);
    assert s5.consumer == Looking(1, 2, 2, [9]);
    NotNext(s5);
    Ahead(s4, [7, 9], Clear, [Finish]);
    Ahead(s3, [7, 9], Look, [Clear] + [Finish]);
    Ahead(s2, [7, 9], Look, [Look] + ([Clear] + [Finish]));
    steps := [Look] + ([Look] + ([Clear] + [Finish]));
    Ahead(s1, [7, 9], TakeHead, steps);
    steps := [TakeHead] + steps;
    Ahead(s, [7, 9], TakeTail, steps);
    steps := [TakeTail] + steps;
  }

  lemma NotNext(s: State)
    requires s.Ok() && s.consumer.Looking? && s.consumer.i == s.consumer.available && s.consumer.batch == [9]
    ensures Overtakes(s, [7, 9], [Finish])
  {
    assert [Finish][1..] == [];
    assert !([9] <= [7, 9]) by {
      assert [9][0] != [7, 9][0];
    }
    assert EventOf(s, [Finish][0]) == Dequeued([9]);
  }

  /** Producer 1 sends m through slot h while producer 0 stays where it is. */
  lemma SendBefore(size: nat, producers: nat, x: Producer, h: nat, tail: nat, a: Option<Msg>, m: Msg, q: seq<Msg>,
                   steps: seq<Step>)
    returns (steps': seq<Step>)
    requires size >= 4 && producers >= 2 && (x.Idle? || (x.Claimed? && x.h == 0))
    requires (h == 1 && tail == 0) || (h == 2 && tail == 1)
    requires Overtakes(Scene(size, producers, x, h + 1, tail, a, if h == 1 then Some(m) else None, if h == 2 then Some(m) else None),
                    q + [m], steps)
    ensures Overtakes(Scene(size, producers, x, h, tail, a, None, None), q, steps')
  {
    hide Overtakes;
    var s := Scene(size, producers, x, h, tail, a, None, None);
    var s1 := After(s, Begin(1, m));
    var s2 := After(s1, LoadHead(1));
    var s3 := After(s2, LoadTail(1, true));
    var s4 := After(s3, Swap(1, true));
    assert After(s4, Publish(1))
        == Scene(size, producers, x, h + 1, tail, a, if h == 1 then Some(m) else None, if h == 2 then Some(m) else None);
    Ahead(s4, q, Publish(1), steps);
    steps' := [Publish(1)] + steps;
    Ahead(s3, q, Swap(1, true), steps');
    steps' := [Swap(1, true)] + steps';
    Ahead(s2, q, LoadTail(1, true), steps');
    steps' := [LoadTail(1, true)] + steps';
    Ahead(s1, q, LoadHead(1), steps');
    steps' := [LoadHead(1)] + steps';
    Ahead(s, q, Begin(1, m), steps');
    steps' := [Begin(1, m)] + steps';
  }

  lemma PublishLate(size: nat, producers: nat, steps: seq<Step>) returns (steps': seq<Step>)
    requires size >= 4 && producers >= 2
    requires Overtakes(Scene(size, producers, Idle, 2, 1, Some(7), None, None), [7], steps)
    ensures Overtakes(Scene(size, producers, Claimed(7, 0), 2, 1, None, None, None), [], steps')
  {
    hide Overtakes;
    var s := Scene(size, producers, Claimed(7, 0), 2, 1, None, None, None);
    assert After(s, Publish(0)) == Scene(size, producers, Idle, 2, 1, Some(7), None, None);
    assert [] + [7] == [7];
    Ahead(s, [], Publish(0), steps);
    steps' := [Publish(0)] + steps;
  }

  /** Slot 0 is claimed but empty: it is stepped over, and only the message in slot 1 is taken. */
  lemma StepOver(size: nat, producers: nat, steps: seq<Step>) returns (steps': seq<Step>)
    requires size >= 4 && producers >= 2
    requires Overtakes(Scene(size, producers, Claimed(7, 0), 2, 1, None, None, None), [], steps)
    ensures Overtakes(Scene(size, producers, Claimed(7, 0), 2, 0, None, Some(8), None), [8], steps')
  {
    hide Overtakes;
    var s := Scene(size, producers, Claimed(7, 0), 2, 0, None, Some(8), None);
    var s1 := After(s, TakeTail);
    var s2 := After(s1, TakeHead);
    var s3 := After(s2, Look);
    var s4 := After(s3, Look);
    var s5 := After(s4, Clear);
    assert s5.consumer == Looking(0, 2, 2, [8]);
    assert After(s5, Finish) == Scene(size, producers, Claimed(7, 0), 2, 1, None, None, None);
    assert Behaves([8], Dequeued([8])) == [];
    Ahead(s5, [8], Finish, steps);
    steps' := [Finish] + steps;
    Ahead(s4, [8], Clear, steps');
    steps' := [Clear] + steps';
    Ahead(s3, [8], Look, steps');
    steps' := [Look] + steps';
    Ahead(s2, [8], Look, steps');
    steps' := [Look] + steps';
    Ahead(s1, [8], TakeHead, steps');
    steps' := [TakeHead] + steps';
    Ahead(s, [8], TakeTail, steps');
    steps' := [TakeTail] + steps';
  }

  lemma ClaimFirst(size: nat, producers: nat, steps: seq<Step>) returns (steps': seq<Step>)
    requires size >= 4 && producers >= 2
    requires Overtakes(Scene(size, producers, Claimed(7, 0), 1, 0, None, None, None), [], steps)
    ensures Overtakes(Init(size, 2, producers), [], steps')
  {
    hide Overtakes;
    var s := Init(size, 2, producers);
    var s1 := After(s, Begin(0, 7));
    var s2 := After(s1, LoadHead(0));
    var s3 := After(s2, LoadTail(0, true));
    assert After(s3, Swap(0, true)) == Scene(size, producers, Claimed(7, 0), 1, 0, None, None, None);
    Ahead(s3, [], Swap(0, true), steps);
    steps' := [Swap(0, true)] + steps;
    Ahead(s2, [], LoadTail(0, true), steps');
    steps' := [LoadTail(0, true)] + steps';
    Ahead(s1, [], LoadHead(0), steps');
    steps' := [LoadHead(0)] + steps';
    Ahead(s, [], Begin(0, 7), steps');
    steps' := [Begin(0, 7)] + steps';
  }

  /** The same failure without a stale swap. */
  lemma SkippedSlotBreaks(size: nat, producers: nat) returns (steps: seq<Step>)
    requires size >= 4 && producers >= 2
    ensures Overtakes(Init(size, 2, producers), [], steps)
  {
    hide Overtakes, Scene;
    steps := Overtaken(size, producers);
    assert [7] + [9] == [7, 9] && [] + [8] == [8];
    steps := SendBefore(size, producers, Idle, 2, 1, Some(7), 9, [7], steps);
    steps := PublishLate(size, producers, steps);
    steps := StepOver(size, producers, steps);
    steps := SendBefore(size, producers, Claimed(7, 0), 1, 0, None, 8, [], steps);
    steps := ClaimFirst(size, producers, steps);
  }
}
