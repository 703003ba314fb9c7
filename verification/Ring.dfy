/** The batch writer of ksps/batch.go: a ring of message slots, with one call running at a time. */
module Ring {
  import opened Bytes
  import opened RingArithmetic
  import RingSteps
  import opened Options

  const DEFAULT_BATCH_SIZE: int := 64
  const MAX_SPIN_COUNT: int := 30

  type Msg = RingSteps.Msg

  /** From place `from` behind tail on, the ring holds q; every other slot is empty. */
  ghost predicate Holds(buffer: array<Option<Msg>>, tail: nat, from: nat, q: seq<Msg>)
    requires tail < buffer.Length
    reads buffer
  {
    forall i :: 0 <= i < buffer.Length ==>
      buffer[Place(tail, i, buffer.Length)] == if from <= i < |q| then Some(q[i]) else None
  }

  class BatchWriter {
    const buffer: array<Option<Msg>>
    const mask: nat
    const batchSize: nat
    var head: nat
    var tail: nat
    var active: bool
    var dropped: nat
    /** The messages in the ring, oldest first. */
    ghost var queue: seq<Msg>

    /** The ring holds the queue from tail to head; every other slot is empty. */
    ghost predicate Valid()
      reads this, buffer
    {
      var size := buffer.Length;
      && Masks(mask, size) && batchSize > 0
      && head < size && tail < size
      && |queue| == Distance(head, tail, size)
      && Holds(buffer, tail, 0, queue)
    }

    /** NewBatchWriter: the size is rounded up to a power of two. */
    constructor (ringSize: int, batchSize: int)
      ensures Valid() && fresh(buffer) && queue == [] && active && dropped == 0
      ensures buffer.Length == RingSize(ringSize)
      ensures this.batchSize == if batchSize <= 0 then DEFAULT_BATCH_SIZE else batchSize
    {
      ghost var k := RingSizePower(ringSize);
      buffer := new Option<Msg>[RingSize(ringSize)](_ => None);
      mask := RingSize(ringSize) - 1;
      this.batchSize := if batchSize <= 0 then DEFAULT_BATCH_SIZE else batchSize;
      head, tail, active, dropped, queue := 0, 0, true, 0, [];
      new;
      assert Masks(mask, buffer.Length);
    }

    /**
     A message is queued behind the others unless the writer is closed or the
     ring has only one free slot left; a full ring is tried again a fixed number
     of times before the message is dropped.
     */
    method Send(msg: Msg) returns (ok: bool)
      requires Valid()
      modifies this`head, this`dropped, this`queue, buffer
      ensures Valid()
      ensures ok <==> active && |old(queue)| < buffer.Length - 1
      ensures queue == if ok then old(queue) + [msg] else old(queue)
      ensures dropped == old(dropped) + if active && !ok then 1 else 0
      ensures head == if ok then Place(old(head), 1, buffer.Length) else old(head)
    {
      hide And, Masks;
      if !active {
        return false;
      }
      SizeBound(mask, buffer.Length);
      var spins := 0;
      while true
        invariant Valid() && queue == old(queue) && head == old(head) && dropped == old(dropped)
        invariant buffer[..] == old(buffer[..])
        decreases 4 * MAX_SPIN_COUNT + 2 - spins
      {
        MaskedPlace(head, 1, mask, buffer.Length);
        var nextHead := And(U64(head + 1), mask);
        if nextHead == tail {
          if spins > 4 * MAX_SPIN_COUNT {
            dropped := dropped + 1;
            return false;
          }
          spins := spins + 1;
        } else {
          buffer[head] := Some(msg);
          head, queue := nextHead, queue + [msg];
          return true;
        }
      }
    }

    /** TrySend: as Send, but a full ring is not tried again. */
    method TrySend(msg: Msg) returns (ok: bool)
      requires Valid()
      modifies this`head, this`queue, buffer
      ensures Valid()
      ensures ok <==> active && |old(queue)| < buffer.Length - 1
      ensures queue == if ok then old(queue) + [msg] else old(queue)
    {
      hide And, Masks;
      if !active {
        return false;
      }
      SizeBound(mask, buffer.Length);
      MaskedPlace(head, 1, mask, buffer.Length);
      var nextHead := And(U64(head + 1), mask);
      if nextHead == tail {
        return false;
      }
      buffer[head] := Some(msg);
      head, queue := nextHead, queue + [msg];
      return true;
    }

    /** How many messages there are to collect, as collectBatch computes it. */
    method Available() returns (n: nat)
      requires Valid()
      ensures n == |queue|
    {
      hide And, Masks, Holds, U64;
      MaskedDistance(head, tail, mask, buffer.Length);
      n := And(U64(head - tail), mask);
      if head < tail {
        n := U64(U64(U64(mask + 1) - tail) + head);
      }
    }

    /** The loop of collectBatch over the slots. */
    method TakeSlots(available: nat) returns (batch: seq<Msg>)
      requires Valid() && available <= |queue|
      modifies buffer
      ensures batch == queue[..available] && Holds(buffer, tail, available, queue)
    {
      hide And, Masks;
      batch := [];
      for i := 0 to available
        invariant batch == queue[..i]
        invariant Holds(buffer, tail, i, queue)
      {
        MaskedPlace(tail, i, mask, buffer.Length);
        var idx := And(U64(tail + i), mask);
        if buffer[idx].Some? {
          batch := batch + [buffer[idx].value];
          buffer[idx] := None;
        }
      }
    }

    /** The oldest messages are taken out of the ring, at most batchSize of them. */
    method CollectBatch() returns (batch: seq<Msg>)
      requires Valid()
      modifies this`tail, this`queue, buffer
      ensures Valid()
      ensures batch + queue == old(queue)
      ensures |batch| == if |old(queue)| <= batchSize then |old(queue)| else batchSize
    {
      hide And, Masks, Holds, U64;
      var available := Available();
      if available == 0 {
        return [];
      }
      if available > batchSize {
        available := batchSize;
      }
      batch := TakeSlots(available);
      if |batch| > 0 {
        MaskedPlace(tail, |batch|, mask, buffer.Length);
        Advanced(buffer, head, tail, queue, |batch|);
        tail := And(U64(tail + |batch|), mask);
        queue := queue[|batch|..];
      }
    }

    /** With no sends going on, draining empties the ring and passes every message on, in order. */
    method DrainAndSend() returns (out: seq<Msg>)
      requires Valid()
      modifies this`tail, this`queue, buffer
      ensures Valid()
      ensures queue == [] && out == old(queue)
    {
      out := [];
      var batch := CollectBatch();
      while |batch| != 0
        invariant Valid()
        invariant out + batch + queue == old(queue)
        invariant |batch| == 0 ==> queue == []
        decreases |batch| + |queue|
      {
        out := out + batch;
        ghost var before := queue;
        batch := CollectBatch();
        assert out + batch + queue == out + before;
      }
    }

    /** How many messages wait. */
    method Size() returns (n: nat)
      requires Valid()
      ensures n == |queue|
    {
      hide And, Masks;
      MaskedDistance(head, tail, mask, buffer.Length);
      n := And(U64(head - tail), mask);
    }
  }

  /** Moving tail over n emptied slots leaves the rest of the queue. */
  lemma Advanced(buffer: array<Option<Msg>>, head: nat, tail: nat, q: seq<Msg>, n: nat)
    requires head < buffer.Length && tail < buffer.Length && n <= |q| == Distance(head, tail, buffer.Length)
    requires Holds(buffer, tail, n, q)
    ensures Distance(head, Place(tail, n, buffer.Length), buffer.Length) == |q| - n
    ensures Holds(buffer, Place(tail, n, buffer.Length), 0, q[n..])
  {
    var size := buffer.Length;
    var tail' := Place(tail, n, size);
    forall i | 0 <= i < size
      ensures buffer[Place(tail', i, size)] == if 0 <= i < |q[n..]| then Some(q[n..][i]) else None
    {
      var j := if n + i < size then n + i else n + i - size;
      assert Place(tail', i, size) == Place(tail, j, size);
    }
  }
}
