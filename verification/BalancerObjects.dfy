/** loadbalancer.go as objects updated in place; the clock is a parameter. */
module BalancerObjects {
  import opened Bytes
  import opened Options
  import opened RingArithmetic
  import opened Balancer

  class CircuitBreaker {
    var state: State
    var failureCount: int
    var lastFailure: int

    ghost function Look(): Breaker
      reads this
    {
      Breaker(state, failureCount, lastFailure)
    }

    constructor (zero: int)
      ensures Look() == Run(zero, [])
    {
      state, failureCount, lastFailure := Closed, 0, zero;
    }

    method IsAvailable(now: int) returns (available: bool)
      modifies this`state
      ensures available <==> old(state) == Closed || old(state) == HalfOpen || now > old(lastFailure) + 1_000_000_000
      ensures state == if available && old(state) == Open then HalfOpen else old(state)
      ensures Look() == After(old(Look()), Asked(now))
    {
      if state == Open {
        if now - lastFailure > RESET_TIMEOUT {
          state := HalfOpen;
          return true;
        }
        return false;
      }
      return true;
    }

    method RecordSuccess()
      modifies this
      ensures Look() == After(old(Look()), Success)
    {
      failureCount, state := 0, Closed;
    }

    method RecordFailure(now: int)
      modifies this
      ensures Look() == After(old(Look()), Failure(now))
    {
      failureCount := Int32(failureCount + 1);
      if failureCount >= FAILURE_THRESHOLD {
        state, lastFailure := Open, now;
      }
    }

    method Cleanup(now: int)
      modifies this`failureCount
      ensures Look() == After(old(Look()), CleanedUp(now))
    {
      if now - lastFailure > RESET_TIMEOUT * 2 {
        failureCount := 0;
      }
    }
  }

  class Backend {
    var alive: bool
    const breaker: CircuitBreaker

    constructor (breaker: CircuitBreaker)
      ensures alive && this.breaker == breaker
    {
      alive, this.breaker := true, breaker;
    }

    ghost function See(): Look
      reads this, breaker
    {
      Look.Look(alive, breaker.Look())
    }
  }

  ghost function Looks(backends: seq<Backend>): (looks: seq<Look>)
    reads backends, set b | b in backends :: b.breaker
    ensures |looks| == |backends|
    ensures forall i :: 0 <= i < |looks| ==> looks[i] == backends[i].See()
  {
    if backends == [] then [] else [backends[0].See()] + Looks(backends[1..])
  }

  /** The backends that are alive, in order. */
  ghost function Alive(backends: seq<Backend>): seq<Backend>
    reads backends
  {
    if backends == [] then []
    else (if backends[0].alive then [backends[0]] else []) + Alive(backends[1..])
  }

  class LoadBalancer {
    var backends: seq<Backend>
    var current: nat

    /** No two backends share a breaker. */
    ghost predicate Valid()
      reads this
    {
      current < UINT64_LIMIT
      && forall i, j :: 0 <= i < j < |backends| ==> backends[i].breaker != backends[j].breaker
    }

    ghost function Breakers(): set<CircuitBreaker>
      reads this`backends
    {
      set i | 0 <= i < |backends| :: backends[i].breaker
    }

    ghost function See(): (looks: seq<Look>)
      reads this`backends, backends, Breakers()
      ensures |looks| == |backends|
    {
      Looks(backends)
    }

    constructor ()
      ensures Valid() && backends == [] && current == 0
    {
      backends, current := [], 0;
    }

    /** AddBackend, without the health check. */
    method AddBackend(zero: int)
      requires Valid()
      modifies this`backends
      ensures Valid() && |backends| == |old(backends)| + 1 && backends[..|old(backends)|] == old(backends)
      ensures fresh(backends[|old(backends)|]) && fresh(backends[|old(backends)|].breaker)
      ensures backends[|old(backends)|].See() == Look.Look(true, Run(zero, []))
    {
      var breaker := new CircuitBreaker(zero);
      var backend := new Backend(breaker);
      backends := backends + [backend];
    }

    /** Whether this backend is alive and its breaker lets it be used, which may half-open it. */
    method TryBackend(k: nat, now: int) returns (ready: bool)
      requires Valid() && k < |backends|
      modifies backends[k].breaker
      ensures ready <==> Ready(old(See())[k], now)
      ensures ready <==>
              old(backends[k].alive)
              && (old(backends[k].breaker.state) != Open || now > old(backends[k].breaker.lastFailure) + 1_000_000_000)
      ensures See() == if ready then Asking(old(See()), k, now) else old(See())
    {
      ready := backends[k].alive;
      if ready {
        ready := backends[k].breaker.IsAvailable(now);
      }
      forall j | 0 <= j < |backends| && j != k
        ensures backends[j].See() == old(backends[j].See())
      {
        assert backends[j].breaker != backends[k].breaker;
      }
    }

    /**
     The first backend in cyclic order from the counter that is alive and available,
     or none; a panic if the index is that of no backend. Only the breaker of the one
     returned may change.
     */
    method NextBackend(now: int) returns (b: Backend?, panics: bool)
      requires Valid() && current < UINT64_LIMIT
      modifies this`current, Breakers()
      ensures Valid() && backends == old(backends)
      ensures var t := Next(old(See()), old(current), now);
              && See() == t.backends && current == t.current && panics == t.panics
              && b == (if t.chosen.None? then null else backends[t.chosen.value])
      ensures b != null ==>
        && old(allocated(b)) && b in backends && old(b.alive)
        && (old(b.breaker.state) == Open ==> now > old(b.breaker.lastFailure) + 1_000_000_000)
    {
      hide Ready, Available, See, Asking, Pick, Int64, GoIndex, U64;
      ChosenIsFit(See(), current, now);
      Shown();
      if |backends| == 0 {
        return null, false;
      }
      var count := |backends|;
      var idx := GoIndex(current, count);
      Chosen(See(), current, now);
      current := U64(current + 1);
      if idx < 0 || idx >= count {
        return null, true;
      }
      b := Search(idx, now);
      panics := false;
    }

    /** What is seen of each backend. */
    lemma Shown()
      ensures forall i :: 0 <= i < |backends| ==>
        && See()[i].alive == backends[i].alive && See()[i].breaker.state == backends[i].breaker.state
        && See()[i].breaker.lastFailure == backends[i].breaker.lastFailure
    {
    }

    /** The selected backend first, then the others. */
    method Search(idx: nat, now: int) returns (b: Backend?)
      requires Valid() && idx < |backends|
      modifies Breakers()
      ensures var r := Pick(old(See()), idx, 0, now);
              && See() == (if r.None? then old(See()) else Asking(old(See()), r.value, now))
              && b == (if r.None? then null else backends[r.value])
    {
      hide Ready, Available, See, Asking, Pick;
      ghost var looks := See();
      var count := |backends|;
      var ready := TryBackend(idx, now);
      PickStep(looks, idx, 0, now);
      if ready {
        return backends[idx];
      }
      for i := 1 to count
        invariant See() == looks
        invariant Pick(looks, idx, 0, now) == Pick(looks, idx, i, now)
        invariant i == count ==> Pick(looks, idx, i, now) == None
      {
        RemainderPlace(idx, i, count);
        var tryIdx := (idx + i) % count;
        PickStep(looks, idx, i, now);
        ready := TryBackend(tryIdx, now);
        if ready {
          return backends[tryIdx];
        }
      }
      return null;
    }

    /** The dead backends go, from the last to the first; the others stay as they are, in order. */
    method RemoveDeadBackends()
      requires Valid()
      modifies this`backends
      ensures Valid() && backends == Alive(old(backends))
    {
      hide Looks, Run, After;
      var i := |backends|;
      ghost var all := backends;
      assert Alive(all[i..]) == [] && all[..i] == all;
      while i > 0
        invariant i <= |all| && backends == all[..i] + Alive(all[i..])
      {
        i := i - 1;
        AliveStep(all, i);
        if !backends[i].alive {
          backends := backends[..i] + backends[i + 1..];
        }
      }
      AliveDistinct(all);
    }
  }

  ghost function Asking(looks: seq<Look>, k: nat, now: int): seq<Look>
    requires k < |looks|
  {
    looks[k := looks[k].(breaker := After(looks[k].breaker, Asked(now)))]
  }

  lemma Chosen(looks: seq<Look>, current: nat, now: int)
    requires looks != [] && current < UINT64_LIMIT
    ensures 0 <= GoIndex(current, |looks|) < |looks| ==>
      var r := Pick(looks, GoIndex(current, |looks|), 0, now);
      Next(looks, current, now) == Turn(r, if r.None? then looks else Asking(looks, r.value, now), U64(current + 1), false)
    ensures !(0 <= GoIndex(current, |looks|) < |looks|) ==>
      Next(looks, current, now) == Turn(None, looks, U64(current + 1), true)
  {
  }

  lemma PickStep(looks: seq<Look>, start: nat, i: nat, now: int)
    requires start < |looks| && i < |looks|
    ensures Pick(looks, start, i, now)
         == if Ready(looks[Place(start, i, |looks|)], now) then Some(Place(start, i, |looks|)) else Pick(looks, start, i + 1, now)
    ensures i + 1 == |looks| ==> Pick(looks, start, i + 1, now) == None
  {
  }

  lemma AliveStep(backends: seq<Backend>, i: nat)
    requires i < |backends|
    ensures Alive(backends[i..]) == (if backends[i].alive then [backends[i]] else []) + Alive(backends[i + 1..])
  {
    assert backends[i..][1..] == backends[i + 1..];
  }

  /** The live backends of two lists, one behind the other; and of one backend alone. */
  lemma {:induction false} AliveAppend(a: seq<Backend>, b: seq<Backend>)
    ensures Alive(a + b) == Alive(a) + Alive(b)
    ensures |a| == 1 ==> Alive(a) == if a[0].alive then a else []
  {
    if a == [] {
      assert a + b == b;
    } else {
      assert (a + b)[1..] == a[1..] + b;
      AliveAppend(a[1..], b);
    }
  }

  lemma {:induction false} AliveDistinct(backends: seq<Backend>)
    requires forall i, j :: 0 <= i < j < |backends| ==> backends[i].breaker != backends[j].breaker
    ensures forall i, j :: 0 <= i < j < |Alive(backends)| ==> Alive(backends)[i].breaker != Alive(backends)[j].breaker
    ensures forall i :: 0 <= i < |Alive(backends)| ==> Alive(backends)[i] in backends && Alive(backends)[i].alive
    ensures forall b :: b in backends && b.alive ==> b in Alive(backends)
  {
    if backends != [] {
      var rest := Alive(backends[1..]);
      AliveDistinct(backends[1..]);
      forall k | 0 <= k < |rest|
        ensures rest[k].breaker != backends[0].breaker
      {
        assert rest[k] in backends[1..];
      }
    }
  }
}
