/** The round-robin load balancer of loadbalancer.go and the circuit breakers of its backends. */
module Balancer {
  import opened Bytes
  import opened Options
  import opened RingArithmetic

  // ----- What a breaker does, as values -----

  datatype State = Closed | Open | HalfOpen

  const FAILURE_THRESHOLD: int := 5
  const RESET_TIMEOUT: int := 1_000_000_000

  /** Times are in nanoseconds. */
  datatype Breaker = Breaker(state: State, failureCount: int, lastFailure: int)

  datatype Event = Success | Failure(now: int) | Asked(now: int) | CleanedUp(now: int)

  predicate Available(b: Breaker, now: int) {
    b.state != Open || now - b.lastFailure > RESET_TIMEOUT
  }

  function After(b: Breaker, e: Event): Breaker {
    match e
    case Success => b.(state := Closed, failureCount := 0)
    case Failure(now) =>
      var n := Int32(b.failureCount + 1);
      if n >= FAILURE_THRESHOLD then Breaker(Open, n, now) else b.(failureCount := n)
    case Asked(now) => if b.state == Open && Available(b, now) then b.(state := HalfOpen) else b
    case CleanedUp(now) => if now - b.lastFailure > 2 * RESET_TIMEOUT then b.(failureCount := 0) else b
  }

  /** A new breaker; its last failure is the zero time. */
  function Run(zero: int, events: seq<Event>): Breaker {
    if events == [] then Breaker(Closed, 0, zero) else After(Run(zero, events[..|events| - 1]), events[|events| - 1])
  }

  /** In every run, for all the wrap-around of the counter, a closed breaker is below its threshold. */
  lemma {:induction false} ClosedBelowThreshold(zero: int, events: seq<Event>)
    ensures Run(zero, events).state == Closed ==> 0 <= Run(zero, events).failureCount < FAILURE_THRESHOLD
  {
    if events != [] {
      ClosedBelowThreshold(zero, events[..|events| - 1]);
    }
  }

  /** How many failures there were at the end of the run, with neither a success nor an effective cleanup between them. */
  function Streak(zero: int, events: seq<Event>): nat {
    if events == [] then 0
    else
      var front, e := events[..|events| - 1], events[|events| - 1];
      match e
      case Success => 0
      case Failure(_) => Streak(zero, front) + 1
      case Asked(_) => Streak(zero, front)
      case CleanedUp(now) => if now - Run(zero, front).lastFailure > 2 * RESET_TIMEOUT then 0 else Streak(zero, front)
  }

  /** The k-th event is a failure that completes a streak, and no success has come since. */
  ghost predicate Trips(zero: int, events: seq<Event>, k: nat)
    requires k < |events|
  {
    && events[k].Failure? && Streak(zero, events[..k + 1]) >= FAILURE_THRESHOLD
    && forall j :: k < j < |events| ==> !events[j].Success?
  }

  lemma {:induction false} StreakCounts(zero: int, events: seq<Event>)
    ensures Run(zero, events).state == Closed ==> Run(zero, events).failureCount == Streak(zero, events)
  {
    if events != [] {
      StreakCounts(zero, events[..|events| - 1]);
      ClosedBelowThreshold(zero, events[..|events| - 1]);
    }
  }

  lemma TripsLonger(zero: int, events: seq<Event>, k: nat)
    requires k < |events| - 1
    ensures Trips(zero, events, k) <==> Trips(zero, events[..|events| - 1], k) && !events[|events| - 1].Success?
  {
    var front := events[..|events| - 1];
    assert front[..k + 1] == events[..k + 1];
    assert forall j :: 0 <= j < |front| ==> front[j] == events[j];
  }

  /** A breaker is closed exactly when no streak of five failures has been completed since the last success. */
  lemma {:induction false} ClosedExactly(zero: int, events: seq<Event>)
    ensures Run(zero, events).state == Closed <==> forall k :: 0 <= k < |events| ==> !Trips(zero, events, k)
  {
    if events != [] {
      var n := |events| - 1;
      var front := events[..n];
      ClosedExactly(zero, front);
      hide Trips;
      StreakCounts(zero, front);
      ClosedBelowThreshold(zero, front);
      LastTrips(zero, events);
      forall k | 0 <= k < n
        ensures Trips(zero, events, k) <==> Trips(zero, front, k) && !events[n].Success?
      {
        TripsLonger(zero, events, k);
      }
    }
  }

  lemma LastTrips(zero: int, events: seq<Event>)
    requires events != []
    ensures Trips(zero, events, |events| - 1) <==>
            events[|events| - 1].Failure? && Streak(zero, events) >= FAILURE_THRESHOLD
  {
    assert events[..|events|] == events;
  }

  // ----- When a question is refused -----

  lemma Int32Next(n: nat)
    ensures Int32(Int32(n) + 1) == Int32(n + 1) && Int32(0) == 0
  {
  }

  /** The counter is the streak, in 32 bits. */
  lemma {:induction false} CountIsStreak(zero: int, events: seq<Event>)
    ensures Run(zero, events).failureCount == Int32(Streak(zero, events))
  {
    hide Int32;
    Int32Next(if events == [] then 0 else Streak(zero, events[..|events| - 1]));
    if events != [] {
      CountIsStreak(zero, events[..|events| - 1]);
    }
  }

  /** The k-th event is a failure that the counter, of 32 bits, has at the threshold of five or above. */
  ghost predicate Opens(zero: int, events: seq<Event>, k: nat)
    requires k < |events|
  {
    events[k].Failure? && Int32(Streak(zero, events[..k + 1])) >= 5
  }

  /** The j-th event leaves a breaker open that opened at `since`: no success, no new opening, no question after a second. */
  ghost predicate LeavesOpen(zero: int, events: seq<Event>, j: nat, since: int)
    requires j < |events|
  {
    match events[j]
    case Success => false
    case Failure(_) => !Opens(zero, events, j)
    case Asked(now) => now <= since + 1_000_000_000
    case CleanedUp(_) => true
  }

  /** The breaker was opened last by the k-th event, and nothing has closed or half-opened it since. */
  ghost predicate OpenSince(zero: int, events: seq<Event>, k: nat)
    requires k < |events|
  {
    Opens(zero, events, k) && forall j :: k < j < |events| ==> LeavesOpen(zero, events, j, events[k].now)
  }

  lemma SamePrefix(zero: int, events: seq<Event>, j: nat, since: int)
    requires j < |events| - 1
    ensures var front := events[..|events| - 1];
            && (Opens(zero, front, j) <==> Opens(zero, events, j))
            && (LeavesOpen(zero, front, j, since) <==> LeavesOpen(zero, events, j, since))
  {
    assert events[..|events| - 1][..j + 1] == events[..j + 1];
  }

  lemma OpenLonger(zero: int, events: seq<Event>, k: nat)
    requires k < |events| - 1
    requires events[k].Failure?
    ensures OpenSince(zero, events, k) <==>
            && OpenSince(zero, events[..|events| - 1], k)
            && LeavesOpen(zero, events, |events| - 1, events[k].now)
  {
    hide LeavesOpen;
    var front := events[..|events| - 1];
    SamePrefix(zero, events, k, 0);
    forall j | k < j < |front|
      ensures LeavesOpen(zero, front, j, events[k].now) <==> LeavesOpen(zero, events, j, events[k].now)
    {
      SamePrefix(zero, events, j, events[k].now);
    }
  }

  /** A breaker that was opened and left so is open, with the time of that failure. */
  lemma {:induction false} SinceOpen(zero: int, events: seq<Event>, k: nat)
    requires k < |events| && OpenSince(zero, events, k)
    ensures Run(zero, events).state == Open && Run(zero, events).lastFailure == events[k].now
    decreases |events|
  {
    var n := |events| - 1;
    CountIsStreak(zero, events);
    assert events[..n + 1] == events;
    if k < n {
      OpenLonger(zero, events, k);
      SinceOpen(zero, events[..n], k);
    }
  }

  /** An open breaker was opened by some failure and left so. */
  lemma {:induction false} OpenBySome(zero: int, events: seq<Event>) returns (k: nat)
    requires Run(zero, events).state == Open
    ensures k < |events| && OpenSince(zero, events, k)
    decreases |events|
  {
    var n := |events| - 1;
    var front := events[..n];
    CountIsStreak(zero, events);
    assert events[..n + 1] == events;
    if Opens(zero, events, n) {
      k := n;
    } else {
      k := OpenBySome(zero, front);
      SinceOpen(zero, front, k);
      OpenLonger(zero, events, k);
    }
  }

  /**
   In every run a question is refused exactly if a failure opened the breaker, at the
   fifth in a row or later, nothing has closed or half-opened it since, and the second
   is not over.
   */
  lemma RefusedExactly(zero: int, events: seq<Event>, now: int)
    ensures !Available(Run(zero, events), now) <==>
            exists k :: 0 <= k < |events| && OpenSince(zero, events, k) && now <= events[k].now + 1_000_000_000
  {
    hide Run;
    forall k | 0 <= k < |events| && OpenSince(zero, events, k)
      ensures Run(zero, events).state == Open && Run(zero, events).lastFailure == events[k].now
    {
      SinceOpen(zero, events, k);
    }
    if Run(zero, events).state == Open {
      var k := OpenBySome(zero, events);
    }
  }

  /**
   From the failure that completes a streak of five on, questions within a second are
   refused and change nothing, and the first one after it is answered.
   */
  lemma RefusesForASecond(zero: int, events: seq<Event>, t: int, asked: seq<int>, now: int)
    requires Streak(zero, events) == 4
    requires forall i :: 0 <= i < |asked| ==> asked[i] <= t + 1_000_000_000
    ensures var tripped := events + [Failure(t)];
            && Run(zero, tripped + Questions(asked)) == Run(zero, tripped)
            && (Available(Run(zero, tripped + Questions(asked)), now) <==> now > t + 1_000_000_000)
    decreases |asked|
  {
    var tripped := events + [Failure(t)];
    assert tripped[..|events|] == events && tripped[..|tripped|] == tripped;
    assert tripped + [] == tripped;
    assert OpenSince(zero, tripped, |events|);
    SinceOpen(zero, tripped, |events|);
    if asked != [] {
      var n := |asked| - 1;
      RefusesForASecond(zero, events, t, asked[..n], now);
      var all := tripped + Questions(asked);
      assert all[..|all| - 1] == tripped + Questions(asked[..n]);
    }
  }

  function Questions(times: seq<int>): (events: seq<Event>)
    ensures |events| == |times|
  {
    seq(|times|, i requires 0 <= i < |times| => Asked(times[i]))
  }

  // ----- Which backend comes next, as values -----

  datatype Look = Look(alive: bool, breaker: Breaker)

  predicate Ready(b: Look, now: int) {
    b.alive && Available(b.breaker, now)
  }

  /** The first backend that is ready, going round from start, the i before it being passed over. */
  function Pick(backends: seq<Look>, start: nat, i: nat, now: int): (r: Option<nat>)
    requires start < |backends| && i <= |backends|
    ensures r.Some? ==> r.value < |backends|
    decreases |backends| - i
  {
    if i == |backends| then None
    else if Ready(backends[Place(start, i, |backends|)], now) then Some(Place(start, i, |backends|))
    else Pick(backends, start, i + 1, now)
  }

  /** The j-th in cyclic order from start is the first that is ready. */
  ghost predicate IsFirstReady(backends: seq<Look>, start: nat, j: nat, now: int)
    requires start < |backends| && j < |backends|
  {
    && Ready(backends[Place(start, j, |backends|)], now)
    && forall i :: 0 <= i < j ==> !Ready(backends[Place(start, i, |backends|)], now)
  }

  lemma {:induction false} PickFirst(backends: seq<Look>, start: nat, i: nat, now: int)
    requires start < |backends| && i <= |backends|
    requires forall k :: 0 <= k < i ==> !Ready(backends[Place(start, k, |backends|)], now)
    ensures var r := Pick(backends, start, i, now);
            && (r.Some? ==> exists j :: i <= j < |backends| && r.value == Place(start, j, |backends|) && IsFirstReady(backends, start, j, now))
            && (r.None? ==> forall b :: b in backends ==> !Ready(b, now))
    decreases |backends| - i
  {
    hide Ready;
    if i == |backends| {
      forall b | b in backends
        ensures !Ready(b, now)
      {
        var k :| 0 <= k < |backends| && backends[k] == b;
        assert Place(start, Distance(k, start, |backends|), |backends|) == k;
      }
    } else if Ready(backends[Place(start, i, |backends|)], now) {
      assert IsFirstReady(backends, start, i, now);
    } else {
      PickFirst(backends, start, i + 1, now);
    }
  }

  /** int(current) % count, with Go's remainder, which has the sign of the dividend. */
  function GoIndex(current: nat, count: nat): int
    requires count > 0
  {
    var x := Int64(current);
    if x >= 0 then x % count else -((-x) % count)
  }

  /** The index is one of the backends exactly while the counter is below 2^63, or is the odd multiple beyond. */
  lemma IndexInRange(current: nat, count: nat)
    requires 0 < count && current < UINT64_LIMIT
    ensures 0 <= GoIndex(current, count) < count <==> current < INT64_LIMIT || (UINT64_LIMIT - current) % count == 0
    ensures current < INT64_LIMIT ==> GoIndex(current, count) == current % count
  {
    Int64Exact(current);
    if current >= INT64_LIMIT {
      assert Int64(current) == current - UINT64_LIMIT;
    }
  }

  /** One call of NextBackend: the index it returns, the backends and the counter behind it, or that it panics. */
  datatype Turn = Turn(chosen: Option<nat>, backends: seq<Look>, current: nat, panics: bool)

  function Next(backends: seq<Look>, current: nat, now: int): (t: Turn)
    requires current < UINT64_LIMIT
    ensures |t.backends| == |backends| && t.current < UINT64_LIMIT
  {
    var n := |backends|;
    if n == 0 then Turn(None, backends, current, false)
    else if !(0 <= GoIndex(current, n) < n) then Turn(None, backends, U64(current + 1), true)
    else
      var r := Pick(backends, GoIndex(current, n), 0, now);
      Turn(r,
           if r.None? then backends
           else backends[r.value := backends[r.value].(breaker := After(backends[r.value].breaker, Asked(now)))],
           U64(current + 1), false)
  }

  /** A backend is never returned that is dead, or whose breaker opened no more than a second ago. */
  lemma ChosenIsFit(backends: seq<Look>, current: nat, now: int)
    requires current < UINT64_LIMIT
    ensures var t := Next(backends, current, now);
            t.chosen.Some? ==>
              var b := backends[t.chosen.value];
              b.alive && (b.breaker.state == Open ==> now > b.breaker.lastFailure + 1_000_000_000)
  {
    var n := |backends|;
    if n > 0 && 0 <= GoIndex(current, n) < n {
      PickFirst(backends, GoIndex(current, n), 0, now);
    }
  }

  /** The same from the history of a backend's breaker. */
  lemma OpenedIsPassedOver(backends: seq<Look>, current: nat, now: int, i: nat, zero: int, events: seq<Event>, k: nat)
    requires current < UINT64_LIMIT && i < |backends| && backends[i].breaker == Run(zero, events)
    requires k < |events| && OpenSince(zero, events, k) && now <= events[k].now + 1_000_000_000
    ensures Next(backends, current, now).chosen != Some(i)
    ensures Next(backends, current, now).backends[i] == backends[i]
  {
    hide OpenSince, Run;
    SinceOpen(zero, events, k);
    ChosenIsFit(backends, current, now);
  }

  /** A call panics exactly when there are backends and the counter gives an index that none of them has. */
  lemma PanicsExactly(backends: seq<Look>, current: nat, now: int)
    requires current < UINT64_LIMIT
    ensures Next(backends, current, now).panics <==>
            backends != [] && current >= INT64_LIMIT && (UINT64_LIMIT - current) % |backends| != 0
  {
    if backends != [] {
      IndexInRange(current, |backends|);
    }
  }

  /** What consecutive calls return. */
  function Calls(backends: seq<Look>, current: nat, times: seq<int>): seq<Option<nat>>
    requires current < UINT64_LIMIT
    decreases |times|
  {
    if times == [] then []
    else
      var t := Next(backends, current, times[0]);
      [t.chosen] + Calls(t.backends, t.current, times[1..])
  }

  /** At each of these times every backend would be accepted, be it by half-opening its breaker. */
  ghost predicate AllReady(backends: seq<Look>, times: seq<int>) {
    forall i, k :: 0 <= i < |backends| && 0 <= k < |times| ==> Ready(backends[i], times[k])
  }

  /** Accepting a backend keeps it ready. */
  lemma StillReady(backends: seq<Look>, current: nat, times: seq<int>)
    requires AllReady(backends, times) && times != [] && current < UINT64_LIMIT
    ensures AllReady(Next(backends, current, times[0]).backends, times[1..])
  {
    hide Pick, GoIndex, U64;
    var t := Next(backends, current, times[0]);
    forall i, k | 0 <= i < |t.backends| && 0 <= k < |times[1..]|
      ensures Ready(t.backends[i], times[1..][k])
    {
      assert Ready(backends[i], times[k + 1]);
    }
  }

  lemma FirstChosen(backends: seq<Look>, current: nat, times: seq<int>)
    requires backends != [] && AllReady(backends, times) && times != [] && current < INT64_LIMIT
    ensures var t := Next(backends, current, times[0]);
            t.chosen == Some(current % |backends|) && t.current == current + 1 && !t.panics
  {
    hide Ready, GoIndex;
    IndexInRange(current, |backends|);
    assert Ready(backends[Place(current % |backends|, 0, |backends|)], times[0]);
  }

  /** While all backends are ready, the calls go round. */
  lemma {:induction false} GoesRound(backends: seq<Look>, current: nat, times: seq<int>, k: nat)
    requires backends != [] && AllReady(backends, times) && current + |times| <= INT64_LIMIT && k < |times|
    ensures |Calls(backends, current, times)| == |times|
    ensures Calls(backends, current, times)[k] == Some((current + k) % |backends|)
    decreases |times|
  {
    hide Next, AllReady;
    var t := Next(backends, current, times[0]);
    FirstChosen(backends, current, times);
    StillReady(backends, current, times);
    if |times| > 1 {
      GoesRound(t.backends, t.current, times[1..], if k > 0 then k - 1 else 0);
    }
  }

  lemma RemainderShift(c: nat, k: nat, n: nat)
    requires k < n
    ensures (c + k) % n == Place(c % n, k, n)
  {
    var q, r := c / n, c % n;
    assert c == n * q + r;
    if r + k < n {
      ModUnique(c + k, n, q, r + k);
    } else {
      assert n * (q + 1) == n * q + n;
      ModUnique(c + k, n, q + 1, r + k - n);
    }
  }

  /** As many calls as there are backends, all of them ready, return each backend exactly once. */
  lemma EachOnce(backends: seq<Look>, current: nat, times: seq<int>, j: nat)
    requires AllReady(backends, times) && |times| == |backends| && current + |times| <= INT64_LIMIT && j < |backends|
    ensures |Calls(backends, current, times)| == |backends|
    ensures exists k :: 0 <= k < |backends| && Calls(backends, current, times)[k] == Some(j)
    ensures forall k, k' :: 0 <= k < k' < |backends| ==>
              !(Calls(backends, current, times)[k] == Some(j) && Calls(backends, current, times)[k'] == Some(j))
  {
    hide Calls, AllReady;
    var n := |backends|;
    forall k | 0 <= k < n
      ensures |Calls(backends, current, times)| == n
      ensures Calls(backends, current, times)[k] == Some(Place(current % n, k, n))
    {
      GoesRound(backends, current, times, k);
      RemainderShift(current, k, n);
    }
    var k := Distance(j, current % n, n);
    assert |Calls(backends, current, times)| == n by {
      GoesRound(backends, current, times, 0);
    }
    assert Calls(backends, current, times)[k] == Some(j);
  }
}
