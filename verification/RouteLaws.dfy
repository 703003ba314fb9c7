/**
 What a look-up means: it is a greedy filter over the plain list of routes; it
 does not depend on the order of registration when no two routes have the same
 shape; and what it captures, put back into the pattern, gives the path again.
 */
module RouteLaws {
  import opened Paths
  import opened Routes
  import opened Options

  // ----- The filter -----

  predicate HasEdge(r: Route, d: nat, e: Edge) {
    d < |Body(r.pattern)| && Body(r.pattern)[d] == e
  }

  /** The candidates that have this edge at depth d, in order of registration. */
  function Narrow(candidates: seq<Route>, d: nat, e: Edge): seq<Route> {
    if candidates == [] then []
    else
      var front, r := candidates[..|candidates| - 1], candidates[|candidates| - 1];
      Narrow(front, d, e) + if HasEdge(r, d, e) then [r] else []
  }

  /** The candidate registered last that ends at depth d. */
  function LastEnding(candidates: seq<Route>, d: nat): Option<Route> {
    if candidates == [] then None
    else
      var r := candidates[|candidates| - 1];
      if r.handler.Some? && !EndsInCatchAll(r.pattern) && |r.pattern| == d then Some(r)
      else LastEnding(candidates[..|candidates| - 1], d)
  }

  /** The candidate registered first that has its catch-all at depth d. */
  function FirstCatching(candidates: seq<Route>, d: nat): Option<Route> {
    if candidates == [] then None
    else if EndsInCatchAll(candidates[0].pattern) && |candidates[0].pattern| == d + 1 then Some(candidates[0])
    else FirstCatching(candidates[1..], d)
  }

  function Result(r: Option<Route>): Option<Handler> {
    if r.None? then None else r.value.handler
  }

  /** The handler of a request, by elimination. */
  function Greedy(candidates: seq<Route>, d: nat, segments: seq<string>): Option<Handler>
    decreases |segments|
  {
    if segments == [] then Result(LastEnding(candidates, d))
    else
      var literal, wild := Narrow(candidates, d, At(segments[0])), Narrow(candidates, d, Any);
      if literal != [] then Greedy(literal, d + 1, segments[1..])
      else if segments[0] != "" && wild != [] then Greedy(wild, d + 1, segments[1..])
      else Result(FirstCatching(candidates, d))
  }

  /** The routes through k. */
  ghost function Through(routes: seq<Route>, k: Key): seq<Route> {
    if routes == [] then []
    else
      var front, r := routes[..|routes| - 1], routes[|routes| - 1];
      Through(front, k) + if k <= Body(r.pattern) then [r] else []
  }

  lemma {:induction false} ThroughAll(routes: seq<Route>)
    ensures Through(routes, []) == routes
  {
    hide Body;
    if routes != [] {
      ThroughAll(routes[..|routes| - 1]);
    }
  }

  lemma NarrowAppend(candidates: seq<Route>, r: Route, d: nat, e: Edge)
    ensures Narrow(candidates + [r], d, e) == Narrow(candidates, d, e) + if HasEdge(r, d, e) then [r] else []
  {
    assert (candidates + [r])[..|candidates|] == candidates;
  }

  lemma {:induction false} NarrowThrough(routes: seq<Route>, k: Key, e: Edge)
    ensures Narrow(Through(routes, k), |k|, e) == Through(routes, k + [e])
  {
    hide HasEdge, Body;
    if routes != [] {
      var front, r := routes[..|routes| - 1], routes[|routes| - 1];
      NarrowThrough(front, k, e);
      OneEdge(r, k, e);
      hide Narrow;
      NarrowAppend(Through(front, k), r, |k|, e);
      assert Through(front, k) + [] == Through(front, k);
      assert Through(front, k + [e]) + [] == Through(front, k + [e]);
    }
  }

  lemma OneEdge(r: Route, k: Key, e: Edge)
    ensures k + [e] <= Body(r.pattern) <==> k <= Body(r.pattern) && HasEdge(r, |k|, e)
  {
    var b := Body(r.pattern);
    if k <= b && HasEdge(r, |k|, e) {
      assert b[..|k| + 1] == k + [e];
    }
    if k + [e] <= b {
      assert b[..|k|] == (k + [e])[..|k|] == k;
      assert b[|k|] == (k + [e])[|k|];
    }
  }

  lemma {:induction false} ThroughReaches(routes: seq<Route>, k: Key)
    requires k != []
    ensures Through(routes, k) != [] <==> Reaches(routes, k)
  {
    if routes != [] {
      var front, r := routes[..|routes| - 1], routes[|routes| - 1];
      ThroughReaches(front, k);
      assert routes == front + [r];
      LastRoute(front, r, k);
    }
  }

  lemma {:induction false} EndingThrough(routes: seq<Route>, k: Key)
    ensures Result(LastEnding(Through(routes, k), |k|)) == HandlerAt(routes, k)
  {
    if routes != [] {
      var front, r := routes[..|routes| - 1], routes[|routes| - 1];
      EndingThrough(front, k);
      WholeBody(r, k);
      var rest := Through(front, k);
      assert (rest + [r])[..|rest|] == rest;
      assert rest + [] == rest;
    }
  }

  lemma WholeBody(r: Route, k: Key)
    ensures Body(r.pattern) == k <==> k <= Body(r.pattern) && |Body(r.pattern)| == |k|
  {
  }

  lemma {:induction false} FirstCatchingAppend(candidates: seq<Route>, r: Route, d: nat)
    ensures FirstCatching(candidates + [r], d) ==
            if FirstCatching(candidates, d).Some? then FirstCatching(candidates, d) else FirstCatching([r], d)
  {
    if candidates == [] {
      assert [] + [r] == [r];
    } else {
      assert (candidates + [r])[1..] == candidates[1..] + [r];
      FirstCatchingAppend(candidates[1..], r, d);
    }
  }

  lemma {:induction false} CatchingThrough(routes: seq<Route>, k: Key)
    ensures FirstCatching(Through(routes, k), |k|) == CatchAllAt(routes, k)
  {
    if routes != [] {
      var front, r := routes[..|routes| - 1], routes[|routes| - 1];
      CatchingThrough(front, k);
      WholeBody(r, k);
      FirstCatchingAppend(Through(front, k), r, |k|);
      assert Through(front, k) + [] == Through(front, k);
    }
  }

  lemma {:induction false} FollowIsGreedy(routes: seq<Route>, k: Key, segments: seq<string>)
    ensures Follow(routes, k, segments).handler == Greedy(Through(routes, k), |k|, segments)
    decreases |segments|
  {
    hide HandlerAt, OriginsAt, CatchAllAt, NamesAt, Reaches, Body, Through, Narrow, LastEnding, FirstCatching;
    if segments == [] {
      EndingThrough(routes, k);
    } else {
      NarrowThrough(routes, k, At(segments[0]));
      NarrowThrough(routes, k, Any);
      ThroughReaches(routes, k + [At(segments[0])]);
      ThroughReaches(routes, k + [Any]);
      CatchingThrough(routes, k);
      var t := Taken(routes, k, segments[0]);
      if t.Some? {
        FollowIsGreedy(routes, t.value.to, segments[1..]);
      }
    }
  }

  /** A look-up is the greedy filter over all routes in the order of their registration. */
  lemma LookUpIsGreedy(routes: seq<Route>, path: string)
    ensures LookUp(routes, path).handler ==
            if path == "/" then Result(LastEnding(routes, 0)) else Greedy(routes, 0, Split(StripSlash(path)))
  {
    hide Follow, Greedy, Split, LastEnding, HandlerAt;
    ThroughAll(routes);
    EndingThrough(routes, []);
    if path != "/" {
      FollowIsGreedy(routes, [], Split(StripSlash(path)));
    }
  }
}
