/** Captures are sound: put back into the pattern of the matched route they give the request path. */
module RouteCaptures {
  import opened Paths
  import opened Routes
  import opened RouteOrder
  import opened Options

  function Fill(p: seq<Segment>, values: seq<string>): (r: seq<string>)
    requires |values| == |p|
    ensures |r| == |p|
  {
    seq(|p|, i requires 0 <= i < |p| => if p[i].Literal? then p[i].text else values[i])
  }

  /** The values a request gives the segments of a pattern, and where they are found. */
  ghost predicate Restores(r: Route, values: seq<string>, path: string, captured: seq<Captured>) {
    && |values| == |r.pattern|
    && Join(Fill(r.pattern, values)) == path
    && forall i :: 0 <= i < |r.pattern| ==>
         && (r.pattern[i].Param? ==> values[i] != "" && '/' !in values[i])
         && (!r.pattern[i].Literal? ==> Captured(r.pattern[i].name, values[i]) in captured)
  }

  /** Segment s of a route lets the request segment text pass. */
  ghost predicate Passes(s: Segment, text: string, captured: seq<Captured>) {
    match s
    case Literal(t) => text == t
    case Param(name) => text != "" && Captured(name, text) in captured
    case CatchAll(_) => false
  }

  /** The route r is the one that was followed from k on, over n segments and its catch-all if it has one. */
  ghost predicate Followed(r: Route, k: Key, n: nat, segments: seq<string>, captured: seq<Captured>) {
    && k <= Body(r.pattern) && |Body(r.pattern)| == |k| + n && n <= |segments|
    && (forall i :: 0 <= i < n ==> Passes(r.pattern[|k| + i], segments[i], captured))
    && if EndsInCatchAll(r.pattern)
       then n < |segments| && Captured(r.pattern[|r.pattern| - 1].name, Join(segments[n..])) in captured
       else n == |segments|
  }

  /** Every registered pattern is proper. */
  ghost predicate AllProper(routes: seq<Route>) {
    forall i :: 0 <= i < |routes| ==> Proper(routes[i].pattern)
  }

  lemma {:induction false} FollowSound(routes: seq<Route>, k: Key, segments: seq<string>) returns (r: Route, n: nat)
    requires AllProper(routes) && Follow(routes, k, segments).handler.Some?
    ensures var m := Follow(routes, k, segments);
            && m.found && r in routes && r.handler == m.handler
            && Followed(r, k, n, segments, m.captured)
    decreases |segments|
  {
    hide HandlerAt, OriginsAt, CatchAllAt, Taken, Followed, Join, Body, EndsInCatchAll;
    var m := Follow(routes, k, segments);
    if segments == [] {
      HandlerLast(routes, k);
      var i :| 0 <= i < |routes| && IsLastEnding(routes, k, i) && HandlerAt(routes, k) == routes[i].handler;
      r, n := routes[i], 0;
      FollowedEnd(r, k);
    } else {
      var t := Taken(routes, k, segments[0]);
      if t.Some? {
        r, n := FollowSound(routes, t.value.to, segments[1..]);
        var m' := Follow(routes, t.value.to, segments[1..]);
        FollowedMore(routes, k, segments, r, n, m'.captured);
        n := n + 1;
      } else {
        r, n := CatchAllAt(routes, k).value, 0;
        FollowedRest(r, k, segments);
      }
    }
  }

  lemma FollowedEnd(r: Route, k: Key)
    requires EndsAt(r, k)
    ensures Followed(r, k, 0, [], [])
  {
  }

  lemma FollowedRest(r: Route, k: Key, segments: seq<string>)
    requires CatchesAt(r, k) && segments != []
    ensures Followed(r, k, 0, segments, [Captured(r.pattern[|r.pattern| - 1].name, Join(segments))])
  {
    assert segments[0..] == segments;
  }

  /** One segment before those that were followed. */
  lemma FollowedMore(routes: seq<Route>, k: Key, segments: seq<string>, r: Route, n: nat, captured: seq<Captured>)
    requires segments != [] && Taken(routes, k, segments[0]).Some? && r in routes && Proper(r.pattern)
    requires Followed(r, Taken(routes, k, segments[0]).value.to, n, segments[1..], captured)
    ensures Followed(r, k, n + 1, segments, Taken(routes, k, segments[0]).value.got + captured)
  {
    hide NamesAt, Reaches, Join;
    var t := Taken(routes, k, segments[0]).value;
    FirstPasses(routes, k, segments[0], r);
    assert t.to[..|k|] == k;
    assert k <= Body(r.pattern) by {
      assert Body(r.pattern)[..|k|] == t.to[..|k|];
    }
    forall i | 0 <= i < n + 1
      ensures Passes(r.pattern[|k| + i], segments[i], t.got + captured)
    {
      if i > 0 {
        assert Passes(r.pattern[|t.to| + (i - 1)], segments[1..][i - 1], captured);
      }
    }
    assert segments[1..][n..] == segments[n + 1..];
  }

  lemma FirstPasses(routes: seq<Route>, k: Key, segment: string, r: Route)
    requires r in routes && Proper(r.pattern) && Taken(routes, k, segment).Some?
    requires Taken(routes, k, segment).value.to <= Body(r.pattern)
    ensures Passes(r.pattern[|k|], segment, Taken(routes, k, segment).value.got)
  {
    hide NamesAt, Reaches;
    var t := Taken(routes, k, segment).value;
    var b := Body(r.pattern);
    assert b[|k|] == t.to[|k|] == EdgeOf(r.pattern[|k|]);
    if t.to[|k|].Any? {
      assert r.pattern[|k|].Param?;
      var name := r.pattern[|k|].name;
      var i :| 0 <= i < |routes| && routes[i] == r;
      assert Names(routes[i], t.to, name);
      NamesAre(routes, t.to, name);
      var names := NamesAt(routes, t.to);
      var j :| 0 <= j < |names| && names[j] == name;
      assert t.got[j] == Captured(name, segment);
    }
  }

  // ----- From segments to the path -----

  lemma {:induction false} JoinTail(segments: seq<string>, n: nat)
    requires n < |segments|
    ensures Join(segments[..n] + [Join(segments[n..])]) == Join(segments)
  {
    var short := segments[..n] + [Join(segments[n..])];
    if n == 0 {
      assert segments[0..] == segments;
    } else {
      JoinTail(segments[1..], n - 1);
      assert short[1..] == segments[1..][..n - 1] + [Join(segments[1..][n - 1..])] by {
        assert segments[1..][n - 1..] == segments[n..];
      }
    }
  }

  lemma {:induction false} SplitNoSlash(s: string, i: nat)
    requires i < |Split(s)|
    ensures '/' !in Split(s)[i]
  {
    if s != "" {
      var r := Split(s[1..]);
      if s[0] == '/' {
        if i > 0 {
          SplitNoSlash(s[1..], i - 1);
        }
      } else {
        SplitNoSlash(s[1..], i);
      }
    }
  }

  /** The values of the segments of a followed route. */
  function Values(r: Route, n: nat, segments: seq<string>): seq<string>
    requires n <= |segments|
  {
    if EndsInCatchAll(r.pattern) then segments[..n] + [Join(segments[n..])] else segments[..n]
  }

  lemma FilledValues(r: Route, n: nat, path: string, captured: seq<Captured>)
    requires Proper(r.pattern) && Followed(r, [], n, Split(path), captured)
    ensures Restores(r, Values(r, n, Split(path)), path, captured)
  {
    hide Split, Join;
    var segments := Split(path);
    var values := Values(r, n, segments);
    JoinSplit(path);
    if EndsInCatchAll(r.pattern) {
      JoinTail(segments, n);
    } else {
      assert segments[..n] == segments;
    }
    assert Fill(r.pattern, values) == values by {
      forall i | 0 <= i < |r.pattern|
        ensures Fill(r.pattern, values)[i] == values[i]
      {
        if i < n {
          assert Passes(r.pattern[0 + i], segments[i], captured);
        }
      }
    }
    forall i | 0 <= i < |r.pattern|
      ensures r.pattern[i].Param? ==> values[i] != "" && '/' !in values[i]
      ensures !r.pattern[i].Literal? ==> Captured(r.pattern[i].name, values[i]) in captured
    {
      if i < n {
        assert Passes(r.pattern[0 + i], segments[i], captured);
        SplitNoSlash(path, i);
      }
    }
  }

  /**
   Whenever a look-up finds a handler, it is that of a registered route; the
   captured values put back into its pattern give the path without its leading
   slash; every name the route declares is captured with its own value; and no
   parameter is empty.
   */
  lemma CapturesSound(routes: seq<Route>, path: string)
    requires AllProper(routes) && path != "/" && LookUp(routes, path).handler.Some?
    ensures exists r, values ::
      && r in routes && r.handler == LookUp(routes, path).handler
      && Restores(r, values, StripSlash(path), LookUp(routes, path).captured)
  {
    hide Follow, Split, Restores, Followed, Values;
    var p := StripSlash(path);
    var r, n := FollowSound(routes, [], Split(p));
    var m := LookUp(routes, path);
    FollowedWithin(r, n, Split(p), m.captured);
    FilledValues(r, n, p, m.captured);
    assert r in routes && r.handler == m.handler && Restores(r, Values(r, n, Split(p)), p, m.captured);
  }

  lemma FollowedWithin(r: Route, n: nat, segments: seq<string>, captured: seq<Captured>)
    requires Followed(r, [], n, segments, captured)
    ensures n <= |segments|
  {
  }
}
