/** Which of the routes that fit a request the look-up comes to: there is no way back from a literal. */
module RouteReached {
  import opened Options
  import opened Paths
  import opened Routes
  import opened RouteOrder

  /** Where a look-up stops: behind this key, with these segments left. */
  datatype Stop = Stop(key: Key, left: seq<string>)

  function StopOf(routes: seq<Route>, k: Key, segments: seq<string>): Stop
    decreases |segments|
  {
    if segments == [] then Stop(k, [])
    else
      var t := Taken(routes, k, segments[0]);
      if t.Some? then StopOf(routes, t.value.to, segments[1..]) else Stop(k, segments)
  }

  /** What is found is what is registered at the stop: a handler, or the first catch-all for what is left. */
  lemma {:induction false} FoundAtStop(routes: seq<Route>, k: Key, segments: seq<string>)
    ensures var s := StopOf(routes, k, segments);
            Follow(routes, k, segments).handler ==
            if s.left == [] then HandlerAt(routes, s.key) else Caught(routes, s.key, Join(s.left)).handler
    decreases |segments|
  {
    hide HandlerAt, OriginsAt, Caught, Taken, Join;
    if segments != [] {
      var t := Taken(routes, k, segments[0]);
      if t.Some? {
        FoundAtStop(routes, t.value.to, segments[1..]);
      }
    }
  }

  /** An edge lets a request segment pass. */
  predicate Lets(e: Edge, segment: string) {
    match e
    case At(text) => text == segment
    case Any => segment != ""
  }

  /** The segments are an instance of the pattern from position n on; a catch-all takes at least one. */
  predicate Fits(p: seq<Segment>, n: nat, segments: seq<string>) {
    var b := Body(p);
    && n <= |b|
    && (if EndsInCatchAll(p) then |b| - n < |segments| else |b| - n == |segments|)
    && forall i :: n <= i < |b| ==> Lets(b[i], segments[i - n])
  }

  /** Some route has the request's own segment as a literal where this one has a parameter. */
  predicate Diverted(routes: seq<Route>, p: seq<Segment>, n: nat, segments: seq<string>)
    requires Fits(p, n, segments)
  {
    var b := Body(p);
    exists i :: n <= i < |b| && b[i].Any? && Reaches(routes, b[..i] + [At(segments[i - n])])
  }

  /** Some route has a literal or a parameter for the first segment that the catch-all of this one would take. */
  predicate Intercepted(routes: seq<Route>, p: seq<Segment>, n: nat, segments: seq<string>)
    requires Fits(p, n, segments)
  {
    EndsInCatchAll(p) && Taken(routes, Body(p), segments[|Body(p)| - n]).Some?
  }

  lemma {:induction false} StopsBehind(routes: seq<Route>, k: Key, segments: seq<string>)
    ensures k <= StopOf(routes, k, segments).key
    decreases |segments|
  {
    hide Reaches, NamesAt;
    if segments != [] && Taken(routes, k, segments[0]).Some? {
      StopsBehind(routes, Taken(routes, k, segments[0]).value.to, segments[1..]);
    }
  }

  lemma PrefixReached(routes: seq<Route>, r: Route, n: nat)
    requires r in routes && n < |Body(r.pattern)|
    ensures Reaches(routes, Body(r.pattern)[..n] + [Body(r.pattern)[n]])
  {
    var b := Body(r.pattern);
    assert b[..n] + [b[n]] == b[..n + 1];
    var i :| 0 <= i < |routes| && routes[i] == r;
    assert b[..n + 1] <= Body(routes[i].pattern);
  }

  /** The look-up comes from position n to the end of a route that fits exactly if nothing else catches the request. */
  lemma {:induction false} StopsExactly(routes: seq<Route>, r: Route, n: nat, segments: seq<string>)
    requires r in routes && Fits(r.pattern, n, segments)
    ensures var b := Body(r.pattern);
            StopOf(routes, b[..n], segments) == Stop(b, segments[|b| - n..])
            <==> !Diverted(routes, r.pattern, n, segments) && !Intercepted(routes, r.pattern, n, segments)
    decreases |segments|
  {
    hide Body, Reaches, StopOf, Diverted, Intercepted, EndsInCatchAll;
    var b := Body(r.pattern);
    if n == |b| {
      AtTheEnd(routes, r, segments);
    } else {
      OnePosition(routes, r, n, segments);
      if b[n].At? || !Reaches(routes, b[..n] + [At(segments[0])]) {
        StaysOn(routes, r, n, segments);
        StopsExactly(routes, r, n + 1, segments[1..]);
        assert segments[1..][|b| - (n + 1)..] == segments[|b| - n..];
      } else {
        Turned(routes, b, n, segments);
      }
    }
  }

  lemma AtTheEnd(routes: seq<Route>, r: Route, segments: seq<string>)
    requires Fits(r.pattern, |Body(r.pattern)|, segments)
    ensures var b := Body(r.pattern);
            && !Diverted(routes, r.pattern, |b|, segments)
            && (StopOf(routes, b, segments) == Stop(b, segments) <==> !Intercepted(routes, r.pattern, |b|, segments))
            && segments[0..] == segments && b[..|b|] == b
  {
    hide Taken, Body;
    var b := Body(r.pattern);
    if EndsInCatchAll(r.pattern) {
      var t := Taken(routes, b, segments[0]);
      if t.Some? {
        StopsBehind(routes, t.value.to, segments[1..]);
        Longer(routes, b, segments[0]);
      }
    }
  }

  lemma Longer(routes: seq<Route>, k: Key, segment: string)
    requires Taken(routes, k, segment).Some?
    ensures |Taken(routes, k, segment).value.to| > |k|
  {
  }

  /** The conditions at n and behind it. */
  lemma OnePosition(routes: seq<Route>, r: Route, n: nat, segments: seq<string>)
    requires Fits(r.pattern, n, segments) && n < |Body(r.pattern)|
    ensures Fits(r.pattern, n + 1, segments[1..])
    ensures Intercepted(routes, r.pattern, n, segments) <==> Intercepted(routes, r.pattern, n + 1, segments[1..])
    ensures Diverted(routes, r.pattern, n, segments) <==>
      || (Body(r.pattern)[n].Any? && Reaches(routes, Body(r.pattern)[..n] + [At(segments[0])]))
      || Diverted(routes, r.pattern, n + 1, segments[1..])
  {
    hide Body, Reaches, Taken;
    var b := Body(r.pattern);
    if EndsInCatchAll(r.pattern) {
      assert segments[1..][|b| - (n + 1)] == segments[|b| - n];
    }
  }

  lemma StaysOn(routes: seq<Route>, r: Route, n: nat, segments: seq<string>)
    requires r in routes && Fits(r.pattern, n, segments) && n < |Body(r.pattern)|
    requires Body(r.pattern)[n].At? || !Reaches(routes, Body(r.pattern)[..n] + [At(segments[0])])
    ensures StopOf(routes, Body(r.pattern)[..n], segments) == StopOf(routes, Body(r.pattern)[..n + 1], segments[1..])
  {
    hide Body, Reaches, NamesAt;
    var b := Body(r.pattern);
    PrefixReached(routes, r, n);
    assert Lets(b[n], segments[n - n]);
    assert b[..n] + [b[n]] == b[..n + 1];
  }

  /** The turn taken where some route has the segment as a literal and this one a parameter. */
  lemma Turned(routes: seq<Route>, b: Key, n: nat, segments: seq<string>)
    requires n < |b| && b[n].Any? && segments != [] && Reaches(routes, b[..n] + [At(segments[0])])
    ensures StopOf(routes, b[..n], segments).key != b
  {
    hide Reaches;
    var k := b[..n] + [At(segments[0])];
    StopsBehind(routes, k, segments[1..]);
    assert k[n] == At(segments[0]);
  }

  /** The registered route i is the one that decides what the request finds. */
  ghost predicate Decides(routes: seq<Route>, i: nat)
    requires i < |routes|
  {
    var b := Body(routes[i].pattern);
    if EndsInCatchAll(routes[i].pattern) then IsFirstCatching(routes, b, i) else IsLastEnding(routes, b, i)
  }

  /** ReachedExactly, in terms of the segments of the request. */
  lemma EndsExactly(routes: seq<Route>, i: nat, segments: seq<string>)
    requires i < |routes| && Fits(routes[i].pattern, 0, segments)
    ensures var r := routes[i];
            var b := Body(r.pattern);
            && (StopOf(routes, [], segments) == Stop(b, segments[|b|..])
                <==> !Diverted(routes, r.pattern, 0, segments) && !Intercepted(routes, r.pattern, 0, segments))
            && (!Diverted(routes, r.pattern, 0, segments) && !Intercepted(routes, r.pattern, 0, segments) && Decides(routes, i)
                ==> Follow(routes, [], segments).handler == r.handler)
  {
    hide Follow, StopOf, Diverted, Intercepted, Body, IsFirstCatching, IsLastEnding;
    var r := routes[i];
    var b := Body(r.pattern);
    assert b[..0] == [];
    StopsExactly(routes, r, 0, segments);
    FoundAtStop(routes, [], segments);
    if Decides(routes, i) {
      if EndsInCatchAll(r.pattern) {
        FirstWins(routes, b, i);
      } else {
        LastWins(routes, b, i);
      }
    }
  }

  /**
   The condition on which a request that fits a registered route comes to the end of
   that route, for every set of routes: no route has a literal for a segment that
   this one takes as a parameter, behind the same beginning, and none goes on where
   this one has its catch-all. Its handler is then the one found, if it was
   registered last at its place, or first for a catch-all.
   */
  lemma ReachedExactly(routes: seq<Route>, i: nat, path: string)
    requires i < |routes| && path != "/" && Fits(routes[i].pattern, 0, Split(StripSlash(path)))
    ensures var r, segments := routes[i], Split(StripSlash(path));
            var b := Body(r.pattern);
            && (StopOf(routes, [], segments) == Stop(b, segments[|b|..])
                <==> !Diverted(routes, r.pattern, 0, segments) && !Intercepted(routes, r.pattern, 0, segments))
            && (!Diverted(routes, r.pattern, 0, segments) && !Intercepted(routes, r.pattern, 0, segments) && Decides(routes, i)
                ==> LookUp(routes, path).handler == r.handler)
  {
    EndsExactly(routes, i, Split(StripSlash(path)));
  }

  /** A route without parameters or catch-all is found whatever else is registered. */
  lemma LiteralFound(routes: seq<Route>, i: nat, path: string)
    requires i < |routes| && path != "/" && Fits(routes[i].pattern, 0, Split(StripSlash(path)))
    requires (forall j :: 0 <= j < |routes[i].pattern| ==> routes[i].pattern[j].Literal?) && Decides(routes, i)
    ensures LookUp(routes, path).handler == routes[i].handler
  {
    hide Split, LookUp, Decides, Reaches;
    ReachedExactly(routes, i, path);
  }

  /** A path of two segments. */
  function TwoSegments(a: string, b: string): string {
    "/" + a + "/" + b
  }

  lemma SplitTwo(a: string, b: string)
    requires '/' !in a && '/' !in b
    ensures TwoSegments(a, b) != "/" && Split(StripSlash(TwoSegments(a, b))) == [a, b]
  {
    var s := a + "/" + b;
    assert TwoSegments(a, b) == "/" + s && StripSlash(TwoSegments(a, b)) == s;
    hide Split;
    assert s[..|a|] == a && s[|a| + 1..] == b && s[|a|] == '/';
    SplitAtSlash(s, |a|);
    assert b[..|b|] == b;
    SplitAtSlash(b, |b|);
  }

  /**
   There is no way back: a literal that leads nowhere hides the parameter beside it.
   For all texts with b and c different, /a/c finds nothing although the second
   route fits it, while it is found for every other /d/c.
   */
  lemma NoWayBack(a: string, b: string, c: string, d: string, h: Handler, h': Handler)
    requires '/' !in a && '/' !in c && '/' !in d
    requires b != c && d != a && d != "" && a != ""
    ensures var r, r' := Route([Literal(a), Literal(b)], Some(h), []), Route([Param("x"), Literal(c)], Some(h'), []);
            && Fits(r'.pattern, 0, Split(StripSlash(TwoSegments(a, c))))
            && LookUp([r, r'], TwoSegments(a, c)).handler == None
            && Fits(r'.pattern, 0, Split(StripSlash(TwoSegments(d, c))))
            && LookUp([r, r'], TwoSegments(d, c)).handler == Some(h')
  {
    hide Split, TwoSegments, StripSlash, Follow;
    SplitTwo(a, c);
    SplitTwo(d, c);
    NoWayBehind(a, b, c, d, h, h');
  }

  /** NoWayBack, in terms of the segments of the requests. */
  lemma NoWayBehind(a: string, b: string, c: string, d: string, h: Handler, h': Handler)
    requires b != c && d != a && d != "" && a != ""
    ensures var r, r' := Route([Literal(a), Literal(b)], Some(h), []), Route([Param("x"), Literal(c)], Some(h'), []);
            && Fits(r'.pattern, 0, [a, c]) && Follow([r, r'], [], [a, c]).handler == None
            && Fits(r'.pattern, 0, [d, c]) && Follow([r, r'], [], [d, c]).handler == Some(h')
  {
    var r, r' := Route([Literal(a), Literal(b)], Some(h), []), Route([Param("x"), Literal(c)], Some(h'), []);
    var k, k' := Body(r.pattern), Body(r'.pattern);
    assert k == [At(a), At(b)] && k' == [Any, At(c)] && k'[..0] == [] && k'[1] == At(c);
    hide Body, Follow, Reaches;
    TwoKeys(r, r', a, b, c, d);
    DeadEnd([r, r'], a, c);
    EndsExactly([r, r'], 1, [d, c]);
  }

  lemma TwoKeys(r: Route, r': Route, a: string, b: string, c: string, d: string)
    requires Body(r.pattern) == [At(a), At(b)] && Body(r'.pattern) == [Any, At(c)] && b != c && d != a
    ensures Reaches([r, r'], [At(a)]) && !Reaches([r, r'], [At(d)])
    ensures !Reaches([r, r'], [At(a), At(c)]) && !Reaches([r, r'], [At(a), Any])
  {
    hide Body, Reaches;
    var k, k' := Body(r.pattern), Body(r'.pattern);
    assert k[0] == At(a) && k[1] == At(b) && k'[0] == Any;
    TwoReach(r, r', [At(a)]);
    TwoReach(r, r', [At(d)]);
    assert [At(d)][0] == At(d);
    var ac, aAny := [At(a), At(c)], [At(a), Any];
    assert ac[0] == aAny[0] == At(a) && ac[1] == At(c) && aAny[1] == Any;
    TwoReach(r, r', ac);
    TwoReach(r, r', aAny);
  }

  /** A literal taken, behind which nothing goes on and no catch-all stands. */
  lemma DeadEnd(routes: seq<Route>, first: string, second: string)
    requires Reaches(routes, [At(first)]) && forall i :: 0 <= i < |routes| ==> !EndsInCatchAll(routes[i].pattern)
    requires !Reaches(routes, [At(first), At(second)]) && !Reaches(routes, [At(first), Any])
    ensures Follow(routes, [], [first, second]).handler == None
  {
    hide HandlerAt, OriginsAt, NamesAt, Reaches, Join, Body;
    NoCatchAll(routes, [At(first)]);
    assert [first, second][1..] == [second] && [] + [At(first)] == [At(first)];
    assert [At(first)] + [At(second)] == [At(first), At(second)] && [At(first)] + [Any] == [At(first), Any];
  }

  /** What two routes reach. */
  lemma TwoReach(r: Route, r': Route, k: Key)
    ensures Reaches([r, r'], k) <==> k == [] || k <= Body(r.pattern) || k <= Body(r'.pattern)
  {
    hide Body;
    assert [r, r'] == [] + [r] + [r'];
    LastRoute([] + [r], r', k);
    LastRoute([], r, k);
  }
}
