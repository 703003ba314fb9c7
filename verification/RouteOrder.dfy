/** Which registration wins, and when the order of registration does not matter. */
module RouteOrder {
  import opened Paths
  import opened Routes
  import opened Options

  // ----- What the four tables of a route list say, without their recursion -----

  lemma {:induction false} HandlerLast(routes: seq<Route>, k: Key)
    ensures HandlerAt(routes, k).Some? ==>
      exists i :: 0 <= i < |routes| && IsLastEnding(routes, k, i) && HandlerAt(routes, k) == routes[i].handler
    ensures HandlerAt(routes, k).None? ==> forall i :: 0 <= i < |routes| ==> !EndsAt(routes[i], k)
  {
    hide Body;
    if routes != [] {
      var front, r := routes[..|routes| - 1], routes[|routes| - 1];
      HandlerLast(front, k);
      if EndsAt(r, k) {
        assert IsLastEnding(routes, k, |routes| - 1);
      } else if HandlerAt(front, k).Some? {
        var i :| 0 <= i < |front| && IsLastEnding(front, k, i) && HandlerAt(front, k) == front[i].handler;
        assert IsLastEnding(routes, k, i);
      }
    }
  }

  ghost predicate IsLastEnding(routes: seq<Route>, k: Key, i: nat)
    requires i < |routes|
  {
    EndsAt(routes[i], k) && forall j :: i < j < |routes| ==> !EndsAt(routes[j], k)
  }

  ghost predicate IsFirstCatching(routes: seq<Route>, k: Key, i: nat)
    requires i < |routes|
  {
    CatchesAt(routes[i], k) && forall j :: 0 <= j < i ==> !CatchesAt(routes[j], k)
  }

  /** Of the registrations that end at one place the last wins. */
  lemma LastWins(routes: seq<Route>, k: Key, i: nat)
    requires i < |routes| && IsLastEnding(routes, k, i)
    ensures HandlerAt(routes, k) == routes[i].handler
  {
    HandlerLast(routes, k);
  }

  /** Of the catch-alls at one place the first wins. */
  lemma {:induction false} FirstWins(routes: seq<Route>, k: Key, i: nat)
    requires i < |routes| && IsFirstCatching(routes, k, i)
    ensures CatchAllAt(routes, k) == Some(routes[i])
  {
    hide Body;
    var front, r := routes[..|routes| - 1], routes[|routes| - 1];
    if i < |front| {
      FirstWins(front, k, i);
    } else {
      NoCatchAll(front, k);
    }
  }

  lemma {:induction false} NoCatchAll(routes: seq<Route>, k: Key)
    ensures CatchAllAt(routes, k).None? <==> forall i :: 0 <= i < |routes| ==> !CatchesAt(routes[i], k)
  {
    hide Body;
    if routes != [] {
      NoCatchAll(routes[..|routes| - 1], k);
    }
  }

  lemma {:induction false} NamesAre(routes: seq<Route>, k: Key, name: string)
    requires k != [] && k[|k| - 1].Any?
    ensures name in NamesAt(routes, k) <==> exists i :: 0 <= i < |routes| && Names(routes[i], k, name)
  {
    hide Body;
    if routes != [] {
      var front, r := routes[..|routes| - 1], routes[|routes| - 1];
      NamesAre(front, k, name);
      if Names(r, k, name) {
        assert Names(routes[|routes| - 1], k, name);
      }
      assert forall i :: 0 <= i < |front| ==> front[i] == routes[i];
    }
  }

  predicate Names(r: Route, k: Key, name: string)
    requires k != []
  {
    k <= Body(r.pattern) && r.pattern[|k| - 1] == Param(name)
  }

  lemma {:induction false} OriginsLast(routes: seq<Route>, k: Key, i: nat)
    requires i < |routes| && EndsAt(routes[i], k) && forall j :: 0 <= j < |routes| && j != i ==> !EndsAt(routes[j], k)
    ensures OriginsAt(routes, k) == JoinComma(routes[i].origins)
  {
    hide Body;
    var front, r := routes[..|routes| - 1], routes[|routes| - 1];
    if i < |front| {
      OriginsLast(front, k, i);
    } else {
      NoOrigins(front, k);
    }
  }

  lemma {:induction false} NoOrigins(routes: seq<Route>, k: Key)
    requires forall j :: 0 <= j < |routes| ==> !EndsAt(routes[j], k)
    ensures OriginsAt(routes, k) == ""
  {
    if routes != [] {
      NoOrigins(routes[..|routes| - 1], k);
    }
  }

  // ----- Order of registration -----

  predicate SameShape(p: seq<Segment>, q: seq<Segment>) {
    Body(p) == Body(q) && EndsInCatchAll(p) == EndsInCatchAll(q)
  }

  /** No two registrations have the same shape. */
  ghost predicate Distinct(routes: seq<Route>) {
    forall i, j :: 0 <= i < j < |routes| ==> !SameShape(routes[i].pattern, routes[j].pattern)
  }

  ghost predicate SameRoutes(routes: seq<Route>, routes': seq<Route>) {
    forall r :: r in routes <==> r in routes'
  }

  ghost predicate SameResult(m: Match, m': Match) {
    && m.handler == m'.handler && m.origins == m'.origins && m.found == m'.found
    && forall c :: c in m.captured <==> c in m'.captured
  }

  lemma NotBoth(r: Route, r': Route, k: Key)
    requires !SameShape(r.pattern, r'.pattern)
    ensures !(EndsAt(r, k) && EndsAt(r', k)) && !(CatchesAt(r, k) && CatchesAt(r', k))
  {
  }

  lemma EndingTable(routes: seq<Route>, k: Key, r: Route)
    requires Distinct(routes) && r in routes && EndsAt(r, k)
    ensures HandlerAt(routes, k) == r.handler && OriginsAt(routes, k) == JoinComma(r.origins)
  {
    hide Body;
    var i :| 0 <= i < |routes| && routes[i] == r;
    forall j | 0 <= j < |routes| && j != i
      ensures !EndsAt(routes[j], k)
    {
      if i < j {
        NotBoth(routes[i], routes[j], k);
      } else {
        NotBoth(routes[j], routes[i], k);
      }
    }
    LastWins(routes, k, i);
    OriginsLast(routes, k, i);
  }

  lemma CatchingTable(routes: seq<Route>, k: Key, r: Route)
    requires Distinct(routes) && r in routes && CatchesAt(r, k)
    ensures CatchAllAt(routes, k) == Some(r)
  {
    hide Body;
    var i :| 0 <= i < |routes| && routes[i] == r;
    forall j | 0 <= j < i
      ensures !CatchesAt(routes[j], k)
    {
      NotBoth(routes[j], routes[i], k);
    }
    FirstWins(routes, k, i);
  }

  lemma SameEndings(routes: seq<Route>, routes': seq<Route>, k: Key)
    requires Distinct(routes) && Distinct(routes') && SameRoutes(routes, routes')
    ensures HandlerAt(routes, k) == HandlerAt(routes', k) && OriginsAt(routes, k) == OriginsAt(routes', k)
  {
    hide HandlerAt, OriginsAt, CatchAllAt, EndsAt;
    if exists r :: r in routes && EndsAt(r, k) {
      var r :| r in routes && EndsAt(r, k);
      EndingTable(routes, k, r);
      EndingTable(routes', k, r);
    } else {
      assert forall j :: 0 <= j < |routes| ==> routes[j] in routes;
      assert forall j :: 0 <= j < |routes'| ==> routes'[j] in routes;
      HandlerLast(routes, k);
      HandlerLast(routes', k);
      NoOrigins(routes, k);
      NoOrigins(routes', k);
    }
  }

  lemma SameCatchAll(routes: seq<Route>, routes': seq<Route>, k: Key)
    requires Distinct(routes) && Distinct(routes') && SameRoutes(routes, routes')
    ensures CatchAllAt(routes, k) == CatchAllAt(routes', k)
  {
    hide CatchesAt;
    if exists r :: r in routes && CatchesAt(r, k) {
      var r :| r in routes && CatchesAt(r, k);
      CatchingTable(routes, k, r);
      CatchingTable(routes', k, r);
    } else {
      assert forall j :: 0 <= j < |routes| ==> routes[j] in routes;
      assert forall j :: 0 <= j < |routes'| ==> routes'[j] in routes;
      NoCatchAll(routes, k);
      NoCatchAll(routes', k);
    }
  }

  lemma SameReach(routes: seq<Route>, routes': seq<Route>, k: Key)
    requires SameRoutes(routes, routes') && Reaches(routes, k)
    ensures Reaches(routes', k)
  {
    if k != [] {
      var i :| 0 <= i < |routes| && k <= Body(routes[i].pattern);
      assert routes[i] in routes';
      var j :| 0 <= j < |routes'| && routes'[j] == routes[i];
    }
  }

  lemma SameNames(routes: seq<Route>, routes': seq<Route>, k: Key, name: string)
    requires k != [] && k[|k| - 1].Any?
    requires SameRoutes(routes, routes') && name in NamesAt(routes, k)
    ensures name in NamesAt(routes', k)
  {
    NamesAre(routes, k, name);
    NamesAre(routes', k, name);
    hide Names, NamesAt;
    var i :| 0 <= i < |routes| && Names(routes[i], k, name);
    assert routes[i] in routes';
    var j :| 0 <= j < |routes'| && routes'[j] == routes[i];
    assert Names(routes'[j], k, name);
  }

  lemma WithNamesSame(routes: seq<Route>, routes': seq<Route>, k: Key, value: string, c: Captured)
    requires k != [] && k[|k| - 1].Any?
    requires SameRoutes(routes, routes') && c in WithNames(NamesAt(routes, k), value)
    ensures c in WithNames(NamesAt(routes', k), value)
  {
    hide NamesAt;
    var names, names' := NamesAt(routes, k), NamesAt(routes', k);
    var i :| 0 <= i < |names| && WithNames(names, value)[i] == c;
    SameNames(routes, routes', k, names[i]);
    var j :| 0 <= j < |names'| && names'[j] == names[i];
    assert WithNames(names', value)[j] == c;
  }

  lemma TakenSame(routes: seq<Route>, routes': seq<Route>, k: Key, segment: string)
    requires SameRoutes(routes, routes')
    ensures var t, t' := Taken(routes, k, segment), Taken(routes', k, segment);
            && t.Some? == t'.Some?
            && (t.Some? ==> t.value.to == t'.value.to && forall c :: c in t.value.got <==> c in t'.value.got)
  {
    hide NamesAt, Reaches, WithNames;
    forall k' | k' in {k + [At(segment)], k + [Any]}
      ensures Reaches(routes, k') <==> Reaches(routes', k')
    {
      if Reaches(routes, k') {
        SameReach(routes, routes', k');
      }
      if Reaches(routes', k') {
        SameReach(routes', routes, k');
      }
    }
    var k' := k + [Any];
    forall c
      ensures c in WithNames(NamesAt(routes, k'), segment) <==> c in WithNames(NamesAt(routes', k'), segment)
    {
      if c in WithNames(NamesAt(routes, k'), segment) {
        WithNamesSame(routes, routes', k', segment, c);
      }
      if c in WithNames(NamesAt(routes', k'), segment) {
        WithNamesSame(routes', routes, k', segment, c);
      }
    }
  }

  lemma {:induction false} FollowSame(routes: seq<Route>, routes': seq<Route>, k: Key, segments: seq<string>)
    requires Distinct(routes) && Distinct(routes') && SameRoutes(routes, routes')
    ensures SameResult(Follow(routes, k, segments), Follow(routes', k, segments))
    decreases |segments|
  {
    hide HandlerAt, OriginsAt, CatchAllAt, Taken, Distinct, SameRoutes, Join;
    if segments == [] {
      SameEndings(routes, routes', k);
    } else {
      TakenSame(routes, routes', k, segments[0]);
      SameCatchAll(routes, routes', k);
      var t := Taken(routes, k, segments[0]);
      if t.Some? {
        FollowSame(routes, routes', t.value.to, segments[1..]);
      }
    }
  }

  /** With pairwise distinct shapes the order of registration does not matter. */
  lemma OrderDoesNotMatter(routes: seq<Route>, routes': seq<Route>, path: string)
    requires Distinct(routes) && Distinct(routes') && SameRoutes(routes, routes')
    ensures SameResult(LookUp(routes, path), LookUp(routes', path))
  {
    hide Follow, HandlerAt, OriginsAt, Split;
    SameEndings(routes, routes', []);
    FollowSame(routes, routes', [], Split(StripSlash(path)));
  }
}
